/**
 * The decision part of `get_waf_cookies_with_playwright`: from the cookies
 * the browser context holds after loading the login page, keep those whose
 * names the provider requires, list the required names still missing, and
 * succeed only when none is. Launching the browser and loading the page
 * are not modelled; their result is an input. Only errors raised once the
 * page exists are handled by the function; an error while starting the
 * browser escapes it.
 */
module Waf {
  import opened Wrappers
  import opened DictBuild

  /** One cookie as the browser context reports it. */
  datatype BrowserCookie = BrowserCookie(name: string, value: string)

  /** What the browser session produced: the text of an exception raised
      while starting the browser and opening a page, before the `try`; the
      context's cookies; or the text of an exception raised inside the `try`
      (navigation, the wait, reading the cookies). */
  datatype BrowserResult =
    | LaunchFailed(message: string)
    | ContextCookies(cookies: seq<BrowserCookie>)
    | BrowserError(message: string)

  /** How the acquisition ends: it returns `None` or the WAF cookies, or an
      exception escapes it. */
  datatype Acquisition =
    | Returned(waf: Option<map<string, string>>)
    | Escaped(message: string)

  /** The assignment the filter loop makes for each browser cookie. */
  function Selection(cookies: seq<BrowserCookie>, required: seq<string>): (steps: seq<Assignment>)
    ensures |steps| == |cookies|
    ensures forall i | 0 <= i < |cookies| ::
              steps[i] == if cookies[i].name in required
                          then Some((cookies[i].name, cookies[i].value)) else None
  {
    seq(|cookies|, i requires 0 <= i < |cookies| =>
      if cookies[i].name in required then Some((cookies[i].name, cookies[i].value)) else None)
  }

  /** The dict the filter loop builds. */
  function Filtered(cookies: seq<BrowserCookie>, required: seq<string>): map<string, string>
  {
    Assign(Selection(cookies, required))
  }

  /** The loop that copies each browser cookie with a required name into
      `waf_cookies`. */
  method FilterWafCookies(cookies: seq<BrowserCookie>, required: seq<string>)
    returns (waf: map<string, string>)
    ensures waf == Filtered(cookies, required)
  {
    waf := map[];
    ghost var steps := Selection(cookies, required);
    for i := 0 to |cookies|
      invariant waf == Assign(steps[..i])
    {
      var cookie := cookies[i];
      if cookie.name in required {
        waf := waf[cookie.name := cookie.value];
      }
      assert steps[..i + 1] == steps[..i] + [steps[i]];
      AssignSnoc(steps[..i], steps[i]);
    }
    assert steps[..|cookies|] == steps;
  }

  /** `[c for c in required if c not in waf]`: the required names, in order
      and with repetitions, that the filtered dict lacks. */
  function Missing(required: seq<string>, waf: map<string, string>): (missing: seq<string>)
    ensures forall n :: n in missing <==> n in required && n !in waf
    ensures |missing| <= |required|
  {
    if required == [] then []
    else
      var rest := Missing(required[1..], waf);
      assert forall n :: n in required <==> n == required[0] || n in required[1..];
      if required[0] !in waf then [required[0]] + rest else rest
  }

  /** How the acquisition ends: a launch error escapes; it returns `None`
      after an error inside the `try` or when a required name is missing,
      and otherwise the filtered dict. */
  function WafCookiesOf(result: BrowserResult, required: seq<string>): Acquisition
  {
    match result
    case LaunchFailed(message) => Escaped(message)
    case BrowserError(_) => Returned(None)
    case ContextCookies(cookies) =>
      var waf := Filtered(cookies, required);
      if Missing(required, waf) != [] then Returned(None) else Returned(Some(waf))
  }

  /** The acquisition after the page has loaded: filter, then check for
      missing names. */
  method AcquireWafCookies(result: BrowserResult, required: seq<string>)
    returns (acquired: Acquisition)
    ensures acquired == WafCookiesOf(result, required)
  {
    match result
    case LaunchFailed(message) =>
      acquired := Escaped(message);
    case BrowserError(_) =>
      acquired := Returned(None);
    case ContextCookies(cookies) =>
      var filtered := FilterWafCookies(cookies, required);
      var missing := Missing(required, filtered);
      if missing != [] {
        acquired := Returned(None);
      } else {
        acquired := Returned(Some(filtered));
      }
  }

  /** The acquisition returned WAF cookies. */
  predicate Got(acquired: Acquisition)
  {
    acquired.Returned? && acquired.waf.Some?
  }

  /** Some browser cookie carries the name `name`. */
  predicate Offers(cookies: seq<BrowserCookie>, name: string)
  {
    exists i :: 0 <= i < |cookies| && cookies[i].name == name
  }

  /** The filtered dict holds exactly the required names the browser
      offered. */
  lemma {:induction false} FilteredNames(cookies: seq<BrowserCookie>, required: seq<string>)
    ensures forall k :: k in Filtered(cookies, required) <==> k in required && Offers(cookies, k)
  {
    var steps := Selection(cookies, required);
    AssignKeys(steps);
    forall k ensures k in Filtered(cookies, required) <==> k in required && Offers(cookies, k) {
      if k in Filtered(cookies, required) {
        var i :| Writes(steps, i, k);
        assert cookies[i].name == k;
      } else if k in required && Offers(cookies, k) {
        var i :| 0 <= i < |cookies| && cookies[i].name == k;
        assert Writes(steps, i, k);
        assert false;
      }
    }
  }

  /** For a name the browser offered several times, the last cookie wins. */
  lemma {:induction false} FilteredLastWins(cookies: seq<BrowserCookie>, required: seq<string>, i: int)
    requires 0 <= i < |cookies| && cookies[i].name in required
    requires forall j | i < j < |cookies| :: cookies[j].name != cookies[i].name
    ensures cookies[i].name in Filtered(cookies, required)
    ensures Filtered(cookies, required)[cookies[i].name] == cookies[i].value
  {
    var steps := Selection(cookies, required);
    forall j | i < j < |cookies| ensures !Writes(steps, j, cookies[i].name) {
    }
    assert IsLastWrite(steps, i);
    AssignLastWins(steps, i);
  }

  /** The acquisition returns the WAF cookies exactly when the browser
      returned cookies and offered every required name; its dict then has
      exactly the required names as keys. An exception escapes it exactly
      when the browser failed to start. */
  lemma {:induction false} AcquiredIff(result: BrowserResult, required: seq<string>)
    ensures WafCookiesOf(result, required).Escaped? <==> result.LaunchFailed?
    ensures result.LaunchFailed? ==> WafCookiesOf(result, required) == Escaped(result.message)
    ensures Got(WafCookiesOf(result, required)) <==>
              result.ContextCookies? && forall n | n in required :: Offers(result.cookies, n)
    ensures Got(WafCookiesOf(result, required)) ==>
              WafCookiesOf(result, required).waf.value.Keys == set n | n in required
  {
    if result.ContextCookies? {
      var cookies := result.cookies;
      var waf := Filtered(cookies, required);
      FilteredNames(cookies, required);
      if Missing(required, waf) != [] {
        var n := Missing(required, waf)[0];
        assert n in Missing(required, waf);
        assert !Offers(cookies, n);
      } else {
        forall n | n in required ensures Offers(cookies, n) {
          assert n !in Missing(required, waf);
        }
      }
    }
  }

  /** The intended handling of a failed browser start, as for every other
      browser error: caught, reported, and turned into a `None` result. */
  function CatchLaunch(result: BrowserResult): (caught: BrowserResult)
    ensures !caught.LaunchFailed?
    ensures !result.LaunchFailed? ==> caught == result
  {
    if result.LaunchFailed? then BrowserError(result.message) else result
  }

  /** With launch errors caught, the acquisition always returns: `None` for a
      failed start, and otherwise what it returned before. */
  lemma CaughtNeverEscapes(result: BrowserResult, required: seq<string>)
    ensures WafCookiesOf(CatchLaunch(result), required).Returned?
    ensures result.LaunchFailed? ==> WafCookiesOf(CatchLaunch(result), required) == Returned(None)
    ensures !result.LaunchFailed? ==>
              WafCookiesOf(CatchLaunch(result), required) == WafCookiesOf(result, required)
  {
  }
}
