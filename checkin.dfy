/**
 * `check_in_account`: the decisions it takes for one account once the
 * results of its I/O are known. The provider lookup, the browser session
 * and the sign-in POST are inputs; the user-info GET, which only prints
 * and never changes the outcome, is not modelled. A browser that fails to
 * start raises an exception that `check_in_account` does not catch.
 */
module CheckIn {
  import opened Wrappers
  import opened PyJson
  import opened Cookies
  import opened Waf

  /** The parts of a provider's configuration the decisions read. */
  datatype Provider = Provider(
    needsWafCookies: bool,
    needsManualCheckIn: bool,
    wafCookieNames: seq<string>)

  /** What the sign-in POST produced: a status and a body that either
      decoded as JSON or did not, or the text of the exception the request
      raised. */
  datatype SignInResponse =
    | Response(status: int, body: Option<Json>)
    | RequestFailed(error: string)

  /** Why an account failed. */
  datatype Failure =
    | ProviderNotFound
    | InvalidCookies
    | WafCookiesUnavailable
    | HttpStatus(status: int)
    | Rejected(reason: Json)
    | RequestError(error: string)
    | UnreadableBody

  /** The account's outcome: `check_in_account` returns true, returns false
      for a reason, or lets an exception escape. */
  datatype Outcome =
    | CheckedIn
    | AutoCheckedIn
    | Failed(failure: Failure)
    | Raised(exception: string)
  {
    /** `check_in_account` returned true. */
    predicate Succeeded() { CheckedIn? || AutoCheckedIn? }
  }

  /** `{**waf_cookies, **user_cookies}`: every cookie of either dict, with
      the user's value where both have the name. */
  function MergeCookies(waf: map<string, string>, user: map<string, string>): (all: map<string, string>)
    ensures all.Keys == waf.Keys + user.Keys
    ensures forall k | k in user :: all[k] == user[k]
    ensures forall k | k in waf && k !in user :: all[k] == waf[k]
  {
    waf + user
  }

  /** The sign-in body's success test: a truthy `success`, `ret == 1` or
      `code == 0`, each with Python's truthiness and equality. */
  predicate SignInAccepted(fields: map<string, Json>)
  {
    || Truthy(Get(fields, "success"))
    || EqualsInt(Get(fields, "ret"), 1)
    || EqualsInt(Get(fields, "code"), 0)
  }

  /** `result.get("msg", result.get("message", "Unknown error"))`. */
  function FailureReason(fields: map<string, Json>): Json
  {
    if "msg" in fields then fields["msg"]
    else if "message" in fields then fields["message"]
    else JString("Unknown error")
  }

  /** How the sign-in response decides the account. A body that is not JSON,
      or is JSON but not an object, makes the body read raise, which the
      handler turns into a failure. */
  function ClassifySignIn(response: SignInResponse): Outcome
  {
    match response
    case RequestFailed(error) => Failed(RequestError(error))
    case Response(status, body) =>
      if status != 200 then Failed(HttpStatus(status))
      else if body.None? || !body.value.JObject? then Failed(UnreadableBody)
      else if SignInAccepted(body.value.fields) then CheckedIn
      else Failed(Rejected(FailureReason(body.value.fields)))
  }

  /** The cookie jar the HTTP client is given, or how the account ends
      before any request: no cookies, or (when the provider needs them) no
      WAF cookies, where an empty WAF dict counts as none
      (`if not waf_cookies`), or the browser's launch error escaping. */
  function RequestCookies(provider: Provider, input: CookieInput, browser: BrowserResult)
    : Result<map<string, string>, Outcome>
  {
    var user := CookiesOf(input);
    if user == map[] then Err(Failed(InvalidCookies))
    else if !provider.needsWafCookies then Ok(user)
    else match WafCookiesOf(browser, provider.wafCookieNames)
      case Escaped(message) => Err(Raised(message))
      case Returned(None) => Err(Failed(WafCookiesUnavailable))
      case Returned(Some(waf)) =>
        if waf == map[] then Err(Failed(WafCookiesUnavailable)) else Ok(MergeCookies(waf, user))
  }

  /** The outcome of `check_in_account` for one account. */
  function CheckInOutcome(provider: Option<Provider>, input: CookieInput,
                          browser: BrowserResult, signIn: SignInResponse): Outcome
  {
    match provider
    case None => Failed(ProviderNotFound)
    case Some(p) =>
      match RequestCookies(p, input, browser)
      case Err(early) => early
      case Ok(_) =>
        if p.needsManualCheckIn then ClassifySignIn(signIn) else AutoCheckedIn
  }

  /** `check_in_account`, step by step. `jar` is the cookie jar given to the
      HTTP client, `None` when the account stops before the client opens. */
  method CheckInAccount(provider: Option<Provider>, input: CookieInput,
                        browser: BrowserResult, signIn: SignInResponse)
    returns (outcome: Outcome, jar: Option<map<string, string>>)
    ensures outcome == CheckInOutcome(provider, input, browser, signIn)
    ensures jar.Some? <==> provider.Some? && RequestCookies(provider.value, input, browser).Ok?
    ensures jar.Some? ==> jar.value == RequestCookies(provider.value, input, browser).value
  {
    jar := None;
    if provider.None? {
      return Failed(ProviderNotFound), jar;
    }
    var p := provider.value;
    var userCookies := ParseCookies(input);
    if userCookies == map[] {
      return Failed(InvalidCookies), jar;
    }
    var allCookies := userCookies;
    if p.needsWafCookies {
      var acquired := AcquireWafCookies(browser, p.wafCookieNames);
      if acquired.Escaped? {
        return Raised(acquired.message), jar;
      }
      var waf := acquired.waf;
      if waf.None? || waf.value == map[] {
        return Failed(WafCookiesUnavailable), jar;
      }
      allCookies := MergeCookies(waf.value, userCookies);
    }
    jar := Some(allCookies);
    if p.needsManualCheckIn {
      outcome := ClassifySignIn(signIn);
    } else {
      outcome := AutoCheckedIn;
    }
  }

  /** A sign-in counts exactly when the POST returned status 200 with a JSON
      object whose `success` is truthy, or whose `ret` equals 1, or whose
      `code` equals 0. */
  lemma SignInSucceededIff(response: SignInResponse)
    ensures ClassifySignIn(response).Succeeded() <==>
              && response.Response? && response.status == 200
              && response.body.Some? && response.body.value.JObject?
              && (|| Truthy(Get(response.body.value.fields, "success"))
                  || EqualsInt(Get(response.body.value.fields, "ret"), 1)
                  || EqualsInt(Get(response.body.value.fields, "code"), 0))
    ensures ClassifySignIn(response) != AutoCheckedIn
    ensures !ClassifySignIn(response).Raised?
  {
  }

  /** Any status other than 200 fails with that status, whatever the body. */
  lemma NonOkStatusFails(status: int, body: Option<Json>)
    requires status != 200
    ensures ClassifySignIn(Response(status, body)) == Failed(HttpStatus(status))
  {
  }

  /** A rejected sign-in reports `msg` when the body has it (even when it is
      `null`), else `message`, else "Unknown error". */
  lemma RejectionReason(fields: map<string, Json>)
    requires !SignInAccepted(fields)
    ensures var outcome := ClassifySignIn(Response(200, Some(JObject(fields))));
            && outcome.Failed? && outcome.failure.Rejected?
            && ("msg" in fields ==> outcome.failure.reason == fields["msg"])
            && ("msg" !in fields && "message" in fields ==> outcome.failure.reason == fields["message"])
            && ("msg" !in fields && "message" !in fields ==>
                  outcome.failure.reason == JString("Unknown error"))
  {
  }

  /** The worked responses: `{"success": true}`, `{"ret": 1}` and
      `{"code": 0}` succeed; `{"success": false, "msg": "limit"}` fails with
      reason "limit"; a status of 500 fails. */
  lemma SignInExamples()
    ensures ClassifySignIn(Response(200, Some(JObject(map["success" := JBool(true)])))) == CheckedIn
    ensures ClassifySignIn(Response(200, Some(JObject(map["ret" := JInt(1)])))) == CheckedIn
    ensures ClassifySignIn(Response(200, Some(JObject(map["code" := JInt(0)])))) == CheckedIn
    ensures ClassifySignIn(Response(200, Some(JObject(map["success" := JBool(false), "msg" := JString("limit")]))))
            == Failed(Rejected(JString("limit")))
    ensures ClassifySignIn(Response(500, Some(JObject(map["success" := JBool(true)]))))
            == Failed(HttpStatus(500))
  {
  }

  /** Python's equality and truthiness let through values a stricter reading
      would not: `ret: true` (True == 1), `code: false` (False == 0),
      `ret: 1.0`, and the string `"false"` as `success`. */
  lemma SignInLooseValues()
    ensures ClassifySignIn(Response(200, Some(JObject(map["ret" := JBool(true)])))) == CheckedIn
    ensures ClassifySignIn(Response(200, Some(JObject(map["code" := JBool(false)])))) == CheckedIn
    ensures ClassifySignIn(Response(200, Some(JObject(map["ret" := JFloat(1.0)])))) == CheckedIn
    ensures ClassifySignIn(Response(200, Some(JObject(map["success" := JString("false")])))) == CheckedIn
    ensures ClassifySignIn(Response(200, Some(JObject(map["ret" := JString("1")]))))
            == Failed(Rejected(JString("Unknown error")))
  {
  }

  /** When the provider needs no WAF cookies, the browser result plays no
      part: the browser step is never run. */
  lemma WafStepSkipped(p: Provider, input: CookieInput, b1: BrowserResult, b2: BrowserResult,
                       signIn: SignInResponse)
    requires !p.needsWafCookies
    ensures CheckInOutcome(Some(p), input, b1, signIn) == CheckInOutcome(Some(p), input, b2, signIn)
    ensures RequestCookies(p, input, b1) == RequestCookies(p, input, b2)
  {
  }

  /** When the provider needs no manual check-in, the sign-in response plays
      no part (no POST is made), and the account succeeds exactly when the
      HTTP client gets its cookies. */
  lemma ManualStepSkipped(p: Provider, input: CookieInput, browser: BrowserResult,
                          s1: SignInResponse, s2: SignInResponse)
    requires !p.needsManualCheckIn
    ensures CheckInOutcome(Some(p), input, browser, s1) == CheckInOutcome(Some(p), input, browser, s2)
    ensures CheckInOutcome(Some(p), input, browser, s1).Succeeded() <==>
              RequestCookies(p, input, browser).Ok?
    ensures CheckInOutcome(Some(p), input, browser, s1).Succeeded() ==>
              CheckInOutcome(Some(p), input, browser, s1) == AutoCheckedIn
  {
  }

  /** A required WAF cookie the browser did not offer fails the account
      before any HTTP request, whatever the sign-in would have answered. */
  lemma MissingWafCookieFails(p: Provider, input: CookieInput, cookies: seq<BrowserCookie>,
                              name: string, signIn: SignInResponse)
    requires p.needsWafCookies && name in p.wafCookieNames && !Offers(cookies, name)
    requires CookiesOf(input) != map[]
    ensures RequestCookies(p, input, ContextCookies(cookies)) == Err(Failed(WafCookiesUnavailable))
    ensures CheckInOutcome(Some(p), input, ContextCookies(cookies), signIn)
            == Failed(WafCookiesUnavailable)
  {
    AcquiredIff(ContextCookies(cookies), p.wafCookieNames);
  }

  /** The jar the HTTP client gets holds every user cookie with the user's
      value, plus, when WAF cookies are needed, exactly the required names,
      each with the browser's value unless the user set it too. */
  lemma {:induction false} RequestCookiesContents(p: Provider, input: CookieInput, browser: BrowserResult)
    requires RequestCookies(p, input, browser).Ok?
    ensures var jar := RequestCookies(p, input, browser).value;
            var user := CookiesOf(input);
            && user != map[]
            && (forall k | k in user :: k in jar && jar[k] == user[k])
            && (!p.needsWafCookies ==> jar == user)
            && (p.needsWafCookies ==>
                  && jar.Keys == user.Keys + (set n | n in p.wafCookieNames)
                  && forall k | k in jar && k !in user ::
                       k in WafCookiesOf(browser, p.wafCookieNames).waf.value
                       && jar[k] == WafCookiesOf(browser, p.wafCookieNames).waf.value[k])
  {
    if p.needsWafCookies {
      AcquiredIff(browser, p.wafCookieNames);
    }
  }

  /** An account succeeds exactly when its provider is known, its cookies
      parse to a non-empty dict, the WAF step (if needed) found every one of
      a non-empty list of required names, and the sign-in (if needed) was
      accepted. */
  lemma {:induction false} CheckInSucceededIff(provider: Option<Provider>, input: CookieInput,
                                               browser: BrowserResult, signIn: SignInResponse)
    ensures CheckInOutcome(provider, input, browser, signIn).Succeeded() <==>
              && provider.Some?
              && CookiesOf(input) != map[]
              && (provider.value.needsWafCookies ==>
                    && browser.ContextCookies?
                    && provider.value.wafCookieNames != []
                    && forall n | n in provider.value.wafCookieNames :: Offers(browser.cookies, n))
              && (provider.value.needsManualCheckIn ==> ClassifySignIn(signIn).Succeeded())
  {
    if provider.Some? && provider.value.needsWafCookies {
      var names := provider.value.wafCookieNames;
      AcquiredIff(browser, names);
      var waf := WafCookiesOf(browser, names);
      if Got(waf) && names != [] {
        assert names[0] in waf.waf.value;
      }
    }
  }

  /** An exception escapes `check_in_account` exactly when the account gets
      as far as the browser step and the browser fails to start; it is the
      launch error itself. */
  lemma RaisesIff(provider: Option<Provider>, input: CookieInput,
                  browser: BrowserResult, signIn: SignInResponse)
    ensures CheckInOutcome(provider, input, browser, signIn).Raised? <==>
              && provider.Some? && CookiesOf(input) != map[]
              && provider.value.needsWafCookies && browser.LaunchFailed?
    ensures CheckInOutcome(provider, input, browser, signIn).Raised? ==>
              CheckInOutcome(provider, input, browser, signIn) == Raised(browser.message)
  {
    if provider.Some? && provider.value.needsWafCookies {
      AcquiredIff(browser, provider.value.wafCookieNames);
    }
  }
}
