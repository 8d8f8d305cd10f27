/**
 * `main`: runs every configured account in order, counts the successes and
 * chooses the exit code. An exception escaping an account ends the process
 * with Python's exit status 1 for an uncaught exception, before the tally
 * and before the remaining accounts. Loading the configuration, the console
 * lines and the interrupt handler are not modelled.
 */
module Orchestrator {
  import opened Wrappers
  import opened Cookies
  import opened Waf
  import opened CheckIn

  /** One configured account together with the results its I/O produced. */
  datatype AccountRun = AccountRun(
    provider: Option<Provider>,
    cookies: CookieInput,
    browser: BrowserResult,
    signIn: SignInResponse)

  function OutcomeOf(run: AccountRun): Outcome
  {
    CheckInOutcome(run.provider, run.cookies, run.browser, run.signIn)
  }

  /** The value `check_in_account` returned for each account, in order. */
  function Results(runs: seq<AccountRun>): (results: seq<bool>)
    ensures |results| == |runs|
    ensures forall i | 0 <= i < |runs| :: results[i] == OutcomeOf(runs[i]).Succeeded()
  {
    seq(|runs|, i requires 0 <= i < |runs| => OutcomeOf(runs[i]).Succeeded())
  }

  /** The number of `true` results. */
  function CountTrue(results: seq<bool>): (n: nat)
    ensures n <= |results|
  {
    if results == [] then 0
    else CountTrue(results[..|results| - 1]) + (if results[|results| - 1] then 1 else 0)
  }

  /** Whether an exception escaped each account, in order. */
  function Escapes(runs: seq<AccountRun>): (escapes: seq<bool>)
    ensures |escapes| == |runs|
    ensures forall i | 0 <= i < |runs| :: escapes[i] == OutcomeOf(runs[i]).Raised?
  {
    seq(|runs|, i requires 0 <= i < |runs| => OutcomeOf(runs[i]).Raised?)
  }

  /** The position of the first `true`, or the length when there is none. */
  function FirstTrue(flags: seq<bool>): (k: nat)
    ensures k <= |flags|
    ensures forall j | 0 <= j < k :: !flags[j]
    ensures k < |flags| ==> flags[k]
  {
    if flags == [] then 0
    else if flags[0] then 0
    else 1 + FirstTrue(flags[1..])
  }

  /** What `main` ends with: no accounts configured (it exits before
      running any), the tally it prints as `successes/total succeeded`, or
      the exception that escaped an account and ended the process. */
  datatype Report =
    | NoAccounts
    | Finished(successes: nat, total: nat)
    | Crashed(exception: string)

  function ReportOf(runs: seq<AccountRun>): Report
  {
    if runs == [] then NoAccounts
    else
      var k := FirstTrue(Escapes(runs));
      if k < |runs| then Crashed(OutcomeOf(runs[k]).exception)
      else Finished(CountTrue(Results(runs)), |runs|)
  }

  /** `sys.exit(1)` for no accounts, then `0 if success > 0 else 1`; an
      uncaught exception gives exit status 1. */
  function ExitCode(report: Report): int
  {
    match report
    case NoAccounts => 1
    case Finished(successes, _) => if successes > 0 then 0 else 1
    case Crashed(_) => 1
  }

  /** The account loop of `main`, incrementing `success` per account that
      returns true. */
  method RunAccounts(runs: seq<AccountRun>) returns (report: Report)
    ensures report == ReportOf(runs)
  {
    if runs == [] {
      return NoAccounts;
    }
    ghost var results := Results(runs);
    ghost var escapes := Escapes(runs);
    var success := 0;
    for i := 0 to |runs|
      invariant success == CountTrue(results[..i])
      invariant forall j | 0 <= j < i :: !escapes[j]
    {
      var run := runs[i];
      var outcome, _ := CheckInAccount(run.provider, run.cookies, run.browser, run.signIn);
      if outcome.Raised? {
        assert FirstTrue(escapes) == i;
        return Crashed(outcome.exception);
      }
      if outcome.Succeeded() {
        success := success + 1;
      }
      assert results[..i + 1][..i] == results[..i];
    }
    assert results[..|runs|] == results;
    assert FirstTrue(escapes) == |runs|;
    report := Finished(success, |runs|);
  }

  /** The positions holding `true`. */
  function TrueIndices(results: seq<bool>): set<int>
  {
    set i | 0 <= i < |results| && results[i]
  }

  /** The count is the number of positions holding `true`: the number of
      accounts whose check-in succeeded. */
  lemma {:induction false} CountIsTrueIndices(results: seq<bool>)
    ensures CountTrue(results) == |TrueIndices(results)|
  {
    if results != [] {
      var n := |results| - 1;
      var init := results[..n];
      CountIsTrueIndices(init);
      var before := TrueIndices(init);
      assert forall i | 0 <= i < n :: results[i] == init[i];
      if results[n] {
        assert TrueIndices(results) == before + {n};
        assert n !in before;
      } else {
        assert TrueIndices(results) == before;
      }
    }
  }

  /** The count is positive exactly when some result is `true`. */
  lemma {:induction false} CountPositiveIff(results: seq<bool>)
    ensures CountTrue(results) > 0 <==> exists i :: 0 <= i < |results| && results[i]
  {
    CountIsTrueIndices(results);
    if i :| 0 <= i < |results| && results[i] {
      assert i in TrueIndices(results);
    } else {
      assert TrueIndices(results) == {};
    }
  }

  /** The count equals the number of results exactly when all are `true`. */
  lemma {:induction false} CountAllIff(results: seq<bool>)
    ensures CountTrue(results) == |results| <==> forall i | 0 <= i < |results| :: results[i]
  {
    if results != [] {
      var n := |results| - 1;
      var init := results[..n];
      CountAllIff(init);
      assert forall i | 0 <= i < n :: results[i] == init[i];
    }
  }

  /** The run crashes exactly when an exception escapes some account, and
      it ends with the first such exception: every account before that one
      returned. */
  lemma CrashedIff(runs: seq<AccountRun>)
    ensures ReportOf(runs).Crashed? <==> exists i :: 0 <= i < |runs| && OutcomeOf(runs[i]).Raised?
    ensures ReportOf(runs).Crashed? ==>
              exists k :: && 0 <= k < |runs|
                          && OutcomeOf(runs[k]) == Raised(ReportOf(runs).exception)
                          && forall j | 0 <= j < k :: !OutcomeOf(runs[j]).Raised?
  {
    var escapes := Escapes(runs);
    var k := FirstTrue(escapes);
    if i :| 0 <= i < |runs| && OutcomeOf(runs[i]).Raised? {
      assert escapes[i];
    }
    if k < |runs| {
      assert escapes[k];
      assert forall j | 0 <= j < k :: !escapes[j];
    }
  }

  /** The process exits with 0 exactly when no exception escaped an account
      and at least one account succeeded; in particular no accounts means
      exit code 1. */
  lemma ExitCodeZeroIff(runs: seq<AccountRun>)
    ensures ExitCode(ReportOf(runs)) == 0 <==>
              && (forall i | 0 <= i < |runs| :: !OutcomeOf(runs[i]).Raised?)
              && exists i :: 0 <= i < |runs| && OutcomeOf(runs[i]).Succeeded()
    ensures ExitCode(ReportOf(runs)) in {0, 1}
  {
    CrashedIff(runs);
    var results := Results(runs);
    CountPositiveIff(results);
    if i :| 0 <= i < |runs| && OutcomeOf(runs[i]).Succeeded() {
      assert results[i];
    }
  }

  /** The tally is printed exactly when there are accounts and none raised;
      it then counts every account that succeeded and no other, and is
      `|runs|` exactly when all succeeded. */
  lemma TallyCountsSuccesses(runs: seq<AccountRun>)
    ensures ReportOf(runs).Finished? <==>
              runs != [] && forall i | 0 <= i < |runs| :: !OutcomeOf(runs[i]).Raised?
    ensures ReportOf(runs).Finished? ==>
              && ReportOf(runs).total == |runs|
              && ReportOf(runs).successes == |set i | 0 <= i < |runs| && OutcomeOf(runs[i]).Succeeded()|
              && (ReportOf(runs).successes == |runs| <==>
                    forall i | 0 <= i < |runs| :: OutcomeOf(runs[i]).Succeeded())
  {
    CrashedIff(runs);
    var results := Results(runs);
    CountIsTrueIndices(results);
    CountAllIff(results);
    assert TrueIndices(results) == set i | 0 <= i < |runs| && OutcomeOf(runs[i]).Succeeded();
  }

  /** Two accounts, one succeeding and one returning false: the tally is 1/2
      and the exit code is 0. */
  lemma OneOfTwo(good: AccountRun, bad: AccountRun)
    requires OutcomeOf(good).Succeeded() && OutcomeOf(bad).Failed?
    ensures ReportOf([good, bad]) == Finished(1, 2)
    ensures ExitCode(ReportOf([good, bad])) == 0
  {
    var escapes := Escapes([good, bad]);
    assert escapes == [false, false];
    assert FirstTrue(escapes) == 2 by {
      assert escapes[1..] == [false];
      assert escapes[1..][1..] == [];
    }
    var results := Results([good, bad]);
    assert results == [true, false];
    assert results[..1] == [true];
    assert [true][..0] == [];
    assert CountTrue([true]) == 1;
    assert CountTrue(results) == 1;
  }

  /** An account as it would run if a failed browser start were caught like
      every other browser error. */
  function CaughtRun(run: AccountRun): (caught: AccountRun)
    ensures caught.browser == CatchLaunch(run.browser)
    ensures caught.(browser := run.browser) == run
  {
    run.(browser := CatchLaunch(run.browser))
  }

  function Intended(runs: seq<AccountRun>): (caught: seq<AccountRun>)
    ensures |caught| == |runs|
    ensures forall i | 0 <= i < |runs| :: caught[i] == CaughtRun(runs[i])
  {
    seq(|runs|, i requires 0 <= i < |runs| => CaughtRun(runs[i]))
  }

  /** With launch errors caught, no exception escapes an account: an account
      whose browser failed to start returns false for want of WAF cookies,
      and every other account ends as before. */
  lemma CaughtRunOutcome(run: AccountRun)
    ensures !OutcomeOf(CaughtRun(run)).Raised?
    ensures OutcomeOf(run).Raised? ==> OutcomeOf(CaughtRun(run)) == Failed(WafCookiesUnavailable)
    ensures !OutcomeOf(run).Raised? ==> OutcomeOf(CaughtRun(run)) == OutcomeOf(run)
  {
    var caught := CaughtRun(run);
    RaisesIff(run.provider, run.cookies, run.browser, run.signIn);
    RaisesIff(caught.provider, caught.cookies, caught.browser, caught.signIn);
    if run.provider.Some? && run.provider.value.needsWafCookies {
      CaughtNeverEscapes(run.browser, run.provider.value.wafCookieNames);
    }
  }

  /** The intended run never crashes: it prints the tally whenever there
      are accounts, and exits with 0 exactly when some account succeeded. */
  lemma IntendedNeverCrashes(runs: seq<AccountRun>)
    ensures !ReportOf(Intended(runs)).Crashed?
    ensures runs != [] ==> ReportOf(Intended(runs)).Finished? && ReportOf(Intended(runs)).total == |runs|
    ensures ExitCode(ReportOf(Intended(runs))) == 0 <==>
              exists i :: 0 <= i < |runs| && OutcomeOf(Intended(runs)[i]).Succeeded()
  {
    var caught := Intended(runs);
    forall i | 0 <= i < |runs| ensures !OutcomeOf(caught[i]).Raised? {
      CaughtRunOutcome(runs[i]);
    }
    CrashedIff(caught);
    ExitCodeZeroIff(caught);
  }

  /** After an account that succeeded, an account whose browser fails to
      start ends the run as written with the launch error and exit status 1,
      printing no tally; caught as intended, it returns false and the run
      ends 1/2 with exit code 0. */
  lemma LaunchFailureAborts(good: AccountRun, bad: AccountRun)
    requires OutcomeOf(good).Succeeded()
    requires bad.provider.Some? && bad.provider.value.needsWafCookies
    requires CookiesOf(bad.cookies) != map[] && bad.browser.LaunchFailed?
    ensures ReportOf([good, bad]) == Crashed(bad.browser.message)
    ensures ExitCode(ReportOf([good, bad])) == 1
    ensures ReportOf(Intended([good, bad])) == Finished(1, 2)
    ensures ExitCode(ReportOf(Intended([good, bad]))) == 0
  {
    RaisesIff(bad.provider, bad.cookies, bad.browser, bad.signIn);
    var escapes := Escapes([good, bad]);
    assert escapes == [false, true];
    assert FirstTrue(escapes) == 1 by {
      assert escapes[1..] == [true];
    }
    CaughtRunOutcome(good);
    CaughtRunOutcome(bad);
    assert Intended([good, bad]) == [CaughtRun(good), CaughtRun(bad)];
    OneOfTwo(CaughtRun(good), CaughtRun(bad));
  }
}
