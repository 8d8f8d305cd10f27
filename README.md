# AnyRouter check-in: a Dafny model

This project models the decision logic of `checkin.py`, the daily check-in
script for AnyRouter-style providers. For each configured account the script:

- parses the account's cookies, given either as a dict or as a
  `name=value; name=value` string (`parse_cookies`);
- when the provider needs them, obtains WAF cookies from a browser session.
  It keeps the browser's cookies whose names the provider requires and gives
  up when a required name is missing;
- merges the WAF cookies with the user's cookies. The user's value wins
  where both have a name;
- when the provider needs it, posts a sign-in request and classifies the
  response as success or failure;
- finally, `main` counts the accounts that succeeded and exits with 0 when
  at least one did, else 1.

A browser that fails to start raises an exception (checkin.py:39-55) that
nothing catches. That exception ends the whole run with exit status 1,
before the tally and before the remaining accounts. The model keeps this
behaviour, and "## Findings" sets it beside the intended behaviour, where
the failure is caught.

Every loop in the source is a method with loop invariants, proved against a
specification function:

- the segment loop of `parse_cookies`;
- the WAF filter loop;
- the account loop of `main`.

Lemmas then state what the source promises about those functions.
The browser session, the provider lookup and the sign-in request are
performed by code outside this model. Their results are inputs:

- a `BrowserResult`: a launch error, the context's cookies, or an error
  raised once the page exists;
- an `Option<Provider>`;
- a `SignInResponse` with a status and a decoded body, or an error.

Files:

- `wrappers.dfy`: `Option` and `Result`.
- `pystr.dfy`: the Python `str` operations the parser uses. These are
  `split(';')`, `split('=', 1)` and `strip()`, where `strip()` removes the
  full `str.isspace()` set.
- `pyjson.dfy`: decoded JSON values, Python truthiness, and Python `== n`,
  under which `True == 1` and `1.0 == 1`.
- `dictbuild.dfy`: a dict filled by `d[k] = v` in a loop, where the last
  write wins.
- `cookies.dfy`: `parse_cookies`, and what parsing a rendered cookie string
  gives back.
- `waf.dfy`: the filter loop and the missing-names check of
  `get_waf_cookies_with_playwright`.
- `checkin.dfy`: the cookie merge, the sign-in classification and
  `check_in_account`.
- `orchestrator.dfy`: `main`'s success tally, the crash on an escaping
  exception, and the exit code.

## Model

| member | source | states |
|---|---|---|
| PyStr.IsSpace | checkin.py:29 | the characters `strip()` removes, those for which `str.isspace()` holds |
| PyStr.Strip | checkin.py:29 | `str.strip()`; its contract is stated by `PyStr.StripSpec` and `PyStr.StripKeeps` |
| PyStr.TrimLeft | checkin.py:29 | the leading half of `strip()`; its contract is stated by `PyStr.TrimLeftSpec` |
| PyStr.TrimRight | checkin.py:29 | the trailing half of `strip()`; its contract is stated by `PyStr.TrimRightSpec` |
| PyStr.TrimLeftSpec | checkin.py:29 | the leading half removes a whitespace prefix and nothing else, and leaves no leading whitespace |
| PyStr.TrimRightSpec | checkin.py:29 | the trailing half removes a whitespace suffix and nothing else, and leaves no trailing whitespace |
| PyStr.StripSpec | checkin.py:29 | `strip()` keeps one contiguous piece of the segment that neither starts nor ends with whitespace, and all it removes on either side is whitespace |
| PyStr.StripKeeps | checkin.py:28-29 | a non-whitespace character of the segment (the `=` the guard found) survives `strip()`, so the two-way `split('=', 1)` unpacking cannot fail |
| PyStr.StripSpacePrefix | checkin.py:29 | stripping a segment that is leading whitespace followed by text with no whitespace at either end gives that text |
| PyStr.IndexOf | checkin.py:29 | the index found holds the character, and no earlier position does |
| PyStr.SplitOnce | checkin.py:29 | `split('=', 1)` gives a name without `=` and a rest such that name, `=` and rest rebuild the string |
| PyStr.Split | checkin.py:27 | `split(';')` always yields at least one piece, even for the empty string |
| PyStr.SplitPiecesLackSep | checkin.py:27 | no piece of `split(';')` contains `;` |
| PyStr.SplitPiecesLack | checkin.py:27-28 | a character absent from the string is absent from every piece |
| PyStr.JoinSplit | checkin.py:27 | joining the pieces with the separator gives back the original string |
| PyStr.SplitJoin | checkin.py:27 | splitting a join of separator-free pieces gives back the pieces |
| PyStr.SplitConcat | checkin.py:27 | a separator inside the string splits the pieces into those before it and those after it |
| PyStr.IndexOfConcat | checkin.py:29 | the first occurrence in a concatenation is in the first part when it can be, else in the second, shifted by the length of the first |
| PyJson.Truthy | checkin.py:140 | Python truthiness of a decoded JSON value, as `result.get('success')` is tested; its use is stated by `CheckIn.SignInSucceededIff` and `CheckIn.SignInLooseValues` |
| PyJson.EqualsInt | checkin.py:140 | Python `== 1` and `== 0` on a decoded JSON value, booleans and floats included; its use is stated by `CheckIn.SignInLooseValues` |
| PyJson.Get | checkin.py:140 | `dict.get` on a JSON object, a missing key reading as `None` |
| DictBuild.Assign | checkin.py:26-31 | the dict a loop of `d[k] = v` builds; its contract is stated by `DictBuild.AssignKeys` and `DictBuild.AssignLastWins` |
| DictBuild.AssignKeys | checkin.py:26-31 | the keys of a dict built by a loop of `d[k] = v` are exactly the keys some iteration writes |
| DictBuild.AssignLastWins | checkin.py:26-31 | each key holds the value of the last iteration that writes it |
| DictBuild.AssignSnoc | checkin.py:30 | one more iteration updates the dict by its own write and nothing else |
| Cookies.CookiesOfString | checkin.py:25-31 | the dict a cookie string parses to; its contract is stated by `Cookies.ParsedNames`, `Cookies.ParsedLastWins` and `Cookies.RenderRoundTrip` |
| Cookies.CookiesOf | checkin.py:20-32 | the dict `parse_cookies` returns for each kind of input; its contract is stated by `Cookies.ParseCookies` |
| Cookies.SegmentEntry | checkin.py:28-30 | a segment writes nothing exactly when it has no `=`; otherwise the name it writes has no `=`, and name, `=` and value make up the stripped segment |
| Cookies.SegmentEntries | checkin.py:27-30 | one assignment per `;`-separated segment, in order |
| Cookies.ParseCookieString | checkin.py:25-31 | the segment loop returns the dict of the segments' assignments, last write winning |
| Cookies.ParseCookies | checkin.py:20-32 | a dict is returned unchanged, a string is parsed, and any other value gives `{}` |
| Cookies.SetNameParsed | checkin.py:26-31 | a name that some segment sets is in the parsed dict |
| Cookies.ParsedNameSet | checkin.py:26-31 | every name in the parsed dict is set by some segment |
| Cookies.ParsedNames | checkin.py:26-31 | a name is in the parsed dict if and only if some segment sets it |
| Cookies.ParsedLastWins | checkin.py:26-31 | when several segments set a name, the last one's value is kept |
| Cookies.NoEqualsParsesEmpty | checkin.py:27-28 | a string without any `=` parses to `{}`, so the account fails as "Invalid cookies" |
| Cookies.SegmentWithoutEqualsIgnored | checkin.py:27-28 | appending a segment without `=` leaves the parsed dict unchanged |
| Cookies.SegmentEntryOf | checkin.py:28-30 | a segment of whitespace then `name=value` sets exactly that name to that value |
| Cookies.AppendOverrides | checkin.py:26-31 | appending `;`, whitespace and `name=value` to a cookie string updates the dict at that name and nowhere else |
| Cookies.SinglePair | checkin.py:25-31 | `name=value` alone parses to the one-entry dict |
| Cookies.AppendPair | checkin.py:26-31 | appending `; name=value` overrides or adds that name |
| Cookies.TwoPairs | checkin.py:25-31 | `n1=v1; n2=v2` parses to the dict of both pairs, the second winning for equal names |
| Cookies.TwoPairExample | checkin.py:25-31 | `"a=1; b=2"` parses to `{"a": "1", "b": "2"}` |
| Cookies.RenderedSteps | checkin.py:25-31 | parsing a `; `-joined rendering of well-formed pairs makes the same assignments as the pairs |
| Cookies.RenderRoundTrip | checkin.py:25-31 | parsing a rendering of well-formed pairs has exactly their names as keys, and the last pair for each name gives its value |
| Waf.Selection | checkin.py:63-65 | each browser cookie with a required name is copied by name, and every other cookie is skipped |
| Waf.FilterWafCookies | checkin.py:61-65 | the filter loop returns the dict of the selected cookies, last write winning |
| Waf.FilteredNames | checkin.py:62-65 | the filtered dict holds exactly the required names the browser offered |
| Waf.FilteredLastWins | checkin.py:63-65 | for a name the browser offered several times, the last cookie's value is kept |
| Waf.Missing | checkin.py:67 | a name is missing if and only if it is required and absent from the filtered dict; the list is no longer than the required list |
| Waf.AcquireWafCookies | checkin.py:39-77 | the acquisition lets a launch error (lines 39-55, outside the `try`) escape; it returns `None` after an error inside the `try` or a missing name, and otherwise the filtered dict |
| Waf.AcquiredIff | checkin.py:39-77 | an exception escapes the acquisition if and only if the browser failed to start, and it is the launch error; the acquisition returns cookies if and only if the browser returned cookies offering every required name, and the dict's keys are then exactly the required names |
| Waf.WafCookiesOf | checkin.py:39-77 | how the acquisition ends for each browser result; its contract is stated by `Waf.AcquiredIff` |
| Waf.Filtered | checkin.py:62-65 | the dict the filter loop builds; its contract is stated by `Waf.FilteredNames` and `Waf.FilteredLastWins` |
| Waf.CatchLaunch | checkin.py:39-77 | the intended handling of a failed start, as a browser error: no launch failure remains, and any other result is unchanged |
| Waf.CaughtNeverEscapes | checkin.py:39-77 | with launch errors caught, the acquisition always returns: `None` for a failed start, and otherwise what it returned before |
| CheckIn.MergeCookies | checkin.py:103 | `{**waf, **user}` has the keys of both, the user's value where the user set the name, and the WAF value elsewhere |
| CheckIn.CheckInAccount | checkin.py:82-152 | `check_in_account`, step by step, ends with the specified outcome, a launch error escaping it. It hands the HTTP client exactly the cookie jar `RequestCookies` describes, or none when it stops earlier |
| CheckIn.CheckInOutcome | checkin.py:82-152 | how one account ends; its contract is stated by `CheckIn.CheckInSucceededIff` and `CheckIn.RaisesIff` |
| CheckIn.RequestCookies | checkin.py:92-105 | the jar the HTTP client gets, or how the account ends before it; its contract is stated by `CheckIn.RequestCookiesContents` and `CheckIn.MissingWafCookieFails` |
| CheckIn.ClassifySignIn | checkin.py:133-149 | how the sign-in response decides the account; its contract is stated by `CheckIn.SignInSucceededIff`, `CheckIn.NonOkStatusFails` and `CheckIn.RejectionReason` |
| CheckIn.SignInAccepted | checkin.py:140 | the success test on the sign-in body; its contract is stated by `CheckIn.SignInSucceededIff` and `CheckIn.SignInLooseValues` |
| CheckIn.FailureReason | checkin.py:143 | the nested `get` for the failure message; its contract is stated by `CheckIn.RejectionReason` |
| CheckIn.RaisesIff | checkin.py:87-102 | an exception escapes `check_in_account` if and only if the provider is known, the cookies parse to a non-empty dict, WAF cookies are needed and the browser failed to start; the exception is the launch error |
| CheckIn.RequestCookiesContents | checkin.py:92-105 | the jar holds every user cookie with the user's value. Without WAF it is the user dict. With WAF its keys are the user's plus exactly the required names, other keys having the browser's value |
| CheckIn.SignInSucceededIff | checkin.py:133-149 | a sign-in counts if and only if the status is 200 and the body is a JSON object with a truthy `success`, or `ret == 1`, or `code == 0`; no exception escapes the sign-in step |
| CheckIn.NonOkStatusFails | checkin.py:138-146 | any status other than 200 fails with that status, whatever the body |
| CheckIn.RejectionReason | checkin.py:143-144 | a rejected sign-in reports `msg` if present, else `message`, else "Unknown error" |
| CheckIn.SignInExamples | checkin.py:138-146 | `{"success": true}`, `{"ret": 1}` and `{"code": 0}` succeed; `{"success": false, "msg": "limit"}` fails with "limit"; status 500 fails |
| CheckIn.SignInLooseValues | checkin.py:140 | under Python equality and truthiness, `ret: true`, `code: false`, `ret: 1.0` and `success: "false"` all succeed, while `ret: "1"` does not |
| CheckIn.WafStepSkipped | checkin.py:98-105 | without the WAF flag the browser result plays no part |
| CheckIn.ManualStepSkipped | checkin.py:133-152 | without the manual flag the sign-in response plays no part, and the account succeeds (as an auto check-in) if and only if the client gets its cookies |
| CheckIn.MissingWafCookieFails | checkin.py:67-102 | a required WAF cookie the browser did not offer fails the account before any request |
| CheckIn.CheckInSucceededIff | checkin.py:82-152 | an account succeeds if and only if all of these hold: its provider is known; its cookies parse to a non-empty dict; when WAF is needed, the browser offered every name of a non-empty required list; when manual check-in is needed, the sign-in was accepted |
| Orchestrator.Results | checkin.py:169-170 | one result per account, in order: whether its check-in succeeded |
| Orchestrator.CountTrue | checkin.py:168-171 | the tally never exceeds the number of accounts |
| Orchestrator.CountIsTrueIndices | checkin.py:168-171 | the tally is the number of positions holding a success |
| Orchestrator.CountPositiveIff | checkin.py:168-174 | the tally is positive if and only if some account succeeded |
| Orchestrator.CountAllIff | checkin.py:168-173 | the tally equals the number of accounts if and only if every account succeeded |
| Orchestrator.Escapes | checkin.py:169-170 | one flag per account, in order: whether an exception escaped it |
| Orchestrator.FirstTrue | checkin.py:169-170 | the first account an exception escapes, or the number of accounts when there is none: every earlier flag is false and the one found is true |
| Orchestrator.ReportOf | checkin.py:162-174 | how `main` ends; its contract is stated by `Orchestrator.CrashedIff`, `Orchestrator.TallyCountsSuccesses` and `Orchestrator.ExitCodeZeroIff` |
| Orchestrator.ExitCode | checkin.py:164-174 | the exit status for each ending, 1 for an uncaught exception; its contract is stated by `Orchestrator.ExitCodeZeroIff` |
| Orchestrator.RunAccounts | checkin.py:162-173 | the account loop stops at once with no accounts. It stops at the first account an exception escapes, with that exception. Otherwise it ends with the tally of successful accounts out of all accounts |
| Orchestrator.CrashedIff | checkin.py:168-174 | the run crashes if and only if an exception escapes some account, and then with the first such exception |
| Orchestrator.ExitCodeZeroIff | checkin.py:162-174 | the exit code is 0 or 1, and it is 0 if and only if no exception escaped an account and some account succeeded; no accounts gives 1 |
| Orchestrator.TallyCountsSuccesses | checkin.py:168-173 | the tally is printed if and only if there are accounts and none raised; it is then the size of the set of successful accounts, and it equals the account count if and only if all succeeded |
| Orchestrator.OneOfTwo | checkin.py:168-174 | one succeeding account and one returning false give the tally 1/2 and exit code 0 |
| Orchestrator.LaunchFailureAborts | checkin.py:39-174 | as written, a success followed by an account whose browser fails to start crashes with exit status 1; with the launch error caught, the same accounts end 1/2 with exit code 0 |
| Orchestrator.CaughtRun | checkin.py:39-77 | an account with its launch error caught: only the browser result changes, and it is no longer a launch failure |
| Orchestrator.Intended | checkin.py:39-77 | every account with its launch error caught, in order |
| Orchestrator.CaughtRunOutcome | checkin.py:75-77 | with the launch error caught, no exception escapes an account; a launch failure becomes a false return for want of WAF cookies, and every other account ends as before |
| Orchestrator.IntendedNeverCrashes | checkin.py:162-174 | with launch errors caught, the run never crashes; it prints the tally whenever there are accounts, and exits with 0 if and only if some account succeeded |

## Findings

| source | as written | input that shows it | evidently intended | confidence | as-written member | corrected member |
|---|---|---|---|---|---|---|
| checkin.py:39-77 | the browser start (temporary directory, `launch_persistent_context`, `new_page`) runs before the `try` at line 57. A launch error escapes `get_waf_cookies_with_playwright`, `check_in_account` (line 100) and `main` (line 170), and only `KeyboardInterrupt` is caught (line 180) | account 1 succeeds; account 2 needs WAF cookies, has cookies, and its browser fails to start: the process dies with exit status 1, prints no tally and skips later accounts | a failed start is caught like a navigation error, the account returns false, and the run goes on: tally 1/2, exit code 0 | high, not executed | Orchestrator.LaunchFailureAborts | Orchestrator.IntendedNeverCrashes |

## Left out

- Browser launch and navigation are not modelled: the persistent context, the user agent and the `networkidle` wait. Their outcome is the `BrowserResult` input. It is either an exception raised while starting the browser (lines 39-55, not caught), the context's cookie list, or an exception raised inside the `try` (lines 58-61, caught at 75-77).
- Other exceptions that could escape outside a `try` are not modelled: building the HTTP client and loading its cookies (lines 108-109), and closing the browser context in the `finally` (line 79). The model assumes they do not raise.
- The HTTP client is not modelled: HTTP/2, the timeout and the request headers, including the `api_user_key` header. The sign-in POST's outcome is the `SignInResponse` input. The model records only which cookie jar the client is given.
- The user-info GET at checkin.py:119-130 is not modelled. It only prints the balance, because it swallows its exceptions, so it never changes an account's outcome. The quota division and rounding are floating point.
- Configuration loading is not modelled: `load_dotenv`, `AppConfig.load_from_env`, `load_accounts_config` and `get_provider`. Provider lookup is given as an `Option<Provider>`. `utils/config.py` is not part of this model. A provider carries only the two flags and the WAF cookie names the decisions read.
- Console output is not modelled, and neither is the exact text of failure messages and exception texts. The timestamp uses a clock. Failures carry a reason value instead of the printed line.
- The `KeyboardInterrupt` handler around `main` is not modelled. It is asynchronous process control.
- `asyncio` scheduling is not modelled, since accounts run one after another.
- Cookies.CookieInput: a dict given as an account's cookies is returned unchanged by `parse_cookies`. The model types such a dict as string-to-string, so non-string values are not represented.
- Waf.BrowserCookie: a browser cookie's `value` is taken as a string. The `None` that `cookie.get('value')` could give is not represented.
- JSON floats are modelled as exact reals, and JSON decoding itself is not modelled: a body is either a decoded `Json` value or unreadable.
- Strings are sequences of code points, and `strip()` removes exactly the characters `str.isspace()` accepts. No other Unicode processing takes place in the source.
- When a provider needs WAF cookies but requires no names, the filtered dict is `{}` and `if not waf_cookies` (checkin.py:101) fails the account. The model keeps this behaviour, and `CheckIn.CheckInSucceededIff` states it through its `wafCookieNames != []` condition.
