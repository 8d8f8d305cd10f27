/**
 * `parse_cookies`: turns the cookies of an account, given either as a dict
 * or as a `name=value; name=value` string, into a dict of cookie names to
 * values. The string form loosely follows the cookie-string of section 4.2.1
 * of RFC 6265 without enforcing its grammar.
 */
module Cookies {
  import opened Wrappers
  import opened PyStr
  import opened DictBuild

  /** What an account's `cookies` setting can hold: a dict, a string, or a
      value of any other type. */
  datatype CookieInput =
    | DictInput(dict: map<string, string>)
    | StrInput(text: string)
    | OtherInput

  /** The assignment one `;`-separated segment makes: none without an `=`;
      otherwise the stripped segment cut at its first `=` into a name and a
      value that keeps any later `=`. */
  function SegmentEntry(segment: string): (e: Assignment)
    ensures e.None? <==> '=' !in segment
    ensures e.Some? ==> e.value.0 + "=" + e.value.1 == Strip(segment) && '=' !in e.value.0
  {
    if '=' in segment then
      StripKeeps(segment, '=');
      Some(SplitOnce(Strip(segment), '='))
    else None
  }

  function SegmentEntries(segments: seq<string>): (steps: seq<Assignment>)
    ensures |steps| == |segments|
    ensures forall i | 0 <= i < |segments| :: steps[i] == SegmentEntry(segments[i])
  {
    seq(|segments|, i requires 0 <= i < |segments| => SegmentEntry(segments[i]))
  }

  /** The dict a cookie string parses to. */
  function CookiesOfString(text: string): map<string, string>
  {
    Assign(SegmentEntries(Split(text, ';')))
  }

  /** The dict `parse_cookies` returns for each kind of input. */
  function CookiesOf(input: CookieInput): map<string, string>
  {
    match input
    case DictInput(dict) => dict
    case StrInput(text) => CookiesOfString(text)
    case OtherInput => map[]
  }

  /** The loop over the `;`-separated segments of a cookie string, filling
      the dict one segment at a time. */
  method ParseCookieString(text: string) returns (cookies: map<string, string>)
    ensures cookies == CookiesOfString(text)
  {
    cookies := map[];
    var segments := Split(text, ';');
    ghost var steps := SegmentEntries(segments);
    for i := 0 to |segments|
      invariant cookies == Assign(steps[..i])
    {
      var segment := segments[i];
      if '=' in segment {
        var (key, value) := SplitOnce(Strip(segment), '=');
        cookies := cookies[key := value];
      }
      assert steps[..i + 1] == steps[..i] + [steps[i]];
      AssignSnoc(steps[..i], steps[i]);
    }
    assert steps[..|segments|] == steps;
  }

  /** `parse_cookies`: a dict is returned as it is, a string is parsed, and
      anything else gives the empty dict. */
  method ParseCookies(input: CookieInput) returns (cookies: map<string, string>)
    ensures cookies == CookiesOf(input)
    ensures input.DictInput? ==> cookies == input.dict
    ensures input.OtherInput? ==> cookies == map[]
  {
    match input
    case DictInput(dict) =>
      cookies := dict;
    case StrInput(text) =>
      cookies := ParseCookieString(text);
    case OtherInput =>
      cookies := map[];
  }

  /** Segment `segment` sets cookie `name`. */
  predicate SetsName(segment: string, name: string)
  {
    SegmentEntry(segment).Some? && SegmentEntry(segment).value.0 == name
  }

  lemma WritesIsSetsName(segments: seq<string>, i: int, k: string)
    requires 0 <= i < |segments|
    ensures Writes(SegmentEntries(segments), i, k) <==> SetsName(segments[i], k)
  {
  }

  /** Some segment of `segments` sets cookie `name`. */
  predicate SomeSegmentSets(segments: seq<string>, name: string)
  {
    exists i :: 0 <= i < |segments| && SetsName(segments[i], name)
  }

  /** A name that some segment sets is in the parsed dict. */
  lemma SetNameParsed(text: string, i: int, k: string)
    requires 0 <= i < |Split(text, ';')| && SetsName(Split(text, ';')[i], k)
    ensures k in CookiesOfString(text)
  {
    var steps := SegmentEntries(Split(text, ';'));
    WritesIsSetsName(Split(text, ';'), i, k);
    AssignKeys(steps);
  }

  /** Every name in the parsed dict is set by some segment. */
  lemma ParsedNameSet(text: string, k: string)
    requires k in CookiesOfString(text)
    ensures SomeSegmentSets(Split(text, ';'), k)
  {
    var steps := SegmentEntries(Split(text, ';'));
    AssignKeys(steps);
    var i :| Writes(steps, i, k);
    WritesIsSetsName(Split(text, ';'), i, k);
  }

  /** A name is in the parsed dict exactly when some segment sets it. */
  lemma ParsedNames(text: string)
    ensures forall k :: k in CookiesOfString(text) <==> SomeSegmentSets(Split(text, ';'), k)
  {
    forall k ensures k in CookiesOfString(text) <==> SomeSegmentSets(Split(text, ';'), k) {
      if k in CookiesOfString(text) {
        ParsedNameSet(text, k);
      } else if SomeSegmentSets(Split(text, ';'), k) {
        var i :| 0 <= i < |Split(text, ';')| && SetsName(Split(text, ';')[i], k);
        SetNameParsed(text, i, k);
      }
    }
  }

  /** When a name is set by several segments, the last one wins. */
  lemma ParsedLastWins(text: string, i: int)
    requires var segments := Split(text, ';');
             && 0 <= i < |segments| && SegmentEntry(segments[i]).Some?
             && forall j | i < j < |segments| ::
                  !SetsName(segments[j], SegmentEntry(segments[i]).value.0)
    ensures var (name, value) := SegmentEntry(Split(text, ';')[i]).value;
            name in CookiesOfString(text) && CookiesOfString(text)[name] == value
  {
    var segments := Split(text, ';');
    var steps := SegmentEntries(segments);
    forall j | i < j < |segments| ensures !Writes(steps, j, steps[i].value.0) {
      WritesIsSetsName(segments, j, steps[i].value.0);
    }
    assert IsLastWrite(steps, i);
    AssignLastWins(steps, i);
  }

  /** A string without any `=` parses to the empty dict. */
  lemma NoEqualsParsesEmpty(text: string)
    requires '=' !in text
    ensures CookiesOfString(text) == map[]
  {
    SplitPiecesLack(text, ';', '=');
    forall k | k in CookiesOfString(text) ensures false {
      ParsedNameSet(text, k);
    }
  }

  /** A trailing segment without `=` contributes nothing. */
  lemma SegmentWithoutEqualsIgnored(text: string, segment: string)
    requires '=' !in segment && ';' !in segment
    ensures CookiesOfString(text + ";" + segment) == CookiesOfString(text)
  {
    SplitConcat(text, ';', segment);
    var before := Split(text, ';');
    assert Split(segment, ';') == [segment];
    assert SegmentEntries(before + [segment]) == SegmentEntries(before) + [None];
    AssignSnoc(SegmentEntries(before), None);
  }

  /** A name and value that survive the trip through a segment: neither holds
      a `;`, the name holds no `=`, the name does not start and the value
      does not end with whitespace. */
  predicate WellFormedPair(name: string, value: string)
  {
    && ';' !in name && '=' !in name && ';' !in value
    && (name == "" || !IsSpace(name[0]))
    && (value == "" || !IsSpace(value[|value| - 1]))
  }

  predicate AllSpace(pad: string)
  {
    forall c | c in pad :: IsSpace(c)
  }

  /** A segment made of optional whitespace and `name=value` sets exactly
      that name to that value. */
  lemma {:induction false} SegmentEntryOf(pad: string, name: string, value: string)
    requires AllSpace(pad) && WellFormedPair(name, value)
    ensures SegmentEntry(pad + name + "=" + value) == Some((name, value))
  {
    var pair := name + "=" + value;
    assert pad + name + "=" + value == pad + pair;
    assert pair[|name|] == '=';
    StripSpacePrefix(pad, pair);
    assert pair == name + ("=" + value);
    IndexOfConcat(name, "=" + value, '=');
    assert pair[..|name|] == name && pair[|name| + 1..] == value;
  }

  /** Appending `;`, optional whitespace and `name=value` to a cookie string
      sets that name to that value, overriding an earlier one. */
  lemma AppendOverrides(text: string, pad: string, name: string, value: string)
    requires AllSpace(pad) && WellFormedPair(name, value)
    ensures CookiesOfString(text + ";" + pad + name + "=" + value)
            == CookiesOfString(text)[name := value]
  {
    var segment := pad + name + "=" + value;
    var whole := text + ";" + pad + name + "=" + value;
    assert whole == text + [';'] + segment;
    var before := Split(text, ';');
    assert Split(whole, ';') == before + [segment] by {
      SplitConcat(text, ';', segment);
      assert ';' !in segment;
      assert Split(segment, ';') == [segment];
    }
    assert SegmentEntry(segment) == Some((name, value)) by {
      SegmentEntryOf(pad, name, value);
    }
    assert SegmentEntries(before + [segment]) == SegmentEntries(before) + [Some((name, value))];
    AssignSnoc(SegmentEntries(before), Some((name, value)));
  }


  /** A cookie string with a single `name=value` pair. */
  lemma SinglePair(name: string, value: string)
    requires WellFormedPair(name, value)
    ensures CookiesOfString(name + "=" + value) == map[name := value]
  {
    var segment := name + "=" + value;
    assert segment == "" + name + "=" + value;
    assert ';' !in segment;
    assert Split(segment, ';') == [segment];
    SegmentEntryOf("", name, value);
    assert SegmentEntries([segment]) == [] + [Some((name, value))];
    AssignSnoc([], Some((name, value)));
  }

  /** Appending `"; name=value"` to a cookie string. */
  lemma AppendPair(text: string, name: string, value: string)
    requires WellFormedPair(name, value)
    ensures CookiesOfString(text + "; " + name + "=" + value)
            == CookiesOfString(text)[name := value]
  {
    assert text + ";" + " " + name + "=" + value == text + "; " + name + "=" + value;
    AppendOverrides(text, " ", name, value);
  }

  /** Two pairs in the `"; "`-separated form parse to a dict of both; when
      the names are equal the second value wins. */
  lemma TwoPairs(name1: string, value1: string, name2: string, value2: string)
    requires WellFormedPair(name1, value1) && WellFormedPair(name2, value2)
    ensures CookiesOfString(name1 + "=" + value1 + "; " + name2 + "=" + value2)
            == map[name1 := value1, name2 := value2]
  {
    SinglePair(name1, value1);
    AppendPair(name1 + "=" + value1, name2, value2);
  }

  /** The worked example: `"a=1; b=2"` parses to `{"a": "1", "b": "2"}`. */
  lemma TwoPairExample()
    ensures CookiesOfString("a=1; b=2") == map["a" := "1", "b" := "2"]
  {
    assert "a" + "=" + "1" + "; " + "b" + "=" + "2" == "a=1; b=2";
    TwoPairs("a", "1", "b", "2");
  }

  /** The cookie-string rendering of a list of pairs, `name=value` joined by
      `"; "` as in section 4.2.1 of RFC 6265. */
  function RenderSegments(pairs: seq<(string, string)>): (segments: seq<string>)
    ensures |segments| == |pairs|
  {
    seq(|pairs|, i requires 0 <= i < |pairs| =>
      (if i == 0 then "" else " ") + pairs[i].0 + "=" + pairs[i].1)
  }

  function Render(pairs: seq<(string, string)>): string
  {
    Join(RenderSegments(pairs), ';')
  }

  /** Each pair as an assignment. */
  function PairSteps(pairs: seq<(string, string)>): (steps: seq<Assignment>)
    ensures |steps| == |pairs|
    ensures forall i | 0 <= i < |pairs| :: steps[i] == Some(pairs[i])
  {
    seq(|pairs|, i requires 0 <= i < |pairs| => Some(pairs[i]))
  }

  /** Parsing a rendering makes the same assignments as the pairs. */
  lemma {:induction false} RenderedSteps(pairs: seq<(string, string)>)
    requires forall i | 0 <= i < |pairs| :: WellFormedPair(pairs[i].0, pairs[i].1)
    ensures CookiesOfString(Render(pairs)) == Assign(PairSteps(pairs))
  {
    if pairs == [] {
      assert Render(pairs) == "";
      assert Split("", ';') == [""];
      assert SegmentEntries([""]) == [] + [None];
      AssignSnoc([], None);
      assert PairSteps(pairs) == [];
    } else {
      var segments := RenderSegments(pairs);
      forall i | 0 <= i < |pairs|
        ensures ';' !in segments[i] && SegmentEntry(segments[i]) == Some(pairs[i])
      {
        var pad := if i == 0 then "" else " ";
        assert segments[i] == pad + pairs[i].0 + "=" + pairs[i].1;
        SegmentEntryOf(pad, pairs[i].0, pairs[i].1);
      }
      SplitJoin(segments, ';');
      assert SegmentEntries(segments) == PairSteps(pairs);
    }
  }

  /** Parsing a rendered list of well-formed pairs gives the dict those
      pairs build: every name appears, and the last pair for a name wins. */
  lemma {:induction false} RenderRoundTrip(pairs: seq<(string, string)>)
    requires forall i | 0 <= i < |pairs| :: WellFormedPair(pairs[i].0, pairs[i].1)
    ensures var cookies := CookiesOfString(Render(pairs));
            && (forall k :: k in cookies <==> exists i :: 0 <= i < |pairs| && pairs[i].0 == k)
            && (forall i | 0 <= i < |pairs| && (forall j | i < j < |pairs| :: pairs[j].0 != pairs[i].0) ::
                  cookies[pairs[i].0] == pairs[i].1)
  {
    var steps := PairSteps(pairs);
    RenderedSteps(pairs);
    AssignKeys(steps);
    forall k ensures k in Assign(steps) <==> exists i :: 0 <= i < |pairs| && pairs[i].0 == k {
      if k in Assign(steps) {
        var i :| Writes(steps, i, k);
        assert pairs[i].0 == k;
      } else {
        forall i | 0 <= i < |pairs| ensures pairs[i].0 != k {
          assert !Writes(steps, i, k);
        }
      }
    }
    forall i | 0 <= i < |pairs| && (forall j | i < j < |pairs| :: pairs[j].0 != pairs[i].0)
      ensures Assign(steps)[pairs[i].0] == pairs[i].1
    {
      assert IsLastWrite(steps, i);
      AssignLastWins(steps, i);
    }
  }
}
