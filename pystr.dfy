/**
 * The few Python `str` operations the cookie parser relies on:
 * `'c' in s`, `s.split(c)`, `s.split(c, 1)` and `s.strip()`.
 * Strings are sequences of code points, as in Python 3.
 */
module PyStr {

  /** Python's `str.isspace()` for one code point: the characters that
      `str.strip()` with no argument removes. */
  predicate IsSpace(c: char)
  {
    || c == ' ' || c == '\t' || c == '\n' || c == '\r'
    || c == '\U{0B}' || c == '\U{0C}'
    || ('\U{1C}' <= c <= '\U{1F}')
    || c == '\U{85}' || c == '\U{A0}' || c == '\U{1680}'
    || ('\U{2000}' <= c <= '\U{200A}')
    || c == '\U{2028}' || c == '\U{2029}' || c == '\U{202F}'
    || c == '\U{205F}' || c == '\U{3000}'
  }

  /** Leading whitespace removed (`str.lstrip()`). */
  function TrimLeft(s: string): string
    decreases |s|
  {
    if s != [] && IsSpace(s[0]) then TrimLeft(s[1..]) else s
  }

  /** Trailing whitespace removed (`str.rstrip()`). */
  function TrimRight(s: string): string
    decreases |s|
  {
    if s != [] && IsSpace(s[|s| - 1]) then TrimRight(s[..|s| - 1]) else s
  }

  /** `str.strip()`. */
  function Strip(s: string): string
  {
    TrimRight(TrimLeft(s))
  }

  /** `lstrip` removes a whitespace prefix and nothing else, and leaves a
      string that does not start with whitespace. */
  lemma {:induction false} TrimLeftSpec(s: string)
    ensures var r := TrimLeft(s);
            && |r| <= |s| && r == s[|s| - |r|..]
            && (forall k | 0 <= k < |s| - |r| :: IsSpace(s[k]))
            && (r == [] || !IsSpace(r[0]))
    decreases |s|
  {
    if s != [] && IsSpace(s[0]) {
      TrimLeftSpec(s[1..]);
    }
  }

  /** `rstrip` removes a whitespace suffix and nothing else, and leaves a
      string that does not end with whitespace. */
  lemma {:induction false} TrimRightSpec(s: string)
    ensures var r := TrimRight(s);
            && |r| <= |s| && r == s[..|r|]
            && (forall k | |r| <= k < |s| :: IsSpace(s[k]))
            && (r == [] || !IsSpace(r[|r| - 1]))
    decreases |s|
  {
    if s != [] && IsSpace(s[|s| - 1]) {
      TrimRightSpec(s[..|s| - 1]);
    }
  }

  /** `strip` keeps one contiguous piece of the string that neither starts
      nor ends with whitespace, and everything it removes is whitespace. */
  lemma StripSpec(s: string)
    ensures var r := Strip(s);
            r == [] || (!IsSpace(r[0]) && !IsSpace(r[|r| - 1]))
    ensures exists i, j | 0 <= i <= j <= |s| ::
              && Strip(s) == s[i..j]
              && (forall k | 0 <= k < i :: IsSpace(s[k]))
              && (forall k | j <= k < |s| :: IsSpace(s[k]))
  {
    var l := TrimLeft(s);
    TrimLeftSpec(s);
    TrimRightSpec(l);
    var i := |s| - |l|;
    var j := i + |Strip(s)|;
    assert Strip(s) == s[i..j];
    assert forall k | j <= k < |s| :: s[k] == l[k - i];
    if Strip(s) != [] {
      assert Strip(s)[0] == l[0];
    }
  }

  /** Stripping keeps every character that is not whitespace. */
  lemma StripKeeps(s: string, c: char)
    requires c in s && !IsSpace(c)
    ensures c in Strip(s)
  {
    var l := TrimLeft(s);
    TrimLeftSpec(s);
    TrimRightSpec(l);
    var r := TrimRight(l);
    var i := |s| - |l|;
    var k :| 0 <= k < |s| && s[k] == c;
    assert r == s[i..i + |r|];
    assert i <= k < i + |r|;
    assert r[k - i] == c;
  }

  /** Index of the first occurrence of `c` in `s` (`s.index(c)`). */
  function IndexOf(s: string, c: char): (i: nat)
    requires c in s
    ensures i < |s| && s[i] == c && c !in s[..i]
  {
    if s[0] == c then 0 else 1 + IndexOf(s[1..], c)
  }

  /** Stripping leaves a string alone when it neither starts nor ends with
      whitespace, apart from a whitespace prefix that it removes. */
  lemma {:induction false} StripSpacePrefix(pad: string, s: string)
    requires forall c | c in pad :: IsSpace(c)
    requires s != [] && !IsSpace(s[0]) && !IsSpace(s[|s| - 1])
    ensures Strip(pad + s) == s
  {
    TrimLeftSpacePrefix(pad, s);
    assert TrimRight(s) == s;
  }

  lemma {:induction false} TrimLeftSpacePrefix(pad: string, s: string)
    requires forall c | c in pad :: IsSpace(c)
    requires s != [] && !IsSpace(s[0])
    ensures TrimLeft(pad + s) == s
    decreases |pad|
  {
    if pad == [] {
      assert pad + s == s;
    } else {
      assert pad[0] in pad;
      assert (pad + s)[1..] == pad[1..] + s;
      TrimLeftSpacePrefix(pad[1..], s);
    }
  }

  /** `s.split(sep, 1)` on a string that contains `sep`: the text before the
      first `sep` and everything after it, later separators included. */
  function SplitOnce(s: string, sep: char): (parts: (string, string))
    requires sep in s
    ensures parts.0 + [sep] + parts.1 == s
    ensures sep !in parts.0
  {
    var i := IndexOf(s, sep);
    assert s == s[..i] + [sep] + s[i + 1..];
    (s[..i], s[i + 1..])
  }

  /** `s.split(sep)` with an explicit one-character separator; never
      empty. */
  function Split(s: string, sep: char): (parts: seq<string>)
    ensures |parts| >= 1
    decreases |s|
  {
    if sep !in s then [s]
    else
      var i := IndexOf(s, sep);
      [s[..i]] + Split(s[i + 1..], sep)
  }

  /** `sep.join(parts)`, the inverse of `Split`. */
  function Join(parts: seq<string>, sep: char): string
  {
    if |parts| == 0 then ""
    else if |parts| == 1 then parts[0]
    else parts[0] + [sep] + Join(parts[1..], sep)
  }

  /** No piece of a split contains the separator. */
  lemma {:induction false} SplitPiecesLackSep(s: string, sep: char)
    ensures forall k | 0 <= k < |Split(s, sep)| :: sep !in Split(s, sep)[k]
    decreases |s|
  {
    if sep in s {
      var i := IndexOf(s, sep);
      SplitPiecesLackSep(s[i + 1..], sep);
    }
  }

  /** A character the string lacks is in none of its pieces. */
  lemma {:induction false} SplitPiecesLack(s: string, sep: char, c: char)
    requires c !in s
    ensures forall k | 0 <= k < |Split(s, sep)| :: c !in Split(s, sep)[k]
    decreases |s|
  {
    if sep in s {
      var i := IndexOf(s, sep);
      assert c !in s[..i];
      assert c !in s[i + 1..];
      SplitPiecesLack(s[i + 1..], sep, c);
    }
  }

  /** Joining the pieces of a split gives back the original string. */
  lemma {:induction false} JoinSplit(s: string, sep: char)
    ensures Join(Split(s, sep), sep) == s
    decreases |s|
  {
    if sep in s {
      var i := IndexOf(s, sep);
      var rest := Split(s[i + 1..], sep);
      assert Split(s, sep) == [s[..i]] + rest;
      JoinSplit(s[i + 1..], sep);
      assert Join([s[..i]] + rest, sep) == s[..i] + [sep] + Join(rest, sep) by {
        assert ([s[..i]] + rest)[1..] == rest;
      }
      assert s == s[..i] + [sep] + s[i + 1..];
    }
  }

  /** Splitting a join of separator-free pieces gives back the pieces. */
  lemma {:induction false} SplitJoin(parts: seq<string>, sep: char)
    requires |parts| >= 1
    requires forall k | 0 <= k < |parts| :: sep !in parts[k]
    ensures Split(Join(parts, sep), sep) == parts
  {
    if |parts| > 1 {
      var s := Join(parts, sep);
      assert s == parts[0] + [sep] + Join(parts[1..], sep);
      assert s[|parts[0]|] == sep;
      assert sep in s;
      IndexOfConcat(parts[0], [sep] + Join(parts[1..], sep), sep);
      var i := IndexOf(s, sep);
      assert i == |parts[0]|;
      assert s[..i] == parts[0];
      assert s[i + 1..] == Join(parts[1..], sep);
      SplitJoin(parts[1..], sep);
      assert parts == [parts[0]] + parts[1..];
    }
  }

  /** The first occurrence of `c` in `s + t` is the first one in `s` when
      there is one, and otherwise the first one in `t`, shifted by `|s|`. */
  lemma {:induction false} IndexOfConcat(s: string, t: string, c: char)
    requires c in s + t
    ensures c in s ==> IndexOf(s + t, c) == IndexOf(s, c)
    ensures c !in s ==> c in t && IndexOf(s + t, c) == |s| + IndexOf(t, c)
    decreases |s|
  {
    if s != [] {
      assert (s + t)[1..] == s[1..] + t;
      if s[0] != c {
        IndexOfConcat(s[1..], t, c);
      }
    } else {
      assert s + t == t;
    }
  }

  /** A separator inside the string splits the pieces into those before it
      and those after it. */
  lemma {:induction false} SplitConcat(s: string, sep: char, t: string)
    ensures Split(s + [sep] + t, sep) == Split(s, sep) + Split(t, sep)
    decreases |s|
  {
    var u := s + [sep] + t;
    assert u[|s|] == sep;
    if sep in s {
      var j := IndexOf(s, sep);
      var rest := s[j + 1..];
      assert IndexOf(u, sep) == j by {
        assert u == s + ([sep] + t);
        IndexOfConcat(s, [sep] + t, sep);
      }
      assert u[..j] == s[..j];
      assert u[j + 1..] == rest + [sep] + t;
      SplitConcat(rest, sep, t);
      calc {
        Split(u, sep);
        [s[..j]] + Split(rest + [sep] + t, sep);
        [s[..j]] + (Split(rest, sep) + Split(t, sep));
        ([s[..j]] + Split(rest, sep)) + Split(t, sep);
        Split(s, sep) + Split(t, sep);
      }
    } else {
      assert IndexOf(u, sep) == |s| by {
        assert u == s + ([sep] + t);
        IndexOfConcat(s, [sep] + t, sep);
      }
      assert u[..|s|] == s;
      assert u[|s| + 1..] == t;
    }
  }

}
