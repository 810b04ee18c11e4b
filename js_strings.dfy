/**
  The JavaScript string built-ins the link-header parser relies on:
  String.prototype.split with a one-character separator, String.prototype.trim,
  and replace(/[<>]/g, "").
 */
module JsStrings {

  /** WhiteSpace and LineTerminator code points, the characters trim removes. */
  predicate IsWhiteSpace(c: char) {
    c == '\t' || c == '\n' || c == '\U{000B}' || c == '\U{000C}' || c == '\r' || c == ' '
    || c == '\U{00A0}' || c == '\U{1680}' || ('\U{2000}' <= c <= '\U{200A}')
    || c == '\U{2028}' || c == '\U{2029}' || c == '\U{202F}' || c == '\U{205F}'
    || c == '\U{3000}' || c == '\U{FEFF}'
  }

  /** The characters a regular-expression `.` does not match. */
  predicate IsLineTerminator(c: char) {
    c == '\n' || c == '\r' || c == '\U{2028}' || c == '\U{2029}'
  }

  // ---------------------------------------------------------------------------
  // split and its inverse

  /** The pieces glued back together with the separator between them. */
  function Join(parts: seq<string>, sep: char): string
    requires |parts| >= 1
    decreases |parts|
  {
    if |parts| == 1 then parts[0] else parts[0] + [sep] + Join(parts[1..], sep)
  }

  /** The joined text starts with the first piece. */
  lemma JoinStartsWithFirst(parts: seq<string>, sep: char)
    requires |parts| >= 1
    ensures parts[0] <= Join(parts, sep)
  {
  }

  /** s.split(sep): the maximal separator-free pieces, always at least one. */
  function Split(s: string, sep: char): (parts: seq<string>)
    ensures |parts| >= 1
    ensures forall p :: p in parts ==> sep !in p
    ensures Join(parts, sep) == s
    decreases |s|
  {
    if s == [] then [[]]
    else
      var rest := Split(s[1..], sep);
      if s[0] == sep then
        assert ([[]] + rest)[1..] == rest;
        [[]] + rest
      else
        var parts := [[s[0]] + rest[0]] + rest[1..];
        assert parts[1..] == rest[1..];
        assert |rest| > 1 ==> Join(rest, sep) == rest[0] + [sep] + Join(rest[1..], sep);
        assert s == [s[0]] + s[1..];
        parts
  }

  /** A separator-free string is one piece. */
  lemma {:induction false} SplitWhole(s: string, sep: char)
    requires sep !in s
    ensures Split(s, sep) == [s]
    decreases |s|
  {
    if s != [] {
      assert forall c :: c in s[1..] ==> c in s;
      SplitWhole(s[1..], sep);
      assert [s[0]] + s[1..] == s;
    }
  }

  /** Splitting stops at the first separator. */
  lemma {:induction false} SplitAtFirst(a: string, b: string, sep: char)
    requires sep !in a
    ensures Split(a + [sep] + b, sep) == [a] + Split(b, sep)
    decreases |a|
  {
    var s := a + [sep] + b;
    if a == [] {
      assert s[0] == sep && s[1..] == b;
    } else {
      assert s[0] == a[0] && s[1..] == a[1..] + [sep] + b;
      SplitAtFirst(a[1..], b, sep);
      assert [a[0]] + a[1..] == a;
    }
  }

  /** split undoes Join when no piece holds the separator. */
  lemma {:induction false} SplitJoin(parts: seq<string>, sep: char)
    requires |parts| >= 1
    requires forall p :: p in parts ==> sep !in p
    ensures Split(Join(parts, sep), sep) == parts
    decreases |parts|
  {
    if |parts| == 1 {
      SplitWhole(parts[0], sep);
    } else {
      assert parts[0] in parts;
      assert forall p :: p in parts[1..] ==> p in parts;
      SplitJoin(parts[1..], sep);
      SplitAtFirst(parts[0], Join(parts[1..], sep), sep);
      assert [parts[0]] + parts[1..] == parts;
    }
  }

  // ---------------------------------------------------------------------------
  // trim

  function TrimStart(s: string): (r: string)
    ensures |r| <= |s| && r == s[|s| - |r|..]
    ensures forall k :: 0 <= k < |s| - |r| ==> IsWhiteSpace(s[k])
    ensures r == [] || !IsWhiteSpace(r[0])
    decreases |s|
  {
    if s != [] && IsWhiteSpace(s[0]) then TrimStart(s[1..]) else s
  }

  function TrimEnd(s: string): (r: string)
    ensures |r| <= |s| && r == s[..|r|]
    ensures forall k :: |r| <= k < |s| ==> IsWhiteSpace(s[k])
    ensures r == [] || !IsWhiteSpace(r[|r| - 1])
    decreases |s|
  {
    if s != [] && IsWhiteSpace(s[|s| - 1]) then TrimEnd(s[..|s| - 1]) else s
  }

  /** s.trim(): the slice left after dropping white space at both ends. */
  function Trim(s: string): (r: string)
    ensures var lo := |s| - |TrimStart(s)|;
      lo + |r| <= |s| && r == s[lo..lo + |r|]
      && (forall k :: 0 <= k < lo ==> IsWhiteSpace(s[k]))
      && (forall k :: lo + |r| <= k < |s| ==> IsWhiteSpace(s[k]))
    ensures r == [] || (!IsWhiteSpace(r[0]) && !IsWhiteSpace(r[|r| - 1]))
  {
    TrimBothEnds(s, TrimStart(s), TrimEnd(TrimStart(s)));
    TrimEnd(TrimStart(s))
  }

  /** Trimming the end of the trimmed start leaves a slice of s with white space on both sides. */
  lemma TrimBothEnds(s: string, t: string, r: string)
    requires |t| <= |s| && t == s[|s| - |t|..]
    requires forall k :: 0 <= k < |s| - |t| ==> IsWhiteSpace(s[k])
    requires t == [] || !IsWhiteSpace(t[0])
    requires |r| <= |t| && r == t[..|r|]
    requires forall k :: |r| <= k < |t| ==> IsWhiteSpace(t[k])
    requires r == [] || !IsWhiteSpace(r[|r| - 1])
    ensures var lo := |s| - |t|;
      lo + |r| <= |s| && r == s[lo..lo + |r|]
      && (forall k :: 0 <= k < lo ==> IsWhiteSpace(s[k]))
      && (forall k :: lo + |r| <= k < |s| ==> IsWhiteSpace(s[k]))
    ensures r == [] || (!IsWhiteSpace(r[0]) && !IsWhiteSpace(r[|r| - 1]))
  {
    var lo := |s| - |t|;
    assert forall k :: lo <= k < |s| ==> s[k] == t[k - lo];
    if r != [] {
      assert r[0] == t[0];
    }
  }

  /** Leading white space does not change the trimmed text. */
  lemma TrimLeadingSpace(x: string)
    ensures Trim(" " + x) == Trim(x)
  {
    assert (" " + x)[1..] == x;
  }

  /** Text without white space at its ends is its own trim. */
  lemma TrimmedIsFixed(x: string)
    requires x != [] && !IsWhiteSpace(x[0]) && !IsWhiteSpace(x[|x| - 1])
    ensures Trim(x) == x
  {
  }

  // ---------------------------------------------------------------------------
  // replace(/[<>]/g, "")

  predicate IsAngle(c: char) {
    c == '<' || c == '>'
  }

  /** s with every '<' and '>' removed and all other characters kept. */
  function StripAngles(s: string): (r: string)
    ensures forall c :: c in r ==> !IsAngle(c)
    decreases |s|
  {
    if s == [] then [] else (if IsAngle(s[0]) then [] else [s[0]]) + StripAngles(s[1..])
  }

  /** Every other character is kept, as often as it occurs. */
  lemma {:induction false} StripAnglesKeeps(s: string)
    ensures multiset(StripAngles(s)) == multiset(s)['<' := 0]['>' := 0]
    decreases |s|
  {
    if s != [] {
      assert s == [s[0]] + s[1..];
      StripAnglesKeeps(s[1..]);
    }
  }

  /** Removal works piecewise, so the order of the kept characters is preserved. */
  lemma {:induction false} StripAnglesAppend(a: string, b: string)
    ensures StripAngles(a + b) == StripAngles(a) + StripAngles(b)
    decreases |a|
  {
    if a != [] {
      var ab := a + b;
      assert ab != [] && ab[0] == a[0] && ab[1..] == a[1..] + b;
      StripAnglesAppend(a[1..], b);
      var h := if IsAngle(a[0]) then [] else [a[0]];
      calc {
        StripAngles(ab);
        h + StripAngles(ab[1..]);
        h + (StripAngles(a[1..]) + StripAngles(b));
        (h + StripAngles(a[1..])) + StripAngles(b);
        StripAngles(a) + StripAngles(b);
      }
    } else {
      assert a + b == b;
    }
  }

  /** Text without angle brackets is left as it is. */
  lemma {:induction false} StripAnglesFixed(s: string)
    requires forall c :: c in s ==> !IsAngle(c)
    ensures StripAngles(s) == s
    decreases |s|
  {
    if s != [] {
      assert s[0] in s;
      assert forall c :: c in s[1..] ==> c in s;
      StripAnglesFixed(s[1..]);
    }
  }
}
