/**
 * Text helpers with Python's meaning: `str.strip()` with no argument,
 * `str.lower()` restricted to ASCII, and `sep.join(parts)`.
 */
module Text {

  /** Python's `str.isspace()` for one character. */
  predicate IsSpace(c: char) {
    || c == ' ' || c == '\t' || c == '\n' || c == '\r' || c == '\U{000B}' || c == '\U{000C}'
    || ('\U{001C}' <= c <= '\U{001F}') || c == '\U{0085}' || c == '\U{00A0}' || c == '\U{1680}'
    || ('\U{2000}' <= c <= '\U{200A}') || c == '\U{2028}' || c == '\U{2029}'
    || c == '\U{202F}' || c == '\U{205F}' || c == '\U{3000}'
  }

  predicate AllSpace(s: string) {
    forall k :: 0 <= k < |s| ==> IsSpace(s[k])
  }

  /** `r` sits in `s` at offset `i` with only whitespace around it. */
  predicate Framed(s: string, r: string, i: int) {
    && 0 <= i <= |s| - |r|
    && s[i..i + |r|] == r
    && AllSpace(s[..i])
    && AllSpace(s[i + |r|..])
  }

  function StripLeft(s: string): (r: string)
    ensures |r| <= |s| && r == s[|s| - |r|..]
    ensures AllSpace(s[..|s| - |r|])
    ensures r != [] ==> !IsSpace(r[0])
  {
    if s == [] || !IsSpace(s[0]) then s
    else
      var r := StripLeft(s[1..]);
      assert s[..|s| - |r|] == [s[0]] + s[1..][..|s[1..]| - |r|];
      r
  }

  function StripRight(s: string): (r: string)
    ensures |r| <= |s| && r == s[..|r|]
    ensures AllSpace(s[|r|..])
    ensures r != [] ==> !IsSpace(r[|r| - 1])
  {
    if s == [] || !IsSpace(s[|s| - 1]) then s
    else
      var r := StripRight(s[..|s| - 1]);
      assert s[|r|..] == s[..|s| - 1][|r|..] + [s[|s| - 1]];
      r
  }

  /** Python's `s.strip()`: leading and trailing whitespace removed. */
  function Strip(s: string): (r: string)
    ensures r == [] <==> AllSpace(s)
  {
    var left := StripLeft(s);
    var r := StripRight(left);
    StripFramed(s, left, r);
    r
  }

  /** The stripped text is the part of `s` between its leading and trailing whitespace. */
  lemma StripSpec(s: string)
    ensures exists i :: Framed(s, Strip(s), i)
    ensures Strip(s) != [] ==> !IsSpace(Strip(s)[0]) && !IsSpace(Strip(s)[|Strip(s)| - 1])
  {
    var left := StripLeft(s);
    var r := StripRight(left);
    assert Strip(s) == r;
    StripFramed(s, left, r);
    if r != [] {
      assert r[0] == left[0];
    }
  }

  /** A left strip followed by a right strip frames the kept text in whitespace. */
  lemma StripFramed(s: string, left: string, r: string)
    requires |left| <= |s| && left == s[|s| - |left|..] && AllSpace(s[..|s| - |left|])
    requires |r| <= |left| && r == left[..|r|] && AllSpace(left[|r|..])
    requires r != [] ==> !IsSpace(r[0])
    ensures Framed(s, r, |s| - |left|)
    ensures r == [] <==> AllSpace(s)
  {
    var i := |s| - |left|;
    assert s[i + |r|..] == left[|r|..];
    if r == [] {
      AllSpaceConcat(s[..i], left);
      assert s == s[..i] + left;
    } else {
      assert s[i] == r[0];
    }
  }

  lemma AllSpaceConcat(a: string, b: string)
    requires AllSpace(a) && AllSpace(b)
    ensures AllSpace(a + b)
  {
    forall k | 0 <= k < |a + b| ensures IsSpace((a + b)[k]) {
      if k < |a| {
        assert (a + b)[k] == a[k];
      } else {
        assert (a + b)[k] == b[k - |a|];
      }
    }
  }

  predicate IsCapital(c: char) {
    'A' <= c <= 'Z'
  }

  function LowerChar(c: char): char {
    if IsCapital(c) then (c as int + 32) as char else c
  }

  /**
   * `s.lower()`, case mapping of ASCII letters only: the result has no
   * capital letter, each capital becomes the same letter in lower case, and
   * every other character is kept.
   */
  function Lower(s: string): (r: string)
    ensures |r| == |s|
    ensures forall k :: 0 <= k < |r| ==> !IsCapital(r[k])
    ensures forall k :: 0 <= k < |s| && !IsCapital(s[k]) ==> r[k] == s[k]
    ensures forall k :: 0 <= k < |s| && IsCapital(s[k]) ==>
      'a' <= r[k] <= 'z' && r[k] as int - 'a' as int == s[k] as int - 'A' as int
  {
    seq(|s|, k requires 0 <= k < |s| => LowerChar(s[k]))
  }

  /** Python's `sep.join(parts)`. */
  function Join(sep: string, parts: seq<string>): string {
    if parts == [] then ""
    else if |parts| == 1 then parts[0]
    else parts[0] + (sep + Join(sep, parts[1..]))
  }

  /** Where `parts[i]` starts inside `Join(sep, parts)`. */
  function JoinOffset(sep: string, parts: seq<string>, i: nat): nat
    requires i <= |parts|
  {
    if i == 0 then 0 else JoinOffset(sep, parts, i - 1) + |parts[i - 1]| + |sep|
  }

  predicate Occurs(doc: string, part: string, at: int) {
    0 <= at && at + |part| <= |doc| && doc[at..at + |part|] == part
  }

  lemma {:induction false} JoinOffsetTail(sep: string, parts: seq<string>, i: nat)
    requires 0 < i <= |parts|
    ensures JoinOffset(sep, parts, i) == |parts[0]| + |sep| + JoinOffset(sep, parts[1..], i - 1)
  {
    if i > 1 {
      JoinOffsetTail(sep, parts, i - 1);
    }
  }

  lemma OccursInPrefix(x: string, rest: string, part: string, at: int)
    requires Occurs(x, part, at)
    ensures Occurs(x + rest, part, at)
  {
    assert (x + rest)[at..at + |part|] == x[at..at + |part|];
  }

  lemma OccursAfter(x: string, rest: string, part: string, at: int)
    requires Occurs(rest, part, at)
    ensures Occurs(x + rest, part, |x| + at)
  {
    assert (x + rest)[|x| + at..|x| + at + |part|] == rest[at..at + |part|];
  }

  /** A join of two or more parts: the first, the separator, then the join of the rest. */
  lemma JoinCons(sep: string, parts: seq<string>)
    requires |parts| >= 2
    ensures Join(sep, parts) == parts[0] + (sep + Join(sep, parts[1..]))
  {
  }

  /** A part that occurs in the rest of a join also occurs after the first part and the separator. */
  lemma ShiftOccurs(first: string, sep: string, rest: string, part: string, at: int)
    requires Occurs(rest, part, at)
    ensures Occurs(first + (sep + rest), part, |first| + |sep| + at)
  {
    OccursAfter(sep, rest, part, at);
    OccursAfter(first, sep + rest, part, |sep| + at);
  }

  /** The first part opens a join of two or more parts. */
  lemma FirstPart(first: string, sep: string, rest: string)
    ensures Occurs(first + (sep + rest), first, 0)
  {
    assert first[0..|first|] == first;
    OccursInPrefix(first, sep + rest, first, 0);
  }

  /** The separator follows the first part. */
  lemma FirstSeparator(first: string, sep: string, rest: string)
    ensures Occurs(first + (sep + rest), sep, |first|)
  {
    assert sep[0..|sep|] == sep;
    OccursInPrefix(sep, rest, sep, 0);
    OccursAfter(first, sep + rest, sep, 0);
  }

  /** Every part appears verbatim in the joined text at its offset. */
  lemma {:induction false} JoinPlacesParts(sep: string, parts: seq<string>, i: nat)
    requires i < |parts|
    ensures Occurs(Join(sep, parts), parts[i], JoinOffset(sep, parts, i))
  {
    if |parts| == 1 {
      assert Join(sep, parts) == parts[0];
      assert parts[0][0..|parts[0]|] == parts[0];
    } else {
      var rest := Join(sep, parts[1..]);
      JoinCons(sep, parts);
      if i == 0 {
        FirstPart(parts[0], sep, rest);
      } else {
        JoinPlacesParts(sep, parts[1..], i - 1);
        JoinOffsetTail(sep, parts, i);
        assert parts[1..][i - 1] == parts[i];
        ShiftOccurs(parts[0], sep, rest, parts[i], JoinOffset(sep, parts[1..], i - 1));
      }
    }
  }

  /** Neighbouring parts are separated by `sep`. */
  lemma {:induction false} JoinPlacesSeparators(sep: string, parts: seq<string>, i: nat)
    requires i + 1 < |parts|
    ensures Occurs(Join(sep, parts), sep, JoinOffset(sep, parts, i) + |parts[i]|)
  {
    var rest := Join(sep, parts[1..]);
    JoinCons(sep, parts);
    if i == 0 {
      FirstSeparator(parts[0], sep, rest);
    } else {
      JoinPlacesSeparators(sep, parts[1..], i - 1);
      JoinOffsetTail(sep, parts, i);
      assert parts[1..][i - 1] == parts[i];
      ShiftOccurs(parts[0], sep, rest, sep, JoinOffset(sep, parts[1..], i - 1) + |parts[i]|);
    }
  }
}
