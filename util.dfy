/**
 * String helpers and numeric macros of the client library: in-place
 * white-space stripping of a NUL-terminated buffer, splitting at a
 * character, and the max/min/clamp macros.
 */
module Util {
  import opened LibC

  /** Util_max: the larger of a and b (b when they are equal). */
  function Max(a: int, b: int): (r: int)
    ensures r >= a && r >= b
    ensures r == a || r == b
  {
    if a > b then a else b
  }

  /** Util_min: the smaller of a and b (b when they are equal). */
  function Min(a: int, b: int): (r: int)
    ensures r <= a && r <= b
    ensures r == a || r == b
  {
    if a < b then a else b
  }

  /**
   * Util_inRange(a, x, b): x when a <= x <= b, a when x is below a and b when
   * x is above b. With a > b the lower bound is tested first.
   */
  function InRange(a: int, x: int, b: int): (r: int)
    ensures x < a ==> r == a
    ensures a <= x <= b ==> r == x
    ensures a <= b && x > b ==> r == b
    ensures a <= b ==> a <= r <= b
  {
    if x < a then a else if x > b then b else x
  }

  /** The position of the first c in s, |s| when there is none. */
  function IndexOf(s: string, c: char): (k: nat)
    ensures k <= |s| && c !in s[..k]
    ensures k < |s| ==> s[k] == c
  {
    if s == [] then 0 else if s[0] == c then 0 else 1 + IndexOf(s[1..], c)
  }

  /** Position of the first NUL in a buffer: strlen(). */
  function CLen(buf: seq<char>): (k: nat)
    requires '\0' in buf
    ensures k < |buf| && buf[k] == '\0'
    ensures forall j :: 0 <= j < k ==> buf[j] != '\0'
  {
    if buf[0] == '\0' then 0 else 1 + CLen(buf[1..])
  }

  /** The C string held by a buffer: everything before the first NUL. */
  function CStr(buf: seq<char>): (s: string)
    requires '\0' in buf
    ensures '\0' !in s
    ensures s == buf[..CLen(buf)]
  {
    buf[..CLen(buf)]
  }

  predicate Blank(s: string) {
    forall i :: 0 <= i < |s| ==> IsSpace(s[i])
  }

  /** Number of white-space characters at the end of s. */
  function TrailingSpaces(s: string): (k: nat)
    ensures k <= |s|
    ensures forall j :: |s| - k <= j < |s| ==> IsSpace(s[j])
    ensures k < |s| ==> !IsSpace(s[|s| - k - 1])
  {
    if |s| > 0 && IsSpace(s[|s| - 1]) then 1 + TrailingSpaces(s[..|s| - 1]) else 0
  }

  /**
   * What stripping leading and trailing white space leaves of s; the empty
   * string when s is blank.
   */
  function Stripped(s: string): string {
    var t := s[SpacePrefix(s)..];
    t[..|t| - TrailingSpaces(t)]
  }

  /**
   * Stripping keeps one contiguous run of s, starting at its first
   * non-space character, with no white space at either end, and everything
   * it drops is white space.
   */
  lemma StrippedShape(s: string)
    ensures var r := Stripped(s); var a := SpacePrefix(s);
      a + |r| <= |s| && r == s[a..a + |r|] &&
      (forall j :: 0 <= j < a ==> IsSpace(s[j])) &&
      (forall j :: a + |r| <= j < |s| ==> IsSpace(s[j])) &&
      (r != [] ==> !IsSpace(r[0]) && !IsSpace(r[|r| - 1]))
  {
    var a := SpacePrefix(s);
    var t := s[a..];
    var r := Stripped(s);
    if r != [] {
      assert r[0] == t[0];
    }
    forall j | a + |r| <= j < |s|
      ensures IsSpace(s[j])
    {
      assert s[j] == t[j - a];
    }
  }

  /** Only a blank string strips to nothing. */
  lemma StrippedEmptyIffBlank(s: string)
    ensures Stripped(s) == [] <==> Blank(s)
  {
    var a := SpacePrefix(s);
    var t := s[a..];
    if a < |s| {
      assert !IsSpace(t[0]);
      assert TrailingSpaces(t) < |t|;
      assert !Blank(s);
    }
  }

  /** A string with no white space at either end strips to itself. */
  lemma StrippedOfTrimmed(r: string)
    requires r != [] ==> !IsSpace(r[0]) && !IsSpace(r[|r| - 1])
    ensures Stripped(r) == r
  {
    assert SpacePrefix(r) == 0;
    assert r[0..] == r;
    if r != [] {
      assert TrailingSpaces(r) == 0;
    }
  }

  /** Stripping twice is stripping once. */
  lemma StrippedIdempotent(s: string)
    ensures Stripped(Stripped(s)) == Stripped(s)
  {
    StrippedShape(s);
    StrippedOfTrimmed(Stripped(s));
  }

  /**
   * Util_strip: strip the C string in buf in place. The characters kept are
   * moved to the front and followed by a NUL; the positions the copy and
   * the backward walk passed over hold NUL and the rest of the buffer is
   * untouched.
   */
  method Strip(buf: array<char>)
    requires '\0' in buf[..]
    // A non-empty blank string makes the backward walk read buffer[-1].
    requires CStr(buf[..]) == [] || !Blank(CStr(buf[..]))
    modifies buf
    ensures StripImage(old(buf[..]), buf[..])
    ensures '\0' in buf[..] && CStr(buf[..]) == Stripped(CStr(old(buf[..])))
  {
    ghost var orig := buf[..];
    ghost var s := CStr(orig);
    if buf[0] == '\0' {
      assert |s| == 0;
      StrippedOfTrimmed(s);
      StripImageCStr(orig, orig);
      return;
    }
    ghost var a := SpacePrefix(s);
    assert a < |s|;

    var start := 0;
    while IsSpace(buf[start])
      invariant 0 <= start <= a
      decreases a - start
    {
      start := start + 1;
    }
    Compact(buf, start);
  }

  /** Strip after the leading white space: move the rest down, then trim the tail. */
  method Compact(buf: array<char>, start: nat)
    requires '\0' in buf[..] && start == SpacePrefix(CStr(buf[..])) < |CStr(buf[..])|
    modifies buf
    ensures StripImage(old(buf[..]), buf[..])
    ensures '\0' in buf[..] && CStr(buf[..]) == Stripped(CStr(old(buf[..])))
  {
    ghost var orig := buf[..];
    ghost var s := CStr(orig);
    var i := ShiftDown(buf, start, s);
    ghost var t := s[start..];
    assert forall j :: 0 <= j < i ==> buf[j] == t[j];
    TrimTail(buf, i, t);
    ghost var m := |t| - TrailingSpaces(t);
    assert forall j :: m <= j <= i ==> buf[j] == '\0';
    assert forall j :: i < j < buf.Length ==> buf[j] == orig[j];
    StripFinish(orig, buf[..], m);
    StripImageCStr(orig, buf[..]);
  }

  /** Strip's forward copy: move s[start..] to the front of buf and terminate it. */
  method ShiftDown(buf: array<char>, start: nat, ghost s: string) returns (i: nat)
    requires '\0' in buf[..] && s == CStr(buf[..]) && start < |s|
    modifies buf
    ensures i == |s| - start
    ensures forall j :: 0 <= j < i ==> buf[j] == s[start + j]
    ensures buf[i] == '\0'
    ensures forall j :: i < j < buf.Length ==> buf[j] == old(buf[j])
  {
    i := 0;
    while buf[start + i] != '\0'
      invariant 0 <= i <= |s| - start
      invariant forall j :: 0 <= j < i ==> buf[j] == s[start + j]
      invariant forall j :: i <= j < buf.Length ==> buf[j] == old(buf[j])
      decreases |s| - start - i
    {
      buf[i] := buf[start + i];
      i := i + 1;
    }
    buf[i] := '\0';
  }

  /** Strip's backward walk: overwrite the trailing white space of t with NUL. */
  method TrimTail(buf: array<char>, i: nat, ghost t: string)
    requires 0 < i == |t| < buf.Length && !IsSpace(t[0])
    requires forall j :: 0 <= j < i ==> buf[j] == t[j]
    modifies buf
    ensures forall j :: 0 <= j < |t| - TrailingSpaces(t) ==> buf[j] == t[j]
    ensures forall j :: |t| - TrailingSpaces(t) <= j < i ==> buf[j] == '\0'
    ensures forall j :: i <= j < buf.Length ==> buf[j] == old(buf[j])
  {
    ghost var m := |t| - TrailingSpaces(t);
    var k := i - 1;
    while IsSpace(buf[k])
      invariant m - 1 <= k < i
      invariant forall j :: 0 <= j <= k ==> buf[j] == t[j]
      invariant forall j :: k < j < i ==> buf[j] == '\0'
      invariant forall j :: i <= j < buf.Length ==> buf[j] == old(buf[j])
      decreases k
    {
      buf[k] := '\0';
      k := k - 1;
    }
  }

  /**
   * The buffer Util_strip leaves behind, given the one it started from: the
   * stripped text at the front, NUL over every position the copy and the
   * backward walk passed, the rest as it was.
   */
  predicate StripImage(before: seq<char>, after: seq<char>)
    requires '\0' in before
  {
    var s := CStr(before);
    var r := Stripped(s);
    var e := |s| - SpacePrefix(s);
    |after| == |before| && |r| < |after| && after[..|r|] == r &&
    (forall j :: |r| <= j <= e ==> after[j] == '\0') &&
    (forall j :: e < j < |after| ==> after[j] == before[j])
  }

  /** The buffer left by Strip's backward walk is its StripImage. */
  lemma StripFinish(before: seq<char>, after: seq<char>, m: nat)
    requires '\0' in before && |after| == |before|
    requires var s := CStr(before); var t := s[SpacePrefix(s)..];
      m == |t| - TrailingSpaces(t) &&
      (forall j :: 0 <= j < m ==> after[j] == t[j]) &&
      (forall j :: m <= j <= |t| ==> after[j] == '\0') &&
      (forall j :: |t| < j < |after| ==> after[j] == before[j])
    ensures StripImage(before, after)
  {
    var s := CStr(before);
    var t := s[SpacePrefix(s)..];
    assert after[..m] == t[..m];
  }

  /** Util_strip's result, read as a C string, is Stripped of the original one. */
  lemma StripImageCStr(before: seq<char>, after: seq<char>)
    requires '\0' in before && StripImage(before, after)
    ensures '\0' in after && CStr(after) == Stripped(CStr(before))
  {
    var r := Stripped(CStr(before));
    assert after[|r|] == '\0';
    assert forall j :: 0 <= j < |r| ==> after[j] != '\0' by {
      assert after[..|r|] == r;
    }
  }

  /**
   * Util_split: with split present in the C string held by buffer, return 0
   * with p1 the text before its first occurrence and p2 the text after it;
   * without it, return 1 with p1 the whole string.
   */
  method Split(buffer: seq<char>, split: char) returns (r: int, p1: string, p2: string)
    requires '\0' in buffer
    requires split != '\0'
    ensures var s := CStr(buffer);
      (split !in s ==> r == 1 && p1 == s && p2 == []) &&
      (split in s ==> r == 0 && split !in p1 && p1 + [split] + p2 == s)
  {
    ghost var s := CStr(buffer);
    var i := 0;
    p1 := [];
    while buffer[i] != split
      invariant 0 <= i <= |s|
      invariant p1 == s[..i]
      invariant split !in p1
      decreases |s| - i
    {
      if buffer[i] == '\0' {
        assert i == |s| && p1 == s;
        return 1, p1, [];
      }
      p1 := p1 + [buffer[i]];
      i := i + 1;
    }
    assert i < |s| && s[i] == split;

    var j := 0;
    p2 := [];
    while buffer[i + j + 1] != '\0'
      invariant i + 1 + j <= |s|
      invariant p2 == s[i + 1..i + 1 + j]
      decreases |s| - j
    {
      p2 := p2 + [buffer[i + j + 1]];
      j := j + 1;
    }
    assert s == s[..i] + [split] + s[i + 1..];
    r := 0;
  }
}
