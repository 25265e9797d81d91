/** The pieces of Python's str API that the scripts rely on. */
module Strings {
  import opened Base

  /** `p` occurs in `s` starting at position `i`. */
  ghost predicate OccursAt(s: string, p: string, i: nat) {
    i + |p| <= |s| && s[i..i + |p|] == p
  }

  lemma OccursShift(s: string, p: string)
    requires |s| > 0
    ensures forall j: nat :: 1 <= j ==> (OccursAt(s, p, j) <==> OccursAt(s[1..], p, j - 1))
  {
    forall j: nat | 1 <= j
      ensures OccursAt(s, p, j) <==> OccursAt(s[1..], p, j - 1)
    {
      if j + |p| <= |s| {
        var t := s[1..];
        assert forall k :: 1 <= k < |s| ==> s[k] == t[k - 1];
        assert s[j..j + |p|] == t[j - 1..j - 1 + |p|];
      }
    }
  }

  lemma OccursTrim(s: string, p: string)
    requires |s| > 0
    ensures forall j: nat :: j + |p| < |s| ==> (OccursAt(s, p, j) <==> OccursAt(s[..|s| - 1], p, j))
  {
    forall j: nat | j + |p| < |s|
      ensures OccursAt(s, p, j) <==> OccursAt(s[..|s| - 1], p, j)
    {
      assert s[j..j + |p|] == s[..|s| - 1][j..j + |p|];
    }
  }

  /** Position of the first occurrence of `p` in `s` (Python's str.find). */
  function FindFirst(s: string, p: string): (r: Option<nat>)
    ensures r.Some? ==> OccursAt(s, p, r.value)
    ensures r.Some? ==> forall j: nat :: j < r.value ==> !OccursAt(s, p, j)
    ensures r.None? ==> forall j: nat :: !OccursAt(s, p, j)
    decreases |s|
  {
    if |s| < |p| then None
    else if s[..|p|] == p then Some(0)
    else
      OccursShift(s, p);
      match FindFirst(s[1..], p)
      case None => None
      case Some(i) => Some(i + 1)
  }

  /** Position of the last occurrence of `p` in `s` (Python's str.rfind). */
  function FindLast(s: string, p: string): (r: Option<nat>)
    ensures r.Some? ==> OccursAt(s, p, r.value)
    ensures r.Some? ==> forall j: nat :: r.value < j ==> !OccursAt(s, p, j)
    ensures r.None? ==> forall j: nat :: !OccursAt(s, p, j)
    decreases |s|
  {
    if |s| < |p| then None
    else if s[|s| - |p|..] == p then Some(|s| - |p|)
    else
      OccursTrim(s, p);
      FindLast(s[..|s| - 1], p)
  }

  /** Python's `p in s` for strings. */
  predicate Contains(s: string, p: string) {
    FindFirst(s, p).Some?
  }

  /** `u` is what `t.rstrip(c)` leaves: a prefix of `t` that does not end in
      `c`, followed in `t` by nothing but `c`. */
  ghost predicate StripsTo(t: string, u: string, c: char) {
    && u <= t
    && (forall k :: |u| <= k < |t| ==> t[k] == c)
    && (u == [] || u[|u| - 1] != c)
  }

  /** Python's str.rstrip with a one-character argument. */
  function RStrip(t: string, c: char): (u: string)
    ensures StripsTo(t, u, c)
    decreases |t|
  {
    if |t| > 0 && t[|t| - 1] == c then RStrip(t[..|t| - 1], c) else t
  }

  /** Python's str.startswith(' ') or str.endswith(' '). */
  predicate HasOuterSpace(s: string) {
    |s| > 0 && (s[0] == ' ' || s[|s| - 1] == ' ')
  }

  function LowerChar(c: char): char {
    if 'A' <= c <= 'Z' then (c as int + 32) as char else c
  }

  /** Python's str.lower, on the ASCII letters. */
  function Lower(s: string): string {
    seq(|s|, i requires 0 <= i < |s| => LowerChar(s[i]))
  }

  function DigitChar(d: nat): char
    requires d < 10
  {
    "0123456789"[d]
  }

  function NatToString(n: nat): string
    decreases n
  {
    if n < 10 then [DigitChar(n)] else NatToString(n / 10) + [DigitChar(n % 10)]
  }

  /** Python's str() of an int. */
  function IntToString(i: int): string {
    if i < 0 then "-" + NatToString(-i) else NatToString(i)
  }
}
