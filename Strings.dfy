/** Character classes, case folding and substring search shared by the
    pattern matchers and the prompt logic of the enrichment pipeline. */
module Strings {

  datatype Option<+T> = None | Some(value: T)

  /** The character classes that occur in the two regular expressions the
      pipeline evaluates concretely (the e-mail pattern and the sheet-URL
      pattern). Python's `[a-z]`-style ranges in a `str` pattern are ASCII. */
  datatype CharClass =
    | Letter   // [A-Za-z]
    | Local    // [a-zA-Z0-9._%+-]   e-mail local part
    | Domain   // [a-zA-Z0-9.-]      e-mail domain
    | IdChar   // [a-zA-Z0-9-_]      spreadsheet id

  predicate IsAsciiLetter(c: char) {
    ('a' <= c <= 'z') || ('A' <= c <= 'Z')
  }

  predicate IsAsciiDigit(c: char) {
    '0' <= c <= '9'
  }

  predicate InClass(c: char, cl: CharClass) {
    match cl
    case Letter => IsAsciiLetter(c)
    case Local => IsAsciiLetter(c) || IsAsciiDigit(c) || c in {'.', '_', '%', '+', '-'}
    case Domain => IsAsciiLetter(c) || IsAsciiDigit(c) || c in {'.', '-'}
    case IdChar => IsAsciiLetter(c) || IsAsciiDigit(c) || c in {'-', '_'}
  }

  /** Every character of s[lo..hi] belongs to class cl. */
  ghost predicate AllIn(s: string, lo: int, hi: int, cl: CharClass)
    requires 0 <= lo <= hi <= |s|
  {
    forall t :: lo <= t < hi ==> InClass(s[t], cl)
  }

  /** End of the maximal run of class-cl characters starting at i: what a
      greedy `[...]+` or `[...]*` consumes. */
  function RunEnd(s: string, i: nat, cl: CharClass): (e: nat)
    requires i <= |s|
    ensures i <= e <= |s|
    ensures AllIn(s, i, e, cl)
    ensures e == |s| || !InClass(s[e], cl)
    decreases |s| - i
  {
    if i == |s| || !InClass(s[i], cl) then i else RunEnd(s, i + 1, cl)
  }

  /** The run end is determined by its two defining properties. */
  lemma RunEndUnique(s: string, i: nat, cl: CharClass, e: nat)
    requires i <= e <= |s|
    requires AllIn(s, i, e, cl)
    requires e == |s| || !InClass(s[e], cl)
    ensures RunEnd(s, i, cl) == e
  {
  }

  /** A run that covers [i, j) ends at j or later. */
  lemma RunEndCovers(s: string, i: nat, j: nat, cl: CharClass)
    requires i <= j <= |s|
    requires AllIn(s, i, j, cl)
    ensures RunEnd(s, i, cl) >= j
  {
  }

  /** Python's `str.lower()` restricted to ASCII: 'A'..'Z' become 'a'..'z',
      every other character is kept. */
  function LowerChar(c: char): (d: char)
    ensures IsAsciiLetter(c) ==> IsAsciiLetter(d) && 'a' <= d <= 'z'
    ensures 'a' <= d <= 'z' ==> IsAsciiLetter(c)
    ensures !('A' <= c <= 'Z') ==> d == c
  {
    if 'A' <= c <= 'Z' then (c as int - 'A' as int + 'a' as int) as char else c
  }

  function Lower(s: string): (r: string)
    ensures |r| == |s|
    ensures forall t :: 0 <= t < |s| ==> r[t] == LowerChar(s[t])
  {
    if s == [] then [] else [LowerChar(s[0])] + Lower(s[1..])
  }

  /** `sub` occurs in s at position k. */
  predicate OccursAt(s: string, sub: string, k: nat) {
    k + |sub| <= |s| && s[k..k + |sub|] == sub
  }

  /** Occurrences in the tail of s are the occurrences in s shifted by one. */
  lemma OccursTail(s: string, sub: string, k: nat)
    requires |s| > 0
    ensures OccursAt(s[1..], sub, k) <==> OccursAt(s, sub, k + 1)
  {
    if k + 1 + |sub| <= |s| {
      assert s[1..][k..k + |sub|] == s[k + 1..k + 1 + |sub|];
    }
  }

  /** An occurrence in a prefix of s is an occurrence in s. */
  lemma OccursInPrefix(p: string, s: string, sub: string, k: nat)
    requires p <= s
    ensures OccursAt(p, sub, k) ==> OccursAt(s, sub, k)
  {
    if k + |sub| <= |p| {
      assert p[k..k + |sub|] == s[k..k + |sub|];
    }
  }

  /** Declarative `sub in s`. */
  ghost predicate ContainsSpec(s: string, sub: string) {
    exists k: nat :: OccursAt(s, sub, k)
  }

  /** Python's `sub in s`, searched left to right from position `from`. */
  function ContainsFrom(s: string, sub: string, from: nat): (b: bool)
    requires from <= |s|
    ensures b <==> exists k: nat :: from <= k && OccursAt(s, sub, k)
    decreases |s| - from
  {
    if OccursAt(s, sub, from) then true
    else if from == |s| then false
    else ContainsFrom(s, sub, from + 1)
  }

  function Contains(s: string, sub: string): (b: bool)
    ensures b <==> ContainsSpec(s, sub)
  {
    ContainsFrom(s, sub, 0)
  }

  /** Python's `text[:n]` for n >= 0. */
  function Prefix(s: string, n: nat): (r: string)
    ensures |r| == if |s| < n then |s| else n
    ensures r <= s
  {
    if |s| <= n then s else s[..n]
  }
}
