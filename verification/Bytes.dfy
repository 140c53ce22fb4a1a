/** Byte strings and the searches the parser runs over them.

    A source text is a `string` whose characters stand for its bytes: the
    markers compared here are ASCII, and an ASCII byte never occurs inside a
    multi-byte UTF-8 sequence. Offsets are byte offsets, as in the program. */
module Bytes {

  datatype Option<+T> = None | Some(value: T)

  datatype Result<+T, +E> = Ok(value: T) | Err(error: E)

  predicate OccursAt(s: string, pat: string, p: int) {
    0 <= p && p + |pat| <= |s| && s[p..p + |pat|] == pat
  }

  /** The first occurrence of `pat` at or after `from`. */
  function Find(s: string, pat: string, from: nat): (r: Option<nat>)
    ensures r.Some? ==> from <= r.value && OccursAt(s, pat, r.value)
    ensures r.Some? ==> forall q | from <= q < r.value :: !OccursAt(s, pat, q)
    ensures r.None? ==> forall q | from <= q :: !OccursAt(s, pat, q)
    decreases |s| - from
  {
    if from + |pat| > |s| then None
    else if OccursAt(s, pat, from) then Some(from)
    else Find(s, pat, from + 1)
  }

  /** Two searches that see the same occurrences give the same answer. */
  lemma FindSkips(s: string, pat: string, from: nat, later: nat)
    requires from <= later
    requires forall q | from <= q < later :: !OccursAt(s, pat, q)
    ensures Find(s, pat, from) == Find(s, pat, later)
  {
    var a, b := Find(s, pat, from), Find(s, pat, later);
    if a.Some? && b.Some? && a.value != b.value {
      assert OccursAt(s, pat, a.value) && OccursAt(s, pat, b.value);
    }
  }

  function Lower(c: char): char {
    if 'A' <= c <= 'Z' then (c as int - 'A' as int + 'a' as int) as char else c
  }

  predicate EqIgnoreAsciiCase(a: string, b: string) {
    |a| == |b| && forall k | 0 <= k < |a| :: Lower(a[k]) == Lower(b[k])
  }

  const FORM_FEED: char := 12 as char

  /** ASCII white space, which leaves out the vertical tab. */
  predicate IsAsciiWhitespace(c: char) {
    c == ' ' || c == '\t' || c == '\n' || c == FORM_FEED || c == '\r'
  }

  /** The length of the name a head begins with: up to its first blank. */
  function NameEnd(head: string): (n: nat)
    ensures n <= |head|
    ensures forall k | 0 <= k < n :: !IsAsciiWhitespace(head[k])
    ensures n < |head| ==> IsAsciiWhitespace(head[n])
  {
    if head == "" || IsAsciiWhitespace(head[0]) then
      0
    else
      assert forall k | 1 <= k < |head| :: head[1..][k - 1] == head[k];
      1 + NameEnd(head[1..])
  }

  predicate IsLineBreak(c: char) { c == '\n' || c == '\r' }
}
