/** Sequence facts and searches shared by the modules. */
module Seqs {

  predicate NonDecreasing(s: seq<nat>) {
    forall j, k | 0 <= j < k < |s| :: s[j] <= s[k]
  }

  lemma NonDecreasingSnoc(s: seq<nat>, x: nat)
    requires NonDecreasing(s) && forall k | 0 <= k < |s| :: s[k] <= x
    ensures NonDecreasing(s + [x])
  {
  }

  /** How many members stay below the bound, found by halving. */
  function PartitionPoint(s: seq<nat>, bound: nat): (r: nat)
    requires NonDecreasing(s)
    ensures r <= |s|
    ensures forall i | 0 <= i < r :: s[i] < bound
    ensures forall i | r <= i < |s| :: s[i] >= bound
  {
    PartitionBetween(s, bound, 0, |s|)
  }

  function PartitionBetween(s: seq<nat>, bound: nat, lo: nat, hi: nat): (r: nat)
    requires NonDecreasing(s) && lo <= hi <= |s|
    requires forall i | 0 <= i < lo :: s[i] < bound
    requires forall i | hi <= i < |s| :: s[i] >= bound
    ensures r <= |s|
    ensures forall i | 0 <= i < r :: s[i] < bound
    ensures forall i | r <= i < |s| :: s[i] >= bound
    decreases hi - lo
  {
    if lo == hi then lo
    else
      var mid := (lo + hi) / 2;
      if s[mid] < bound then PartitionBetween(s, bound, mid + 1, hi) else PartitionBetween(s, bound, lo, mid)
  }

  lemma Regroup<T>(a: seq<T>, b: seq<T>, c: seq<T>)
    ensures a + (b + c) == a + b + c
  {
  }

  lemma RegroupFour<T>(a: seq<T>, b: seq<T>, c: seq<T>, d: seq<T>)
    ensures a + (b + c + d) == a + b + c + d
  {
  }

  lemma SliceOfSlice<T>(s: seq<T>, a: nat, b: nat, c: nat, d: nat)
    requires a <= b <= |s| && c <= d <= b - a
    ensures s[a..b][c..d] == s[a + c..a + d]
  {
    var x, y := s[a..b][c..d], s[a + c..a + d];
    assert |x| == |y| && forall k | 0 <= k < |x| :: x[k] == s[a + c + k] == y[k];
  }

  lemma SplitAt<T>(s: seq<T>, i: nat)
    requires i < |s|
    ensures s[..i + 1] == s[..i] + [s[i]]
    ensures s == s[..i + 1] + s[i + 1..]
  {
  }

  lemma Glue<T>(s: seq<T>, a: nat, b: nat, c: nat)
    requires a <= b <= c <= |s|
    ensures s[a..b] + s[b..c] == s[a..c]
  {
  }

  ghost predicate Increasing(s: seq<nat>) {
    forall j, k | 0 <= j < k < |s| :: s[j] < s[k]
  }

  // ----- parts put together

  /** The parts one after another. */
  ghost function Flatten<T>(parts: seq<seq<T>>): seq<T> {
    if parts == [] then [] else parts[0] + Flatten(parts[1..])
  }

  lemma FlattenCons<T>(part: seq<T>, parts: seq<seq<T>>)
    ensures Flatten([part] + parts) == part + Flatten(parts) && ([part] + parts)[1..] == parts
  {
    assert ([part] + parts)[1..] == parts;
  }

  lemma {:induction false} FlattenSnoc<T>(parts: seq<seq<T>>, last: seq<T>)
    ensures Flatten(parts + [last]) == Flatten(parts) + last
  {
    if parts == [] {
      FlattenCons(last, []);
      assert parts + [last] == [last] + [] && Flatten<T>([]) == [];
    } else {
      assert parts + [last] == [parts[0]] + (parts[1..] + [last]) && parts == [parts[0]] + parts[1..];
      FlattenCons(parts[0], parts[1..] + [last]);
      FlattenCons(parts[0], parts[1..]);
      FlattenSnoc(parts[1..], last);
      Regroup(parts[0], Flatten(parts[1..]), last);
    }
  }
}
