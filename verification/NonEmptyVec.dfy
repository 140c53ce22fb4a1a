/** A vector that always has at least one element: the program keeps the first
    element apart, so no operation can remove it. */
module NonEmptyVec {
  import opened Bytes

  class NonEmptyVec<T> {
    var first: T
    var others: seq<T>

    /** The elements, bottom first. */
    function Elements(): (s: seq<T>)
      reads this
      ensures |s| > 0
    {
      [first] + others
    }

    constructor (first: T)
      ensures Elements() == [first]
    {
      this.first := first;
      others := [];
    }

    method Last() returns (t: T)
      ensures t == Elements()[|Elements()| - 1]
    {
      t := if others != [] then others[|others| - 1] else first;
    }

    method Len() returns (n: nat)
      ensures n == |Elements()|
    {
      n := |others| + 1;
    }

    method IsSingle() returns (b: bool)
      ensures b <==> |Elements()| == 1
    {
      b := others == [];
    }

    /** Writes through the mutable reference to the first element. */
    method ReplaceFirst(t: T) returns (was: T)
      modifies this
      ensures was == old(Elements())[0] && Elements() == old(Elements())[0 := t]
    {
      was := first;
      first := t;
    }

    /** Writes through the mutable reference to the last element. */
    method SetLast(t: T)
      modifies this
      ensures Elements() == old(Elements())[|old(Elements())| - 1 := t]
    {
      if others != [] {
        others := others[|others| - 1 := t];
      } else {
        first := t;
      }
    }

    method Push(t: T)
      modifies this
      ensures Elements() == old(Elements()) + [t]
    {
      others := others + [t];
      assert [first] + others == old(Elements()) + [t];
    }

    /** Removes the last element, but never the first. */
    method Pop() returns (r: Option<T>)
      modifies this
      ensures |old(Elements())| == 1 ==> r == None && Elements() == old(Elements())
      ensures |old(Elements())| > 1 ==>
                r == Some(old(Elements())[|old(Elements())| - 1])
                && Elements() == old(Elements())[..|old(Elements())| - 1]
    {
      if others == [] {
        return None;
      }
      r := Some(others[|others| - 1]);
      others := others[..|others| - 1];
      assert [first] + others == old(Elements())[..|old(Elements())| - 1];
    }
  }
}
