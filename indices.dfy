/**
  Unique indices handed out by an index factory (IndexFactory.getIndex): a
  per-instance counter that starts at 33 and is pre-incremented on every call.
 */
module Indices {

  class IndexFactory {
    /** The last index handed out (33 before the first call). */
    var index: int
    /** Every index handed out so far, in order. */
    ghost var issued: seq<int>

    /** Handed-out indices are strictly increasing and the counter holds the last one. */
    ghost predicate Valid()
      reads this
    {
      && (forall i, j :: 0 <= i < j < |issued| ==> issued[i] < issued[j])
      && (issued != [] ==> issued[|issued| - 1] == index)
      && (forall i :: 0 <= i < |issued| ==> issued[i] <= index)
    }

    constructor ()
      ensures Valid() && index == 33 && issued == []
    {
      index := 33;
      issued := [];
    }

    /** Returns one more than the previous counter value and keeps it as the new counter. */
    method GetIndex() returns (r: int)
      requires Valid()
      modifies this
      ensures Valid()
      ensures r == old(index) + 1 && index == r
      ensures issued == old(issued) + [r]
      ensures forall i :: 0 <= i < |old(issued)| ==> old(issued)[i] != r
    {
      index := index + 1;
      r := index;
      issued := issued + [r];
    }
  }

  /** A fresh factory hands out 34 first, then 35. */
  method FirstIndices() returns (first: int, second: int)
    ensures first == 34 && second == 35
  {
    var factory := new IndexFactory();
    first := factory.GetIndex();
    second := factory.GetIndex();
  }
}
