/** The red-black tree object (tree/RB_tree.go, type RBT): a root that the
    operations replace. */
module RbTree {
  import opened Sequences
  import opened RbNode
  import RbInsert
  import RbDelete

  class RBT {
    var root: Tree
    /** The keys held, with their multiplicities. */
    ghost var elems: multiset<int>

    /** I1 to I4, and elems are the keys of the tree. */
    ghost predicate Valid()
      reads this
    {
      IsRB(root) && multiset(InOrder(root)) == elems
    }

    /** NewRBT: an empty tree into which the values are inserted one by one. */
    constructor NewRBT(values: seq<int>)
      ensures Valid() && elems == multiset(values)
      ensures InOrder(root) == InsertAll([], values)
    {
      root := Nil;
      elems := multiset{};
      new;
      InsertEach(values);
    }

    /** The loop of NewRBT and FromSlice: the values are inserted one by
        one, in order. */
    method InsertEach(values: seq<int>)
      requires Valid()
      modifies this
      ensures Valid() && elems == old(elems) + multiset(values)
      ensures InOrder(root) == InsertAll(old(InOrder(root)), values)
    {
      ghost var start := InOrder(root);
      var i := 0;
      while i < |values|
        invariant 0 <= i <= |values|
        invariant Valid()
        invariant InsertAll(InOrder(root), values[i..]) == InsertAll(start, values)
      {
        InsertAllStep(InOrder(root), values, i);
        Insert(values[i]);
        i := i + 1;
      }
      assert values[i..] == [];
    }

    /** Insert: a new key joins, placed after the keys equal to it. */
    method Insert(value: int)
      requires Valid()
      modifies this
      ensures Valid() && elems == old(elems) + multiset{value}
      ensures InOrder(root) == InsertSorted(old(InOrder(root)), value)
    {
      root := RbInsert.Insert(root, value);
      elems := elems + multiset{value};
    }

    /** Delete: one occurrence of the key leaves; an empty tree or an absent
      key leaves the tree as it is. */
    method Delete(value: int)
      requires Valid()
      modifies this
      ensures Valid() && elems == old(elems) - multiset{value}
      ensures InOrder(root) == RemoveFirst(old(InOrder(root)), value)
      ensures old(root).Nil? || value !in old(elems) ==> root == old(root)
    {
      if root.Nil? {
        return;
      }
      var r := RbDelete.Delete(root, value, false);
      RemoveFirstMultiset(InOrder(root), value);
      assert multiset(InOrder(r)) == elems - multiset{value};
      root, elems := r, elems - multiset{value};
    }

    /** IsEmpty: the root is nil exactly when no key is held. */
    function IsEmpty(): (b: bool)
      reads this
      requires Valid()
      ensures b <==> elems == multiset{}
    {
      root.Nil?
    }

    /** FromSlice: the values are inserted one by one, in order. */
    method FromSlice(slice: seq<int>)
      requires Valid()
      modifies this
      ensures Valid() && elems == old(elems) + multiset(slice)
      ensures InOrder(root) == InsertAll(old(InOrder(root)), slice)
    {
      if |slice| == 0 {
        return;
      }
      InsertEach(slice);
    }

    /** ToSlice: the keys in ascending order; it is the sorted arrangement
      of the keys held. The node walk it starts at the root has no nil
      check, so an empty tree panics: that case is excluded here. */
    function ToSlice(): (s: seq<int>)
      reads this
      requires Valid() && !IsEmpty()
      ensures Sorted(s) && multiset(s) == elems
    {
      InOrder(root)
    }
  }

  /** Two valid trees holding the same keys give the same ToSlice, whatever
      their shapes: ToSlice is the sorted arrangement of the keys. */
  lemma ToSliceDeterminedByKeys(a: RBT, b: RBT)
    requires a.Valid() && b.Valid() && a.elems == b.elems && a.elems != multiset{}
    ensures a.ToSlice() == b.ToSlice()
  {
    SortedUnique(a.ToSlice(), b.ToSlice());
  }
}
