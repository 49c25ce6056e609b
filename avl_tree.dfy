/** The AVL tree object (tree/AVL_tree.go, type AVL): a root that the
    operations replace. */
module AvlTree {
  import opened Sequences
  import opened AvlNode

  class AVL {
    var root: Tree
    /** The keys held, with their multiplicities. */
    ghost var elems: multiset<int>

    /** The keys are in order, every node meets the AVL condition and
        stores its true balance factor, and elems are the keys. */
    ghost predicate Valid()
      reads this
    {
      Sorted(InOrder(root)) && Balanced(root) && Stored(root) &&
      multiset(InOrder(root)) == elems
    }

    /** NewAVL: an empty tree into which the values are inserted one by
        one. */
    constructor NewAVL(nodes: seq<int>)
      ensures Valid() && elems == multiset(nodes)
      ensures InOrder(root) == InsertAll([], nodes)
    {
      root := Nil;
      elems := multiset{};
      new;
      InsertEach(nodes);
    }

    /** The loop of NewAVL and FromSlice. */
    method InsertEach(nodes: seq<int>)
      requires Valid()
      modifies this
      ensures Valid() && elems == old(elems) + multiset(nodes)
      ensures InOrder(root) == InsertAll(old(InOrder(root)), nodes)
    {
      ghost var start := InOrder(root);
      var i := 0;
      while i < |nodes|
        invariant 0 <= i <= |nodes|
        invariant Valid()
        invariant InsertAll(InOrder(root), nodes[i..]) == InsertAll(start, nodes)
      {
        InsertAllStep(InOrder(root), nodes, i);
        Insert(nodes[i]);
        i := i + 1;
      }
      assert nodes[i..] == [];
    }

    /** Insert: the key joins after the keys equal to it and the tree stays
        an AVL tree. */
    method Insert(node: int)
      requires Valid()
      modifies this
      ensures Valid() && elems == old(elems) + multiset{node}
      ensures InOrder(root) == InsertSorted(old(InOrder(root)), node)
      ensures Height(old(root)) <= Height(root) <= Height(old(root)) + 1
    {
      InsertOrder(root, node);
      InsertSortedSorted(InOrder(root), node);
      InsertBalanced(root, node);
      InsertStored(root, node);
      root := AvlNode.Insert(root, node);
      elems := elems + multiset{node};
    }

    /** Delete: one occurrence of the key leaves (nothing happens when it is
        absent), with the corrected rebalancing test. */
    method Delete(node: int)
      requires Valid()
      modifies this
      ensures Valid() && elems == old(elems) - multiset{node}
      ensures InOrder(root) == RemoveFirst(old(InOrder(root)), node)
      ensures Height(old(root)) - 1 <= Height(root) <= Height(old(root))
    {
      var r := AvlNode.Delete(root, node, false);
      DeleteOrder(root, node, false);
      RemoveFirstSorted(InOrder(root), node);
      DeleteBalanced(root, node);
      DeleteStored(root, node, false);
      RemoveFirstMultiset(InOrder(root), node);
      assert multiset(InOrder(r)) == elems - multiset{node};
      root, elems := r, elems - multiset{node};
    }

    /** Clear: the tree becomes empty. */
    method Clear()
      modifies this
      ensures Valid() && root == Nil && elems == multiset{}
    {
      root := Nil;
      elems := multiset{};
    }

    /** FromSlice: nothing for no values, otherwise they are inserted one by
        one, in order. */
    method FromSlice(nodes: seq<int>)
      requires Valid()
      modifies this
      ensures Valid() && elems == old(elems) + multiset(nodes)
      ensures InOrder(root) == InsertAll(old(InOrder(root)), nodes)
    {
      if |nodes| == 0 {
        return;
      }
      InsertEach(nodes);
    }

    /** ToSlice: the keys in ascending order, the sorted arrangement of the
        keys held. */
    function ToSlice(): (s: seq<int>)
      reads this
      requires Valid()
      ensures Sorted(s) && multiset(s) == elems
    {
      InOrder(root)
    }

    /** IsEmpty: the root is nil exactly when no key is held. */
    function IsEmpty(): (b: bool)
      reads this
      requires Valid()
      ensures b <==> elems == multiset{}
    {
      root.Nil?
    }

    /** RootValue: -1 for an empty tree, otherwise the key at the root, which
        is one of the keys held. */
    function RootValue(): (v: int)
      reads this
      requires Valid()
      ensures elems == multiset{} ==> v == -1
      ensures elems != multiset{} ==> v in elems
    {
      if IsEmpty() then -1 else root.value
    }
  }
}
