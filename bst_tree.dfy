/** The plain binary search tree object (tree/BST_tree.go, type BST): a
    root that the operations replace, and the read-only walks Search, Min
    and Max. */
module BstTree {
  import opened Sequences
  import opened BstNode

  class BST {
    var root: Tree
    /** The keys held, with their multiplicities. */
    ghost var elems: multiset<int>

    /** The keys are in order and are those of elems. */
    ghost predicate Valid()
      reads this
    {
      Ordered(root) && multiset(InOrder(root)) == elems
    }

    /** NewBST: with no values an empty tree; otherwise Insert of the first
        value followed by the rest. */
    constructor NewBST(nodes: seq<int>)
      ensures Valid() && elems == multiset(nodes)
      ensures InOrder(root) == InsertAll([], nodes)
    {
      root := Nil;
      elems := multiset{};
      new;
      if |nodes| > 0 {
        assert nodes == [nodes[0]] + nodes[1..];
        Insert(nodes[0], nodes[1..]);
      }
    }

    /** Insert(node, nodes...): the first key becomes the root of an empty
        tree or is inserted below the root, then the others are inserted one
        by one, in order. */
    method Insert(node: int, nodes: seq<int>)
      requires Valid()
      modifies this
      ensures Valid() && elems == old(elems) + multiset{node} + multiset(nodes)
      ensures InOrder(root) == InsertAll(old(InOrder(root)), [node] + nodes)
    {
      ghost var before := InOrder(root);
      InsertFirst(node);
      assert InsertAll(before, [node] + nodes) == InsertAll(InsertSorted(before, node), nodes) by {
        assert ([node] + nodes)[1..] == nodes;
      }
      InsertEach(nodes);
    }

    /** The first key of Insert: the root of an empty tree, or inserted below
        the root. */
    method InsertFirst(node: int)
      requires Valid()
      modifies this
      ensures Valid() && elems == old(elems) + multiset{node}
      ensures InOrder(root) == InsertSorted(old(InOrder(root)), node)
    {
      if root.Nil? {
        root := Node(Nil, node, Nil);
        elems := elems + multiset{node};
        assert InOrder(root) == [node];
      } else {
        assert InOrder(root) == InOrder(root.left) + [root.value] + InOrder(root.right);
        InsertBelowRoot(node);
      }
    }

    /** The loop of Insert: the remaining keys are inserted below the
        (non-nil) root one by one, in order. */
    method InsertEach(nodes: seq<int>)
      requires Valid() && elems != multiset{}
      modifies this
      ensures Valid() && elems == old(elems) + multiset(nodes)
      ensures InOrder(root) == InsertAll(old(InOrder(root)), nodes)
    {
      var i := 0;
      while i < |nodes|
        invariant 0 <= i <= |nodes|
        invariant Valid() && elems != multiset{}
        invariant InsertAll(InOrder(root), nodes[i..]) == InsertAll(old(InOrder(root)), nodes)
      {
        InsertAllStep(InOrder(root), nodes, i);
        InsertBelowRoot(nodes[i]);
        i := i + 1;
      }
      assert nodes[i..] == [];
    }

    /** One step of Insert's loop: the key is inserted below the root. */
    method InsertBelowRoot(v: int)
      requires Valid() && elems != multiset{}
      modifies this
      ensures Valid() && elems == old(elems) + multiset{v}
      ensures InOrder(root) == InsertSorted(old(InOrder(root)), v)
    {
      InsertOrder(root, v);
      InsertSortedSorted(InOrder(root), v);
      root := BstNode.Insert(root, v);
      elems := elems + multiset{v};
    }

    /** Delete: nothing happens on an empty tree; otherwise the root becomes
        the result of delete, with the right step of its walk corrected. */
    method Delete(node: int)
      requires Valid()
      modifies this
      ensures Valid() && elems == old(elems) - multiset{node}
      ensures InOrder(root) == RemoveFirst(old(InOrder(root)), node)
    {
      if root.Nil? {
        return;
      }
      var r := BstNode.Delete(root, node, false);
      RemoveFirstMultiset(InOrder(root), node);
      assert multiset(InOrder(r)) == elems - multiset{node};
      root, elems := r, elems - multiset{node};
    }

    /** Clear: the tree becomes empty. */
    method Clear()
      modifies this
      ensures Valid() && root == Nil && elems == multiset{}
    {
      root := Nil;
      elems := multiset{};
    }

    /** IsEmpty: the root is nil exactly when no key is held. */
    function IsEmpty(): (b: bool)
      reads this
      requires Valid()
      ensures b <==> elems == multiset{}
    {
      root.Nil?
    }

    /** ToSlice: the keys in ascending order, the sorted arrangement of the
        keys held. */
    function ToSlice(): (s: seq<int>)
      reads this
      requires Valid()
      ensures Sorted(s) && multiset(s) == elems
    {
      InOrder(root)
    }

    /** FromSlice: nothing for no values, otherwise Insert of them all. */
    method FromSlice(nodes: seq<int>)
      requires Valid()
      modifies this
      ensures Valid() && elems == old(elems) + multiset(nodes)
      ensures InOrder(root) == InsertAll(old(InOrder(root)), nodes)
    {
      if |nodes| == 0 {
        return;
      }
      assert nodes == [nodes[0]] + nodes[1..];
      Insert(nodes[0], nodes[1..]);
    }

    /** Search: walk down from the root, left past a larger key and right
        past a smaller one, until the key or nil is met. The answer is
        whether the key is held. */
    method Search(node: int) returns (found: bool)
      requires Valid()
      ensures found <==> node in elems
    {
      var p := root;
      while p.Node?
        invariant Sorted(InOrder(p))
        invariant node in InOrder(root) <==> node in InOrder(p)
        decreases p
      {
        SortedParts(InOrder(p.left), p.value, InOrder(p.right));
        if node < p.value {
          p := p.left;
        } else if node > p.value {
          p := p.right;
        } else {
          return true;
        }
      }
      return false;
    }

    /** Min: the leftmost key, the first of ToSlice and a lower bound of all
        the keys; an empty tree is a panic in the source. */
    method Min() returns (m: int)
      requires Valid() && !IsEmpty()
      ensures ToSlice() != [] && m == ToSlice()[0]
      ensures m in elems && forall x :: x in elems ==> m <= x
    {
      var p := root;
      while p.left.Node?
        invariant p.Node? && InOrder(p) != [] && InOrder(p)[0] == InOrder(root)[0]
        decreases p
      {
        assert InOrder(p) == InOrder(p.left) + ([p.value] + InOrder(p.right));
        p := p.left;
      }
      m := p.value;
      FirstIsLeast(InOrder(root));
    }

    /** Max: the rightmost key, the last of ToSlice and an upper bound of all
        the keys; an empty tree is a panic in the source. */
    method Max() returns (m: int)
      requires Valid() && !IsEmpty()
      ensures ToSlice() != [] && m == ToSlice()[|ToSlice()| - 1]
      ensures m in elems && forall x :: x in elems ==> x <= m
    {
      var p := root;
      while p.right.Node?
        invariant p.Node? && InOrder(p) != []
        invariant InOrder(p)[|InOrder(p)| - 1] == InOrder(root)[|InOrder(root)| - 1]
        decreases p
      {
        assert InOrder(p) == (InOrder(p.left) + [p.value]) + InOrder(p.right);
        p := p.right;
      }
      m := p.value;
      LastIsGreatest(InOrder(root));
    }
  }

  /** The first element of a non-empty sorted sequence is its least. */
  lemma FirstIsLeast(s: seq<int>)
    requires Sorted(s) && s != []
    ensures forall x :: x in multiset(s) ==> s[0] <= x
  {
    forall x | x in multiset(s) ensures s[0] <= x {
      var i :| 0 <= i < |s| && s[i] == x;
    }
  }

  /** The last element of a non-empty sorted sequence is its greatest. */
  lemma LastIsGreatest(s: seq<int>)
    requires Sorted(s) && s != []
    ensures forall x :: x in multiset(s) ==> x <= s[|s| - 1]
  {
    forall x | x in multiset(s) ensures x <= s[|s| - 1] {
      var i :| 0 <= i < |s| && s[i] == x;
    }
  }

  /** Two valid trees holding the same keys give the same ToSlice, whatever
      their shapes. */
  lemma ToSliceDeterminedByKeys(a: BST, b: BST)
    requires a.Valid() && b.Valid() && a.elems == b.elems
    ensures a.ToSlice() == b.ToSlice()
  {
    SortedUnique(a.ToSlice(), b.ToSlice());
  }
}
