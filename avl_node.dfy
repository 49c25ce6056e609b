/** The nodes of the AVL tree (tree/AVL_tree.go, type avlnode): recursive
    insertion and deletion that rebalance each node on the way back up
    (adjust), the four rotations, and deletemin. A node is owned by exactly
    one parent, so the tree is a value and every call that returns the new
    subtree returns it rebuilt. */
module AvlNode {
  import opened Sequences

  /** A node stores its key and a balance factor, which adjust and the
      rotations set to the height of the left subtree minus that of the
      right one. */
  datatype Tree = Nil | Node(left: Tree, value: int, right: Tree, balance: int)

  function Max(a: nat, b: nat): nat {
    if a > b then a else b
  }

  /** height: 0 for nil, otherwise one more than the taller subtree. */
  function Height(t: Tree): (h: nat)
    ensures h == 0 <==> t.Nil?
    ensures h <= |InOrder(t)|
  {
    if t.Nil? then 0 else 1 + Max(Height(t.left), Height(t.right))
  }

  /** The keys in order (inOrder, which appends to a slice). */
  function InOrder(t: Tree): seq<int> {
    if t.Nil? then [] else InOrder(t.left) + [t.value] + InOrder(t.right)
  }

  /** The AVL condition: at every node the two subtrees' heights differ by
      at most one. */
  predicate Balanced(t: Tree) {
    t.Nil? ||
    (Balanced(t.left) && Balanced(t.right) && -1 <= Height(t.left) - Height(t.right) <= 1)
  }

  /** Every node's balance field holds its true balance factor. */
  predicate Stored(t: Tree) {
    t.Nil? ||
    (Stored(t.left) && Stored(t.right) && t.balance == Height(t.left) - Height(t.right))
  }

  /** A node whose balance field is computed from its children. */
  function Make(l: Tree, v: int, r: Tree): Tree {
    Node(l, v, r, Height(l) - Height(r))
  }

  /** left_single_spin: the right child comes up, the node becomes its left
      child and takes over its left subtree; both balance fields are
      recomputed. */
  function LeftSpin(t: Tree): (r: Tree)
    requires t.Node? && t.right.Node?
    ensures r.Node? && r.left.Node?
    ensures InOrder(r) == InOrder(t)
  {
    var p := t.right;
    var r := Make(Make(t.left, t.value, p.left), p.value, p.right);
    assert InOrder(r) == InOrder(t.left) + [t.value] + (InOrder(p.left) + [p.value] + InOrder(p.right));
    r
  }

  /** right_single_spin: the mirror image of LeftSpin. */
  function RightSpin(t: Tree): (r: Tree)
    requires t.Node? && t.left.Node?
    ensures r.Node? && r.right.Node?
    ensures InOrder(r) == InOrder(t)
  {
    var p := t.left;
    var r := Make(p.left, p.value, Make(p.right, t.value, t.right));
    assert InOrder(t) == InOrder(p.left) + [p.value] + (InOrder(p.right) + [t.value] + InOrder(t.right));
    r
  }

  /** left_right_double_spin: a left rotation at the left child, then a
      right rotation at the node. */
  function LeftRightSpin(t: Tree): (r: Tree)
    requires t.Node? && t.left.Node? && t.left.right.Node?
    ensures InOrder(r) == InOrder(t)
  {
    RightSpin(t.(left := LeftSpin(t.left)))
  }

  /** right_left_double_spin: a right rotation at the right child, then a
      left rotation at the node. */
  function RightLeftSpin(t: Tree): (r: Tree)
    requires t.Node? && t.right.Node? && t.right.left.Node?
    ensures InOrder(r) == InOrder(t)
  {
    LeftSpin(t.(right := RightSpin(t.right)))
  }

  /** The test adjust makes when the left subtree l is two levels taller
      than the right one: a single right rotation when l's outer subtree is
      taller (asWritten), or at least as tall (the corrected test). */
  predicate OuterLeft(l: Tree, asWritten: bool)
    requires l.Node?
  {
    if asWritten then Height(l.left) > Height(l.right) else Height(l.left) >= Height(l.right)
  }

  /** The mirror test when the right subtree r is two levels taller. */
  predicate OuterRight(r: Tree, asWritten: bool)
    requires r.Node?
  {
    if asWritten then Height(r.right) > Height(r.left) else Height(r.right) >= Height(r.left)
  }

  /** adjust: the balance field is recomputed; a balance of 2 or -2 is
      repaired by a single or a double rotation. */
  function Adjust(t: Tree, asWritten: bool): (r: Tree)
    ensures t.Node? ==> r.Node?
    ensures InOrder(r) == InOrder(t)
  {
    if t.Nil? then t
    else
      var b := Height(t.left) - Height(t.right);
      var n := t.(balance := b);
      if b == 2 then
        if OuterLeft(n.left, asWritten) then RightSpin(n) else LeftRightSpin(n)
      else if b == -2 then
        if OuterRight(n.right, asWritten) then LeftSpin(n) else RightLeftSpin(n)
      else n
  }

  /** insert: a new leaf for nil; otherwise a key smaller than the node's
      goes left and any other key right, and the node is adjusted. */
  function Insert(t: Tree, v: int): (r: Tree)
    ensures r.Node?
  {
    if t.Nil? then Node(Nil, v, Nil, 0)
    else if v < t.value then Adjust(t.(left := Insert(t.left, v)), true)
    else Adjust(t.(right := Insert(t.right, v)), true)
  }

  /** deletemin, called on a non-nil node: the leftmost node (min) is cut
      out with its right link cleared, and the nodes above it are adjusted
      on the way back. The result is the remaining subtree and min. */
  function DeleteMin(t: Tree, asWritten: bool): (r: (Tree, Tree))
    requires t.Node?
    ensures r.1.Node? && r.1.left.Nil? && r.1.right.Nil?
    ensures InOrder(t) == [r.1.value] + InOrder(r.0)
  {
    if t.left.Nil? then (t.right, t.(right := Nil))
    else
      var (node, min) := DeleteMin(t.left, asWritten);
      var r := (Adjust(t.(left := node), asWritten), min);
      assert InOrder(t) == [min.value] + (InOrder(node) + [t.value] + InOrder(t.right));
      r
  }

  /** delete: search by key; a node with two children is replaced by the
      minimum of its right subtree (which takes both subtrees), a node with
      one child by that child, a leaf by nil; every node on the way back is
      adjusted. */
  function Delete(t: Tree, v: int, asWritten: bool): (r: Tree)
    ensures |InOrder(r)| <= |InOrder(t)|
  {
    if t.Nil? then Nil
    else if v < t.value then Adjust(t.(left := Delete(t.left, v, asWritten)), asWritten)
    else if v > t.value then Adjust(t.(right := Delete(t.right, v, asWritten)), asWritten)
    else if t.left.Node? && t.right.Node? then
      var (p, q) := DeleteMin(t.right, asWritten);
      Adjust(q.(left := t.left, right := p), asWritten)
    else if t.left.Node? then t.left
    else t.right
  }

  /** The subtrees of a search tree are search trees. */
  lemma OrderedChildren(t: Tree)
    requires t.Node? && Sorted(InOrder(t))
    ensures Sorted(InOrder(t.left)) && Sorted(InOrder(t.right))
  {
    SortedParts(InOrder(t.left), t.value, InOrder(t.right));
  }

  /** In a tree whose keys are in order, insert places the new key after the
      keys equal to it. */
  lemma {:induction false} InsertOrder(t: Tree, v: int)
    requires Sorted(InOrder(t))
    ensures InOrder(Insert(t, v)) == InsertSorted(InOrder(t), v)
  {
    if t.Node? {
      OrderedChildren(t);
      if v < t.value {
        InsertOrder(t.left, v);
        InsertSortedBefore(InOrder(t.left), t.value, InOrder(t.right), v);
      } else {
        InsertOrder(t.right, v);
        InsertAfterPivot(InOrder(t.left), t.value, InOrder(t.right), v);
      }
    }
  }

  /** In a tree whose keys are in order, delete takes out one occurrence of
      the key, whichever way the rebalancing test is written. */
  lemma {:induction false} DeleteOrder(t: Tree, v: int, asWritten: bool)
    requires Sorted(InOrder(t))
    ensures InOrder(Delete(t, v, asWritten)) == RemoveFirst(InOrder(t), v)
  {
    if t.Node? {
      OrderedChildren(t);
      if v < t.value {
        DeleteOrder(t.left, v, asWritten);
        DeleteLeftStep(t, v, asWritten);
      } else if v > t.value {
        DeleteOrder(t.right, v, asWritten);
        DeleteRightStep(t, v, asWritten);
      } else {
        DeleteHereOrder(t, asWritten);
      }
    }
  }

  /** Helper for DeleteOrder: a key smaller than the node's. */
  lemma DeleteLeftStep(t: Tree, v: int, asWritten: bool)
    requires t.Node? && Sorted(InOrder(t)) && v < t.value
    requires InOrder(Delete(t.left, v, asWritten)) == RemoveFirst(InOrder(t.left), v)
    ensures InOrder(Delete(t, v, asWritten)) == RemoveFirst(InOrder(t), v)
  {
    var c := Delete(t.left, v, asWritten);
    assert Delete(t, v, asWritten) == Adjust(t.(left := c), asWritten);
    assert InOrder(t.(left := c)) == InOrder(c) + [t.value] + InOrder(t.right);
    RemoveBelowPivot(InOrder(t.left), t.value, InOrder(t.right), v);
  }

  /** Helper for DeleteOrder: a key greater than the node's. */
  lemma DeleteRightStep(t: Tree, v: int, asWritten: bool)
    requires t.Node? && Sorted(InOrder(t)) && v > t.value
    requires InOrder(Delete(t.right, v, asWritten)) == RemoveFirst(InOrder(t.right), v)
    ensures InOrder(Delete(t, v, asWritten)) == RemoveFirst(InOrder(t), v)
  {
    var c := Delete(t.right, v, asWritten);
    assert Delete(t, v, asWritten) == Adjust(t.(right := c), asWritten);
    assert InOrder(t.(right := c)) == InOrder(t.left) + [t.value] + InOrder(c);
    RemoveAbovePivot(InOrder(t.left), t.value, InOrder(t.right), v);
  }

  /** Helper for DeleteOrder: the node holding the key is the one removed. */
  lemma DeleteHereOrder(t: Tree, asWritten: bool)
    requires t.Node? && Sorted(InOrder(t))
    ensures InOrder(Delete(t, t.value, asWritten)) == RemoveFirst(InOrder(t), t.value)
  {
    var l, r := InOrder(t.left), InOrder(t.right);
    RemovePivot(InOrder(t), l, t.value, r);
    if t.left.Node? && t.right.Node? {
      var (p, q) := DeleteMin(t.right, asWritten);
      assert Delete(t, t.value, asWritten) == Adjust(q.(left := t.left, right := p), asWritten);
      assert InOrder(q.(left := t.left, right := p)) == l + [q.value] + InOrder(p);
      assert l + ([q.value] + InOrder(p)) == l + [q.value] + InOrder(p);
    } else if t.left.Node? {
      assert r == [];
      assert l + r == l;
    } else {
      assert l == [];
      assert l + r == r;
    }
  }

  /** The rotations and adjust store the true balance factor in every node
      they build. */
  lemma AdjustStored(t: Tree, asWritten: bool)
    requires t.Node? && Stored(t.left) && Stored(t.right)
    ensures Stored(Adjust(t, asWritten))
  {
    var b := Height(t.left) - Height(t.right);
    var n := t.(balance := b);
    if b == 2 {
      if OuterLeft(n.left, asWritten) {
        RightSpinStored(n);
      } else {
        LeftSpinStored(n.left);
        RightSpinStored(n.(left := LeftSpin(n.left)));
      }
    } else if b == -2 {
      if OuterRight(n.right, asWritten) {
        LeftSpinStored(n);
      } else {
        RightSpinStored(n.right);
        LeftSpinStored(n.(right := RightSpin(n.right)));
      }
    }
  }

  lemma LeftSpinStored(t: Tree)
    requires t.Node? && t.right.Node? && Stored(t.left) && Stored(t.right)
    ensures Stored(LeftSpin(t))
  {
  }

  lemma RightSpinStored(t: Tree)
    requires t.Node? && t.left.Node? && Stored(t.left) && Stored(t.right)
    ensures Stored(RightSpin(t))
  {
  }

  /** insert keeps every balance field true. */
  lemma {:induction false} InsertStored(t: Tree, v: int)
    requires Stored(t)
    ensures Stored(Insert(t, v))
  {
    if t.Node? {
      if v < t.value {
        InsertStored(t.left, v);
        AdjustStored(t.(left := Insert(t.left, v)), true);
      } else {
        InsertStored(t.right, v);
        AdjustStored(t.(right := Insert(t.right, v)), true);
      }
    }
  }

  /** deletemin keeps every balance field of the remaining subtree true. */
  lemma {:induction false} DeleteMinStored(t: Tree, asWritten: bool)
    requires t.Node? && Stored(t)
    ensures Stored(DeleteMin(t, asWritten).0)
  {
    if t.left.Node? {
      var (node, min) := DeleteMin(t.left, asWritten);
      DeleteMinStored(t.left, asWritten);
      AdjustStored(t.(left := node), asWritten);
    }
  }

  /** delete keeps every balance field true. */
  lemma {:induction false} DeleteStored(t: Tree, v: int, asWritten: bool)
    requires Stored(t)
    ensures Stored(Delete(t, v, asWritten))
  {
    if t.Node? {
      if v < t.value {
        DeleteStored(t.left, v, asWritten);
        AdjustStored(t.(left := Delete(t.left, v, asWritten)), asWritten);
      } else if v > t.value {
        DeleteStored(t.right, v, asWritten);
        AdjustStored(t.(right := Delete(t.right, v, asWritten)), asWritten);
      } else if t.left.Node? && t.right.Node? {
        var (p, q) := DeleteMin(t.right, asWritten);
        DeleteMinStored(t.right, asWritten);
        AdjustStored(q.(left := t.left, right := p), asWritten);
      }
    }
  }

  /** The rebalancing test of the source cannot see a tie: at a node two
      levels heavier on one side, the heavier subtree's two subtrees differ
      in height. */
  predicate NoTie(t: Tree)
    requires t.Node?
  {
    (Height(t.left) - Height(t.right) == 2 ==>
       t.left.Node? && Height(t.left.left) != Height(t.left.right)) &&
    (Height(t.left) - Height(t.right) == -2 ==>
       t.right.Node? && Height(t.right.left) != Height(t.right.right))
  }

  /** A single right rotation repairs a node whose left subtree is two
      levels taller with an outer subtree at least as tall as the inner. */
  lemma SingleRight(t: Tree)
    requires t.Node? && t.left.Node? && Balanced(t.left) && Balanced(t.right)
    requires Height(t.left) == Height(t.right) + 2
    requires Height(t.left.left) >= Height(t.left.right)
    ensures Balanced(RightSpin(t))
    ensures Height(RightSpin(t)) == if Height(t.left.left) > Height(t.left.right)
                                    then Height(t.left) else Height(t.left) + 1
  {
    var p := t.left;
    var n := Make(p.right, t.value, t.right);
    assert Height(n) == Height(p.right) + 1;
  }

  /** A right-left rotation pair repairs a node whose left subtree is two
      levels taller with an inner subtree taller than the outer. */
  lemma DoubleRight(t: Tree)
    requires t.Node? && t.left.Node? && Balanced(t.left) && Balanced(t.right)
    requires Height(t.left) == Height(t.right) + 2
    requires Height(t.left.left) < Height(t.left.right)
    ensures t.left.right.Node?
    ensures Balanced(LeftRightSpin(t)) && Height(LeftRightSpin(t)) == Height(t.left)
  {
    var p := t.left;
    var q := p.right;
    var a := Make(p.left, p.value, q.left);
    var b := Make(q.right, t.value, t.right);
    assert Height(q) == Height(t.right) + 1;
    assert Balanced(a) && Height(a) == Height(q);
    assert Balanced(b) && Height(b) == Height(q);
    assert LeftSpin(p) == Make(a, q.value, q.right);
    assert LeftRightSpin(t) == Make(a, q.value, b);
  }

  /** The mirror image of SingleRight. */
  lemma SingleLeft(t: Tree)
    requires t.Node? && t.right.Node? && Balanced(t.left) && Balanced(t.right)
    requires Height(t.right) == Height(t.left) + 2
    requires Height(t.right.right) >= Height(t.right.left)
    ensures Balanced(LeftSpin(t))
    ensures Height(LeftSpin(t)) == if Height(t.right.right) > Height(t.right.left)
                                   then Height(t.right) else Height(t.right) + 1
  {
    var p := t.right;
    var n := Make(t.left, t.value, p.left);
    assert Height(n) == Height(p.left) + 1;
  }

  /** The mirror image of DoubleRight. */
  lemma DoubleLeft(t: Tree)
    requires t.Node? && t.right.Node? && Balanced(t.left) && Balanced(t.right)
    requires Height(t.right) == Height(t.left) + 2
    requires Height(t.right.right) < Height(t.right.left)
    ensures t.right.left.Node?
    ensures Balanced(RightLeftSpin(t)) && Height(RightLeftSpin(t)) == Height(t.right)
  {
    var p := t.right;
    var q := p.left;
    var a := Make(t.left, t.value, q.left);
    var b := Make(q.right, p.value, p.right);
    assert Height(q) == Height(t.left) + 1;
    assert Balanced(a) && Height(a) == Height(q);
    assert Balanced(b) && Height(b) == Height(q);
    assert RightSpin(p) == Make(q.left, q.value, b);
    assert RightLeftSpin(t) == Make(a, q.value, b);
  }

  /** adjust on a node whose subtrees are AVL trees differing in height by
      at most two gives an AVL tree, as tall as the taller subtree or one
      more; with the corrected test always, with the source's test when it
      meets no tie. A repaired node is no taller than its taller subtree
      when there was no tie, and an already balanced one is one taller. */
  lemma AdjustBalanced(t: Tree, asWritten: bool)
    requires t.Node? && Balanced(t.left) && Balanced(t.right)
    requires -2 <= Height(t.left) - Height(t.right) <= 2
    requires asWritten ==> NoTie(t)
    ensures Balanced(Adjust(t, asWritten))
    ensures Max(Height(t.left), Height(t.right)) <= Height(Adjust(t, asWritten))
    ensures Height(Adjust(t, asWritten)) <= Max(Height(t.left), Height(t.right)) + 1
    ensures -1 <= Height(t.left) - Height(t.right) <= 1 ==>
              Height(Adjust(t, asWritten)) == Max(Height(t.left), Height(t.right)) + 1
    ensures NoTie(t) && (Height(t.left) - Height(t.right) == 2 || Height(t.right) - Height(t.left) == 2) ==>
              Height(Adjust(t, asWritten)) == Max(Height(t.left), Height(t.right))
  {
    var b := Height(t.left) - Height(t.right);
    var n := t.(balance := b);
    if b == 2 {
      if OuterLeft(n.left, asWritten) {
        SingleRight(n);
      } else {
        DoubleRight(n);
      }
    } else if b == -2 {
      if OuterRight(n.right, asWritten) {
        SingleLeft(n);
      } else {
        DoubleLeft(n);
      }
    }
  }

  /** insert keeps an AVL tree an AVL tree and makes it at most one level
      taller; when it does grow a non-empty tree, the new root leans to one
      side, which is why the source's test never meets a tie on insert. */
  lemma {:induction false} InsertBalanced(t: Tree, v: int)
    requires Balanced(t)
    ensures Balanced(Insert(t, v))
    ensures Height(t) <= Height(Insert(t, v)) <= Height(t) + 1
    ensures Height(Insert(t, v)) == Height(t) + 1 && Height(t) >= 1 ==>
              Height(Insert(t, v).left) != Height(Insert(t, v).right)
  {
    if t.Node? {
      if v < t.value {
        InsertBalanced(t.left, v);
        InsertLeftBalanced(t, Insert(t.left, v));
      } else {
        InsertBalanced(t.right, v);
        InsertRightBalanced(t, Insert(t.right, v));
      }
    }
  }

  /** Helper for InsertBalanced: the left subtree replaced by the result of
      an insert into it, then adjusted as the source does. */
  lemma InsertLeftBalanced(t: Tree, c: Tree)
    requires t.Node? && Balanced(t) && c.Node? && Balanced(c)
    requires Height(t.left) <= Height(c) <= Height(t.left) + 1
    requires Height(c) == Height(t.left) + 1 && Height(t.left) >= 1 ==> Height(c.left) != Height(c.right)
    ensures Balanced(Adjust(t.(left := c), true))
    ensures Height(t) <= Height(Adjust(t.(left := c), true)) <= Height(t) + 1
    ensures Height(Adjust(t.(left := c), true)) == Height(t) + 1 ==>
              Height(Adjust(t.(left := c), true).left) != Height(Adjust(t.(left := c), true).right)
  {
    AdjustBalanced(t.(left := c), true);
  }

  /** Helper for InsertBalanced: the mirror image of InsertLeftBalanced. */
  lemma InsertRightBalanced(t: Tree, c: Tree)
    requires t.Node? && Balanced(t) && c.Node? && Balanced(c)
    requires Height(t.right) <= Height(c) <= Height(t.right) + 1
    requires Height(c) == Height(t.right) + 1 && Height(t.right) >= 1 ==> Height(c.left) != Height(c.right)
    ensures Balanced(Adjust(t.(right := c), true))
    ensures Height(t) <= Height(Adjust(t.(right := c), true)) <= Height(t) + 1
    ensures Height(Adjust(t.(right := c), true)) == Height(t) + 1 ==>
              Height(Adjust(t.(right := c), true).left) != Height(Adjust(t.(right := c), true).right)
  {
    AdjustBalanced(t.(right := c), true);
  }

  /** deletemin with the corrected test keeps an AVL tree an AVL tree and
      makes it at most one level lower. */
  lemma {:induction false} DeleteMinBalanced(t: Tree)
    requires t.Node? && Balanced(t)
    ensures Balanced(DeleteMin(t, false).0)
    ensures Height(t) - 1 <= Height(DeleteMin(t, false).0) <= Height(t)
  {
    if t.left.Node? {
      DeleteMinBalanced(t.left);
      ShrinkLeftBalanced(t, DeleteMin(t.left, false).0);
    }
  }

  /** delete with the corrected test keeps an AVL tree an AVL tree and
      makes it at most one level lower. */
  lemma {:induction false} DeleteBalanced(t: Tree, v: int)
    requires Balanced(t)
    ensures Balanced(Delete(t, v, false))
    ensures Height(t) - 1 <= Height(Delete(t, v, false)) <= Height(t)
  {
    if t.Node? {
      if v < t.value {
        DeleteBalanced(t.left, v);
        ShrinkLeftBalanced(t, Delete(t.left, v, false));
      } else if v > t.value {
        DeleteBalanced(t.right, v);
        ShrinkRightBalanced(t, Delete(t.right, v, false));
      } else if t.left.Node? && t.right.Node? {
        var (p, q) := DeleteMin(t.right, false);
        DeleteMinBalanced(t.right);
        var t' := Node(t.left, q.value, t.right, q.balance);
        assert t'.(right := p) == q.(left := t.left, right := p);
        ShrinkRightBalanced(t', p);
      }
    }
  }

  /** Helper for the deletions: the left subtree replaced by an AVL tree at
      most one level lower, then adjusted with the corrected test. */
  lemma ShrinkLeftBalanced(t: Tree, c: Tree)
    requires t.Node? && Balanced(t) && Balanced(c)
    requires Height(t.left) - 1 <= Height(c) <= Height(t.left)
    ensures Balanced(Adjust(t.(left := c), false))
    ensures Height(t) - 1 <= Height(Adjust(t.(left := c), false)) <= Height(t)
  {
    AdjustBalanced(t.(left := c), false);
  }

  /** Helper for the deletions: the mirror image of ShrinkLeftBalanced. */
  lemma ShrinkRightBalanced(t: Tree, c: Tree)
    requires t.Node? && Balanced(t) && Balanced(c)
    requires Height(t.right) - 1 <= Height(c) <= Height(t.right)
    ensures Balanced(Adjust(t.(right := c), false))
    ensures Height(t) - 1 <= Height(Adjust(t.(right := c), false)) <= Height(t)
  {
    AdjustBalanced(t.(right := c), false);
  }

  /** The AVL tree 7(4(2(1, 3), 5(-, 6)), 9(8, -)), with its balance fields. */
  function Sample(): Tree {
    Node(Node(Node(Node(Nil, 1, Nil, 0), 2, Node(Nil, 3, Nil, 0), 0),
              4,
              Node(Nil, 5, Node(Nil, 6, Nil, 0), -1), 0),
         7,
         Node(Node(Nil, 8, Nil, 0), 9, Nil, 1), 1)
  }

  /** Sample is an AVL tree with its keys in order. */
  lemma SampleValid()
    ensures Balanced(Sample())
    ensures InOrder(Sample()) == [1, 2, 3, 4, 5, 6, 7, 8, 9]
  {
  }

  /** The source's delete of 8 from Sample: 9 loses its only child, so 7
      becomes two levels heavier on the left, where 4's subtrees 2 and 5 are
      equally tall; the source's test picks the double rotation, after which
      4 has subtrees of heights 2 and 0. */
  lemma AsWrittenDeleteStep()
    ensures !Balanced(Delete(Sample(), 8, true))
  {
    var s := Sample();
    assert Delete(s.right, 8, true) == Node(Nil, 9, Nil, 0);
    var n := s.(right := Node(Nil, 9, Nil, 0));
    assert Delete(s, 8, true) == Adjust(n, true);
    assert Height(n.left) == 3 && Height(n.right) == 1;
    assert Height(n.left.left) == 2 && Height(n.left.right) == 2;
    var r := LeftRightSpin(n.(balance := 2));
    assert Adjust(n, true) == r;
    assert Height(r.left.left) == 2 && r.left.right == Nil;
  }

  /** Deleting 8 from the AVL tree Sample leaves a node out of balance with
      the source's test, and gives an AVL tree with the corrected test (a
      single rotation on a tie). */
  lemma AsWrittenDeleteUnbalances()
    ensures Balanced(Sample()) && InOrder(Sample()) == [1, 2, 3, 4, 5, 6, 7, 8, 9]
    ensures !Balanced(Delete(Sample(), 8, true))
    ensures Balanced(Delete(Sample(), 8, false))
  {
    SampleValid();
    AsWrittenDeleteStep();
    DeleteBalanced(Sample(), 8);
  }
}
