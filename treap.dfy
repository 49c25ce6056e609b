/** The nodes of the treap (treap/concurrent_treap.go, type tnode): a
    binary search tree on the keys that is at the same time a min-heap on
    the priorities, kept so by rotations. The priority of a new node, drawn
    at random in the source, is a parameter here. */
module TreapNode {
  import opened Sequences
  import opened Errors

  datatype Tree = Nil | Node(left: Tree, data: int, priority: int, right: Tree)

  /** The keys in order (inOrder, which appends to a slice). */
  function InOrder(t: Tree): seq<int> {
    if t.Nil? then [] else InOrder(t.left) + [t.data] + InOrder(t.right)
  }

  function Size(t: Tree): nat {
    if t.Nil? then 0 else Size(t.left) + 1 + Size(t.right)
  }

  /** Every priority in t is at least b. */
  predicate AtLeast(t: Tree, b: int) {
    t.Nil? || (b <= t.priority && AtLeast(t.left, b) && AtLeast(t.right, b))
  }

  /** The heap order: no node's priority exceeds its children's. */
  predicate HeapOrdered(t: Tree) {
    t.Nil? ||
    (HeapOrdered(t.left) && HeapOrdered(t.right) &&
     (t.left.Nil? || t.priority <= t.left.priority) &&
     (t.right.Nil? || t.priority <= t.right.priority))
  }

  /** left_spin: the right child comes up as the new subtree root and the
      node becomes its left child; keys and priorities are unchanged. */
  function LeftSpin(t: Tree): (r: Tree)
    requires t.Node? && t.right.Node?
    ensures r.Node? && r.data == t.right.data && r.priority == t.right.priority
    ensures InOrder(r) == InOrder(t)
    ensures Size(r) == Size(t)
    ensures forall b :: AtLeast(r, b) <==> AtLeast(t, b)
  {
    var p := t.right;
    var r := Node(Node(t.left, t.data, t.priority, p.left), p.data, p.priority, p.right);
    assert InOrder(r) == InOrder(t.left) + [t.data] + (InOrder(p.left) + [p.data] + InOrder(p.right));
    r
  }

  /** right_spin: the mirror image of LeftSpin. */
  function RightSpin(t: Tree): (r: Tree)
    requires t.Node? && t.left.Node?
    ensures r.Node? && r.data == t.left.data && r.priority == t.left.priority
    ensures InOrder(r) == InOrder(t)
    ensures Size(r) == Size(t)
    ensures forall b :: AtLeast(r, b) <==> AtLeast(t, b)
  {
    var p := t.left;
    var r := Node(p.left, p.data, p.priority, Node(p.right, t.data, t.priority, t.right));
    assert InOrder(t) == InOrder(p.left) + [p.data] + (InOrder(p.right) + [t.data] + InOrder(t.right));
    r
  }

  /** adjust: a left child with a smaller priority is rotated up; failing
      that, a right child with a smaller priority is. */
  function Adjust(t: Tree): (r: Tree)
    requires t.Node?
    ensures r.Node? && InOrder(r) == InOrder(t)
    ensures forall b :: AtLeast(r, b) <==> AtLeast(t, b)
  {
    if t.left.Node? && t.priority > t.left.priority then RightSpin(t)
    else if t.right.Node? && t.priority > t.right.priority then LeftSpin(t)
    else t
  }

  /** insert: a new node with priority pr for nil; otherwise a key smaller
      than the node's goes left and any other key right, and the node is
      adjusted. */
  function Insert(t: Tree, v: int, pr: int): (r: Tree)
    ensures r.Node?
  {
    if t.Nil? then Node(Nil, v, pr, Nil)
    else if v < t.data then Adjust(t.(left := Insert(t.left, v, pr)))
    else Adjust(t.(right := Insert(t.right, v, pr)))
  }

  /** delete, with the step after a rotation corrected: at the node holding
      the key, a node with two children rotates its child of smaller
      priority up (the right child on a tie) and the deletion follows the
      node down into the subtree it was rotated into; a node with at most one
      child is replaced by that child. A larger key is searched on the left,
      a smaller one on the right. */
  function Delete(t: Tree, v: int): (r: Tree)
    ensures Size(r) <= Size(t)
    decreases Size(t)
  {
    if t.Nil? then t
    else if t.data == v then
      if t.left.Node? && t.right.Node? then
        if t.left.priority < t.right.priority then
          var p := RightSpin(t);
          p.(right := Delete(p.right, v))
        else
          var p := LeftSpin(t);
          p.(left := Delete(p.left, v))
      else if t.left.Node? then t.left
      else t.right
    else if t.data > v then t.(left := Delete(t.left, v))
    else t.(right := Delete(t.right, v))
  }

  /** delete as written: after the rotation the deletion starts again from
      the new subtree root. Each call spends one unit of fuel; None means
      the fuel ran out before the recursion ended. */
  function DeleteAsWritten(t: Tree, v: int, fuel: nat): (r: Option<Tree>)
    ensures fuel == 0 ==> r.None?
    decreases fuel
  {
    if fuel == 0 then None
    else if t.Nil? then Some(t)
    else if t.data == v then
      if t.left.Node? && t.right.Node? then
        if t.left.priority < t.right.priority then DeleteAsWritten(RightSpin(t), v, fuel - 1)
        else DeleteAsWritten(LeftSpin(t), v, fuel - 1)
      else if t.left.Node? then Some(t.left)
      else Some(t.right)
    else if t.data > v then
      match DeleteAsWritten(t.left, v, fuel - 1)
      case None => None
      case Some(l) => Some(t.(left := l))
    else
      match DeleteAsWritten(t.right, v, fuel - 1)
      case None => None
      case Some(r) => Some(t.(right := r))
  }

  function Depth(t: Tree): nat {
    if t.Nil? then 0 else 1 + (if Depth(t.left) > Depth(t.right) then Depth(t.left) else Depth(t.right))
  }

  // ---------------------------------------------------------------------
  // Heap order

  /** A lower bound on the priorities holds for any smaller bound. */
  lemma {:induction false} Weaken(t: Tree, b: int, c: int)
    requires AtLeast(t, b) && c <= b
    ensures AtLeast(t, c)
  {
    if t.Node? {
      Weaken(t.left, b, c);
      Weaken(t.right, b, c);
    }
  }

  /** In a heap-ordered tree the root's priority is the least. */
  lemma {:induction false} HeapBound(t: Tree)
    requires HeapOrdered(t) && t.Node?
    ensures AtLeast(t, t.priority)
  {
    if t.left.Node? {
      HeapBound(t.left);
      Weaken(t.left, t.left.priority, t.priority);
    }
    if t.right.Node? {
      HeapBound(t.right);
      Weaken(t.right, t.right.priority, t.priority);
    }
  }

  /** The children of a heap-ordered node have no priority below the
      node's. */
  lemma ChildrenAtLeast(t: Tree)
    requires HeapOrdered(t) && t.Node?
    ensures AtLeast(t.left, t.priority) && AtLeast(t.right, t.priority)
  {
    HeapBound(t);
  }

  /** insert adds the one priority pr: a lower bound of the tree's
      priorities that pr meets still holds. */
  lemma {:induction false} InsertAtLeast(t: Tree, v: int, pr: int, b: int)
    requires AtLeast(t, b) && b <= pr
    ensures AtLeast(Insert(t, v, pr), b)
  {
    if t.Node? {
      if v < t.data {
        InsertAtLeast(t.left, v, pr, b);
      } else {
        InsertAtLeast(t.right, v, pr, b);
      }
    }
  }

  /** A priority below every priority of a heap-ordered tree rises to the
      root on insert, and every other node keeps that bound. */
  lemma {:induction false} InsertBound(t: Tree, v: int, pr: int, b: int)
    requires HeapOrdered(t) && AtLeast(t, b) && pr < b
    ensures Insert(t, v, pr).priority == pr
    ensures AtLeast(Insert(t, v, pr).left, b) && AtLeast(Insert(t, v, pr).right, b)
  {
    if t.Node? {
      if v < t.data {
        InsertBound(t.left, v, pr, b);
        var c := Insert(t.left, v, pr);
        var s := t.(left := c);
        assert Insert(t, v, pr) == RightSpin(s);
        assert RightSpin(s) == Node(c.left, c.data, c.priority, Node(c.right, t.data, t.priority, t.right));
      } else {
        InsertBound(t.right, v, pr, b);
        var c := Insert(t.right, v, pr);
        var s := t.(right := c);
        assert Insert(t, v, pr) == LeftSpin(s);
        assert LeftSpin(s) == Node(Node(t.left, t.data, t.priority, c.left), c.data, c.priority, c.right);
      }
    }
  }

  /** insert keeps the heap order. */
  lemma {:induction false} InsertHeap(t: Tree, v: int, pr: int)
    requires HeapOrdered(t)
    ensures HeapOrdered(Insert(t, v, pr))
  {
    if t.Node? {
      ChildrenAtLeast(t);
      if v < t.data {
        InsertHeap(t.left, v, pr);
        var c := Insert(t.left, v, pr);
        var s := t.(left := c);
        if t.priority > c.priority {
          if pr >= t.priority {
            InsertAtLeast(t.left, v, pr, t.priority);
            assert false;
          }
          InsertBound(t.left, v, pr, t.priority);
          assert Insert(t, v, pr) == RightSpin(s);
          assert RightSpin(s) == Node(c.left, c.data, c.priority, Node(c.right, t.data, t.priority, t.right));
        } else {
          assert Insert(t, v, pr) == s;
        }
      } else {
        InsertHeap(t.right, v, pr);
        var c := Insert(t.right, v, pr);
        var s := t.(right := c);
        if t.priority > c.priority {
          if pr >= t.priority {
            InsertAtLeast(t.right, v, pr, t.priority);
            assert false;
          }
          InsertBound(t.right, v, pr, t.priority);
          assert Insert(t, v, pr) == LeftSpin(s);
          assert LeftSpin(s) == Node(Node(t.left, t.data, t.priority, c.left), c.data, c.priority, c.right);
        } else {
          assert Insert(t, v, pr) == s;
        }
      }
    }
  }

  /** delete only takes nodes away, so a lower bound on the priorities
      still holds; when the key is at the root, the root's own priority
      need not meet the bound. */
  lemma {:induction false} DeleteAtLeast(t: Tree, v: int, b: int)
    requires AtLeast(t, b) || (t.Node? && t.data == v && AtLeast(t.left, b) && AtLeast(t.right, b))
    ensures AtLeast(Delete(t, v), b)
    decreases Size(t)
  {
    if t.Node? {
      if t.data == v {
        if t.left.Node? && t.right.Node? {
          if t.left.priority < t.right.priority {
            var p := RightSpin(t);
            assert p.right == Node(t.left.right, t.data, t.priority, t.right);
            DeleteAtLeast(p.right, v, b);
          } else {
            var p := LeftSpin(t);
            assert p.left == Node(t.left, t.data, t.priority, t.right.left);
            DeleteAtLeast(p.left, v, b);
          }
        }
      } else if t.data > v {
        DeleteAtLeast(t.left, v, b);
      } else {
        DeleteAtLeast(t.right, v, b);
      }
    }
  }

  /** After a right rotation at the node holding the key, the subtree the
      deletion continues in is heap-ordered and what it leaves has no
      priority below the risen left child's. */
  lemma RightRotatedPart(t: Tree, v: int)
    requires HeapOrdered(t) && t.Node? && t.left.Node? && t.right.Node? && t.data == v
    requires t.left.priority < t.right.priority
    ensures HeapOrdered(RightSpin(t).right)
    ensures AtLeast(Delete(RightSpin(t).right, v), t.left.priority)
  {
    var l := t.left;
    var q := RightSpin(t).right;
    assert q == Node(l.right, t.data, t.priority, t.right);
    ChildrenAtLeast(t);
    ChildrenAtLeast(l);
    HeapBound(t.right);
    Weaken(t.right, t.right.priority, l.priority);
    DeleteAtLeast(q, v, l.priority);
  }

  /** The mirror of RightRotatedPart, after a left rotation. */
  lemma LeftRotatedPart(t: Tree, v: int)
    requires HeapOrdered(t) && t.Node? && t.left.Node? && t.right.Node? && t.data == v
    requires t.left.priority >= t.right.priority
    ensures HeapOrdered(LeftSpin(t).left)
    ensures AtLeast(Delete(LeftSpin(t).left, v), t.right.priority)
  {
    var r := t.right;
    var q := LeftSpin(t).left;
    assert q == Node(t.left, t.data, t.priority, r.left);
    ChildrenAtLeast(t);
    ChildrenAtLeast(r);
    HeapBound(t.left);
    Weaken(t.left, t.left.priority, r.priority);
    DeleteAtLeast(q, v, r.priority);
  }

  /** delete keeps the heap order. */
  lemma {:induction false} DeleteHeap(t: Tree, v: int)
    requires HeapOrdered(t)
    ensures HeapOrdered(Delete(t, v))
    decreases Size(t)
  {
    if t.Node? {
      ChildrenAtLeast(t);
      if t.data == v {
        if t.left.Node? && t.right.Node? {
          if t.left.priority < t.right.priority {
            var p := RightSpin(t);
            assert p.left == t.left.left;
            RightRotatedPart(t, v);
            DeleteHeap(p.right, v);
          } else {
            var p := LeftSpin(t);
            assert p.right == t.right.right;
            LeftRotatedPart(t, v);
            DeleteHeap(p.left, v);
          }
        }
      } else if t.data > v {
        DeleteHeap(t.left, v);
        DeleteAtLeast(t.left, v, t.priority);
      } else {
        DeleteHeap(t.right, v);
        DeleteAtLeast(t.right, v, t.priority);
      }
    }
  }

  // ---------------------------------------------------------------------
  // Key order

  lemma OrderedChildren(t: Tree)
    requires t.Node? && Sorted(InOrder(t))
    ensures Sorted(InOrder(t.left)) && Sorted(InOrder(t.right))
  {
    SortedParts(InOrder(t.left), t.data, InOrder(t.right));
  }

  /** In a treap whose keys are in order, insert places the new key after
      the keys equal to it. */
  lemma {:induction false} InsertOrder(t: Tree, v: int, pr: int)
    requires Sorted(InOrder(t))
    ensures InOrder(Insert(t, v, pr)) == InsertSorted(InOrder(t), v)
  {
    if t.Node? {
      OrderedChildren(t);
      if v < t.data {
        InsertOrder(t.left, v, pr);
        InsertSortedBefore(InOrder(t.left), t.data, InOrder(t.right), v);
      } else {
        InsertOrder(t.right, v, pr);
        InsertAfterPivot(InOrder(t.left), t.data, InOrder(t.right), v);
      }
    }
  }

  /** delete of a key that is not held returns the tree unchanged. */
  lemma {:induction false} DeleteAbsent(t: Tree, v: int)
    requires v !in InOrder(t)
    ensures Delete(t, v) == t
  {
    if t.Node? {
      DeleteAbsent(t.left, v);
      DeleteAbsent(t.right, v);
    }
  }

  /** The same for delete as written, given fuel for one call per level. */
  lemma {:induction false} AsWrittenDeleteAbsent(t: Tree, v: int, fuel: nat)
    requires v !in InOrder(t) && fuel > Depth(t)
    ensures DeleteAsWritten(t, v, fuel) == Some(t)
  {
    if t.Node? {
      AsWrittenDeleteAbsent(t.left, v, fuel - 1);
      AsWrittenDeleteAbsent(t.right, v, fuel - 1);
    }
  }

  /** A key, then keys no smaller, joined after keys no larger, are in
      order. */
  lemma Join(a: seq<int>, k: int, b: seq<int>)
    requires Sorted(a) && Sorted(b)
    requires forall x :: x in a ==> x <= k
    requires forall x :: x in b ==> k <= x
    ensures Sorted(a + [k] + b)
  {
    var s := a + [k] + b;
    forall i, j | 0 <= i < j < |s| ensures s[i] <= s[j] {
      if j < |a| {
      } else if i < |a| {
        assert s[i] in a;
        if j > |a| {
          assert s[j] in b;
        }
      } else if i == |a| {
        assert s[j] in b;
      }
    }
  }

  /** The keys a deletion leaves keep an upper bound of the keys. */
  lemma KeysBelow(q: seq<int>, v: int, d: seq<int>, k: int)
    requires multiset(d) == multiset(q) - multiset{v}
    requires forall x :: x in q ==> x <= k
    ensures forall x :: x in d ==> x <= k
  {
    forall x | x in d ensures x <= k {
      assert multiset(d)[x] > 0;
      assert multiset(q)[x] > 0;
      assert x in q;
    }
  }

  /** The keys a deletion leaves keep a lower bound of the keys. */
  lemma KeysAbove(q: seq<int>, v: int, d: seq<int>, k: int)
    requires multiset(d) == multiset(q) - multiset{v}
    requires forall x :: x in q ==> k <= x
    ensures forall x :: x in d ==> k <= x
  {
    forall x | x in d ensures k <= x {
      assert multiset(d)[x] > 0;
      assert multiset(q)[x] > 0;
      assert x in q;
    }
  }

  /** A node rebuilt over a right subtree q that lost one occurrence of v
      (the key being held there, or greater than the node's) has its keys
      in order and lost one occurrence of v. */
  lemma RebuildRight(a: seq<int>, k: int, q: seq<int>, d: seq<int>, v: int)
    requires Sorted(a + [k] + q) && (v in q || k < v)
    requires Sorted(d) && multiset(d) == multiset(q) - multiset{v}
    ensures Sorted(a + [k] + d)
    ensures multiset(a + [k] + d) == multiset(a + [k] + q) - multiset{v}
  {
    SortedParts(a, k, q);
    KeysAbove(q, v, d, k);
    Join(a, k, d);
    if v !in q {
      assert v !in a && v != k;
    }
  }

  /** The mirror of RebuildRight, over a left subtree q. */
  lemma RebuildLeft(q: seq<int>, k: int, b: seq<int>, d: seq<int>, v: int)
    requires Sorted(q + [k] + b) && (v in q || v < k)
    requires Sorted(d) && multiset(d) == multiset(q) - multiset{v}
    ensures Sorted(d + [k] + b)
    ensures multiset(d + [k] + b) == multiset(q + [k] + b) - multiset{v}
  {
    SortedParts(q, k, b);
    KeysBelow(q, v, d, k);
    Join(d, k, b);
    if v !in q {
      assert v !in b && v != k;
    }
  }

  /** In a treap whose keys are in order, delete leaves them in order and
      takes out exactly one occurrence of the key when it is held. */
  lemma {:induction false} DeleteKeys(t: Tree, v: int)
    requires Sorted(InOrder(t))
    ensures Sorted(InOrder(Delete(t, v)))
    ensures multiset(InOrder(Delete(t, v))) == multiset(InOrder(t)) - multiset{v}
    decreases Size(t)
  {
    if t.Node? {
      OrderedChildren(t);
      if t.data == v {
        if t.left.Node? && t.right.Node? {
          if t.left.priority < t.right.priority {
            var p := RightSpin(t);
            OrderedChildren(p);
            DeleteKeys(p.right, v);
            RebuildRight(InOrder(p.left), p.data, InOrder(p.right), InOrder(Delete(p.right, v)), v);
          } else {
            var p := LeftSpin(t);
            OrderedChildren(p);
            DeleteKeys(p.left, v);
            RebuildLeft(InOrder(p.left), p.data, InOrder(p.right), InOrder(Delete(p.left, v)), v);
          }
        }
      } else if t.data > v {
        DeleteKeys(t.left, v);
        RebuildLeft(InOrder(t.left), t.data, InOrder(t.right), InOrder(Delete(t.left, v)), v);
      } else {
        DeleteKeys(t.right, v);
        RebuildRight(InOrder(t.left), t.data, InOrder(t.right), InOrder(Delete(t.right, v)), v);
      }
    }
  }

  /** So delete takes out the first occurrence of the key in the key
      order, which is what removing any one occurrence from a sorted
      sequence amounts to. */
  lemma DeleteOrder(t: Tree, v: int)
    requires Sorted(InOrder(t))
    ensures InOrder(Delete(t, v)) == RemoveFirst(InOrder(t), v)
  {
    DeleteKeys(t, v);
    RemoveFirstSorted(InOrder(t), v);
    RemoveFirstMultiset(InOrder(t), v);
    SortedUnique(InOrder(Delete(t, v)), RemoveFirst(InOrder(t), v));
  }

  // ---------------------------------------------------------------------
  // delete as written on distinct keys

  /** Strictly increasing: no key is held twice. */
  predicate Distinct(s: seq<int>) {
    forall i, j :: 0 <= i < j < |s| ==> s[i] < s[j]
  }

  /** The parts of a sequence of distinct keys around a pivot k are
      distinct, the first below k and the last above it. */
  lemma DistinctParts(a: seq<int>, k: int, b: seq<int>)
    requires Distinct(a + [k] + b)
    ensures Distinct(a) && Distinct(b)
    ensures forall x :: x in a ==> x < k
    ensures forall x :: x in b ==> k < x
  {
    var s := a + [k] + b;
    forall i, j | 0 <= i < j < |a| ensures a[i] < a[j] {
      assert a[i] == s[i] && a[j] == s[j];
    }
    forall i, j | 0 <= i < j < |b| ensures b[i] < b[j] {
      assert b[i] == s[|a| + 1 + i] && b[j] == s[|a| + 1 + j];
    }
    forall x | x in a ensures x < k {
      var i :| 0 <= i < |a| && a[i] == x;
      assert s[i] == x && s[|a|] == k;
    }
    forall x | x in b ensures k < x {
      var i :| 0 <= i < |b| && b[i] == x;
      assert s[|a| + 1 + i] == x && s[|a|] == k;
    }
  }

  /** The children of a node with distinct keys have distinct keys, those
      on the left below the node's key and those on the right above it. */
  lemma DistinctChildren(t: Tree)
    requires t.Node? && Distinct(InOrder(t))
    ensures Distinct(InOrder(t.left)) && Distinct(InOrder(t.right))
    ensures forall x :: x in InOrder(t.left) ==> x < t.data
    ensures forall x :: x in InOrder(t.right) ==> t.data < x
  {
    DistinctParts(InOrder(t.left), t.data, InOrder(t.right));
  }

  /** On a treap whose keys are distinct, the source's delete, given two
      calls per node, ends and agrees with the corrected one: after a
      rotation the new subtree root holds a different key, so the restart
      moves straight to the node being deleted. */
  lemma {:induction false} AsWrittenAgrees(t: Tree, v: int, fuel: nat)
    requires Distinct(InOrder(t)) && fuel > 2 * Size(t)
    ensures DeleteAsWritten(t, v, fuel) == Some(Delete(t, v))
    decreases Size(t)
  {
    if t.Node? {
      DistinctChildren(t);
      if t.data == v {
        if t.left.Node? && t.right.Node? {
          if t.left.priority < t.right.priority {
            var p := RightSpin(t);
            assert t.left.data in InOrder(t.left);
            DistinctChildren(p);
            AsWrittenAgrees(p.right, v, fuel - 2);
            assert p.data < v;
            assert DeleteAsWritten(p, v, fuel - 1) == Some(p.(right := Delete(p.right, v)));
          } else {
            var p := LeftSpin(t);
            assert t.right.data in InOrder(t.right);
            DistinctChildren(p);
            AsWrittenAgrees(p.left, v, fuel - 2);
            assert p.data > v;
            assert DeleteAsWritten(p, v, fuel - 1) == Some(p.(left := Delete(p.left, v)));
          }
        }
      } else if t.data > v {
        AsWrittenAgrees(t.left, v, fuel - 1);
      } else {
        AsWrittenAgrees(t.right, v, fuel - 1);
      }
    }
  }

  /** Distinct keys are in order. */
  lemma DistinctSorted(s: seq<int>)
    requires Distinct(s)
    ensures Sorted(s)
  {
  }

  /** So on a treap with distinct keys the source's delete, with fuel for
      two calls per node, ends with a treap: heap-ordered priorities and the
      key's one occurrence removed from the sorted keys. */
  lemma AsWrittenDeleteTreap(t: Tree, v: int, fuel: nat)
    requires HeapOrdered(t) && Distinct(InOrder(t)) && fuel > 2 * Size(t)
    ensures DeleteAsWritten(t, v, fuel).Some?
    ensures HeapOrdered(DeleteAsWritten(t, v, fuel).value)
    ensures InOrder(DeleteAsWritten(t, v, fuel).value) == RemoveFirst(InOrder(t), v)
    ensures multiset(InOrder(DeleteAsWritten(t, v, fuel).value)) == multiset(InOrder(t)) - multiset{v}
  {
    AsWrittenAgrees(t, v, fuel);
    DistinctSorted(InOrder(t));
    DeleteHeap(t, v);
    DeleteKeys(t, v);
    DeleteOrder(t, v);
  }

  /** A node with at most one child, replaced by that child, loses just its
      own key. */
  lemma OneChildKeys(t: Tree)
    requires t.Node? && (t.left.Nil? || t.right.Nil?) && Sorted(InOrder(t))
    ensures var c := if t.left.Node? then t.left else t.right;
      Sorted(InOrder(c)) && multiset(InOrder(c)) == multiset(InOrder(t)) - multiset{t.data}
  {
    OrderedChildren(t);
  }

  /** Wherever the source's delete ends, on a treap whose keys are in
      order, it leaves them in order with exactly one occurrence of the key
      gone when it is held: a rotation keeps the keys, and the restart
      searches the same keys again. */
  lemma {:induction false} AsWrittenDeleteKeys(t: Tree, v: int, fuel: nat)
    requires Sorted(InOrder(t)) && DeleteAsWritten(t, v, fuel).Some?
    ensures Sorted(InOrder(DeleteAsWritten(t, v, fuel).value))
    ensures multiset(InOrder(DeleteAsWritten(t, v, fuel).value)) == multiset(InOrder(t)) - multiset{v}
    decreases fuel, 1
  {
    if t.Node? {
      if t.data == v {
        if t.left.Node? && t.right.Node? {
          var p := if t.left.priority < t.right.priority then RightSpin(t) else LeftSpin(t);
          assert DeleteAsWritten(t, v, fuel) == DeleteAsWritten(p, v, fuel - 1);
          AsWrittenDeleteKeys(p, v, fuel - 1);
        } else {
          OneChildKeys(t);
        }
      } else {
        AsWrittenDescentKeys(t, v, fuel);
      }
    }
  }

  /** The step of AsWrittenDeleteKeys that descends past a node holding
      another key. */
  lemma {:induction false} AsWrittenDescentKeys(t: Tree, v: int, fuel: nat)
    requires Sorted(InOrder(t)) && DeleteAsWritten(t, v, fuel).Some?
    requires t.Node? && t.data != v
    ensures Sorted(InOrder(DeleteAsWritten(t, v, fuel).value))
    ensures multiset(InOrder(DeleteAsWritten(t, v, fuel).value)) == multiset(InOrder(t)) - multiset{v}
    decreases fuel, 0
  {
    OrderedChildren(t);
    if t.data > v {
      var d := DeleteAsWritten(t.left, v, fuel - 1);
      assert DeleteAsWritten(t, v, fuel) == Some(t.(left := d.value));
      AsWrittenDeleteKeys(t.left, v, fuel - 1);
      RebuildLeft(InOrder(t.left), t.data, InOrder(t.right), InOrder(d.value), v);
    } else {
      var d := DeleteAsWritten(t.right, v, fuel - 1);
      assert DeleteAsWritten(t, v, fuel) == Some(t.(right := d.value));
      AsWrittenDeleteKeys(t.right, v, fuel - 1);
      RebuildRight(InOrder(t.left), t.data, InOrder(t.right), InOrder(d.value), v);
    }
  }

  /** So, wherever it ends, the source's delete takes out the first
      occurrence of the key from the sorted keys, as the corrected one
      does. */
  lemma AsWrittenDeleteOrder(t: Tree, v: int, fuel: nat)
    requires Sorted(InOrder(t)) && DeleteAsWritten(t, v, fuel).Some?
    ensures InOrder(DeleteAsWritten(t, v, fuel).value) == RemoveFirst(InOrder(t), v)
    ensures InOrder(DeleteAsWritten(t, v, fuel).value) == InOrder(Delete(t, v))
  {
    var r := DeleteAsWritten(t, v, fuel).value;
    AsWrittenDeleteKeys(t, v, fuel);
    RemoveFirstSorted(InOrder(t), v);
    RemoveFirstMultiset(InOrder(t), v);
    SortedUnique(InOrder(r), RemoveFirst(InOrder(t), v));
    DeleteOrder(t, v);
  }

  // ---------------------------------------------------------------------
  // delete as written ends on this treap but breaks the heap order

  /** Keys 3, 5, 5, 7 with priorities 2, 3, 1, 10: the root holds 5 and its
      left child's right child holds 5 too. */
  function Unheaped(): Tree {
    Node(Node(Nil, 3, 2, Node(Nil, 5, 3, Nil)), 5, 1, Node(Nil, 7, 10, Nil))
  }

  /** Unheaped is a treap, built by inserting 5, 3, 7 and 5 with priorities
      3, 2, 10 and 1. */
  lemma UnheapedIsTreap()
    ensures Unheaped() == Insert(Insert(Insert(Insert(Nil, 5, 3), 3, 2), 7, 10), 5, 1)
    ensures HeapOrdered(Unheaped()) && InOrder(Unheaped()) == [3, 5, 5, 7]
  {
  }

  /** Deleting 5 as written rotates 3 up, follows 5 down to the right,
      rotates the second 5 up there and removes it instead of the root's 5,
      which is left below 3 with a smaller priority. The corrected delete
      keeps the heap order. */
  lemma AsWrittenDeleteBreaksHeap()
    ensures DeleteAsWritten(Unheaped(), 5, 4) == Some(Node(Nil, 3, 2, Node(Nil, 5, 1, Node(Nil, 7, 10, Nil))))
    ensures !HeapOrdered(DeleteAsWritten(Unheaped(), 5, 4).value)
    ensures HeapOrdered(Delete(Unheaped(), 5))
  {
    var once := Node(Nil, 3, 2, Node(Node(Nil, 5, 3, Nil), 5, 1, Node(Nil, 7, 10, Nil)));
    assert RightSpin(Unheaped()) == once;
    var inner := Node(Nil, 5, 3, Node(Nil, 5, 1, Node(Nil, 7, 10, Nil)));
    assert RightSpin(once.right) == inner;
    assert DeleteAsWritten(inner, 5, 1) == Some(inner.right);
    assert DeleteAsWritten(once.right, 5, 2) == Some(inner.right);
    assert DeleteAsWritten(once, 5, 3) == Some(once.(right := inner.right));
    UnheapedIsTreap();
    DeleteHeap(Unheaped(), 5);
  }

  // ---------------------------------------------------------------------
  // delete as written does not end on this treap

  /** Keys 3, 5, 5, 7 with priorities 4, 2, 1, 3: the root and its left
      child both hold 5. */
  function Loop(): Tree {
    Node(Node(Node(Nil, 3, 4, Nil), 5, 2, Nil), 5, 1, Node(Nil, 7, 3, Nil))
  }

  /** Loop is a treap, built by inserting 5, 3, 7 and 5 with priorities 2,
      4, 3 and 1. */
  lemma LoopIsTreap()
    ensures Loop() == Insert(Insert(Insert(Insert(Nil, 5, 2), 3, 4), 7, 3), 5, 1)
    ensures HeapOrdered(Loop()) && InOrder(Loop()) == [3, 5, 5, 7]
  {
  }

  /** Deleting 5 as written rotates the left child up, then the root back
      down: after two calls it is back where it started, so no fuel is
      enough. */
  lemma {:induction false} AsWrittenDeleteLoops(fuel: nat)
    ensures DeleteAsWritten(Loop(), 5, fuel).None?
  {
    if fuel >= 2 {
      var once := Node(Node(Nil, 3, 4, Nil), 5, 2, Node(Nil, 5, 1, Node(Nil, 7, 3, Nil)));
      assert RightSpin(Loop()) == once;
      assert LeftSpin(once) == Loop();
      assert DeleteAsWritten(Loop(), 5, fuel) == DeleteAsWritten(once, 5, fuel - 1);
      assert DeleteAsWritten(once, 5, fuel - 1) == DeleteAsWritten(Loop(), 5, fuel - 2);
      AsWrittenDeleteLoops(fuel - 2);
    } else if fuel == 1 {
      var once := Node(Node(Nil, 3, 4, Nil), 5, 2, Node(Nil, 5, 1, Node(Nil, 7, 3, Nil)));
      assert RightSpin(Loop()) == once;
      assert DeleteAsWritten(Loop(), 5, 1) == DeleteAsWritten(once, 5, 0);
    }
  }

  /** The corrected delete takes one 5 out of Loop and keeps it a treap. */
  lemma CorrectedDeleteOnLoop()
    ensures InOrder(Delete(Loop(), 5)) == [3, 5, 7]
    ensures HeapOrdered(Delete(Loop(), 5))
  {
    LoopIsTreap();
    DeleteOrder(Loop(), 5);
    DeleteHeap(Loop(), 5);
    assert RemoveFirst([3, 5, 5, 7], 5) == [3] + RemoveFirst([5, 5, 7], 5);
  }
}
