/** The nodes of the plain binary search tree (tree/BST_tree.go, type
    bstnode): recursive insertion, the in-order walk, and the two loops of
    deletion, which walk down the tree holding the link that points at the
    current node. A node is owned by exactly one parent, so the tree is a
    value; the walk keeps the nodes above the current one as a path of
    frames, and writing through a link rebuilds the tree around it. */
module BstNode {
  import opened Sequences

  datatype Tree = Nil | Node(left: Tree, value: int, right: Tree)

  /** The keys in order (inOrder, which appends to a slice). */
  function InOrder(t: Tree): seq<int> {
    if t.Nil? then [] else InOrder(t.left) + [t.value] + InOrder(t.right)
  }

  /** The search-tree order: the keys in order are non-decreasing. */
  predicate Ordered(t: Tree) {
    Sorted(InOrder(t))
  }

  /** Number of nodes on the longest root-to-leaf path. */
  function Height(t: Tree): nat {
    if t.Nil? then 0
    else 1 + (if Height(t.left) < Height(t.right) then Height(t.right) else Height(t.left))
  }

  /** insert, called on a non-nil node: a key smaller than the node's goes
      to the left subtree and any other key to the right one; a nil child
      is replaced by a new leaf. The key is added once and nothing else. */
  function Insert(t: Tree, v: int): (r: Tree)
    requires t.Node?
    ensures r.Node? && r.value == t.value
    ensures multiset(InOrder(r)) == multiset(InOrder(t)) + multiset{v}
    decreases t
  {
    if v < t.value then
      Node(if t.left.Nil? then Node(Nil, v, Nil) else Insert(t.left, v), t.value, t.right)
    else
      Node(t.left, t.value, if t.right.Nil? then Node(Nil, v, Nil) else Insert(t.right, v))
  }

  /** In a tree whose keys are in order, insert places the new key after the
      keys equal to it (so, by InsertSortedSorted, the keys stay in order). */
  lemma {:induction false} InsertOrder(t: Tree, v: int)
    requires t.Node? && Sorted(InOrder(t))
    ensures InOrder(Insert(t, v)) == InsertSorted(InOrder(t), v)
    decreases t, 0
  {
    OrderedChildren(t);
    if v < t.value {
      var nl := if t.left.Nil? then Node(Nil, v, Nil) else Insert(t.left, v);
      ChildOrder(t.left, v);
      assert Insert(t, v) == Node(nl, t.value, t.right);
      InsertLeftStep(t, v, nl);
    } else {
      var nr := if t.right.Nil? then Node(Nil, v, Nil) else Insert(t.right, v);
      ChildOrder(t.right, v);
      assert Insert(t, v) == Node(t.left, t.value, nr);
      InsertRightStep(t, v, nr);
    }
  }

  /** Helper for InsertOrder: the child insert descends into, with a new
      leaf in place of nil. */
  lemma {:induction false} ChildOrder(c: Tree, v: int)
    requires Sorted(InOrder(c))
    ensures InOrder(if c.Nil? then Node(Nil, v, Nil) else Insert(c, v)) == InsertSorted(InOrder(c), v)
    decreases c, 1
  {
    if c.Node? {
      InsertOrder(c, v);
    } else {
      assert InOrder(Node(Nil, v, Nil)) == [v];
    }
  }

  /** The subtrees of a search tree are search trees. */
  lemma OrderedChildren(t: Tree)
    requires t.Node? && Sorted(InOrder(t))
    ensures Sorted(InOrder(t.left)) && Sorted(InOrder(t.right))
  {
    SortedParts(InOrder(t.left), t.value, InOrder(t.right));
  }

  /** Helper for InsertOrder: a key smaller than the node's, placed in the
      left subtree. */
  lemma InsertLeftStep(t: Tree, v: int, nl: Tree)
    requires t.Node? && v < t.value && InOrder(nl) == InsertSorted(InOrder(t.left), v)
    ensures InOrder(Node(nl, t.value, t.right)) == InsertSorted(InOrder(t), v)
  {
    InsertSortedBefore(InOrder(t.left), t.value, InOrder(t.right), v);
  }

  /** Helper for InsertOrder: a key not smaller than the node's, placed in
      the right subtree. */
  lemma InsertRightStep(t: Tree, v: int, nr: Tree)
    requires t.Node? && t.value <= v && Sorted(InOrder(t))
    requires InOrder(nr) == InsertSorted(InOrder(t.right), v)
    ensures InOrder(Node(t.left, t.value, nr)) == InsertSorted(InOrder(t), v)
  {
    InsertAfterPivot(InOrder(t.left), t.value, InOrder(t.right), v);
  }

  /** One node above the walk's current node: the current node is its left
      child (LeftOf) or its right child (RightOf). */
  datatype Frame = LeftOf(value: int, right: Tree) | RightOf(left: Tree, value: int)

  /** The frames from the current node's parent up to the root. */
  type Path = seq<Frame>

  function Attach(t: Tree, f: Frame): Tree {
    match f
    case LeftOf(k, r) => Node(t, k, r)
    case RightOf(l, k) => Node(l, k, t)
  }

  /** The whole tree: t put back in place under every frame of p. */
  function Plug(t: Tree, p: Path): Tree
    decreases |p|
  {
    if p == [] then t else Plug(Attach(t, p[0]), p[1..])
  }

  lemma PlugDownLeft(t: Tree, p: Path)
    requires t.Node?
    ensures Plug(t.left, [LeftOf(t.value, t.right)] + p) == Plug(t, p)
  {
    assert ([LeftOf(t.value, t.right)] + p)[1..] == p;
  }

  lemma PlugDownRight(t: Tree, p: Path)
    requires t.Node?
    ensures Plug(t.right, [RightOf(t.left, t.value)] + p) == Plug(t, p)
  {
    assert ([RightOf(t.left, t.value)] + p)[1..] == p;
  }

  /** Each frame adds a level above the current node. */
  lemma {:induction false} PlugHeight(t: Tree, p: Path)
    ensures Height(Plug(t, p)) >= Height(t) + |p|
    decreases |p|
  {
    if p != [] {
      PlugHeight(Attach(t, p[0]), p[1..]);
    }
  }

  /** Keys to the left of the current node, in order. */
  function Before(p: Path): seq<int>
    decreases |p|
  {
    if p == [] then []
    else
      match p[0]
      case LeftOf(_, _) => Before(p[1..])
      case RightOf(l, k) => Before(p[1..]) + InOrder(l) + [k]
  }

  /** Keys to the right of the current node, in order. */
  function After(p: Path): seq<int>
    decreases |p|
  {
    if p == [] then []
    else
      match p[0]
      case LeftOf(k, r) => [k] + InOrder(r) + After(p[1..])
      case RightOf(_, _) => After(p[1..])
  }

  /** The keys of the whole tree are those left of the current node, the
      current subtree's, and those right of it. */
  lemma {:induction false} InOrderPlug(t: Tree, p: Path)
    ensures InOrder(Plug(t, p)) == Before(p) + InOrder(t) + After(p)
    decreases |p|
  {
    if p != [] {
      InOrderPlug(Attach(t, p[0]), p[1..]);
      match p[0]
      case LeftOf(k, r) =>
        Regroup3(Before(p[1..]), InOrder(t), [k] + InOrder(r), After(p[1..]));
      case RightOf(l, k) =>
        Regroup3(Before(p[1..]), InOrder(l) + [k], InOrder(t), After(p[1..]));
    }
  }

  /** deletemin, called on a node with a right child: the leftmost node of
      the right subtree is unlinked (its parent takes its right subtree in
      its place) and returned with its right link cleared. The node keeps
      its left child and key; its right subtree loses its first key. */
  method DeleteMin(t: Tree) returns (m: Tree, t': Tree)
    requires t.Node? && t.right.Node?
    ensures m == Node(Nil, InOrder(t.right)[0], Nil)
    ensures t'.Node? && t'.left == t.left && t'.value == t.value
    ensures InOrder(t.right) == [m.value] + InOrder(t'.right)
  {
    var q, p: Path := t.right, [];
    while q.left.Node?
      invariant q.Node? && Plug(q, p) == t.right && Before(p) == []
      decreases q
    {
      PlugDownLeft(q, p);
      var above := p;
      p, q := [LeftOf(q.value, q.right)] + p, q.left;
      assert p[1..] == above;
    }
    InOrderPlug(q, p);
    InOrderPlug(q.right, p);
    m := Node(Nil, q.value, Nil);
    t' := Node(t.left, t.value, Plug(q.right, p));
  }

  /** Every step of the walk followed the search: left past a larger key,
      right past a smaller one. */
  ghost predicate Searched(p: Path, v: int) {
    forall i :: 0 <= i < |p| ==>
      (p[i].LeftOf? ==> v < p[i].value) && (p[i].RightOf? ==> p[i].value < v)
  }

  /** The search for v from t ends without ever taking a right link. */
  predicate ReachedByLeftLinks(t: Tree, v: int) {
    t.Nil? || t.value == v || (v < t.value && ReachedByLeftLinks(t.left, v))
  }

  /** The walk of delete: from the root, stop at the first node holding v or
      at nil, going left past a larger key and right past a smaller one. It
      also tracks the link p that delete later writes through: true when p
      is the parent's left link, false for its right link (unused at the
      root, where p is the tree variable itself). The right step sets p to
      the parent's left link as written (asWritten), and to its right link
      when corrected. */
  method Locate(t: Tree, v: int, asWritten: bool) returns (q: Tree, p: Path, slotLeft: bool)
    ensures Plug(q, p) == t && Searched(p, v)
    ensures q.Nil? && Sorted(InOrder(t)) ==> v !in InOrder(t)
    ensures q.Node? ==> q.value == v
    ensures p != [] ==> (slotLeft <==> asWritten || p[0].LeftOf?)
    ensures ReachedByLeftLinks(t, v) ==> forall i :: 0 <= i < |p| ==> p[i].LeftOf?
  {
    q, p, slotLeft := t, [], true;
    while q.Node? && q.value != v
      invariant Plug(q, p) == t && Searched(p, v)
      invariant Sorted(InOrder(t)) ==> Sorted(InOrder(q)) && (v in InOrder(t) ==> v in InOrder(q))
      invariant p != [] ==> (slotLeft <==> asWritten || p[0].LeftOf?)
      invariant ReachedByLeftLinks(t, v) ==>
        ReachedByLeftLinks(q, v) && forall i :: 0 <= i < |p| ==> p[i].LeftOf?
      decreases q
    {
      if Sorted(InOrder(t)) {
        SortedParts(InOrder(q.left), q.value, InOrder(q.right));
      }
      var above := p;
      if v < q.value {
        PlugDownLeft(q, p);
        p, q, slotLeft := [LeftOf(q.value, q.right)] + p, q.left, true;
      } else {
        PlugDownRight(q, p);
        p, q, slotLeft := [RightOf(q.left, q.value)] + p, q.right, asWritten;
      }
      assert p[1..] == above;
    }
  }

  /** The subtree that takes the place of a node holding the deleted key:
      with two children, the minimum of the right subtree, carrying both
      children (deletemin has already unlinked it from the right one); with
      only a left child, that child; otherwise the right child. Its keys are
      the node's keys without the node's own. */
  method Replacement(q: Tree) returns (x: Tree)
    requires q.Node?
    ensures InOrder(x) == InOrder(q.left) + InOrder(q.right)
    ensures q.left.Nil? ==> x == q.right
    ensures q.left.Node? && q.right.Nil? ==> x == q.left
  {
    if q.left.Node? && q.right.Node? {
      var m, q' := DeleteMin(q);
      x := Node(q'.left, m.value, q'.right);
    } else if q.left.Node? {
      x := q.left;
    } else {
      x := q.right;
    }
  }

  /** Writing x through the link that delete holds: at the root the tree
      variable itself, otherwise the parent's left link (slotLeft) or right
      link. q is what is left of the found node, still linked from the
      parent wherever x is not written. When the link is the one that
      points at the found node, x simply takes its place. */
  function WriteLink(q: Tree, p: Path, slotLeft: bool, x: Tree): (r: Tree)
    ensures (p == [] || (slotLeft <==> p[0].LeftOf?)) ==> r == Plug(x, p)
  {
    if p == [] then x
    else
      var parent := Attach(q, p[0]);
      Plug(if slotLeft then Node(x, parent.value, parent.right)
           else Node(parent.left, parent.value, x), p[1..])
  }

  /** Putting the replacement in the found node's place removes one
      occurrence of its key and keeps the keys in order. */
  lemma DeleteOrder(t: Tree, q: Tree, p: Path, x: Tree)
    requires Sorted(InOrder(t)) && q.Node? && Plug(q, p) == t
    requires InOrder(x) == InOrder(q.left) + InOrder(q.right)
    ensures Sorted(InOrder(Plug(x, p)))
    ensures InOrder(Plug(x, p)) == RemoveFirst(InOrder(t), q.value)
  {
    var a, b := Before(p) + InOrder(q.left), InOrder(q.right) + After(p);
    PivotPieces(q, p);
    ReplacedPieces(q, p, x);
    RemovePivot(InOrder(t), a, q.value, b);
  }

  /** Helper for DeleteOrder: the keys of the tree, grouped as those before
      the found node's key, the key, and those after it. */
  lemma PivotPieces(q: Tree, p: Path)
    requires q.Node?
    ensures InOrder(Plug(q, p)) ==
      (Before(p) + InOrder(q.left)) + [q.value] + (InOrder(q.right) + After(p))
  {
    var b, l, r, a := Before(p), InOrder(q.left), InOrder(q.right), After(p);
    InOrderPlug(q, p);
    assert InOrder(q) == l + [q.value] + r;
    Regroup4(b, l, [q.value], r, a);
  }

  /** Helper for DeleteOrder: the keys once the replacement is in place. */
  lemma ReplacedPieces(q: Tree, p: Path, x: Tree)
    requires q.Node? && InOrder(x) == InOrder(q.left) + InOrder(q.right)
    ensures InOrder(Plug(x, p)) == (Before(p) + InOrder(q.left)) + (InOrder(q.right) + After(p))
  {
    InOrderPlug(x, p);
    Regroup4(Before(p), InOrder(q.left), [], InOrder(q.right), After(p));
  }

  lemma Regroup4(b: seq<int>, l: seq<int>, k: seq<int>, r: seq<int>, a: seq<int>)
    ensures b + (l + k + r) + a == (b + l) + k + (r + a)
  {
  }

  /** delete: find the first node holding v; if there is none the tree is
      returned unchanged, otherwise its replacement is written through the
      link held by the walk and the node's links are cleared. Any tree is
      accepted, as the source's delete accepts one its own right-step bug
      left out of order. On a search tree, corrected, or as written when v
      is reached through left links only, one occurrence of v leaves and
      the keys stay in order. */
  method Delete(t: Tree, v: int, asWritten: bool) returns (r: Tree)
    ensures v !in InOrder(t) ==> r == t
    ensures Sorted(InOrder(t)) && (!asWritten || ReachedByLeftLinks(t, v)) ==>
      Sorted(InOrder(r)) && InOrder(r) == RemoveFirst(InOrder(t), v)
  {
    var q, p, slotLeft := Locate(t, v, asWritten);
    if q.Nil? {
      return t;
    }
    InOrderPlug(q, p);
    var x := Replacement(q);
    r := WriteLink(Node(Nil, q.value, Nil), p, slotLeft, x);
    if Sorted(InOrder(t)) && (p == [] || (slotLeft <==> p[0].LeftOf?)) {
      DeleteOrder(t, q, p, x);
    }
  }

  /** As written, when the found node is a right child, its replacement
      overwrites its parent's left link while the node itself, stripped of
      its children, stays linked as the right child: the key is still in
      the tree. */
  lemma AsWrittenKeepsKey(q: Tree, p: Path, x: Tree)
    requires q.Node? && p != [] && p[0].RightOf?
    ensures q.value in InOrder(WriteLink(Node(Nil, q.value, Nil), p, true, x))
  {
    var leaf := Node(Nil, q.value, Nil);
    var n := Node(x, p[0].value, leaf);
    assert Attach(leaf, p[0]) == Node(p[0].left, p[0].value, leaf);
    InOrderPlug(n, p[1..]);
    assert InOrder(leaf) == [q.value];
    assert InOrder(n) == InOrder(x) + [p[0].value] + [q.value];
  }

  /** The tree holding 5 with a right child 7. */
  function FiveSeven(): Tree {
    Node(Nil, 5, Node(Nil, 7, Nil))
  }

  /** Counterexample: the only place the walk of delete can stop when
      deleting 7 from FiveSeven is the right child, with the parent's left
      link held as written, and 7 is a leaf, so its replacement is nil.
      Writing it leaves the tree as it was: 7 is not removed. */
  lemma AsWrittenDeleteKeepsRightChild(q: Tree, p: Path, slotLeft: bool, x: Tree)
    requires Plug(q, p) == FiveSeven() && q.Node? && q.value == 7
    requires p != [] ==> slotLeft
    requires q.left.Nil? ==> x == q.right
    ensures InOrder(FiveSeven()) == [5, 7] && RemoveFirst([5, 7], 7) == [5]
    ensures InOrder(WriteLink(Node(Nil, q.value, Nil), p, slotLeft, x)) == [5, 7]
  {
    PlugHeight(q, p);
    assert |p| == 1;
    assert Plug(q, p) == Attach(q, p[0]);
    assert p[0] == RightOf(Nil, 5) && q == Node(Nil, 7, Nil);
    assert RemoveFirst([5, 7], 7) == [5] + RemoveFirst([7], 7);
  }
}
