/** Red-black tree nodes (tree/RB_tree.go, type rbnode).

    A node owns its left and right children; its parent pointer does not
    own anything. Here a subtree is a value of type Tree, and the parent
    chain of a node is a Path: the list of frames from the node's parent up
    to the root, each frame holding the parent's colour, key and the other
    child. A node together with its path is the position that the source
    reaches through `parent`; `Plug` rebuilds the whole tree from it, which
    is how a change of root (the source's `**rbnode`) becomes visible. */
module RbNode {
  import opened Sequences

  datatype Color = Red | Black

  /** A subtree; Nil is a nil *rbnode. */
  datatype Tree = Nil | Node(color: Color, left: Tree, key: int, right: Tree)

  /** isRed: a nil node is not red. */
  predicate IsRed(t: Tree)
    ensures IsRed(t) ==> t.Node?
  {
    t.Node? && t.color == Red
  }

  /** isBlack: a nil node counts as black. */
  predicate IsBlack(t: Tree)
    ensures IsBlack(t) <==> t.Nil? || t.color == Black
  {
    !IsRed(t)
  }

  /** isLeaf: a node with no children (nil is not a leaf). */
  predicate IsLeaf(t: Tree)
    ensures IsLeaf(t) ==> t.Node? && InOrder(t) == [t.key]
  {
    t.Node? && t.left.Nil? && t.right.Nil?
  }

  /** hasChild: true unless t is a leaf, so true for nil as well. */
  predicate HasChild(t: Tree)
    ensures HasChild(t) <==> t.Nil? || t.left.Node? || t.right.Node?
  {
    !IsLeaf(t)
  }

  /** toBlack / toRed: recolour a node; nil is left alone. */
  function Paint(t: Tree, c: Color): (r: Tree)
    ensures t.Nil? ==> r.Nil?
    ensures t.Node? ==> r.Node? && r.color == c && r.left == t.left && r.key == t.key && r.right == t.right
  {
    if t.Nil? then Nil else t.(color := c)
  }

  function Left(t: Tree): Tree {
    if t.Node? then t.left else Nil
  }

  function Right(t: Tree): Tree {
    if t.Node? then t.right else Nil
  }

  /** inOrder: the keys from left to right. */
  function InOrder(t: Tree): seq<int> {
    if t.Nil? then [] else InOrder(t.left) + [t.key] + InOrder(t.right)
  }

  /** Recolouring keeps the keys and the black balance below the node; a
      node painted black keeps I2, and one painted red keeps it exactly when
      its children are black. */
  lemma PaintFacts(t: Tree, c: Color)
    ensures InOrder(Paint(t, c)) == InOrder(t)
    ensures Balanced(Paint(t, c)) <==> Balanced(t)
    ensures t.Node? ==> BlackHeight(Paint(t, c)) == BlackHeight(t.left) + (if c == Black then 1 else 0)
    ensures RedOK(t) ==> RedOK(Paint(t, Black))
    ensures t.Node? ==> (RedOK(Paint(t, Red)) <==> RedOK(t.left) && RedOK(t.right) && IsBlack(t.left) && IsBlack(t.right))
  {
  }

  /** Number of black nodes on the leftmost path down from t (t included). */
  function BlackHeight(t: Tree): nat {
    if t.Nil? then 0 else BlackHeight(t.left) + (if t.color == Black then 1 else 0)
  }

  /** I3: every path from t down to a nil child meets the same number of
      black nodes. */
  predicate Balanced(t: Tree) {
    t.Nil? || (Balanced(t.left) && Balanced(t.right) && BlackHeight(t.left) == BlackHeight(t.right))
  }

  /** I2: no red node has a red child. */
  predicate RedOK(t: Tree) {
    t.Nil? || (RedOK(t.left) && RedOK(t.right) && (t.color == Red ==> IsBlack(t.left) && IsBlack(t.right)))
  }

  /** I1 to I4 for a whole tree: black (or empty) root, no red-red edge,
      equal black count on every path, keys in non-decreasing order. */
  predicate IsRB(t: Tree) {
    IsBlack(t) && RedOK(t) && Balanced(t) && Sorted(InOrder(t))
  }

  /** left_spin: the right child r takes n's place, n becomes r's left child
      and r's former left subtree becomes n's right subtree. Colours are
      kept. */
  function LeftSpin(n: Tree): (r: Tree)
    requires n.Node? && n.right.Node?
    ensures r.Node? && r.left.Node?
    ensures r.key == n.right.key && r.color == n.right.color && r.right == n.right.right
    ensures r.left.key == n.key && r.left.color == n.color && r.left.left == n.left
    ensures r.left.right == n.right.left
    ensures InOrder(r) == InOrder(n)
  {
    var x := n.right;
    assert InOrder(n) == InOrder(n.left) + [n.key] + (InOrder(x.left) + [x.key] + InOrder(x.right));
    Node(x.color, Node(n.color, n.left, n.key, x.left), x.key, x.right)
  }

  /** right_spin: the mirror image of LeftSpin. */
  function RightSpin(n: Tree): (r: Tree)
    requires n.Node? && n.left.Node?
    ensures r.Node? && r.right.Node?
    ensures r.key == n.left.key && r.color == n.left.color && r.left == n.left.left
    ensures r.right.key == n.key && r.right.color == n.color && r.right.right == n.right
    ensures r.right.left == n.left.right
    ensures InOrder(r) == InOrder(n)
  {
    var x := n.left;
    assert InOrder(n) == (InOrder(x.left) + [x.key] + InOrder(x.right)) + [n.key] + InOrder(n.right);
    Node(x.color, x.left, x.key, Node(n.color, x.right, n.key, n.right))
  }

  /** One step of a parent chain: the focus is the left (LeftOf) or the
      right (RightOf) child of a node with this colour and key, whose other
      child is stored in the frame. */
  datatype Frame =
    | LeftOf(color: Color, key: int, right: Tree)
    | RightOf(color: Color, left: Tree, key: int)

  /** A parent chain, parent first, root last. */
  type Path = seq<Frame>

  /** The other child of the frame's node: the focus's brother. */
  function Sib(f: Frame): (s: Tree)
    ensures Attach(Nil, f) == if f.LeftOf? then Node(f.color, Nil, f.key, s) else Node(f.color, s, f.key, Nil)
  {
    match f
    case LeftOf(_, _, r) => r
    case RightOf(_, l, _) => l
  }

  /** The frame's node with its colour changed. */
  function Recolor(f: Frame, c: Color): Frame {
    f.(color := c)
  }

  /** The frame's node with the brother subtree replaced. */
  function WithSib(f: Frame, s: Tree): Frame {
    match f
    case LeftOf(c, k, _) => LeftOf(c, k, s)
    case RightOf(c, _, k) => RightOf(c, s, k)
  }

  /** The frame's node with t as the child on the focus side. */
  function Attach(t: Tree, f: Frame): Tree {
    match f
    case LeftOf(c, k, r) => Node(c, t, k, r)
    case RightOf(c, l, k) => Node(c, l, k, t)
  }

  /** The colour invariants of a frame's node, in terms of its two children. */
  lemma AttachShape(t: Tree, f: Frame)
    ensures Attach(t, f).Node? && Attach(t, f).color == f.color
    ensures Balanced(Attach(t, f)) <==>
      Balanced(t) && Balanced(Sib(f)) && BlackHeight(t) == BlackHeight(Sib(f))
    ensures Balanced(Attach(t, f)) ==>
      BlackHeight(Attach(t, f)) == BlackHeight(t) + (if f.color == Black then 1 else 0)
    ensures RedOK(Attach(t, f)) <==>
      RedOK(t) && RedOK(Sib(f)) && (f.color == Red ==> IsBlack(t) && IsBlack(Sib(f)))
  {
  }

  /** The whole tree: t put back in place under every frame of p. */
  function Plug(t: Tree, p: Path): Tree
    decreases |p|
  {
    if p == [] then t else Plug(Attach(t, p[0]), p[1..])
  }

  /** Moving the focus down to the left child keeps the whole tree. */
  lemma PlugDownLeft(t: Tree, p: Path)
    requires t.Node?
    ensures Plug(t.left, [LeftOf(t.color, t.key, t.right)] + p) == Plug(t, p)
  {
    assert ([LeftOf(t.color, t.key, t.right)] + p)[1..] == p;
  }

  /** Moving the focus down to the right child keeps the whole tree. */
  lemma PlugDownRight(t: Tree, p: Path)
    requires t.Node?
    ensures Plug(t.right, [RightOf(t.color, t.left, t.key)] + p) == Plug(t, p)
  {
    assert ([RightOf(t.color, t.left, t.key)] + p)[1..] == p;
  }

  /** Plugging through a concatenated path plugs through the inner part first. */
  lemma {:induction false} PlugAppend(t: Tree, p: Path, q: Path)
    ensures Plug(t, p + q) == Plug(Plug(t, p), q)
    decreases |p|
  {
    if p != [] {
      assert (p + q)[0] == p[0];
      assert (p + q)[1..] == p[1..] + q;
      PlugAppend(Attach(t, p[0]), p[1..], q);
    } else {
      assert p + q == q;
    }
  }

  /** Number of black frames on a path. */
  function BlackFrames(p: Path): nat
    decreases |p|
  {
    if p == [] then 0 else (if p[0].color == Black then 1 else 0) + BlackFrames(p[1..])
  }

  /** Keys to the left of the focus, in order. */
  function Before(p: Path): seq<int>
    decreases |p|
  {
    if p == [] then []
    else
      match p[0]
      case LeftOf(_, _, _) => Before(p[1..])
      case RightOf(_, l, k) => Before(p[1..]) + InOrder(l) + [k]
  }

  /** Keys to the right of the focus, in order. */
  function After(p: Path): seq<int>
    decreases |p|
  {
    if p == [] then []
    else
      match p[0]
      case LeftOf(_, k, r) => [k] + InOrder(r) + After(p[1..])
      case RightOf(_, _, _) => After(p[1..])
  }

  /** The in-order sequence of the whole tree is the keys left of the focus,
      the focus subtree's keys, and the keys right of it. */
  lemma {:induction false} InOrderPlug(t: Tree, p: Path)
    ensures InOrder(Plug(t, p)) == Before(p) + InOrder(t) + After(p)
    decreases |p|
  {
    if p != [] {
      InOrderPlug(Attach(t, p[0]), p[1..]);
      match p[0]
      case LeftOf(c, k, r) =>
        Regroup3(Before(p[1..]), InOrder(t), [k] + InOrder(r), After(p[1..]));
      case RightOf(c, l, k) =>
        Regroup3(Before(p[1..]), InOrder(l) + [k], InOrder(t), After(p[1..]));
    }
  }

  /** The keys left of the focus, through an outer path and then an inner one. */
  lemma {:induction false} BeforeAppend(q: Path, r: Path)
    ensures Before(q + r) == Before(r) + Before(q)
    decreases |q|
  {
    if q == [] {
      assert q + r == r;
    } else {
      assert (q + r)[0] == q[0] && (q + r)[1..] == q[1..] + r;
      BeforeAppend(q[1..], r);
    }
  }

  /** The keys right of the focus, through an inner path and then an outer one. */
  lemma {:induction false} AfterAppend(q: Path, r: Path)
    ensures After(q + r) == After(q) + After(r)
    decreases |q|
  {
    if q == [] {
      assert q + r == r;
    } else {
      assert (q + r)[0] == q[0] && (q + r)[1..] == q[1..] + r;
      AfterAppend(q[1..], r);
    }
  }

  /** Replacing the focus by a subtree with the same keys in the same order
      keeps the in-order sequence of the whole tree. */
  lemma InOrderReplace(t: Tree, t': Tree, p: Path)
    requires InOrder(t') == InOrder(t)
    ensures InOrder(Plug(t', p)) == InOrder(Plug(t, p))
  {
    InOrderPlug(t, p);
    InOrderPlug(t', p);
  }

  /** The parent chain is black-balanced around a hole of black height h:
      every brother has the black height the path needs at its level. */
  predicate PathBalanced(p: Path, h: nat)
    decreases |p|
  {
    p == [] ||
    (Balanced(Sib(p[0])) && BlackHeight(Sib(p[0])) == h &&
     PathBalanced(p[1..], h + (if p[0].color == Black then 1 else 0)))
  }

  /** I3 of the whole tree, split at the focus. */
  lemma {:induction false} BalancedPlug(t: Tree, p: Path)
    ensures Balanced(Plug(t, p)) <==> Balanced(t) && PathBalanced(p, BlackHeight(t))
    decreases |p|
  {
    if p != [] {
      var a := Attach(t, p[0]);
      BalancedPlug(a, p[1..]);
      assert Balanced(a) <==> Balanced(t) && Balanced(Sib(p[0])) && BlackHeight(t) == BlackHeight(Sib(p[0]));
      assert Balanced(a) ==> BlackHeight(a) == BlackHeight(t) + (if p[0].color == Black then 1 else 0);
    }
  }

  /** The parent chain has no red-red edge, given whether the focus is red;
      with red == false it says nothing about the edge from the focus to its
      parent, which is how a fix-up in progress is described. */
  predicate PathRedOK(p: Path, red: bool)
    decreases |p|
  {
    p == [] ||
    (RedOK(Sib(p[0])) && (p[0].color == Red ==> !red && IsBlack(Sib(p[0]))) &&
     PathRedOK(p[1..], p[0].color == Red))
  }

  /** I2 of the whole tree, split at the focus. */
  lemma {:induction false} RedOKPlug(t: Tree, p: Path)
    ensures RedOK(Plug(t, p)) <==> RedOK(t) && PathRedOK(p, IsRed(t))
    decreases |p|
  {
    if p != [] {
      RedOKPlug(Attach(t, p[0]), p[1..]);
    }
  }

  /** A black focus can stand wherever a red one could. */
  lemma PathRedOKBlack(p: Path)
    requires PathRedOK(p, true)
    ensures PathRedOK(p, false)
  {
  }

  /** The root of the whole tree is the last frame's node. */
  function RootColor(t: Tree, p: Path): Color {
    if p == [] then (if IsRed(t) then Red else Black) else p[|p| - 1].color
  }

  /** I1 of the whole tree, read off the path. */
  lemma {:induction false} RootPlug(t: Tree, p: Path)
    ensures IsBlack(Plug(t, p)) <==> RootColor(t, p) == Black
    decreases |p|
  {
    if p != [] {
      RootPlug(Attach(t, p[0]), p[1..]);
      if |p| > 1 {
        assert p[1..][|p[1..]| - 1] == p[|p| - 1];
      }
    }
  }

  /** Everything a red-black tree needs except the keys' order (I1 to I3). */
  predicate ShapeOK(t: Tree) {
    IsBlack(t) && RedOK(t) && Balanced(t)
  }

  /** I1 to I3 of the whole tree, split at the focus. */
  lemma ShapePlug(t: Tree, p: Path)
    ensures ShapeOK(Plug(t, p)) <==>
      RedOK(t) && Balanced(t) && PathBalanced(p, BlackHeight(t)) &&
      PathRedOK(p, IsRed(t)) && RootColor(t, p) == Black
  {
    BalancedPlug(t, p);
    RedOKPlug(t, p);
    RootPlug(t, p);
  }

  /** Two steps of Plug at once. */
  lemma PlugTwo(t: Tree, p: Path)
    requires |p| >= 2
    ensures Plug(t, p) == Plug(Attach(Attach(t, p[0]), p[1]), p[2..])
  {
    assert p[1..][1..] == p[2..];
  }

  /** The root colour seen through all but the first two frames. */
  lemma RootColorDrop(t: Tree, t': Tree, p: Path, k: nat)
    requires 1 <= k <= |p| && p[|p| - 1].color == Black && (k == |p| ==> IsBlack(t'))
    ensures RootColor(t', p[k..]) == Black
  {
    if k < |p| {
      assert p[k..][|p[k..]| - 1] == p[|p| - 1];
    }
  }

  /** Replacing the focus by a subtree with the same black height, no
      red-red edge, and a colour that is black or the same as before keeps
      I1 to I3 of the whole tree. */
  lemma ShapeReplace(t: Tree, t': Tree, p: Path)
    requires ShapeOK(Plug(t, p))
    requires Balanced(t') && BlackHeight(t') == BlackHeight(t) && RedOK(t')
    requires IsBlack(t') || IsRed(t)
    requires p == [] ==> IsBlack(t')
    ensures ShapeOK(Plug(t', p))
  {
    BalancedPlug(t, p);
    BalancedPlug(t', p);
    RedOKPlug(t, p);
    RedOKPlug(t', p);
    RootPlug(t, p);
    RootPlug(t', p);
    if IsBlack(t') && IsRed(t) {
      PathRedOKBlack(p);
    }
  }
}
