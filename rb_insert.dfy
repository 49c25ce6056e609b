/** Insertion into a red-black tree (tree/RB_tree.go: insert, getCase,
    processCase and processCase1 to processCase5).

    The new key is hung as a red leaf where the search for it ends; if its
    parent is red, the fix-up repairs the red-red edge, recolouring upwards
    (case 1) or rotating once or twice (cases 2 to 5). */
module RbInsert {
  import opened Sequences
  import opened RbNode

  /** The fix-up's state: the focus n is a red, valid subtree; around it the
      tree is black balanced, the root is black, and the only red-red edge
      there may be is the one between n and its parent. */
  predicate InsInv(n: Tree, p: Path) {
    IsRed(n) && RedOK(n) && Balanced(n) && |p| >= 1 &&
    PathBalanced(p, BlackHeight(n)) && PathRedOK(p, false) && p[|p| - 1].color == Black
  }

  /** uncle: the parent's brother, nil without a grandparent. With a
      grandparent, the parent and the uncle are its two children. */
  function Uncle(p: Path): (u: Tree)
    ensures |p| < 2 ==> u.Nil?
    ensures |p| >= 2 ==> (forall x :: Attach(Attach(x, p[0]), p[1]) ==
                           (if p[1].LeftOf? then Node(p[1].color, Attach(x, p[0]), p[1].key, u)
                            else Node(p[1].color, u, p[1].key, Attach(x, p[0]))))
  {
    if |p| >= 2 then Sib(p[1]) else Nil
  }

  /** getCase: 0 when the parent is black, 1 when the uncle is red, then 2/3
      for a left parent (2 when n is its right child) and 4/5 for a right
      parent (4 when n is its left child). A parent without a parent counts
      as a right child. */
  function GetCase(p: Path): (c: nat)
    requires |p| >= 1
    ensures c <= 5
    ensures c == 0 <==> p[0].color == Black
    ensures c == 1 <==> p[0].color == Red && IsRed(Uncle(p))
    ensures c == 2 || c == 3 <==> c >= 2 && |p| >= 2 && p[1].LeftOf?
    ensures c == 2 || c == 4 ==> (p[0].RightOf? <==> |p| >= 2 && p[1].LeftOf?)
    ensures c == 3 || c == 5 ==> (p[0].LeftOf? <==> |p| >= 2 && p[1].LeftOf?)
  {
    if p[0].color == Black then 0
    else if IsRed(Uncle(p)) then 1
    else if |p| >= 2 && p[1].LeftOf? then (if p[0].RightOf? then 2 else 3)
    else if p[0].LeftOf? then 4 else 5
  }

  /** Under the fix-up's invariant a red parent has a parent, which is black. */
  lemma InsInvGrandpa(n: Tree, p: Path)
    requires InsInv(n, p) && p[0].color == Red
    ensures |p| >= 2 && p[1].color == Black && IsBlack(Sib(p[0]))
    ensures Balanced(Sib(p[0])) && RedOK(Sib(p[0])) && BlackHeight(Sib(p[0])) == BlackHeight(n)
    ensures Balanced(Sib(p[1])) && RedOK(Sib(p[1])) && BlackHeight(Sib(p[1])) == BlackHeight(n)
    ensures PathBalanced(p[2..], BlackHeight(n) + 1) && PathRedOK(p[2..], false)
  {
    assert PathRedOK(p[1..], true) && PathBalanced(p[1..], BlackHeight(n));
    assert p[1..][0] == p[1] && p[1..][1..] == p[2..];
  }

  /** processCase1 up to its recursive step: the parent and the uncle turn
      black; the grandparent is returned with its colour unchanged. */
  function Case1Grandpa(n: Tree, p: Path): (g: Tree)
    requires |p| >= 2
    ensures g.Node? && g.key == p[1].key && g.color == p[1].color
    ensures InOrder(g) == InOrder(Attach(Attach(n, p[0]), p[1]))
  {
    PaintFacts(Sib(p[1]), Black);
    assert InOrder(Attach(n, Recolor(p[0], Black))) == InOrder(Attach(n, p[0]));
    Attach(Attach(n, Recolor(p[0], Black)), WithSib(p[1], Paint(Sib(p[1]), Black)))
  }

  /** processCase2: rotate left at the parent; the old parent, now n's left
      child, becomes the focus. */
  function Case2Step(n: Tree, p: Path): (s: (Tree, Path))
    requires |p| >= 1 && p[0].RightOf? && n.Node?
    ensures |s.1| == |p| && s.1[1..] == p[1..]
    ensures InOrder(Plug(s.0, s.1)) == InOrder(Plug(n, p))
  {
    var r := LeftSpin(Attach(n, p[0]));
    var q := [LeftOf(r.color, r.key, r.right)] + p[1..];
    assert q[1..] == p[1..];
    PlugDownLeft(r, p[1..]);
    InOrderReplace(r, Attach(n, p[0]), p[1..]);
    (r.left, q)
  }

  /** processCase4, the mirror image of processCase2. */
  function Case4Step(n: Tree, p: Path): (s: (Tree, Path))
    requires |p| >= 1 && p[0].LeftOf? && n.Node?
    ensures |s.1| == |p| && s.1[1..] == p[1..]
    ensures InOrder(Plug(s.0, s.1)) == InOrder(Plug(n, p))
  {
    var r := RightSpin(Attach(n, p[0]));
    var q := [RightOf(r.color, r.left, r.key)] + p[1..];
    assert q[1..] == p[1..];
    PlugDownRight(r, p[1..]);
    InOrderReplace(r, Attach(n, p[0]), p[1..]);
    (r.right, q)
  }

  /** processCase3: the parent turns black, the grandparent red, and the
      grandparent is rotated right. */
  function Case3(n: Tree, p: Path): (r: Tree)
    requires |p| >= 2 && p[0].LeftOf? && p[1].LeftOf?
    ensures InOrder(r) == InOrder(Plug(n, p))
  {
    var t := RightSpin(Attach(Attach(n, Recolor(p[0], Black)), Recolor(p[1], Red)));
    GrandpaOrder(n, p, t);
    Plug(t, p[2..])
  }

  /** processCase5, the mirror image of processCase3. */
  function Case5(n: Tree, p: Path): (r: Tree)
    requires |p| >= 2 && p[0].RightOf? && p[1].RightOf?
    ensures InOrder(r) == InOrder(Plug(n, p))
  {
    var t := LeftSpin(Attach(Attach(n, Recolor(p[0], Black)), Recolor(p[1], Red)));
    GrandpaOrder(n, p, t);
    Plug(t, p[2..])
  }

  /** processCase: the whole tree after the fix-up that starts at n. It
      holds the same keys in the same order as before. */
  function ProcessCase(n: Tree, p: Path): (r: Tree)
    requires InsInv(n, p)
    ensures InOrder(r) == InOrder(Plug(n, p))
    decreases |p|, if GetCase(p) in {2, 4} then 1 else 0
  {
    var c := GetCase(p);
    if c == 0 then Plug(n, p)
    else
      InsInvGrandpa(n, p);
      if c == 1 then
        var g := Case1Grandpa(n, p);
        Case1Order(n, p);
        if |p| == 2 then g
        else
          Case1Inv(n, p);
          ProcessCase(Paint(g, Red), p[2..])
      else if c == 2 then
        Case2Inv(n, p);
        ProcessCase(Case2Step(n, p).0, Case2Step(n, p).1)
      else if c == 4 then
        Case4Inv(n, p);
        ProcessCase(Case4Step(n, p).0, Case4Step(n, p).1)
      else if c == 3 then Case3(n, p)
      else Case5(n, p)
  }

  /** Case 1 only recolours: the keys keep their order, with the
      grandparent reddened or not. */
  lemma Case1Order(n: Tree, p: Path)
    requires |p| >= 2
    ensures InOrder(Plug(Paint(Case1Grandpa(n, p), Red), p[2..])) == InOrder(Plug(n, p))
    ensures |p| == 2 ==> InOrder(Case1Grandpa(n, p)) == InOrder(Plug(n, p))
  {
    var g := Case1Grandpa(n, p);
    PaintFacts(Sib(p[1]), Black);
    PaintFacts(g, Red);
    assert InOrder(Attach(n, Recolor(p[0], Black))) == InOrder(Attach(n, p[0]));
    assert InOrder(g) == InOrder(Attach(Attach(n, p[0]), p[1]));
    GrandpaOrder(n, p, Paint(g, Red));
    GrandpaOrder(n, p, g);
  }

  /** A subtree with the keys of n, its parent and its grandparent, put in
      the grandparent's place, leaves the keys of the whole tree unchanged. */
  lemma GrandpaOrder(n: Tree, p: Path, t: Tree)
    requires |p| >= 2 && InOrder(t) == InOrder(Attach(Attach(n, p[0]), p[1]))
    ensures InOrder(Plug(t, p[2..])) == InOrder(Plug(n, p))
  {
    PlugTwo(n, p);
    InOrderReplace(Attach(Attach(n, p[0]), p[1]), t, p[2..]);
  }

  /** Case 1 leaves a valid tree when the grandparent is the root, and a
      valid fix-up state at the reddened grandparent otherwise. */
  lemma Case1Inv(n: Tree, p: Path)
    requires InsInv(n, p) && GetCase(p) == 1
    ensures |p| == 2 ==> ShapeOK(Case1Grandpa(n, p))
    ensures |p| > 2 ==> InsInv(Paint(Case1Grandpa(n, p), Red), p[2..])
  {
    InsInvGrandpa(n, p);
    var par := Attach(n, Recolor(p[0], Black));
    AttachShape(n, Recolor(p[0], Black));
    var u := Paint(Sib(p[1]), Black);
    assert Balanced(u) && RedOK(u) && BlackHeight(u) == BlackHeight(n) + 1;
    var f := WithSib(p[1], u);
    AttachShape(par, f);
    var g := Case1Grandpa(n, p);
    assert BlackHeight(g) == BlackHeight(n) + 2;
    if |p| > 2 {
      assert p[2..][|p[2..]| - 1] == p[|p| - 1];
    }
  }

  /** After case 2 the state is valid again and case 3 applies. */
  lemma Case2Inv(n: Tree, p: Path)
    requires InsInv(n, p) && GetCase(p) == 2
    ensures InsInv(Case2Step(n, p).0, Case2Step(n, p).1)
    ensures GetCase(Case2Step(n, p).1) == 3
    ensures InOrder(Plug(Case2Step(n, p).0, Case2Step(n, p).1)) == InOrder(Plug(n, p))
  {
    InsInvGrandpa(n, p);
    var r := LeftSpin(Attach(n, p[0]));
    var q := [LeftOf(r.color, r.key, r.right)] + p[1..];
    assert q[1..] == p[1..];
    PlugDownLeft(r, p[1..]);
    InOrderReplace(r, Attach(n, p[0]), p[1..]);
  }

  /** After case 4 the state is valid again and case 5 applies. */
  lemma Case4Inv(n: Tree, p: Path)
    requires InsInv(n, p) && GetCase(p) == 4
    ensures InsInv(Case4Step(n, p).0, Case4Step(n, p).1)
    ensures GetCase(Case4Step(n, p).1) == 5
    ensures InOrder(Plug(Case4Step(n, p).0, Case4Step(n, p).1)) == InOrder(Plug(n, p))
  {
    InsInvGrandpa(n, p);
    var r := RightSpin(Attach(n, p[0]));
    var q := [RightOf(r.color, r.left, r.key)] + p[1..];
    assert q[1..] == p[1..];
    PlugDownRight(r, p[1..]);
    InOrderReplace(r, Attach(n, p[0]), p[1..]);
  }

  /** Case 3 ends the fix-up with a valid tree. */
  lemma Case3Shape(n: Tree, p: Path)
    requires InsInv(n, p) && GetCase(p) == 3
    ensures ShapeOK(Case3(n, p))
  {
    InsInvGrandpa(n, p);
    var t' := RightSpin(Attach(Attach(n, Recolor(p[0], Black)), Recolor(p[1], Red)));
    assert t' == Node(Black, n, p[0].key, Node(Red, Sib(p[0]), p[1].key, Sib(p[1])));
    assert IsBlack(Sib(p[1])) && IsBlack(Sib(p[0]));
    assert RedOK(t');
    assert Balanced(t'.right) && BlackHeight(t'.right) == BlackHeight(n);
    assert Balanced(t');
    assert BlackHeight(t') == BlackHeight(n) + 1;
    assert PathRedOK(p[2..], false);
    RootColorDrop(n, t', p, 2);
    ShapePlug(t', p[2..]);
  }

  /** Case 5 ends the fix-up with a valid tree. */
  lemma Case5Shape(n: Tree, p: Path)
    requires InsInv(n, p) && GetCase(p) == 5
    ensures ShapeOK(Case5(n, p))
  {
    InsInvGrandpa(n, p);
    var t' := LeftSpin(Attach(Attach(n, Recolor(p[0], Black)), Recolor(p[1], Red)));
    assert t' == Node(Black, Node(Red, Sib(p[1]), p[1].key, Sib(p[0])), p[0].key, n);
    assert IsBlack(Sib(p[1])) && IsBlack(Sib(p[0]));
    assert RedOK(t');
    assert Balanced(t'.left) && BlackHeight(t'.left) == BlackHeight(n);
    assert Balanced(t');
    assert BlackHeight(t') == BlackHeight(n) + 1;
    assert PathRedOK(p[2..], false);
    RootColorDrop(n, t', p, 2);
    ShapePlug(t', p[2..]);
  }

  /** The fix-up leaves a tree satisfying I1 to I3. */
  lemma {:induction false} ProcessCaseShape(n: Tree, p: Path)
    requires InsInv(n, p)
    ensures ShapeOK(ProcessCase(n, p))
    decreases |p|, if GetCase(p) in {2, 4} then 1 else 0
  {
    var c := GetCase(p);
    if c == 0 {
      ShapePlug(n, p);
      if |p| > 1 {
        assert p[1..][|p[1..]| - 1] == p[|p| - 1];
      }
    } else if c == 1 {
      InsInvGrandpa(n, p);
      Case1Inv(n, p);
      if |p| > 2 {
        ProcessCaseShape(Paint(Case1Grandpa(n, p), Red), p[2..]);
      }
    } else if c == 2 {
      Case2Inv(n, p);
      ProcessCaseShape(Case2Step(n, p).0, Case2Step(n, p).1);
    } else if c == 4 {
      Case4Inv(n, p);
      ProcessCaseShape(Case4Step(n, p).0, Case4Step(n, p).1);
    } else if c == 3 {
      Case3Shape(n, p);
    } else {
      Case5Shape(n, p);
    }
  }

  /** The search loop of insert: from the root, go left for a smaller key
      and right otherwise, until the child to go to is nil. The result is the
      path to that nil slot: every key before it is at most v and every key
      after it is greater than v. */
  method InsertPosition(t: Tree, v: int) returns (q: Path)
    requires t.Node? && Sorted(InOrder(t))
    ensures |q| >= 1 && Plug(Nil, q) == t
    ensures forall x :: x in Before(q) ==> x <= v
    ensures forall x :: x in After(q) ==> v < x
  {
    var cur, path := t, [];
    while (v < cur.key && cur.left.Node?) || (v >= cur.key && cur.right.Node?)
      invariant cur.Node? && Plug(cur, path) == t
      invariant Sorted(InOrder(cur))
      invariant forall x :: x in Before(path) ==> x <= v
      invariant forall x :: x in After(path) ==> v < x
      decreases cur
    {
      SortedParts(InOrder(cur.left), cur.key, InOrder(cur.right));
      if v < cur.key {
        DescendLeft(cur, path, v);
        PlugDownLeft(cur, path);
        path, cur := [LeftOf(cur.color, cur.key, cur.right)] + path, cur.left;
      } else {
        DescendRight(cur, path, v);
        PlugDownRight(cur, path);
        path, cur := [RightOf(cur.color, cur.left, cur.key)] + path, cur.right;
      }
    }
    if v < cur.key {
      DescendLeft(cur, path, v);
      PlugDownLeft(cur, path);
      q := [LeftOf(cur.color, cur.key, cur.right)] + path;
    } else {
      DescendRight(cur, path, v);
      PlugDownRight(cur, path);
      q := [RightOf(cur.color, cur.left, cur.key)] + path;
    }
  }

  /** A step of the descent to the left keeps the keys after the focus
      greater than v. */
  lemma DescendLeft(cur: Tree, path: Path, v: int)
    requires cur.Node? && Sorted(InOrder(cur)) && v < cur.key
    requires forall x :: x in After(path) ==> v < x
    ensures forall x :: x in After([LeftOf(cur.color, cur.key, cur.right)] + path) ==> v < x
    ensures Before([LeftOf(cur.color, cur.key, cur.right)] + path) == Before(path)
  {
    var f := LeftOf(cur.color, cur.key, cur.right);
    assert ([f] + path)[0] == f && ([f] + path)[1..] == path;
    SortedParts(InOrder(cur.left), cur.key, InOrder(cur.right));
  }

  /** A step of the descent to the right keeps the keys before the focus
      at most v. */
  lemma DescendRight(cur: Tree, path: Path, v: int)
    requires cur.Node? && Sorted(InOrder(cur)) && cur.key <= v
    requires forall x :: x in Before(path) ==> x <= v
    ensures forall x :: x in Before([RightOf(cur.color, cur.left, cur.key)] + path) ==> x <= v
    ensures After([RightOf(cur.color, cur.left, cur.key)] + path) == After(path)
  {
    var f := RightOf(cur.color, cur.left, cur.key);
    assert ([f] + path)[0] == f && ([f] + path)[1..] == path;
    SortedParts(InOrder(cur.left), cur.key, InOrder(cur.right));
  }

  /** insert: hang a red leaf where InsertPosition ends, and repair the tree
      when the new leaf's parent is red. An empty tree gets a black root. */
  method Insert(t: Tree, v: int) returns (r: Tree)
    requires IsRB(t)
    ensures IsRB(r)
    ensures InOrder(r) == InsertSorted(InOrder(t), v)
  {
    if t.Nil? {
      return Node(Black, Nil, v, Nil);
    }
    var q := InsertPosition(t, v);
    var leaf := Node(Red, Nil, v, Nil);
    NewLeafState(t, q, v);
    NewLeafOrder(t, q, v);
    InsertSortedSorted(InOrder(t), v);
    if q[0].color == Black {
      r := Plug(leaf, q);
    } else {
      r := ProcessCase(leaf, q);
      ProcessCaseShape(leaf, q);
    }
  }

  /** Hanging v in a nil slot between the keys at most v and the keys
      greater than v inserts it where InsertSorted does. */
  lemma NewLeafOrder(t: Tree, q: Path, v: int)
    requires Plug(Nil, q) == t
    requires forall x :: x in Before(q) ==> x <= v
    requires forall x :: x in After(q) ==> v < x
    ensures InOrder(Plug(Node(Red, Nil, v, Nil), q)) == InsertSorted(InOrder(t), v)
  {
    assert InOrder(t) == Before(q) + After(q) by {
      InOrderPlug(Nil, q);
    }
    assert InOrder(Plug(Node(Red, Nil, v, Nil), q)) == Before(q) + [v] + After(q) by {
      InOrderPlug(Node(Red, Nil, v, Nil), q);
    }
    InsertSortedSplit(Before(q), After(q), v);
  }

  /** A red leaf hung in a nil slot of a valid tree leaves the tree valid
      when its parent is black, and is the fix-up's starting state
      otherwise. */
  lemma NewLeafState(t: Tree, q: Path, v: int)
    requires ShapeOK(t) && |q| >= 1 && Plug(Nil, q) == t
    ensures q[0].color == Black ==> ShapeOK(Plug(Node(Red, Nil, v, Nil), q))
    ensures q[0].color == Red ==> InsInv(Node(Red, Nil, v, Nil), q)
  {
    var leaf := Node(Red, Nil, v, Nil);
    ShapePlug(Nil, q);
    ShapePlug(leaf, q);
    assert PathRedOK(q, false);
    if q[0].color == Black {
      assert PathRedOK(q[1..], false);
      assert PathRedOK(q, true);
    }
  }
}
