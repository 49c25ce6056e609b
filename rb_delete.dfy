/** Deletion from a red-black tree (tree/RB_tree.go: delete, del_node,
    find_min, del_one_branch, del_red_leaf, del_black_leaf, delCase and
    delCase1 to delCase5).

    A node with two children takes the key of the smallest node of its right
    subtree, and that node is removed instead. A node with one child is
    replaced by the child, painted black; a red leaf is unlinked. A black
    leaf is unlinked by the fix-up, which keeps it in place while it
    rebalances around it and unlinks it at the end (cases 2, 4, 5), possibly
    after moving the work up to the parent (case 5). */
module RbDelete {
  import opened Sequences
  import opened RbNode

  /** What is left of n when the fix-up unlinks it: nothing for a leaf, the
      node itself for an inner node that the fix-up reached by moving up. */
  function Eff(n: Tree): Tree {
    if IsLeaf(n) then Nil else n
  }

  /** The fix-up's state: n is black, and once the leaf n is gone (or with
      the inner node n as it is), its place holds a valid subtree with one
      black node fewer than the rest of the tree needs there. The root is
      black and no red node has a red child. */
  predicate DelInv(n: Tree, p: Path) {
    n.Node? && n.color == Black && |p| >= 1 &&
    RedOK(Eff(n)) && Balanced(Eff(n)) &&
    PathBalanced(p, BlackHeight(Eff(n)) + 1) && PathRedOK(p, false) && p[|p| - 1].color == Black
  }

  /** The brother's child on the side away from n: the far nephew. */
  function Far(p: Path): Tree
    requires |p| >= 1
  {
    if p[0].LeftOf? then Right(Sib(p[0])) else Left(Sib(p[0]))
  }

  /** The brother's child on n's side: the near nephew. */
  function Near(p: Path): Tree
    requires |p| >= 1
  {
    if p[0].LeftOf? then Left(Sib(p[0])) else Right(Sib(p[0]))
  }

  /** delCase as the source writes it: 1 for a red brother; for a black
      brother with a child, 2 when the far nephew exists and 3 otherwise;
      for a childless brother, 4 or 5 as the parent is red or black. */
  function DelCaseAsWritten(p: Path): (c: nat)
    requires |p| >= 1
    ensures 1 <= c <= 5
    ensures c == 1 <==> IsRed(Sib(p[0]))
    ensures c == 2 ==> Far(p).Node?
    ensures c == 3 ==> Far(p).Nil?
    ensures c >= 4 <==> IsLeaf(Sib(p[0])) && IsBlack(Sib(p[0]))
    ensures c == 4 <==> c >= 4 && p[0].color == Red
  {
    var s := Sib(p[0]);
    if IsRed(s) then 1
    else if HasChild(s) then (if Far(p).Node? then 2 else 3)
    else if p[0].color == Red then 4 else 5
  }

  /** delCase as it is meant: the nephews' colours decide, not their
      presence. 2 for a red far nephew, 3 for a red near nephew (and a black
      far one), and 4 or 5 by the parent's colour when both are black. */
  function DelCase(p: Path): (c: nat)
    requires |p| >= 1
    ensures 1 <= c <= 5
    ensures c == 1 <==> IsRed(Sib(p[0]))
    ensures c == 2 ==> IsRed(Far(p))
    ensures c == 3 ==> IsRed(Near(p)) && IsBlack(Far(p))
    ensures c >= 4 <==> IsBlack(Sib(p[0])) && IsBlack(Far(p)) && IsBlack(Near(p))
    ensures c == 4 <==> c >= 4 && p[0].color == Red
  {
    var s := Sib(p[0]);
    if IsRed(s) then 1
    else if IsRed(Far(p)) then 2
    else if IsRed(Near(p)) then 3
    else if p[0].color == Red then 4 else 5
  }

  /** What the fix-up's state says about n's brother and about the path above
      the parent. */
  lemma DelInvBrother(n: Tree, p: Path)
    requires DelInv(n, p)
    ensures Sib(p[0]).Node? && Balanced(Sib(p[0])) && RedOK(Sib(p[0]))
    ensures BlackHeight(Sib(p[0])) == BlackHeight(Eff(n)) + 1
    ensures IsRed(Sib(p[0])) ==> p[0].color == Black
    ensures PathBalanced(p[1..], BlackHeight(Eff(n)) + 1 + (if p[0].color == Black then 1 else 0))
    ensures PathRedOK(p[1..], p[0].color == Red)
    ensures |p| == 1 ==> p[0].color == Black
  {
  }

  /** Under the fix-up's state, at a leaf n the source's test and the colour
      test choose the same case: a black brother of black height one can only
      have red children. */
  lemma DispatchAgreesAtLeaf(n: Tree, p: Path)
    requires DelInv(n, p) && IsLeaf(n)
    ensures DelCaseAsWritten(p) == DelCase(p)
  {
    DelInvBrother(n, p);
    var s := Sib(p[0]);
    if IsBlack(s) {
      assert BlackHeight(s.left) == 0 && BlackHeight(s.right) == 0;
      assert s.left.Node? ==> IsRed(s.left);
      assert s.right.Node? ==> IsRed(s.right);
    }
  }

  /** delCase1: the parent turns red, the red brother black, and the parent is
      rotated towards n. n stays where it is; the result is its new path,
      under the red parent, whose other child is the old near nephew. */
  function Case1Path(p: Path): (q: Path)
    requires |p| >= 1 && Sib(p[0]).Node?
    ensures |q| == |p| + 1 && q[2..] == p[1..]
    ensures Before(q) == Before(p) && After(q) == After(p)
  {
    var s := Sib(p[0]);
    match p[0]
    case LeftOf(_, k, _) =>
      var q := [LeftOf(Red, k, s.left), LeftOf(Black, s.key, s.right)] + p[1..];
      assert q[1..] == [LeftOf(Black, s.key, s.right)] + p[1..];
      assert q[1..][1..] == p[1..] == q[2..];
      q
    case RightOf(_, _, k) =>
      var q := [RightOf(Red, s.right, k), RightOf(Black, s.left, s.key)] + p[1..];
      assert q[1..] == [RightOf(Black, s.left, s.key)] + p[1..];
      assert q[1..][1..] == p[1..] == q[2..];
      q
  }

  /** The path Case1Path returns is the one the rotation of delCase1 gives:
      plugging any subtree x into it builds the recoloured, rotated parent. */
  lemma Case1Rotation(x: Tree, p: Path)
    requires |p| >= 1 && Sib(p[0]).Node?
    ensures p[0].LeftOf? ==>
      Plug(x, Case1Path(p)) ==
      Plug(LeftSpin(Attach(x, WithSib(Recolor(p[0], Red), Paint(Sib(p[0]), Black)))), p[1..])
    ensures p[0].RightOf? ==>
      Plug(x, Case1Path(p)) ==
      Plug(RightSpin(Attach(x, WithSib(Recolor(p[0], Red), Paint(Sib(p[0]), Black)))), p[1..])
  {
    PlugTwo(x, Case1Path(p));
  }

  /** delCase2: the parent and the brother swap colours, the far nephew turns
      black, the parent is rotated towards n, and n is unlinked if it is a
      leaf. */
  function Case2(n: Tree, p: Path): (r: Tree)
    requires |p| >= 1 && Sib(p[0]).Node?
    ensures InOrder(r) == InOrder(Plug(Eff(n), p))
  {
    var s := Sib(p[0]);
    match p[0]
    case LeftOf(c, k, _) =>
      var t := LeftSpin(Node(s.color, Eff(n), k, Node(c, s.left, s.key, Paint(s.right, Black))));
      PaintFacts(s.right, Black);
      InOrderReplace(t, Attach(Eff(n), p[0]), p[1..]);
      Plug(t, p[1..])
    case RightOf(c, _, k) =>
      var t := RightSpin(Node(s.color, Node(c, Paint(s.left, Black), s.key, s.right), k, Eff(n)));
      PaintFacts(s.left, Black);
      InOrderReplace(t, Attach(Eff(n), p[0]), p[1..]);
      Plug(t, p[1..])
  }

  /** The brother after delCase3's recolouring and rotation: the near nephew
      takes the brother's place and the brother becomes the far nephew. */
  function Case3Brother(p: Path): (s': Tree)
    requires |p| >= 1 && Sib(p[0]).Node? && Near(p).Node?
    ensures s'.Node? && InOrder(s') == InOrder(Sib(p[0]))
  {
    var s := Sib(p[0]);
    if p[0].LeftOf? then RightSpin(Node(s.left.color, Paint(s.left, s.color), s.key, s.right))
    else LeftSpin(Node(s.right.color, s.left, s.key, Paint(s.right, s.color)))
  }

  /** Replacing n's brother by a subtree with the same keys keeps the
      in-order sequence around any focus. */
  lemma InOrderSibReplace(x: Tree, p: Path, s': Tree)
    requires |p| >= 1 && InOrder(s') == InOrder(Sib(p[0]))
    ensures InOrder(Plug(x, [WithSib(p[0], s')] + p[1..])) == InOrder(Plug(x, p))
  {
    assert ([WithSib(p[0], s')] + p[1..])[1..] == p[1..];
    InOrderReplace(Attach(x, WithSib(p[0], s')), Attach(x, p[0]), p[1..]);
  }

  /** delCase3: the brother and its near child swap colours, the brother is
      rotated away from n, and delCase2 finishes. */
  function Case3(n: Tree, p: Path): (r: Tree)
    requires |p| >= 1 && Sib(p[0]).Node? && Near(p).Node?
    ensures InOrder(r) == InOrder(Plug(Eff(n), p))
  {
    var q := [WithSib(p[0], Case3Brother(p))] + p[1..];
    InOrderSibReplace(Eff(n), p, Case3Brother(p));
    Case2(n, q)
  }

  /** delCase4: the parent turns black, the brother red, and n is unlinked if
      it is a leaf. */
  function Case4(n: Tree, p: Path): (r: Tree)
    requires |p| >= 1
    ensures InOrder(r) == InOrder(Plug(Eff(n), p))
  {
    var t := Attach(Eff(n), WithSib(Recolor(p[0], Black), Paint(Sib(p[0]), Red)));
    InOrderReplace(t, Attach(Eff(n), p[0]), p[1..]);
    Plug(t, p[1..])
  }

  /** delCase5 up to its recursive step: the brother turns red and n is
      unlinked if it is a leaf; the parent is returned. */
  function Case5Parent(n: Tree, p: Path): (r: Tree)
    requires |p| >= 1
    ensures InOrder(r) == InOrder(Attach(Eff(n), p[0]))
  {
    Attach(Eff(n), WithSib(p[0], Paint(Sib(p[0]), Red)))
  }

  /** del_black_leaf: the whole tree after the fix-up at the black node n,
      with the dispatch of the source (asWritten) or the colour-based one.
      Either way the keys stay in order with n's key gone when n is a leaf. */
  function DelBlackLeaf(n: Tree, p: Path, asWritten: bool): (r: Tree)
    requires DelInv(n, p)
    ensures InOrder(r) == InOrder(Plug(Eff(n), p))
    decreases BlackFrames(p), if p[0].color == Black then 1 else 0
  {
    DelInvBrother(n, p);
    var c := if asWritten then DelCaseAsWritten(p) else DelCase(p);
    if c == 1 then
      Case1Inv(n, p);
      InOrderPlug(Eff(n), p);
      InOrderPlug(Eff(n), Case1Path(p));
      DelBlackLeaf(n, Case1Path(p), asWritten)
    else if c == 2 then Case2(n, p)
    else if c == 3 then Case3(n, p)
    else if c == 4 then Case4(n, p)
    else
      var par := Case5Parent(n, p);
      if |p| == 1 then par
      else
        Case5Inv(n, p);
        InOrderReplace(par, Attach(Eff(n), p[0]), p[1..]);
        DelBlackLeaf(par, p[1..], asWritten)
  }

  /** Case 1 turns the fix-up's state into one with a red parent and a black
      brother, one level lower and with as many black frames above. */
  lemma Case1Inv(n: Tree, p: Path)
    requires DelInv(n, p) && IsRed(Sib(p[0]))
    ensures DelInv(n, Case1Path(p))
    ensures p[0].color == Black && Case1Path(p)[0].color == Red
    ensures BlackFrames(Case1Path(p)) == BlackFrames(p)
  {
    DelInvBrother(n, p);
    var q := Case1Path(p);
    assert q[1..][1..] == p[1..];
    assert BlackFrames(q[1..]) == 1 + BlackFrames(p[1..]);
    if |p| > 1 {
      assert q[|q| - 1] == p[|p| - 1];
    }
  }

  /** Case 5 ends with a valid tree when the parent is the root, and leaves a
      valid fix-up state at the parent otherwise. */
  lemma Case5Inv(n: Tree, p: Path)
    requires DelInv(n, p) && p[0].color == Black
    requires IsBlack(Sib(p[0])) && IsBlack(Far(p)) && IsBlack(Near(p))
    ensures |p| == 1 ==> ShapeOK(Case5Parent(n, p))
    ensures |p| > 1 ==> DelInv(Case5Parent(n, p), p[1..])
    ensures BlackFrames(p[1..]) < BlackFrames(p)
  {
    DelInvBrother(n, p);
    var s := Paint(Sib(p[0]), Red);
    assert RedOK(s) && Balanced(s) && BlackHeight(s) == BlackHeight(Eff(n));
    AttachShape(Eff(n), WithSib(p[0], s));
    var par := Case5Parent(n, p);
    assert !IsLeaf(par);
    if |p| > 1 {
      assert p[1..][|p[1..]| - 1] == p[|p| - 1];
    }
  }

  /** Case 2, entered with a red far nephew, ends with a valid tree. */
  lemma Case2Shape(n: Tree, p: Path)
    requires DelInv(n, p) && IsBlack(Sib(p[0])) && IsRed(Far(p))
    ensures ShapeOK(Case2(n, p))
  {
    DelInvBrother(n, p);
    var s := Sib(p[0]);
    var h := BlackHeight(Eff(n));
    assert BlackHeight(s.left) == BlackHeight(s.right) == h;
    PaintFacts(Far(p), Black);
    var far := Paint(Far(p), Black);
    assert RedOK(far) && Balanced(far) && BlackHeight(far) == h + 1;
    var t: Tree;
    if p[0].LeftOf? {
      var inner := Node(Black, Eff(n), p[0].key, s.left);
      assert RedOK(inner) && Balanced(inner) && BlackHeight(inner) == h + 1;
      t := Node(p[0].color, inner, s.key, far);
    } else {
      var inner := Node(Black, s.right, p[0].key, Eff(n));
      assert RedOK(inner) && Balanced(inner) && BlackHeight(inner) == h + 1;
      t := Node(p[0].color, far, s.key, inner);
    }
    assert Case2(n, p) == Plug(t, p[1..]);
    assert RedOK(t) && Balanced(t);
    assert BlackHeight(t) == BlackHeight(Eff(n)) + 1 + (if p[0].color == Black then 1 else 0);
    RootColorDrop(n, t, p, 1);
    ShapePlug(t, p[1..]);
  }

  /** Case 3, entered with a red near nephew and a black far one, hands
      delCase2 a state in which the far nephew is red. */
  lemma Case3Inv(n: Tree, p: Path)
    requires DelInv(n, p) && IsBlack(Sib(p[0])) && !IsRed(Far(p)) && IsRed(Near(p))
    ensures DelInv(n, [WithSib(p[0], Case3Brother(p))] + p[1..])
    ensures IsBlack(Case3Brother(p)) && IsRed(Far([WithSib(p[0], Case3Brother(p))] + p[1..]))
  {
    DelInvBrother(n, p);
    var s := Sib(p[0]);
    var s' := Case3Brother(p);
    assert BlackHeight(s.left) == BlackHeight(s.right) == BlackHeight(Eff(n));
    if p[0].LeftOf? {
      assert s' == Node(Black, s.left.left, s.left.key, Node(Red, s.left.right, s.key, s.right));
      assert BlackHeight(s.left.left) == BlackHeight(s.left.right) == BlackHeight(Eff(n));
      assert Balanced(s.left.left) && Balanced(s.left.right) && Balanced(s.right);
      assert Balanced(Node(Red, s.left.right, s.key, s.right));
      assert BlackHeight(s') == BlackHeight(s.left.left) + 1;
    } else {
      assert s' == Node(Black, Node(Red, s.left, s.key, s.right.left), s.right.key, s.right.right);
      assert BlackHeight(s.right.left) == BlackHeight(s.right.right) == BlackHeight(Eff(n));
      assert Balanced(s.right.left) && Balanced(s.right.right) && Balanced(s.left);
      assert Balanced(Node(Red, s.left, s.key, s.right.left));
      assert BlackHeight(s') == BlackHeight(s.left) + 1;
    }
    assert RedOK(s') && Balanced(s') && BlackHeight(s') == BlackHeight(s);
    var q := [WithSib(p[0], s')] + p[1..];
    assert q[1..] == p[1..];
    if |p| > 1 {
      assert q[|q| - 1] == p[|p| - 1];
    }
  }

  /** Case 3 ends with a valid tree. */
  lemma Case3Shape(n: Tree, p: Path)
    requires DelInv(n, p) && IsBlack(Sib(p[0])) && !IsRed(Far(p)) && IsRed(Near(p))
    ensures ShapeOK(Case3(n, p))
  {
    Case3Inv(n, p);
    Case2Shape(n, [WithSib(p[0], Case3Brother(p))] + p[1..]);
  }

  /** Case 4, entered with a red parent and two black nephews, ends with a
      valid tree. */
  lemma Case4Shape(n: Tree, p: Path)
    requires DelInv(n, p) && p[0].color == Red
    requires IsBlack(Sib(p[0])) && IsBlack(Far(p)) && IsBlack(Near(p))
    ensures ShapeOK(Case4(n, p))
  {
    DelInvBrother(n, p);
    var s := Paint(Sib(p[0]), Red);
    assert RedOK(s) && Balanced(s) && BlackHeight(s) == BlackHeight(Eff(n));
    var f := WithSib(Recolor(p[0], Black), s);
    AttachShape(Eff(n), f);
    var t := Attach(Eff(n), f);
    PathRedOKBlack(p[1..]);
    RootColorDrop(n, t, p, 1);
    ShapePlug(t, p[1..]);
  }

  /** The fix-up with the colour-based dispatch leaves a tree satisfying I1
      to I3. */
  lemma {:induction false} DelBlackLeafShape(n: Tree, p: Path)
    requires DelInv(n, p)
    ensures ShapeOK(DelBlackLeaf(n, p, false))
    decreases BlackFrames(p), if p[0].color == Black then 1 else 0
  {
    DelInvBrother(n, p);
    var c := DelCase(p);
    if c == 1 {
      Case1Inv(n, p);
      DelBlackLeafShape(n, Case1Path(p));
    } else if c == 2 {
      Case2Shape(n, p);
    } else if c == 3 {
      Case3Shape(n, p);
    } else if c == 4 {
      Case4Shape(n, p);
    } else {
      Case5Inv(n, p);
      if |p| > 1 {
        DelBlackLeafShape(Case5Parent(n, p), p[1..]);
      }
    }
  }

  /** The tree 5(2(1, 3), 8(6(-, 7), 9(-, 10))) in which 7 and 10 are red and
      every other node is black. */
  function Witness(): Tree {
    Node(Black,
      Node(Black, Node(Black, Nil, 1, Nil), 2, Node(Black, Nil, 3, Nil)),
      5,
      Node(Black,
        Node(Black, Nil, 6, Node(Red, Nil, 7, Nil)),
        8,
        Node(Black, Nil, 9, Node(Red, Nil, 10, Nil))))
  }

  /** The path from the leaf 1 of Witness up to the root. */
  function WitnessPath(): Path {
    [LeftOf(Black, 2, Node(Black, Nil, 3, Nil)), LeftOf(Black, 5, Witness().right)]
  }

  /** Witness is a valid red-black tree whose leaf 1 sits at WitnessPath. */
  lemma WitnessIsRB()
    ensures IsRB(Witness()) && Plug(Node(Black, Nil, 1, Nil), WitnessPath()) == Witness()
  {
    WitnessSorted();
  }

  /** The keys of Witness are 1, 2, 3, 5, 6, 7, 8, 9, 10, in this order. */
  lemma WitnessSorted()
    ensures InOrder(Witness()) == [1, 2, 3, 5, 6, 7, 8, 9, 10]
    ensures Sorted(InOrder(Witness()))
  {
    var w := Witness();
    assert InOrder(w.left) == [1, 2, 3] && InOrder(w.right) == [6, 7, 8, 9, 10];
    assert InOrder(w) == [1, 2, 3, 5, 6, 7, 8, 9, 10];
  }

  /** Deleting the black leaf 1 of Witness starts the fix-up in a state it
      accepts. */
  lemma WitnessValid()
    ensures IsRB(Witness()) && Plug(Node(Black, Nil, 1, Nil), WitnessPath()) == Witness()
    ensures DelInv(Node(Black, Nil, 1, Nil), WitnessPath())
  {
    WitnessIsRB();
    var p := WitnessPath();
    assert p[1..] == [LeftOf(Black, 5, Witness().right)];
    assert PathBalanced(p[1..], 2);
  }

  /** The parent 2(-, 3) with 3 turned red, as case 5 leaves it after the
      black leaf 1 is gone, focused below the root 5. */
  function WitnessParent(): Tree {
    Node(Black, Nil, 2, Node(Red, Nil, 3, Nil))
  }

  /** The source's first step on Witness is case 5: it recolours the
      brother 3 and moves up to 2 with the same fix-up still to do. */
  lemma AsWrittenFirstStep()
    ensures DelInv(Node(Black, Nil, 1, Nil), WitnessPath())
    ensures DelInv(WitnessParent(), WitnessPath()[1..])
    ensures DelBlackLeaf(Node(Black, Nil, 1, Nil), WitnessPath(), true)
         == DelBlackLeaf(WitnessParent(), WitnessPath()[1..], true)
  {
    WitnessValid();
    var n := Node(Black, Nil, 1, Nil);
    var p := WitnessPath();
    assert DelCaseAsWritten(p) == 5;
    assert Case5Parent(n, p) == WitnessParent();
  }

  /** At 2 the source applies case 2, because 8 has a far child 9, although
      9 is black: the result is out of black balance. */
  lemma AsWrittenSecondStep()
    requires DelInv(WitnessParent(), WitnessPath()[1..])
    ensures !Balanced(DelBlackLeaf(WitnessParent(), WitnessPath()[1..], true))
  {
    var par := WitnessParent();
    var p := WitnessPath()[1..];
    assert p == [LeftOf(Black, 5, Witness().right)];
    assert DelCaseAsWritten(p) == 2;
    var r := Case2(par, p);
    assert DelBlackLeaf(par, p, true) == r;
    assert r.left == Node(Black, par, 5, Node(Black, Nil, 6, Node(Red, Nil, 7, Nil)));
    assert BlackHeight(r.left) == 2 && BlackHeight(r.right) == 1;
  }

  /** Deleting the black leaf 1 from the valid tree Witness: the source's
      dispatch moves up to 2 by case 5, then sees that 2's brother 8 has a
      far child 9 and applies case 2 although 9 is black, which leaves the
      tree out of black balance. The colour-based dispatch applies case 5
      again and the tree stays valid. */
  lemma AsWrittenFixupUnbalances()
    ensures IsRB(Witness()) && Plug(Node(Black, Nil, 1, Nil), WitnessPath()) == Witness()
    ensures DelInv(Node(Black, Nil, 1, Nil), WitnessPath())
    ensures !Balanced(DelBlackLeaf(Node(Black, Nil, 1, Nil), WitnessPath(), true))
    ensures ShapeOK(DelBlackLeaf(Node(Black, Nil, 1, Nil), WitnessPath(), false))
  {
    WitnessValid();
    AsWrittenFirstStep();
    AsWrittenSecondStep();
    DelBlackLeafShape(Node(Black, Nil, 1, Nil), WitnessPath());
  }

  /** find_min: follow left children down to the node that has none; its
      key is the first key of the subtree. */
  method FindMin(t: Tree) returns (m: Tree, q: Path)
    requires t.Node?
    ensures m.Node? && m.left.Nil? && Plug(m, q) == t
    ensures Before(q) == []
    ensures InOrder(t) == [m.key] + InOrder(m.right) + After(q)
  {
    m, q := t, [];
    while m.left.Node?
      invariant m.Node? && Plug(m, q) == t && Before(q) == []
      decreases m
    {
      PlugDownLeft(m, q);
      var above := q;
      q, m := [LeftOf(m.color, m.key, m.right)] + q, m.left;
      assert q[1..] == above;
    }
    InOrderPlug(m, q);
  }

  /** The search loop of delete: from the root, stop at the first node
      holding v, going left for a smaller key and right otherwise. Ending at
      nil means v is not in the tree. */
  method Locate(t: Tree, v: int) returns (n: Tree, p: Path)
    requires Sorted(InOrder(t))
    ensures Plug(n, p) == t
    ensures n.Nil? ==> v !in InOrder(t)
    ensures n.Node? ==> n.key == v
  {
    n, p := t, [];
    while n.Node? && n.key != v
      invariant Plug(n, p) == t && Sorted(InOrder(n))
      invariant v in InOrder(t) ==> v in InOrder(n)
      decreases n
    {
      SortedParts(InOrder(n.left), n.key, InOrder(n.right));
      if v < n.key {
        PlugDownLeft(n, p);
        p, n := [LeftOf(n.color, n.key, n.right)] + p, n.left;
      } else {
        PlugDownRight(n, p);
        p, n := [RightOf(n.color, n.left, n.key)] + p, n.right;
      }
    }
  }

  /** A node with one child in a valid tree is black and its child is a red
      leaf; the child painted black takes its place validly. */
  lemma OneBranchShape(n: Tree, p: Path)
    requires n.Node? && n.left.Nil? != n.right.Nil? && ShapeOK(Plug(n, p))
    ensures ShapeOK(Plug(Paint(if n.left.Node? then n.left else n.right, Black), p))
  {
    ShapePlug(n, p);
    var child := if n.left.Node? then n.left else n.right;
    assert BlackHeight(child) == 0;
    PaintFacts(child, Black);
    ShapeReplace(n, Paint(child, Black), p);
  }

  /** A black leaf other than the root is where the fix-up starts. */
  lemma BlackLeafInv(n: Tree, p: Path)
    requires IsLeaf(n) && n.color == Black && p != [] && ShapeOK(Plug(n, p))
    ensures DelInv(n, p)
  {
    ShapePlug(n, p);
  }

  /** The step of del_node for two children: n takes the key of the smallest
      node m of its right subtree (found at path q below n.right), and m is
      removed through the path that leads to it from n's new version. The
      tree around m is still valid. */
  lemma TwoChildrenShape(n: Tree, p: Path, m: Tree, q: Path)
    requires n.Node? && ShapeOK(Plug(n, p))
    requires m.Node? && Plug(m, q) == n.right
    ensures ShapeOK(Plug(m, q + [RightOf(n.color, n.left, m.key)] + p))
  {
    var f := [RightOf(n.color, n.left, m.key)];
    PlugAppend(m, q + f, p);
    PlugAppend(m, q, f);
    assert Plug(Plug(m, q), f) == n.(key := m.key);
    ShapePlug(n, p);
    ShapeReplace(n, n.(key := m.key), p);
  }

  /** Removing m's key through that path removes n's key from the keys
      around n. */
  lemma TwoChildrenOrder(n: Tree, p: Path, m: Tree, q: Path)
    requires n.Node? && m.Node? && m.left.Nil? && Before(q) == []
    requires InOrder(n.right) == [m.key] + InOrder(m.right) + After(q)
    ensures (Before(q + [RightOf(n.color, n.left, m.key)] + p) + InOrder(m.left)) +
            (InOrder(m.right) + After(q + [RightOf(n.color, n.left, m.key)] + p)) ==
            (Before(p) + InOrder(n.left)) + (InOrder(n.right) + After(p))
  {
    var f := [RightOf(n.color, n.left, m.key)];
    assert Before(q + f + p) == (Before(p) + InOrder(n.left)) + [m.key] by {
      BeforeAppend(q + f, p);
      BeforeAppend(q, f);
      assert f[1..] == [];
    }
    assert After(q + f + p) == After(q) + After(p) by {
      AfterAppend(q + f, p);
      AfterAppend(q, f);
      assert f[1..] == [];
    }
    Regroup(Before(p) + InOrder(n.left), m.key, InOrder(m.right), After(q), After(p));
  }

  /** del_node: the tree around n with n's own key removed (del_one_branch,
      del_red_leaf, del_black_leaf, or the two-children step). The black
      leaf's fix-up uses the source's dispatch when asWritten holds and the
      colour-based one otherwise; only the latter is promised to keep I1 to
      I3. */
  method DelNode(n: Tree, p: Path, asWritten: bool) returns (r: Tree)
    requires n.Node? && ShapeOK(Plug(n, p)) && (p == [] ==> !IsLeaf(n))
    ensures !asWritten ==> ShapeOK(r)
    ensures InOrder(r) == (Before(p) + InOrder(n.left)) + (InOrder(n.right) + After(p))
    decreases if n.left.Node? && n.right.Node? then 1 else 0
  {
    if n.left.Nil? != n.right.Nil? {
      var child := if n.left.Node? then n.left else n.right;
      OneBranchShape(n, p);
      PaintFacts(child, Black);
      InOrderPlug(Paint(child, Black), p);
      r := Plug(Paint(child, Black), p);
    } else if n.left.Nil? {
      InOrderPlug(Nil, p);
      if IsRed(n) {
        ShapeReplace(n, Nil, p);
        r := Plug(Nil, p);
      } else {
        BlackLeafInv(n, p);
        r := DelBlackLeaf(n, p, asWritten);
        if !asWritten {
          DelBlackLeafShape(n, p);
        }
      }
    } else {
      var m, q := FindMin(n.right);
      TwoChildrenShape(n, p, m, q);
      TwoChildrenOrder(n, p, m, q);
      r := DelNode(m, q + [RightOf(n.color, n.left, m.key)] + p, asWritten);
    }
  }

  /** Removing the key of the node at the focus removes the first
      occurrence of that key from a sorted in-order sequence. */
  lemma DeleteOrder(t: Tree, n: Tree, p: Path)
    requires n.Node? && Plug(n, p) == t && Sorted(InOrder(t))
    ensures (Before(p) + InOrder(n.left)) + (InOrder(n.right) + After(p)) == RemoveFirst(InOrder(t), n.key)
    ensures Sorted(RemoveFirst(InOrder(t), n.key))
  {
    PlugPieces(n, p);
    RemovePivot(InOrder(t), Before(p) + InOrder(n.left), n.key, InOrder(n.right) + After(p));
  }

  /** Helper for DeleteOrder: the keys of the tree, grouped as those before
      the focus's key, the key, and those after it. */
  lemma PlugPieces(n: Tree, p: Path)
    requires n.Node?
    ensures InOrder(Plug(n, p)) ==
      (Before(p) + InOrder(n.left)) + [n.key] + (InOrder(n.right) + After(p))
  {
    InOrderPlug(n, p);
    Regroup3(Before(p), InOrder(n.left), [n.key], InOrder(n.right) + After(p));
    Regroup3(Before(p), InOrder(n.left) + [n.key], InOrder(n.right), After(p));
  }

  /** delete: find the first node holding v on the search path and remove
      it; an absent key leaves the tree as it is, and a root that is a leaf
      leaves the empty tree. With asWritten the fix-up dispatches as the
      source does, and only the keys are promised. */
  method Delete(t: Tree, v: int, asWritten: bool) returns (r: Tree)
    requires IsRB(t)
    ensures !asWritten ==> IsRB(r)
    ensures InOrder(r) == RemoveFirst(InOrder(t), v)
    ensures v !in InOrder(t) ==> r == t
  {
    var n, p := Locate(t, v);
    if n.Nil? {
      return t;
    }
    PlugPieces(n, p);
    DeleteOrder(t, n, p);
    if p == [] && IsLeaf(n) {
      return Nil;
    }
    r := DelNode(n, p, asWritten);
  }
}
