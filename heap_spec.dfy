/** The binary heap over a slice shared by heap/minHeap.go and
    heap/maxHeap.go: the element at index i has its parent at (i - 1) / 2,
    new elements sift up from the end and the last element, moved to the
    top, sifts down. The two files differ only in the order, so the
    specification is stated once for either order. */
module HeapSpec {
  /** Min for min_heap, Max for max_heap. */
  datatype Order = Min | Max

  /** a may stand above b: no larger in a min-heap, no smaller in a
      max-heap. */
  predicate Dominates(o: Order, a: int, b: int) {
    match o
    case Min => a <= b
    case Max => a >= b
  }

  /** a must move above b: the strict comparison the sift loops make. */
  predicate Prior(o: Order, a: int, b: int) {
    match o
    case Min => a < b
    case Max => a > b
  }

  /** The element at i, if it has a parent, may stand below it. */
  predicate Edge(o: Order, s: seq<int>, i: int) {
    0 < i < |s| ==> Dominates(o, s[(i - 1) / 2], s[i])
  }

  /** Every element may stand below its parent. */
  ghost predicate IsHeap(o: Order, s: seq<int>) {
    forall i :: Edge(o, s, i)
  }

  /** The elements at i and j exchanged. */
  function Swap(s: seq<int>, i: nat, j: nat): (r: seq<int>)
    requires i < |s| && j < |s|
    ensures |r| == |s| && r[i] == s[j] && r[j] == s[i]
    ensures forall k :: 0 <= k < |s| && k != i && k != j ==> r[k] == s[k]
    ensures multiset(r) == multiset(s)
  {
    s[i := s[j]][j := s[i]]
  }

  /** The loop of Put: the element at c moves up while it must stand above
      its parent. */
  function SiftUp(o: Order, s: seq<int>, c: nat): (r: seq<int>)
    requires c < |s|
    ensures multiset(r) == multiset(s) && |r| == |s|
    decreases c
  {
    if c > 0 && Prior(o, s[c], s[(c - 1) / 2]) then SiftUp(o, Swap(s, c, (c - 1) / 2), (c - 1) / 2)
    else s
  }

  /** Put: the value is appended and sifted up from the end. */
  function PutSpec(o: Order, s: seq<int>, x: int): (r: seq<int>)
    ensures multiset(r) == multiset(s) + multiset{x} && |r| == |s| + 1
  {
    SiftUp(o, s + [x], |s|)
  }

  /** Put of every value in turn. */
  function PutAll(o: Order, s: seq<int>, xs: seq<int>): (r: seq<int>)
    ensures multiset(r) == multiset(s) + multiset(xs)
    decreases |xs|
  {
    if xs == [] then s
    else
      assert xs == [xs[0]] + xs[1..];
      PutAll(o, PutSpec(o, s, xs[0]), xs[1..])
  }

  /** The loop of Get: the element at p moves down, exchanged with the
      child that must stand above the other (the left one on a tie), while
      that child must stand above it. */
  function SiftDown(o: Order, s: seq<int>, p: nat): (r: seq<int>)
    ensures multiset(r) == multiset(s) && |r| == |s|
    decreases |s| - p
  {
    var left, right := 2 * p + 1, 2 * p + 2;
    if left >= |s| then s
    else
      var index := if right < |s| && Prior(o, s[right], s[left]) then right else left;
      if Prior(o, s[index], s[p]) then SiftDown(o, Swap(s, p, index), index)
      else s
  }

  /** Get on a non-empty heap: the last element replaces the top, the slice
      shrinks by one and the new top sifts down. */
  function GetSpec(o: Order, s: seq<int>): (r: seq<int>)
    requires s != []
    ensures |r| == |s| - 1
    ensures multiset(r) == multiset(s) - multiset{s[0]}
  {
    var last := |s| - 1;
    DropTop(s);
    SiftDown(o, s[0 := s[last]][..last], 0)
  }

  // ---------------------------------------------------------------------

  /** The top of a heap may stand above every element. */
  lemma {:induction false} TopDominates(o: Order, s: seq<int>, i: nat)
    requires IsHeap(o, s) && i < |s|
    ensures Dominates(o, s[0], s[i])
    decreases i
  {
    if i > 0 {
      assert Edge(o, s, i);
      TopDominates(o, s, (i - 1) / 2);
    }
  }

  /** The same, over the multiset of the elements. */
  lemma TopDominatesAll(o: Order, s: seq<int>)
    requires IsHeap(o, s) && s != []
    ensures forall x :: x in multiset(s) ==> Dominates(o, s[0], x)
  {
    forall x | x in multiset(s) ensures Dominates(o, s[0], x) {
      var i :| 0 <= i < |s| && s[i] == x;
      TopDominates(o, s, i);
    }
  }

  /** The element at i is a child of c and may stand below c's parent. */
  predicate Bridge(o: Order, s: seq<int>, c: int, i: int) {
    0 < c < |s| && 0 < i < |s| && (i - 1) / 2 == c ==> Dominates(o, s[(c - 1) / 2], s[i])
  }

  /** A heap but for the edge from c to its parent, in which c's parent may
      also stand above c's children. */
  ghost predicate HeapBelow(o: Order, s: seq<int>, c: nat) {
    c < |s| && (forall i :: i != c ==> Edge(o, s, i)) && (forall i :: Bridge(o, s, c, i))
  }

  /** One exchange of the sift-up keeps HeapBelow, one level higher. */
  lemma SiftUpStep(o: Order, s: seq<int>, c: nat)
    requires HeapBelow(o, s, c) && c > 0 && Prior(o, s[c], s[(c - 1) / 2])
    ensures HeapBelow(o, Swap(s, c, (c - 1) / 2), (c - 1) / 2)
  {
    var p := (c - 1) / 2;
    var t := Swap(s, c, p);
    forall i | i != p ensures Edge(o, t, i) {
      if 0 < i < |t| {
        if i == c {
        } else if (i - 1) / 2 == c {
          assert Bridge(o, s, c, i);
        } else if (i - 1) / 2 == p {
          assert Edge(o, s, i);
        } else {
          assert Edge(o, s, i);
        }
      }
    }
    forall i ensures Bridge(o, t, p, i) {
      if 0 < p && 0 < i < |t| && (i - 1) / 2 == p {
        assert Edge(o, s, p);
        if i != c {
          assert Edge(o, s, i);
        }
      }
    }
  }

  /** Sifting up from the one place the heap order may fail restores it. */
  lemma {:induction false} SiftUpHeap(o: Order, s: seq<int>, c: nat)
    requires HeapBelow(o, s, c)
    ensures IsHeap(o, SiftUp(o, s, c))
    decreases c
  {
    if c > 0 && Prior(o, s[c], s[(c - 1) / 2]) {
      SiftUpStep(o, s, c);
      SiftUpHeap(o, Swap(s, c, (c - 1) / 2), (c - 1) / 2);
    } else {
      assert forall i :: Edge(o, s, i) by {
        forall i ensures Edge(o, s, i) {
          if i != c {
            assert Edge(o, s, i);
          }
        }
      }
    }
  }

  /** Put keeps a heap a heap. */
  lemma PutHeap(o: Order, s: seq<int>, x: int)
    requires IsHeap(o, s)
    ensures IsHeap(o, PutSpec(o, s, x))
  {
    var t := s + [x];
    forall i | i != |s| ensures Edge(o, t, i) {
      if 0 < i < |t| {
        assert Edge(o, s, i);
      }
    }
    forall i ensures Bridge(o, t, |s|, i) {
    }
    SiftUpHeap(o, t, |s|);
  }

  /** Any number of Puts from a heap give a heap. */
  lemma {:induction false} PutAllHeap(o: Order, s: seq<int>, xs: seq<int>)
    requires IsHeap(o, s)
    ensures IsHeap(o, PutAll(o, s, xs))
    decreases |xs|
  {
    if xs != [] {
      PutHeap(o, s, xs[0]);
      PutAllHeap(o, PutSpec(o, s, xs[0]), xs[1..]);
    }
  }

  /** Putting the values one after another: one more step of the loop. */
  lemma PutAllStep(o: Order, s: seq<int>, xs: seq<int>, i: nat)
    requires i < |xs|
    ensures PutAll(o, s, xs[..i + 1]) == PutSpec(o, PutAll(o, s, xs[..i]), xs[i])
  {
    var pre := xs[..i];
    assert xs[..i + 1] == pre + [xs[i]];
    PutAllSnoc(o, s, pre, xs[i]);
  }

  lemma {:induction false} PutAllSnoc(o: Order, s: seq<int>, xs: seq<int>, x: int)
    ensures PutAll(o, s, xs + [x]) == PutSpec(o, PutAll(o, s, xs), x)
    decreases |xs|
  {
    if xs == [] {
      assert PutAll(o, PutSpec(o, s, x), []) == PutSpec(o, s, x);
      assert [x][1..] == [];
    } else {
      assert (xs + [x])[0] == xs[0] && (xs + [x])[1..] == xs[1..] + [x];
      PutAllSnoc(o, PutSpec(o, s, xs[0]), xs[1..], x);
    }
  }

  /** A heap but for the edges from p to its children, whose elements p's
      parent may also stand above. */
  ghost predicate HeapAbove(o: Order, s: seq<int>, p: nat) {
    (forall i :: (0 < i < |s| ==> (i - 1) / 2 != p) ==> Edge(o, s, i)) &&
    (forall i :: Bridge(o, s, p, i))
  }

  /** One exchange of the sift-down keeps HeapAbove, one level lower. */
  lemma SiftDownStep(o: Order, s: seq<int>, p: nat, index: nat)
    requires HeapAbove(o, s, p) && index < |s| && (index - 1) / 2 == p && index > 0
    requires Dominates(o, s[index], s[2 * p + 1])
    requires 2 * p + 2 < |s| ==> Dominates(o, s[index], s[2 * p + 2])
    requires Prior(o, s[index], s[p])
    ensures HeapAbove(o, Swap(s, p, index), index)
  {
    var t := Swap(s, p, index);
    forall i | 0 < i < |t| ==> (i - 1) / 2 != index ensures Edge(o, t, i) {
      if 0 < i < |t| {
        if i == index {
        } else if (i - 1) / 2 == p {
          assert i == 2 * p + 1 || i == 2 * p + 2;
        } else if i == p {
          assert Bridge(o, s, p, index);
        } else {
          assert Edge(o, s, i);
        }
      }
    }
    forall i ensures Bridge(o, t, index, i) {
      if 0 < i < |t| && (i - 1) / 2 == index {
        assert Edge(o, s, i);
      }
    }
  }

  /** Sifting down from the one place the heap order may fail restores it. */
  lemma {:induction false} SiftDownHeap(o: Order, s: seq<int>, p: nat)
    requires HeapAbove(o, s, p)
    ensures IsHeap(o, SiftDown(o, s, p))
    decreases |s| - p
  {
    var left, right := 2 * p + 1, 2 * p + 2;
    if left < |s| {
      var index := if right < |s| && Prior(o, s[right], s[left]) then right else left;
      if Prior(o, s[index], s[p]) {
        SiftDownStep(o, s, p, index);
        SiftDownHeap(o, Swap(s, p, index), index);
      } else {
        forall i ensures Edge(o, s, i) {
          if 0 < i < |s| && (i - 1) / 2 == p {
            assert i == left || i == right;
          }
        }
      }
    } else {
      forall i ensures Edge(o, s, i) {
        if 0 < i < |s| {
          assert (i - 1) / 2 != p;
        }
      }
    }
  }

  /** Get keeps a heap a heap and takes out exactly the top. */
  lemma GetHeap(o: Order, s: seq<int>)
    requires IsHeap(o, s) && s != []
    ensures IsHeap(o, GetSpec(o, s))
  {
    var last := |s| - 1;
    var t := s[0 := s[last]][..last];
    DropTop(s);
    forall i | 0 < i < |t| ==> (i - 1) / 2 != 0 ensures Edge(o, t, i) {
      if 0 < i < |t| {
        assert Edge(o, s, i);
      }
    }
    forall i ensures Bridge(o, t, 0, i) {
    }
    SiftDownHeap(o, t, 0);
  }

  /** The last element moved to the top and the slice cut by one: the top
      is gone and nothing else. */
  lemma DropTop(s: seq<int>)
    requires s != []
    ensures multiset(s[0 := s[|s| - 1]][..|s| - 1]) == multiset(s) - multiset{s[0]}
  {
    var last := |s| - 1;
    var t := s[0 := s[last]][..last];
    if last > 0 {
      assert t == [s[last]] + s[1..last];
      assert s == [s[0]] + s[1..last] + [s[last]];
    } else {
      assert s == [s[0]];
    }
  }
}
