/** Sequence functions and facts shared by the models. For the search
    trees: the in-order sequence of every tree here is kept non-decreasing,
    insertion places a new key after the keys equal to it, and deletion
    removes one occurrence. For the list, stack and graphs: reversal,
    first and last occurrence, and removing or inserting one position. */
module Sequences {

  /** Non-decreasing order. */
  predicate Sorted(s: seq<int>) {
    forall i, j :: 0 <= i < j < |s| ==> s[i] <= s[j]
  }

  /** s with v placed after every element that is not greater than v: where
      the trees' "not less than goes right" rule puts a new key. */
  function InsertSorted(s: seq<int>, v: int): (r: seq<int>)
    ensures multiset(r) == multiset(s) + multiset{v}
    ensures |r| == |s| + 1
  {
    if s == [] then [v]
    else if v < s[0] then [v] + s
    else
      assert s == [s[0]] + s[1..];
      [s[0]] + InsertSorted(s[1..], v)
  }

  /** Ordered insertion keeps a sorted sequence sorted. */
  lemma {:induction false} InsertSortedSorted(s: seq<int>, v: int)
    requires Sorted(s)
    ensures Sorted(InsertSorted(s, v))
  {
    if s == [] {
    } else if v < s[0] {
      SortedCons(v, s);
    } else {
      var rest := InsertSorted(s[1..], v);
      assert Sorted(s[1..]) by {
        SortedTail(s);
      }
      InsertSortedSorted(s[1..], v);
      assert s[0] <= rest[0] by {
        if s[1..] != [] {
          assert s[0] <= s[1];
        }
      }
      SortedCons(s[0], rest);
    }
  }

  /** The tail of a sorted sequence is sorted. */
  lemma SortedTail(s: seq<int>)
    requires Sorted(s) && s != []
    ensures Sorted(s[1..])
  {
    forall i, j | 0 <= i < j < |s[1..]| ensures s[1..][i] <= s[1..][j] {
      assert s[1..][i] == s[i + 1] && s[1..][j] == s[j + 1];
    }
  }

  /** An element no greater than the head of a sorted sequence can be put
      in front of it. */
  lemma SortedCons(a: int, r: seq<int>)
    requires Sorted(r) && (r != [] ==> a <= r[0])
    ensures Sorted([a] + r)
  {
    var s := [a] + r;
    forall i, j | 0 <= i < j < |s| ensures s[i] <= s[j] {
      assert s[j] == r[j - 1];
      if i == 0 {
        assert r[0] <= r[j - 1];
      } else {
        assert s[i] == r[i - 1];
      }
    }
  }

  /** Inserting after a split point: if every element of lo is <= v and
      every element of hi is > v, the new element lands between them. */
  lemma {:induction false} InsertSortedSplit(lo: seq<int>, hi: seq<int>, v: int)
    requires forall x :: x in lo ==> x <= v
    requires forall x :: x in hi ==> v < x
    ensures InsertSorted(lo + hi, v) == lo + [v] + hi
  {
    InsertSortedAfter(lo, hi, v);
    if hi != [] {
      assert hi[0] in hi;
    }
  }

  /** A new key smaller than the pivot k lands in the part before k. */
  lemma {:induction false} InsertSortedBefore(a: seq<int>, k: int, b: seq<int>, v: int)
    requires v < k
    ensures InsertSorted(a + [k] + b, v) == InsertSorted(a, v) + [k] + b
    decreases |a|
  {
    if a == [] {
      assert a + [k] + b == [k] + b;
    } else {
      assert (a + [k] + b)[0] == a[0];
      assert (a + [k] + b)[1..] == a[1..] + [k] + b;
      if a[0] <= v {
        InsertSortedBefore(a[1..], k, b, v);
      }
    }
  }

  /** A new key not smaller than anything in a lands after all of a. */
  lemma {:induction false} InsertSortedAfter(a: seq<int>, b: seq<int>, v: int)
    requires forall x :: x in a ==> x <= v
    ensures InsertSorted(a + b, v) == a + InsertSorted(b, v)
    decreases |a|
  {
    if a == [] {
      assert a + b == b;
    } else {
      assert a[0] in a;
      assert (a + b)[0] == a[0];
      assert (a + b)[1..] == a[1..] + b;
      forall x | x in a[1..] ensures x <= v {
        assert x in a;
      }
      InsertSortedAfter(a[1..], b, v);
    }
  }

  /** A key not below the pivot of a sorted sequence goes into the part
      after the pivot. */
  lemma InsertAfterPivot(l: seq<int>, k: int, r: seq<int>, v: int)
    requires Sorted(l + [k] + r) && k <= v
    ensures InsertSorted(l + [k] + r, v) == l + [k] + InsertSorted(r, v)
  {
    SortedParts(l, k, r);
    forall x | x in l + [k] ensures x <= v {
    }
    InsertSortedAfter(l + [k], r, v);
  }

  /** The pieces on either side of a pivot in a sorted sequence are sorted
      and lie on the pivot's two sides. */
  lemma SortedParts(a: seq<int>, k: int, b: seq<int>)
    requires Sorted(a + [k] + b)
    ensures Sorted(a) && Sorted(b)
    ensures forall x :: x in a ==> x <= k
    ensures forall x :: x in b ==> k <= x
  {
    var s := a + [k] + b;
    assert s[|a|] == k;
    forall i, j | 0 <= i < j < |a| ensures a[i] <= a[j] {
      assert s[i] == a[i] && s[j] == a[j];
    }
    forall i, j | 0 <= i < j < |b| ensures b[i] <= b[j] {
      assert s[|a| + 1 + i] == b[i] && s[|a| + 1 + j] == b[j];
    }
    forall x | x in a ensures x <= k {
      var i :| 0 <= i < |a| && a[i] == x;
      assert s[i] == x;
    }
    forall x | x in b ensures k <= x {
      var i :| 0 <= i < |b| && b[i] == x;
      assert s[|a| + 1 + i] == x;
    }
  }

  /** s without its first occurrence of v (s itself when v is absent). */
  function RemoveFirst(s: seq<int>, v: int): (r: seq<int>)
    ensures v in s ==> |r| == |s| - 1
    ensures v !in s ==> r == s
  {
    if s == [] then []
    else if s[0] == v then
      assert s == [s[0]] + s[1..];
      s[1..]
    else
      assert s == [s[0]] + s[1..];
      [s[0]] + RemoveFirst(s[1..], v)
  }

  /** Whether or not v occurs, RemoveFirst takes one v out of the multiset
      when there is one to take. */
  lemma {:induction false} RemoveFirstMultiset(s: seq<int>, v: int)
    ensures multiset(RemoveFirst(s, v)) == multiset(s) - multiset{v}
  {
    if s == [] {
    } else {
      assert s == [s[0]] + s[1..];
      if s[0] != v {
        RemoveFirstMultiset(s[1..], v);
      }
    }
  }

  /** Removing the first occurrence of a key keeps a sorted sequence
      sorted. */
  lemma {:induction false} RemoveFirstSorted(s: seq<int>, v: int)
    requires Sorted(s)
    ensures Sorted(RemoveFirst(s, v))
  {
    if s != [] {
      SortedTail(s);
      if s[0] != v {
        var r := RemoveFirst(s[1..], v);
        RemoveFirstSorted(s[1..], v);
        if r != [] {
          RemoveFirstMultiset(s[1..], v);
          assert r[0] in multiset(s[1..]);
          var j :| 0 <= j < |s[1..]| && s[1..][j] == r[0];
          assert s[0] <= s[j + 1];
        }
        SortedCons(s[0], r);
      }
    }
  }

  /** RemoveFirst over a concatenation works on the part holding the first
      occurrence. */
  lemma {:induction false} RemoveFirstAppend(a: seq<int>, b: seq<int>, v: int)
    ensures v in a ==> RemoveFirst(a + b, v) == RemoveFirst(a, v) + b
    ensures v !in a ==> RemoveFirst(a + b, v) == a + RemoveFirst(b, v)
  {
    if a == [] {
      assert a + b == b;
    } else {
      assert (a + b)[0] == a[0] && (a + b)[1..] == a[1..] + b;
      if a[0] != v {
        RemoveFirstAppend(a[1..], b, v);
        assert v in a <==> v in a[1..] by {
          assert a == [a[0]] + a[1..];
        }
        assert RemoveFirst(a + b, v) == [a[0]] + RemoveFirst(a[1..] + b, v);
        assert RemoveFirst(a, v) == [a[0]] + RemoveFirst(a[1..], v);
        if v in a {
          assert [a[0]] + (RemoveFirst(a[1..], v) + b) == [a[0]] + RemoveFirst(a[1..], v) + b;
        } else {
          assert [a[0]] + (a[1..] + RemoveFirst(b, v)) == ([a[0]] + a[1..]) + RemoveFirst(b, v);
          assert a == [a[0]] + a[1..];
        }
      }
    }
  }

  /** In a sorted sequence, a key below the pivot is removed from the part
      before it. */
  lemma RemoveBelowPivot(l: seq<int>, k: int, r: seq<int>, v: int)
    requires Sorted(l + [k] + r) && v < k
    ensures RemoveFirst(l + [k] + r, v) == RemoveFirst(l, v) + [k] + r
  {
    SortedParts(l, k, r);
    RemoveFirstAppend(l, [k] + r, v);
    if v !in l {
      RemoveFirstAppend([k], r, v);
    }
    assert l + [k] + r == l + ([k] + r);
  }

  /** In a sorted sequence, a key above the pivot is removed from the part
      after it. */
  lemma RemoveAbovePivot(l: seq<int>, k: int, r: seq<int>, v: int)
    requires Sorted(l + [k] + r) && k < v
    ensures RemoveFirst(l + [k] + r, v) == l + [k] + RemoveFirst(r, v)
  {
    SortedParts(l, k, r);
    assert v !in l + [k];
    RemoveFirstAppend(l + [k], r, v);
  }

  /** In a sorted sequence every occurrence of v is interchangeable: cutting
      out any one of them gives the same sequence as cutting out the first. */
  lemma {:induction false} RemoveAtSorted(s: seq<int>, i: nat)
    requires Sorted(s) && i < |s|
    ensures s[..i] + s[i + 1..] == RemoveFirst(s, s[i])
  {
    if s[0] == s[i] {
      RemoveAtEqualsHead(s, i);
    } else {
      var t := s[1..];
      SortedTail(s);
      RemoveAtSorted(t, i - 1);
      assert s == [s[0]] + t;
      CutCons(s[0], t, i - 1);
      RemoveFirstCons(s[0], t, s[i]);
    }
  }

  /** Cutting position j + 1 out of [x] + t is cutting position j out of t. */
  lemma CutCons(x: int, t: seq<int>, j: nat)
    requires j < |t|
    ensures ([x] + t)[..j + 1] + ([x] + t)[j + 2..] == [x] + (t[..j] + t[j + 1..])
  {
    var s := [x] + t;
    assert s[..j + 1] == [x] + t[..j];
    assert s[j + 2..] == t[j + 1..];
  }

  /** RemoveFirst passes over a head different from v. */
  lemma RemoveFirstCons(x: int, t: seq<int>, v: int)
    requires x != v
    ensures RemoveFirst([x] + t, v) == [x] + RemoveFirst(t, v)
  {
    assert ([x] + t)[1..] == t;
  }

  /** Helper for RemoveAtSorted: when s[i] equals the head, all of s[..i + 1]
      equals the head, so cutting out position i or position 0 is the same. */
  lemma RemoveAtEqualsHead(s: seq<int>, i: nat)
    requires Sorted(s) && i < |s| && s[0] == s[i]
    ensures s[..i] + s[i + 1..] == s[1..]
  {
    var r := s[..i] + s[i + 1..];
    forall k | 0 <= k < |r| ensures r[k] == s[1..][k] {
      if k < i {
        assert s[0] <= s[k];
        assert s[k + 1] <= s[i];
        assert s[k] <= s[k + 1];
      }
    }
  }

  /** Cutting a pivot out of a sorted sequence s == a + [k] + b removes the
      first occurrence of k and keeps the sequence sorted. */
  lemma RemovePivot(s: seq<int>, a: seq<int>, k: int, b: seq<int>)
    requires Sorted(s) && s == a + [k] + b
    ensures a + b == RemoveFirst(s, k)
    ensures Sorted(a + b)
  {
    var i := |a|;
    assert s[i] == k;
    assert s[..i] == a;
    assert s[i + 1..] == b;
    RemoveAtSorted(s, i);
    RemoveAtKeepsSorted(s, i);
  }

  /** Regrouping four pieces, either way. */
  lemma Regroup3(a: seq<int>, b: seq<int>, c: seq<int>, d: seq<int>)
    ensures a + (b + c) + d == a + b + (c + d)
    ensures a + (b + c) + d == (a + b) + c + d
  {
  }

  /** Regrouping the pieces around a removed pivot. */
  lemma Regroup(x: seq<int>, k: int, m: seq<int>, q: seq<int>, a: seq<int>)
    ensures (x + [k] + []) + (m + (q + a)) == x + (([k] + m + q) + a)
  {
  }

  /** Removing an element keeps a sorted sequence sorted. */
  lemma RemoveAtKeepsSorted(s: seq<int>, i: nat)
    requires Sorted(s) && i < |s|
    ensures Sorted(s[..i] + s[i + 1..])
  {
    var r := s[..i] + s[i + 1..];
    forall a, b | 0 <= a < b < |r| ensures r[a] <= r[b] {
      var a' := if a < i then a else a + 1;
      var b' := if b < i then b else b + 1;
      assert r[a] == s[a'] && r[b] == s[b'];
    }
  }

  /** The result of inserting xs one after another, in order, into acc. */
  function InsertAll(acc: seq<int>, xs: seq<int>): (r: seq<int>)
    ensures multiset(r) == multiset(acc) + multiset(xs)
    decreases |xs|
  {
    if xs == [] then acc
    else
      assert xs == [xs[0]] + xs[1..];
      InsertAll(InsertSorted(acc, xs[0]), xs[1..])
  }

  /** One step of InsertAll over a suffix of xs, and of the multiset of the
      matching prefix. */
  lemma InsertAllStep(acc: seq<int>, xs: seq<int>, i: nat)
    requires i < |xs|
    ensures InsertAll(InsertSorted(acc, xs[i]), xs[i + 1..]) == InsertAll(acc, xs[i..])
    ensures multiset(xs[..i + 1]) == multiset(xs[..i]) + multiset{xs[i]}
  {
    assert xs[i..][0] == xs[i] && xs[i..][1..] == xs[i + 1..];
    assert xs[..i + 1] == xs[..i] + [xs[i]];
  }

  /** Inserting any sequence of keys into a sorted sequence keeps it sorted. */
  lemma {:induction false} InsertAllSorted(acc: seq<int>, xs: seq<int>)
    requires Sorted(acc)
    ensures Sorted(InsertAll(acc, xs))
    decreases |xs|
  {
    if xs != [] {
      InsertSortedSorted(acc, xs[0]);
      InsertAllSorted(InsertSorted(acc, xs[0]), xs[1..]);
    }
  }

  /** A sorted sequence is determined by its multiset, so InsertAll([], xs)
      is the sorted permutation of xs. */
  lemma {:induction false} SortedUnique(a: seq<int>, b: seq<int>)
    requires Sorted(a) && Sorted(b) && multiset(a) == multiset(b)
    ensures a == b
    decreases |a|
  {
    if a != [] {
      SortedSameHead(a, b);
      MultisetTail(a);
      MultisetTail(b);
      SortedTail(a);
      SortedTail(b);
      SortedUnique(a[1..], b[1..]);
      assert a == [a[0]] + a[1..];
      assert b == [b[0]] + b[1..];
    }
  }

  /** Two sorted sequences with the same non-empty multiset start alike. */
  lemma SortedSameHead(a: seq<int>, b: seq<int>)
    requires Sorted(a) && Sorted(b) && multiset(a) == multiset(b) && a != []
    ensures b != [] && a[0] == b[0]
  {
    assert a[0] in multiset(b);
    var i :| 0 <= i < |b| && b[i] == a[0];
    assert b[0] in multiset(a);
    var j :| 0 <= j < |a| && a[j] == b[0];
    assert a[0] <= a[j] && b[0] <= b[i];
  }

  /** The multiset of a non-empty sequence's tail lacks one head. */
  lemma MultisetTail(s: seq<int>)
    requires s != []
    ensures multiset(s[1..]) == multiset(s) - multiset{s[0]}
  {
    assert s == [s[0]] + s[1..];
  }

  /** s in reverse order. */
  function Reversed<T>(s: seq<T>): (r: seq<T>)
    ensures |r| == |s|
  {
    if s == [] then [] else Reversed(s[1..]) + [s[0]]
  }

  /** Element k of the reversal is element |s| - 1 - k of the original. */
  lemma {:induction false} ReversedAt<T>(s: seq<T>, k: nat)
    requires k < |s|
    ensures Reversed(s)[k] == s[|s| - 1 - k]
  {
    if k < |s| - 1 {
      ReversedAt(s[1..], k);
    }
  }

  /** Reversing twice gives back the original sequence. */
  lemma ReversedTwice<T>(s: seq<T>)
    ensures Reversed(Reversed(s)) == s
  {
    forall k | 0 <= k < |s| ensures Reversed(Reversed(s))[k] == s[k] {
      ReversedAt(Reversed(s), k);
      ReversedAt(s, |s| - 1 - k);
    }
  }

  /** Reversing a prefix one element longer puts that element at the
      front. */
  lemma ReversedPrefix<T>(s: seq<T>, i: nat)
    requires i < |s|
    ensures Reversed(s[..i + 1]) == [s[i]] + Reversed(s[..i])
  {
    var p := s[..i + 1];
    var a, b := Reversed(p), [s[i]] + Reversed(s[..i]);
    forall k | 0 <= k < |a| ensures a[k] == b[k] {
      ReversedAt(p, k);
      if k > 0 {
        ReversedAt(s[..i], k - 1);
      }
    }
  }

  /** s without its element k. */
  function Cut<T>(s: seq<T>, k: int): (r: seq<T>)
    requires 0 <= k < |s|
    ensures |r| == |s| - 1
  {
    s[..k] + s[k + 1..]
  }

  /** Cutting element k takes exactly one copy of it out of the multiset. */
  lemma CutMultiset<T>(s: seq<T>, k: int)
    requires 0 <= k < |s|
    ensures multiset(Cut(s, k)) == multiset(s) - multiset{s[k]}
  {
    assert s == s[..k] + [s[k]] + s[k + 1..];
  }

  /** s with x placed before its element k (at the end when k is |s|). */
  function Spliced<T>(s: seq<T>, k: int, x: T): (r: seq<T>)
    requires 0 <= k <= |s|
    ensures |r| == |s| + 1 && r[k] == x
    ensures forall i :: 0 <= i < k ==> r[i] == s[i]
    ensures forall i :: k < i < |r| ==> r[i] == s[i - 1]
  {
    s[..k] + [x] + s[k..]
  }

  /** Removing the element just inserted at k gives the sequence back. */
  lemma CutInserted<T>(s: seq<T>, k: int, v: T)
    requires 0 <= k <= |s|
    ensures Cut(Spliced(s, k, v), k) == s
  {
    var t := Spliced(s, k, v);
    assert t[..k] == s[..k];
    assert t[k + 1..] == s[k..];
  }

  /** The prefix as long as the sequence is the sequence. */
  lemma PrefixWhole<T>(s: seq<T>)
    ensures s[..|s|] == s
  {
  }

  /** A prefix free of v stays free of v when the next element is not v. */
  lemma NotInPrefixStep<T>(s: seq<T>, j: int, v: T)
    requires 0 <= j < |s| && v !in s[..j] && s[j] != v
    ensures v !in s[..j + 1]
  {
    assert s[..j + 1] == s[..j] + [s[j]];
  }

  /** The last index of v in a prefix one longer. */
  lemma LastIndexStep<T>(s: seq<T>, j: int, v: T)
    requires 0 <= j < |s|
    ensures LastIndex(s[..j + 1], v) == if s[j] == v then j else LastIndex(s[..j], v)
  {
    assert s[..j + 1][..j] == s[..j];
  }

  /** The index of the first occurrence of v in s, or -1 when there is
      none. */
  function FirstIndex<T(==)>(s: seq<T>, v: T): (k: int)
    ensures k == -1 <==> v !in s
    ensures k != -1 ==> 0 <= k < |s| && s[k] == v && v !in s[..k]
  {
    if s == [] then -1
    else if s[0] == v then 0
    else
      var k := FirstIndex(s[1..], v);
      if k == -1 then -1
      else
        assert s[..k + 1] == [s[0]] + s[1..][..k];
        k + 1
  }

  /** The index of the last occurrence of v in s, or -1 when there is
      none. */
  function LastIndex<T(==)>(s: seq<T>, v: T): (k: int)
    ensures k == -1 <==> v !in s
    ensures k != -1 ==> 0 <= k < |s| && s[k] == v && v !in s[k + 1..]
  {
    if s == [] then -1
    else if s[|s| - 1] == v then |s| - 1
    else
      var k := LastIndex(s[..|s| - 1], v);
      if k == -1 then
        assert s == s[..|s| - 1] + [s[|s| - 1]];
        -1
      else
        assert s[k + 1..] == s[..|s| - 1][k + 1..] + [s[|s| - 1]];
        k
  }

  /** A position holding v with no v before it is the first index. */
  lemma FirstIndexAt<T>(s: seq<T>, v: T, j: int)
    requires 0 <= j < |s| && s[j] == v && v !in s[..j]
    ensures FirstIndex(s, v) == j
  {
  }

  /** A position holding v with no v after it is the last index. */
  lemma LastIndexAt<T>(s: seq<T>, v: T, j: int)
    requires 0 <= j < |s| && s[j] == v && v !in s[j + 1..]
    ensures LastIndex(s, v) == j
  {
  }
}
