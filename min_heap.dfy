/** The min-heap object (heap/minHeap.go, type min_heap): a slice in
    min-heap order that Put appends to and Get shrinks, each followed by
    the sift loop written out in the source. */
module MinHeaps {
  import opened HeapSpec
  import opened Errors

  class MinHeap {
    var heap: seq<int>

    /** Every element is at least its parent. */
    ghost predicate Valid()
      reads this
    {
      IsHeap(Min, heap)
    }

    /** NewMinHeap: an empty heap, then Put of each value in turn. */
    constructor NewMinHeap(data: seq<int>)
      ensures heap == PutAll(Min, [], data) && Valid()
    {
      heap := [];
      new;
      PutEach(data);
    }

    /** MinHeapFromSlice: NewMinHeap with no values, then Put of each value
        in turn. */
    constructor FromSlice(s: seq<int>)
      ensures heap == PutAll(Min, [], s) && Valid()
    {
      heap := [];
      new;
      PutEach(s);
    }

    /** The loop of NewMinHeap and MinHeapFromSlice. */
    method PutEach(data: seq<int>)
      requires heap == [] && Valid()
      modifies this
      ensures heap == PutAll(Min, [], data) && Valid()
    {
      var i := 0;
      while i < |data|
        invariant 0 <= i <= |data|
        invariant heap == PutAll(Min, [], data[..i])
      {
        PutAllStep(Min, [], data, i);
        Put(data[i]);
        i := i + 1;
      }
      assert data[..i] == data;
      PutAllHeap(Min, [], data);
    }

    /** Put: the value is appended and moves up while it is smaller than its
        parent. The heap order is kept, and the slice holds one more
        element, the value. */
    method Put(data: int)
      modifies this
      ensures heap == PutSpec(Min, old(heap), data)
      ensures multiset(heap) == multiset(old(heap)) + multiset{data}
      ensures old(Valid()) ==> Valid()
    {
      if |heap| == 0 {
        heap := heap + [data];
      } else {
        heap := heap + [data];
        var child := |heap| - 1;
        var parent := (child - 1) / 2;
        while child > 0 && heap[child] < heap[parent]
          invariant 0 <= child < |heap| && parent == (child - 1) / 2
          invariant SiftUp(Min, heap, child) == PutSpec(Min, old(heap), data)
          decreases child
        {
          heap := heap[child := heap[parent]][parent := heap[child]];
          child := parent;
          // once child is 0, parent is not read again
          parent := (child - 1) / 2;
        }
      }
      if old(Valid()) {
        PutHeap(Min, old(heap), data);
      }
    }

    /** Get: an error, with the heap unchanged, when it is empty; otherwise
        the top, which is the least element, is returned, the last element
        takes its place and moves down past its smaller child while it is
        larger. The heap order is kept and exactly the top is removed. */
    method Get() returns (data: int, err: Option<string>)
      modifies this
      ensures old(heap) == [] ==> err == Some("Heap is empty.") && data == 0 && heap == old(heap)
      ensures old(heap) != [] ==> err.None? && data == old(heap)[0] && heap == GetSpec(Min, old(heap))
      ensures old(Valid()) ==> Valid() && multiset(heap) == multiset(old(heap)) - multiset{data}
      ensures old(Valid()) && err.None? ==> forall x :: x in multiset(old(heap)) ==> data <= x
    {
      if |heap| == 0 {
        data, err := 0, Some("Heap is empty.");
        return;
      }
      ghost var target := GetSpec(Min, heap);
      data, err := heap[0], None;
      var last := |heap| - 1;
      var h := heap[0 := heap[last]];
      h := h[0..last];
      var parent := 0;
      while true
        invariant |h| == last
        invariant SiftDown(Min, h, parent) == target
        decreases |h| - parent
      {
        var left, right := 2 * parent + 1, 2 * parent + 2;
        if left >= last {
          assert SiftDown(Min, h, parent) == h;
          break;
        }
        var index := left;
        if right < last && h[right] < h[left] {
          index := right;
        }
        if h[parent] > h[index] {
          h := h[parent := h[index]][index := h[parent]];
        } else {
          assert SiftDown(Min, h, parent) == h;
          break;
        }
        parent := index;
      }
      if Valid() {
        GetHeap(Min, heap);
        TopDominatesAll(Min, heap);
      }
      heap := h;
    }

    /** Top: an error when the heap is empty, otherwise the element at
        index 0, which is the least; nothing changes. */
    method Top() returns (data: int, err: Option<string>)
      ensures heap == [] ==> err == Some("Heap is empty.") && data == 0
      ensures heap != [] ==> err.None? && data == heap[0]
      ensures Valid() && err.None? ==> forall x :: x in multiset(heap) ==> data <= x
    {
      if |heap| == 0 {
        data, err := 0, Some("Heap is empty.");
      } else {
        data, err := heap[0], None;
        if Valid() {
          TopDominatesAll(Min, heap);
        }
      }
    }

    /** Empty: true exactly when no element is held. */
    function Empty(): (b: bool)
      reads this
      ensures b <==> multiset(heap) == multiset{}
    {
      |heap| == 0
    }
  }
}
