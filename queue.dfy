/** The three queues of queue/queue.go: queue (first in, first out, over a
    growing slice), dqueue (pushes and pops at both ends) and cqueue (a
    circular buffer of fixed size with head, tail and count). Elements are
    of any type, as interface{} is in the source. */
module Queues {
  import opened Errors

  /** queue: elements leave in the order they came. */
  class Queue<T> {
    var queue: seq<T>

    /** NewQueue: an empty queue. */
    constructor NewQueue()
      ensures queue == []
    {
      queue := [];
    }

    /** Push: the element joins at the back. */
    method Push(data: T)
      modifies this
      ensures queue == old(queue) + [data]
    {
      queue := queue + [data];
    }

    /** Pop: an error, changing nothing, on an empty queue; otherwise the
        front element leaves and is returned. */
    method Pop() returns (r: Result<T>)
      modifies this
      ensures old(queue) == [] ==> r == Err("Pop with empty queue.") && queue == old(queue)
      ensures old(queue) != [] ==> r == Ok(old(queue)[0]) && [r.value] + queue == old(queue)
    {
      if Empty() {
        return Err("Pop with empty queue.");
      }
      var data := queue[0];
      queue := queue[1..];
      return Ok(data);
    }

    /** Head: an error on an empty queue, otherwise the element Pop would
        return. */
    function Head(): (r: Result<T>)
      reads this
      ensures queue == [] <==> r.Err?
      ensures r.Ok? ==> r.value == queue[0]
      ensures r.Err? ==> r.msg == "Empty queue error."
    {
      if Empty() then Err("Empty queue error.") else Ok(queue[0])
    }

    /** Len: the number of elements held. */
    function Len(): (n: int)
      reads this
      ensures n == |queue|
    {
      |queue|
    }

    /** Empty: true exactly when no element is held. */
    function Empty(): (b: bool)
      reads this
      ensures b <==> queue == []
    {
      |queue| <= 0
    }
  }

  /** dqueue: a double-ended queue. */
  class DQueue<T> {
    var queue: seq<T>

    /** NewDQueue: an empty double-ended queue. */
    constructor NewDQueue()
      ensures queue == []
    {
      queue := [];
    }

    /** PushFront: the element joins at the front. */
    method PushFront(data: T)
      modifies this
      ensures queue == [data] + old(queue)
    {
      queue := [data] + queue;
    }

    /** PushBack: the element joins at the back. */
    method PushBack(data: T)
      modifies this
      ensures queue == old(queue) + [data]
    {
      queue := queue + [data];
    }

    /** PopFront: an error, changing nothing, when empty; otherwise the front
        element leaves and is returned, so it undoes PushFront. */
    method PopFront() returns (r: Result<T>)
      modifies this
      ensures old(queue) == [] ==> r == Err("Pop with empty queue") && queue == old(queue)
      ensures old(queue) != [] ==> r == Ok(old(queue)[0]) && [r.value] + queue == old(queue)
    {
      if Empty() {
        return Err("Pop with empty queue");
      }
      var data := queue[0];
      queue := queue[1..];
      return Ok(data);
    }

    /** PopBack: an error, changing nothing, when empty; otherwise the back
        element leaves and is returned, so it undoes PushBack. */
    method PopBack() returns (r: Result<T>)
      modifies this
      ensures old(queue) == [] ==> r == Err("Pop with empty queue") && queue == old(queue)
      ensures old(queue) != [] ==> r == Ok(old(queue)[|old(queue)| - 1]) && queue + [r.value] == old(queue)
    {
      if Empty() {
        return Err("Pop with empty queue");
      }
      var index := |queue| - 1;
      var data := queue[index];
      queue := queue[0..index];
      return Ok(data);
    }

    /** Head: an error when empty, otherwise the front element. */
    function Head(): (r: Result<T>)
      reads this
      ensures queue == [] <==> r.Err?
      ensures r.Ok? ==> r.value == queue[0]
      ensures r.Err? ==> r.msg == "Empty dqueue error"
    {
      if Empty() then Err("Empty dqueue error") else Ok(queue[0])
    }

    /** Tail: an error when empty, otherwise the back element. */
    function Tail(): (r: Result<T>)
      reads this
      ensures queue == [] <==> r.Err?
      ensures r.Ok? ==> r.value == queue[|queue| - 1]
      ensures r.Err? ==> r.msg == "Empty dqueue error"
    {
      if Empty() then Err("Empty dqueue error") else Ok(queue[|queue| - 1])
    }

    /** Len: the number of elements held. */
    function Len(): (n: int)
      reads this
      ensures n == |queue|
    {
      |queue|
    }

    /** Empty: true exactly when no element is held. */
    function Empty(): (b: bool)
      reads this
      ensures b <==> queue == []
    {
      |queue| == 0
    }
  }

  /** The slot i places after slot h in a ring of n slots, for h below n
      and i at most n. */
  function Slot(h: int, i: int, n: int): int
  {
    if h + i < n then h + i else h + i - n
  }

  /** The remainder the source computes is that slot. */
  lemma WrapOnce(h: int, i: int, n: int)
    requires 0 <= h < n && 0 <= i <= n
    ensures (h + i) % n == Slot(h, i, n)
  {
    if h + i >= n {
      assert h + i == n + (h + i - n);
    }
  }

  /** cqueue: a circular buffer. The count elements held are at head,
      head + 1, ... modulo size, and tail is the slot after the last. */
  class CQueue<T(0)> {
    var queue: array<T>
    var head: int
    var tail: int
    var count: int
    var size: int
    /** The elements held, from the front. */
    ghost var items: seq<T>

    ghost predicate Valid()
      reads this, queue
    {
      queue.Length == size && 0 < size &&
      0 <= head < size && 0 <= count <= size && tail == Slot(head, count, size) &&
      |items| == count &&
      forall i :: 0 <= i < count ==> items[i] == queue[Slot(head, i, size)]
    }

    constructor (n: int)
      requires n > 0
      ensures Valid() && fresh(queue) && items == [] && size == n
    {
      queue := new T[n];
      head, tail, count, size := 0, 0, 0, n;
      items := [];
    }

    /** NewCQueue: an error for a size that is not positive, otherwise an
        empty queue of that size. */
    static method NewCQueue(n: int) returns (q: CQueue?<T>, err: Option<string>)
      ensures n <= 0 ==> q == null && err == Some("Can't create loop queue with zero size.")
      ensures n > 0 ==> q != null && fresh(q) && fresh(q.queue) && err == None
      ensures n > 0 ==> q.Valid() && q.items == [] && q.size == n
    {
      if n <= 0 {
        return null, Some("Can't create loop queue with zero size.");
      }
      q := new CQueue(n);
      err := None;
    }

    /** Push: an error, changing nothing, when the queue is full; otherwise
        the element is stored at tail and joins at the back. */
    method Push(data: T) returns (err: Option<string>)
      requires Valid()
      modifies this, queue
      ensures Valid() && queue == old(queue) && size == old(size)
      ensures old(count) == old(size) ==> err == Some("Queue is full.") && items == old(items)
      ensures old(count) < old(size) ==> err == None && items == old(items) + [data]
    {
      if count == size {
        return Some("Queue is full.");
      }
      queue[tail] := data;
      WrapOnce(tail, 1, size);
      tail := (tail + 1) % size;
      count := count + 1;
      items := items + [data];
      err := None;
    }

    /** Pop: an error, changing nothing, when the queue is empty; otherwise
        the element at head leaves and is returned. */
    method Pop() returns (r: Result<T>)
      requires Valid()
      modifies this
      ensures Valid() && queue == old(queue) && size == old(size)
      ensures old(count) == 0 ==> r == Err("Queue is empty.") && items == old(items)
      ensures old(count) > 0 ==> r == Ok(old(items)[0]) && [r.value] + items == old(items)
    {
      if count == 0 {
        return Err("Queue is empty.");
      }
      var data := queue[head];
      WrapOnce(head, 1, size);
      head := (head + 1) % size;
      count := count - 1;
      items := items[1..];
      return Ok(data);
    }

    /** Head: an error when the queue is empty, otherwise the element Pop
        would return. */
    function Head(): (r: Result<T>)
      requires Valid()
      reads this, queue
      ensures items == [] <==> r.Err?
      ensures r.Ok? ==> r.value == items[0]
      ensures r.Err? ==> r.msg == "Queue is empty."
    {
      if count == 0 then Err("Queue is empty.")
      else
        assert items[0] == queue[Slot(head, 0, size)];
        Ok(queue[head])
    }

    /** Len: the number of elements held. */
    function Len(): (n: int)
      requires Valid()
      reads this, queue
      ensures n == |items|
    {
      count
    }

    /** Empty: true exactly when no element is held. */
    function Empty(): (b: bool)
      requires Valid()
      reads this, queue
      ensures b <==> items == []
    {
      count == 0
    }

    /** Full: true exactly when as many elements are held as there are
        slots. */
    function Full(): (b: bool)
      requires Valid()
      reads this, queue
      ensures b <==> |items| == queue.Length
    {
      count == size
    }

    /** Resize: an error, changing nothing, for a size no larger than the
        count; otherwise the elements are copied in order to the front of a
        new buffer of that size. The old size is returned either way. */
    method Resize(newSize: int) returns (oldSize: int, err: Option<string>)
      requires Valid()
      modifies this
      ensures Valid() && oldSize == old(size) && items == old(items)
      ensures newSize <= old(count) ==>
                err == Some("New size is too small.") && size == old(size) && queue == old(queue) &&
                head == old(head) && tail == old(tail) && count == old(count)
      ensures newSize > old(count) ==> err == None && size == newSize && fresh(queue) && head == 0
    {
      if newSize <= count {
        return size, Some("New size is too small.");
      }
      oldSize := size;
      var nq := new T[newSize];
      var i := 0;
      while i < count
        modifies nq
        invariant 0 <= i <= count
        invariant forall j :: 0 <= j < i ==> nq[j] == items[j]
      {
        WrapOnce(head, i, size);
        nq[i] := queue[(head + i) % size];
        i := i + 1;
      }
      queue := nq;
      head, tail, size := 0, count, newSize;
      err := None;
    }
  }
}
