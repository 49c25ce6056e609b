/** The stack of stack/stack.go: a slice whose last element is the top,
    with an optional capacity limit (size 0 means no limit). Elements are of
    any type, as interface{} is in the source; T(0) stands for the zero
    value the source's make fills a fresh slice with. */
module Stacks {
  import opened Errors
  import opened Sequences

  class Stack<T(0)> {
    var stack: seq<T>
    var size: int

    /** The limit, when there is one, is never exceeded. */
    ghost predicate Valid()
      reads this
    {
      0 <= size && (size == 0 || |stack| <= size)
    }

    /** New: an empty stack whose limit is the first argument when there is
        one and it is positive, and no limit otherwise. */
    constructor New(sizes: seq<int>)
      ensures Valid() && stack == []
      ensures |sizes| > 0 && sizes[0] > 0 ==> Cap() == sizes[0]
      ensures !(|sizes| > 0 && sizes[0] > 0) ==> Cap() == -1
    {
      var defsize := 0;
      if |sizes| > 0 && sizes[0] > 0 {
        defsize := sizes[0];
      }
      stack := [];
      size := defsize;
    }

    /** Push: an error, changing nothing, when a limit is set and reached;
        otherwise the element becomes the top. */
    method Push(data: T) returns (err: Option<string>)
      requires Valid()
      modifies this
      ensures Valid() && size == old(size)
      ensures err.Some? <==> old(Cap()) != -1 && old(Len()) >= old(Cap())
      ensures err.Some? ==> err == Some("Stack is full, can't push.") && stack == old(stack)
      ensures err.None? ==> stack == old(stack) + [data]
    {
      if size > 0 && |stack| >= size {
        return Some("Stack is full, can't push.");
      }
      stack := stack + [data];
      err := None;
    }

    /** Pop: an error, changing nothing, on an empty stack; otherwise the top
        element leaves and is returned, so Pop undoes a successful Push. */
    method Pop() returns (r: Result<T>)
      requires Valid()
      modifies this
      ensures Valid() && size == old(size)
      ensures old(stack) == [] ==> r == Err("Stack is empty, cant't pop.") && stack == old(stack)
      ensures old(stack) != [] ==> r.Ok? && stack + [r.value] == old(stack)
    {
      if Empty() {
        return Err("Stack is empty, cant't pop.");
      }
      var index := |stack| - 1;
      var data := stack[index];
      stack := stack[0..index];
      return Ok(data);
    }

    /** RemoveLimit: the stack no longer has a limit; its elements stay. */
    method RemoveLimit()
      requires Valid()
      modifies this
      ensures Valid() && stack == old(stack) && Cap() == -1
    {
      size := 0;
    }

    /** Flip: the elements in reverse order, written into a fresh slice of
        the same length whose capacity is the limit, or the length when
        there is no limit. */
    method Flip()
      requires Valid()
      modifies this
      ensures Valid() && size == old(size)
      ensures stack == Reversed(old(stack))
    {
      var sl, ss := |stack|, size;
      if ss == 0 {
        ss := sl;
      }
      assert sl <= ss;
      var ns := new T[sl];
      var i := sl - 1;
      while i >= 0
        modifies ns
        invariant -1 <= i < sl
        invariant forall k :: 0 <= k < sl - 1 - i ==> ns[k] == stack[sl - 1 - k]
      {
        ns[sl - i - 1] := stack[i];
        i := i - 1;
      }
      forall k | 0 <= k < sl ensures ns[k] == Reversed(stack)[k] {
        ReversedAt(stack, k);
      }
      stack := ns[..];
    }

    /** Top: an error on an empty stack, otherwise the element Pop would
        return. */
    function Top(): (r: Result<T>)
      reads this
      ensures stack == [] <==> r.Err?
      ensures r.Err? ==> r.msg == "Stack is empty.."
      ensures r.Ok? ==> r.value == stack[|stack| - 1]
    {
      if Empty() then Err("Stack is empty..") else Ok(stack[|stack| - 1])
    }

    /** Len: the number of elements held. */
    function Len(): (n: int)
      reads this
      ensures n == |stack|
    {
      |stack|
    }

    /** Cap: the limit, or -1 when there is none; a stack with a limit never
        holds more than it. */
    function Cap(): (c: int)
      reads this
      requires Valid()
      ensures c == -1 <==> size == 0
      ensures c != -1 ==> c == size && |stack| <= c
    {
      if size > 0 then size else -1
    }

    /** Empty: true exactly when no element is held. */
    function Empty(): (b: bool)
      reads this
      ensures b <==> stack == []
    {
      Len() <= 0
    }
  }
}
