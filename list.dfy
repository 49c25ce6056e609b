/** The singly linked list of list/list.go: nodes on the heap, each holding
    a value and the next node, and a List object with the first node, the
    last node and the length. The ghost sequence nodes is the chain from
    the first node, items the values along it. */
module Lists {
  import opened Sequences

  class Node<T> {
    var value: T
    var next: Node?<T>

    constructor (value: T, next: Node?<T>)
      ensures this.value == value && this.next == next
    {
      this.value := value;
      this.next := next;
    }
  }

  /** Node i of the chain points to node i + 1. */
  ghost predicate Linked<T>(nodes: seq<Node<T>>, i: int)
    reads nodes
  {
    0 <= i < |nodes| - 1 ==> nodes[i].next == nodes[i + 1]
  }

  /** One more value inserted at the front extends the reversed prefix. */
  lemma InsertRangeStep<T>(values: seq<T>, i: int, start: seq<T>, before: seq<T>, after: seq<T>)
    requires 0 <= i < |values|
    requires before == Reversed(values[..i]) + start && after == [values[i]] + before
    ensures after == Reversed(values[..i + 1]) + start
  {
    ReversedPrefix(values, i);
  }

  class List<T(==)> {
    var head: Node?<T>
    var tail: Node?<T>
    var length: int
    /** The values held, from the head. */
    ghost var items: seq<T>
    /** The chain of nodes from the head. */
    ghost var nodes: seq<Node<T>>
    ghost var Repr: set<object>

    /** The chain starts at head, ends at tail, has length nodes, each
        pointing to the next and the last to nothing, no node twice, and
        the nodes hold items. */
    ghost predicate Valid()
      reads this, Repr
    {
      this in Repr && (forall n :: n in nodes ==> n in Repr) &&
      length == |nodes| == |items| &&
      (nodes == [] ==> head == null && tail == null) &&
      (nodes != [] ==> head == nodes[0] && tail == nodes[|nodes| - 1] && tail.next == null) &&
      (forall i :: 0 <= i < |nodes| ==> nodes[i].value == items[i]) &&
      (forall i :: Linked(nodes, i)) &&
      (forall i, j :: 0 <= i < j < |nodes| ==> nodes[i] != nodes[j])
    }

    /** New: an empty list to which the values are added in order. */
    constructor New(values: seq<T>)
      ensures Valid() && fresh(Repr) && items == values
    {
      head, tail, length := null, null, 0;
      items, nodes := [], [];
      Repr := {this};
      new;
      if |values| == 0 {
        return;
      }
      AddRange(values);
    }

    /** Insert: the value becomes the first element. */
    method Insert(value: T)
      requires Valid()
      modifies this
      ensures Valid() && fresh(Repr - old(Repr))
      ensures items == [value] + old(items)
    {
      if Empty() {
        head := new Node(value, null);
        tail := head;
        length := 1;
        nodes, items := [head], [value];
        Repr := Repr + {head};
      } else {
        var p := head;
        head := new Node(value, p);
        length := length + 1;
        nodes, items := [head] + nodes, [value] + items;
        Repr := Repr + {head};
        forall i ensures Linked(nodes, i) {
          assert Linked(old(nodes), i - 1);
        }
      }
    }

    /** InsertAt: the value is placed before the element at index, or at
        the end when index is the length; any other index panics. */
    method InsertAt(index: int, value: T)
      requires Valid() && 0 <= index <= length
      modifies Repr
      ensures Valid() && fresh(Repr - old(Repr))
      ensures items == Spliced(old(items), index, value)
    {
      if index == 0 {
        Insert(value);
        return;
      }
      if index == length {
        Add(value);
        assert old(items)[..index] == old(items) && old(items)[index..] == [];
        return;
      }
      var p := head;
      var k := index;
      while k > 1
        invariant 1 <= k <= index && p == nodes[index - k]
      {
        assert Linked(nodes, index - k);
        p := p.next;
        k := k - 1;
      }
      LinkAfter(p, index, value);
    }

    /** A new node with the value goes in after p, node index - 1 of the
        chain, which is not the last. */
    method LinkAfter(p: Node<T>, ghost index: int, value: T)
      requires Valid() && 0 < index < |nodes| && p == nodes[index - 1]
      modifies Repr
      ensures Valid() && fresh(Repr - old(Repr))
      ensures items == Spliced(old(items), index, value)
    {
      ghost var chain := nodes;
      assert Linked(chain, index - 1);
      var q := new Node(value, p.next);
      p.next := q;
      length := length + 1;
      nodes, items := Spliced(nodes, index, q), Spliced(items, index, value);
      Repr := Repr + {q};
      forall i | 0 <= i < |nodes| - 1 ensures Linked(nodes, i) {
        if i < index - 1 {
          assert old(Linked(chain, i)) && chain[i] != p;
          assert nodes[i] == chain[i] && nodes[i + 1] == chain[i + 1];
        } else if i > index {
          assert old(Linked(chain, i - 1)) && chain[i - 1] != p;
          assert nodes[i] == chain[i - 1] && nodes[i + 1] == chain[i];
        }
      }
    }

    /** Add: the value becomes the last element. */
    method Add(value: T)
      requires Valid()
      modifies Repr
      ensures Valid() && fresh(Repr - old(Repr))
      ensures items == old(items) + [value]
    {
      if Empty() {
        head := new Node(value, null);
        tail := head;
        length := 1;
        nodes, items := [head], [value];
        Repr := Repr + {head};
      } else {
        var n := new Node(value, null);
        ghost var chain := nodes;
        var last := tail;
        last.next := n;
        tail := n;
        length := length + 1;
        nodes, items := nodes + [n], items + [value];
        Repr := Repr + {n};
        forall i ensures Linked(nodes, i) {
          if 0 <= i < |chain| - 1 {
            assert old(Linked(chain, i)) && chain[i] != last;
            assert nodes[i] == chain[i] && nodes[i + 1] == chain[i + 1];
          }
        }
      }
    }

    /** AddRange: the values are added at the end, in order. */
    method AddRange(values: seq<T>)
      requires Valid()
      modifies Repr
      ensures Valid() && fresh(Repr - old(Repr))
      ensures items == old(items) + values
    {
      var i := 0;
      while i < |values|
        invariant 0 <= i <= |values|
        invariant Valid() && fresh(Repr - old(Repr))
        invariant items == old(items) + values[..i]
      {
        Add(values[i]);
        assert values[..i + 1] == values[..i] + [values[i]];
        i := i + 1;
      }
      assert values[..i] == values;
    }

    /** InsertRange: the values are inserted at the front one after another,
        so they end up before the old elements in reverse order. */
    method InsertRange(values: seq<T>)
      requires Valid()
      modifies this
      ensures Valid() && fresh(Repr - old(Repr))
      ensures items == Reversed(values) + old(items)
    {
      ghost var start := items;
      var i := 0;
      while i < |values|
        invariant 0 <= i <= |values|
        invariant Valid() && fresh(Repr - old(Repr))
        invariant items == Reversed(values[..i]) + start
      {
        ghost var before := items;
        Insert(values[i]);
        InsertRangeStep(values, i, start, before, items);
        i := i + 1;
      }
      PrefixWhole(values);
    }

    /** HasValue: true exactly when some element equals the value. */
    method HasValue(value: T) returns (b: bool)
      requires Valid()
      ensures b <==> value in items
    {
      var p := head;
      ghost var j := 0;
      while p != null
        invariant 0 <= j <= |nodes|
        invariant j < |nodes| ==> p == nodes[j]
        invariant j == |nodes| ==> p == null
        invariant value !in items[..j]
        decreases |nodes| - j
      {
        if p.value == value {
          return true;
        }
        assert Linked(nodes, j);
        NotInPrefixStep(items, j, value);
        p := p.next;
        j := j + 1;
      }
      PrefixWhole(items);
      return false;
    }

    /** The first node drops out of the chain. */
    method DropHead()
      requires Valid() && |nodes| > 0
      modifies this
      ensures Valid() && Repr == old(Repr)
      ensures items == old(items)[1..]
    {
      if tail == head {
        tail := null;
      }
      assert Linked(nodes, 0);
      head := head.next;
      length := length - 1;
      nodes, items := nodes[1..], items[1..];
      forall i ensures Linked(nodes, i) {
        assert Linked(old(nodes), i + 1);
      }
    }

    /** The node after p, node j of the chain, drops out of the chain. */
    method Unlink(p: Node<T>, q: Node<T>, ghost j: int)
      requires Valid() && 0 < j < |nodes| && p == nodes[j - 1] && q == nodes[j]
      modifies Repr
      ensures Valid() && Repr == old(Repr)
      ensures items == Cut(old(items), j)
    {
      ghost var chain := nodes;
      assert Linked(chain, j);
      p.next := q.next;
      if q == tail {
        tail := p;
      }
      length := length - 1;
      nodes, items := Cut(nodes, j), Cut(items, j);
      forall i | 0 <= i < |nodes| - 1 ensures Linked(nodes, i) {
        if i < j - 1 {
          assert old(Linked(chain, i)) && chain[i] != p;
          assert nodes[i] == chain[i] && nodes[i + 1] == chain[i + 1];
        } else if i >= j {
          assert old(Linked(chain, i + 1)) && chain[i + 1] != p;
          assert nodes[i] == chain[i + 1] && nodes[i + 1] == chain[i + 2];
        }
      }
    }

    /** RemoveValue: the first element equal to the value leaves; nothing
        changes when there is none. An empty list panics. */
    method RemoveValue(value: T)
      requires Valid() && length > 0
      modifies Repr
      ensures Valid() && Repr == old(Repr)
      ensures value !in old(items) ==> items == old(items)
      ensures value in old(items) ==> items == Cut(old(items), FirstIndex(old(items), value))
    {
      if head.value == value {
        FirstIndexAt(items, value, 0);
        DropHead();
        return;
      }
      assert Linked(nodes, 0);
      var p, q := head, head.next;
      ghost var j := 1;
      while q != null && q.value != value
        invariant 1 <= j <= |nodes|
        invariant p == nodes[j - 1]
        invariant j < |nodes| ==> q == nodes[j]
        invariant j == |nodes| ==> q == null
        invariant value !in items[..j]
        decreases |nodes| - j
      {
        assert Linked(nodes, j);
        assert value !in items[..j + 1] by {
          NotInPrefixStep(items, j, value);
        }
        p, q := q, q.next;
        j := j + 1;
      }
      if q != null {
        FirstIndexAt(items, value, j);
        Unlink(p, q, j);
      } else {
        PrefixWhole(items);
      }
    }

    /** The first loop of RemoveLastValue: the last node holding the value,
        or null when there is none. */
    method FindLast(value: T) returns (lst: Node?<T>, ghost last: int)
      requires Valid()
      ensures last == LastIndex(items, value)
      ensures last == -1 ==> lst == null
      ensures last != -1 ==> lst == nodes[last]
    {
      lst := null;
      last := -1;
      var p := head;
      ghost var j := 0;
      while p != null
        invariant 0 <= j <= |nodes|
        invariant j < |nodes| ==> p == nodes[j]
        invariant j == |nodes| ==> p == null
        invariant last == LastIndex(items[..j], value)
        invariant last == -1 ==> lst == null
        invariant last != -1 ==> lst == nodes[last]
        decreases |nodes| - j
      {
        assert LastIndex(items[..j + 1], value) == if items[j] == value then j else LastIndex(items[..j], value) by {
          LastIndexStep(items, j, value);
        }
        if p.value == value {
          lst := p;
          last := j;
        }
        assert Linked(nodes, j);
        p := p.next;
        j := j + 1;
      }
      PrefixWhole(items);
    }

    /** The second loop of RemoveLastValue: the node before node k. */
    method FindBefore(lst: Node<T>, ghost k: int) returns (p: Node<T>)
      requires Valid() && 0 < k < |nodes| && lst == nodes[k]
      ensures p == nodes[k - 1]
    {
      p := head;
      ghost var i := 0;
      while p.next != lst
        invariant 0 <= i < k && p == nodes[i]
        decreases k - i
      {
        assert Linked(nodes, i);
        p := p.next;
        i := i + 1;
      }
      assert Linked(nodes, i);
    }

    /** RemoveLastValue: the last element equal to the value leaves. A value
        that is not held panics. */
    method RemoveLastValue(value: T)
      requires Valid() && value in items
      modifies Repr
      ensures Valid() && Repr == old(Repr)
      ensures items == Cut(old(items), LastIndex(old(items), value))
    {
      var lst, last := FindLast(value);
      if lst == head {
        assert last == 0;
        DropHead();
        return;
      }
      var p := FindBefore(lst, last);
      Unlink(p, lst, last);
    }

    /** RemoveAt: the element at index leaves, counting from the back for a
        negative index (-1 is the last); an index outside -length up to
        length - 1 panics. */
    method RemoveAt(index: int)
      requires Valid() && -length <= index < length
      modifies Repr
      ensures Valid() && Repr == old(Repr)
      ensures items == Cut(old(items), if index < 0 then index + old(length) else index)
    {
      var k := index;
      if k < 0 {
        k := k + length;
      }
      if k == 0 {
        DropHead();
      } else {
        assert Linked(nodes, 0);
        var p, q := head, head.next;
        var c := k;
        while c > 1
          invariant 1 <= c <= k && p == nodes[k - c] && q == nodes[k - c + 1]
        {
          assert Linked(nodes, k - c);
          assert Linked(nodes, k - c + 1);
          p := p.next;
          q := q.next;
          c := c - 1;
        }
        Unlink(p, q, k);
      }
    }

    /** RemoveLastAt: the index-th element from the back leaves (1 is the
        last); the position length - index goes to RemoveAt. */
    method RemoveLastAt(index: int)
      requires Valid() && -length <= length - index < length
      modifies Repr
      ensures Valid() && Repr == old(Repr)
      ensures index <= old(length) ==> items == Cut(old(items), old(length) - index)
      ensures index > old(length) ==> items == Cut(old(items), 2 * old(length) - index)
    {
      RemoveAt(length - index);
    }

    /** Clear: the list becomes empty. */
    method Clear()
      requires Valid()
      modifies this
      ensures Valid() && Repr == old(Repr) && items == []
    {
      head, tail, length := null, null, 0;
      nodes, items := [], [];
    }

    /** Empty: true exactly when no element is held. */
    function Empty(): (b: bool)
      requires Valid()
      reads this, Repr
      ensures b <==> items == []
    {
      head == null
    }

    /** Length: the number of elements held. */
    function Length(): (n: int)
      requires Valid()
      reads this, Repr
      ensures n == |items|
    {
      length
    }
  }
}
