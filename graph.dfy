/** The two graphs of graph/graph.go. GraphL is a directed, weighted graph
    kept as a slice of vertices, each with a linked list of outgoing edges
    (end vertex index and cost). GraphM is an undirected, unweighted graph
    kept as a slice of vertices with a visit flag and a square 0/1
    adjacency matrix. Vertices are named by values of any type compared
    with ==, as interface{} values are in the source. */
module Graphs {
  import opened Errors
  import opened Sequences

  // ---------------------------------------------------------------------
  // Name lookup, shared by both graphs

  /** The lookup loop that keeps going after a match: the last index of v
      in names, or -1. */
  method FindLast<T(==)>(names: seq<T>, v: T) returns (index: int)
    ensures index == LastIndex(names, v)
  {
    index := -1;
    var k := 0;
    while k < |names|
      invariant 0 <= k <= |names|
      invariant index == LastIndex(names[..k], v)
    {
      LastIndexStep(names, k, v);
      if names[k] == v {
        index := k;
      }
      k := k + 1;
    }
    PrefixWhole(names);
  }

  /** The lookup of AddEdge and DeleteEdge: both names, each time keeping
      the last match. */
  method FindBoth<T(==)>(names: seq<T>, sv: T, ev: T) returns (si: int, ei: int)
    ensures si == LastIndex(names, sv) && ei == LastIndex(names, ev)
  {
    si := FindLast(names, sv);
    ei := FindLast(names, ev);
  }

  /** The lookup loop that breaks at the first match: the first index of v
      in names, or -1. */
  method FindFirst<T(==)>(names: seq<T>, v: T) returns (index: int)
    ensures index == FirstIndex(names, v)
  {
    var k := 0;
    while k < |names|
      invariant 0 <= k <= |names|
      invariant v !in names[..k]
    {
      if names[k] == v {
        FirstIndexAt(names, v, k);
        return k;
      }
      NotInPrefixStep(names, k, v);
      k := k + 1;
    }
    PrefixWhole(names);
    return -1;
  }

  // ---------------------------------------------------------------------
  // GraphL: adjacency lists

  /** An edge node: the index of the end vertex and the cost. */
  datatype Edge = Edge(index: int, cost: int)

  /** A vertex and its outgoing edges, in list order. */
  datatype VNode<T> = VNode(vertex: T, edges: seq<Edge>)

  function Names<T>(vs: seq<VNode<T>>): seq<T>
  {
    seq(|vs|, k requires 0 <= k < |vs| => vs[k].vertex)
  }

  function Targets(es: seq<Edge>): seq<int>
  {
    seq(|es|, j requires 0 <= j < |es| => es[j].index)
  }

  /** Every edge in the list ends at one of n vertices. */
  predicate EdgesBelow(es: seq<Edge>, n: int)
  {
    forall j :: 0 <= j < |es| ==> 0 <= es[j].index < n
  }

  /** Every edge of the graph ends at a vertex of the graph. */
  predicate Wellformed<T>(vs: seq<VNode<T>>)
  {
    forall k :: 0 <= k < |vs| ==> EdgesBelow(vs[k].edges, |vs|)
  }

  /** The list without its first edge to t (deletedge). */
  function DropFirstTo(es: seq<Edge>, t: int): seq<Edge>
  {
    var j := FirstIndex(Targets(es), t);
    if j == -1 then es else Cut(es, j)
  }

  /** The ends of a cut list are the cut list of ends. */
  lemma TargetsCut(es: seq<Edge>, j: int)
    requires 0 <= j < |es|
    ensures Targets(Cut(es, j)) == Cut(Targets(es), j)
  {
    var a, b := Targets(Cut(es, j)), Cut(Targets(es), j);
    forall i | 0 <= i < |a| ensures a[i] == b[i] {
      if i >= j {
        assert Cut(es, j)[i] == es[i + 1];
      }
    }
  }

  /** DropFirstTo takes out exactly one edge to t when there is one, and
      nothing else. */
  lemma DropFirstToCount(es: seq<Edge>, t: int)
    ensures multiset(Targets(DropFirstTo(es, t))) == multiset(Targets(es)) - multiset{t}
  {
    var j := FirstIndex(Targets(es), t);
    if j != -1 {
      TargetsCut(es, j);
      CutMultiset(Targets(es), j);
    }
  }

  /** Deleting the edge just added to a vertex with no other edge to the
      same end gives the list back. */
  lemma DropFirstToAppended(es: seq<Edge>, t: int, cost: int)
    requires t !in Targets(es)
    ensures DropFirstTo(es + [Edge(t, cost)], t) == es
  {
    var s := es + [Edge(t, cost)];
    assert Targets(s) == Targets(es) + [t];
    FirstIndexAt(Targets(s), t, |es|);
    assert s[..|es|] == es;
  }

  /** The edge with its end renumbered after vertex d leaves. */
  function Lowered(e: Edge, d: int): Edge
  {
    if e.index > d then Edge(e.index - 1, e.cost) else e
  }

  /** The list with every edge to vertex d dropped and every edge to a
      later vertex renumbered: what deleting vertex d should do to it. */
  function Retarget(es: seq<Edge>, d: int): seq<Edge>
  {
    if es == [] then []
    else
      var last := es[|es| - 1];
      Retarget(es[..|es| - 1], d) + (if last.index == d then [] else [Lowered(last, d)])
  }

  /** Retarget keeps the edges inside the graph once d is gone. */
  lemma {:induction false} RetargetBelow(es: seq<Edge>, d: int, n: int)
    requires EdgesBelow(es, n) && 0 <= d < n
    ensures EdgesBelow(Retarget(es, d), n - 1)
  {
    if es != [] {
      var init := es[..|es| - 1];
      assert EdgesBelow(init, n) by {
        forall j | 0 <= j < |init| ensures 0 <= init[j].index < n {
          assert init[j] == es[j];
        }
      }
      RetargetBelow(init, d, n);
    }
  }

  /** Retarget leaves out exactly the edges to d. */
  lemma {:induction false} RetargetLength(es: seq<Edge>, d: int)
    ensures |Retarget(es, d)| == |es| - multiset(Targets(es))[d]
  {
    if es != [] {
      var init := es[..|es| - 1];
      assert Targets(es) == Targets(init) + [es[|es| - 1].index];
      RetargetLength(init, d);
    }
  }

  /** The graph after vertex d is deleted, with the correct treatment of
      every list: every edge to d goes. */
  function DeleteVertex<T>(vs: seq<VNode<T>>, d: int): (r: seq<VNode<T>>)
    requires 0 <= d < |vs|
    ensures |r| == |vs| - 1
    ensures Names(r) == Cut(Names(vs), d)
  {
    var rest := Cut(vs, d);
    var r := seq(|rest|, k requires 0 <= k < |rest| => VNode(rest[k].vertex, Retarget(rest[k].edges, d)));
    assert Names(r) == Cut(Names(vs), d) by {
      forall k | 0 <= k < |r| ensures Names(r)[k] == Cut(Names(vs), d)[k] {
        if k >= d {
          assert rest[k] == vs[k + 1];
        }
      }
    }
    r
  }

  /** Deleting a vertex, done correctly, leaves every edge ending at a
      vertex of the graph. */
  lemma DeleteVertexWellformed<T>(vs: seq<VNode<T>>, d: int)
    requires Wellformed(vs) && 0 <= d < |vs|
    ensures Wellformed(DeleteVertex(vs, d))
  {
    var r := DeleteVertex(vs, d);
    var rest := Cut(vs, d);
    forall k | 0 <= k < |r| ensures EdgesBelow(r[k].edges, |r|) {
      var o := if k < d then k else k + 1;
      assert rest[k] == vs[o];
      RetargetBelow(vs[o].edges, d, |vs|);
    }
  }

  /** The list as graph/graph.go:76-83 leaves it: deletedge drops only
      the first edge to d, then the later ends are renumbered. So at most
      one edge goes, where Retarget drops every edge to d. */
  function RetargetAsWritten(es: seq<Edge>, d: int): (r: seq<Edge>)
    ensures |r| == |es| - (if d in Targets(es) then 1 else 0)
  {
    var r := DropFirstTo(es, d);
    seq(|r|, j requires 0 <= j < |r| => Lowered(r[j], d))
  }

  /** The graph as the source's Delete leaves it: the other vertices keep
      their order, and each of their lists loses only its first edge to
      d. */
  function DeleteVertexAsWritten<T>(vs: seq<VNode<T>>, d: int): (r: seq<VNode<T>>)
    requires 0 <= d < |vs|
    ensures |r| == |vs| - 1
    ensures Names(r) == Cut(Names(vs), d)
    ensures forall k :: 0 <= k < |r| ==>
      |r[k].edges| == |Cut(vs, d)[k].edges| - (if d in Targets(Cut(vs, d)[k].edges) then 1 else 0)
  {
    var rest := Cut(vs, d);
    var r := seq(|rest|, k requires 0 <= k < |rest| => VNode(rest[k].vertex, RetargetAsWritten(rest[k].edges, d)));
    assert Names(r) == Cut(Names(vs), d) by {
      forall k | 0 <= k < |r| ensures Names(r)[k] == Cut(Names(vs), d)[k] {
        if k >= d {
          assert rest[k] == vs[k + 1];
        }
      }
    }
    r
  }

  /** With two edges from vertex 0 to vertex 1, deleting vertex 1 as
      written keeps one of them, now ending at index 1 in a graph with a
      single vertex. */
  lemma AsWrittenDeleteDangles<T>(a: T, b: T)
    ensures var vs := [VNode(a, [Edge(1, 0), Edge(1, 0)]), VNode(b, [])];
      Wellformed(vs) && !Wellformed(DeleteVertexAsWritten(vs, 1)) &&
      Wellformed(DeleteVertex(vs, 1))
  {
    var vs := [VNode(a, [Edge(1, 0), Edge(1, 0)]), VNode(b, [])];
    var es := vs[0].edges;
    assert Targets(es) == [1, 1];
    FirstIndexAt(Targets(es), 1, 0);
    var after := DeleteVertexAsWritten(vs, 1);
    assert after[0].edges == [Edge(1, 0)];
    DeleteVertexWellformed(vs, 1);
  }

  /** The number of edges into vertex d from the first n vertices other
      than d itself. */
  function InCount<T>(vs: seq<VNode<T>>, d: int, n: int): int
    requires 0 <= n <= |vs|
  {
    if n == 0 then 0
    else InCount(vs, d, n - 1) + (if n - 1 == d then 0 else multiset(Targets(vs[n - 1].edges))[d])
  }

  /** The counting loop of OutDegree: walk the edge nodes one next link at
      a time, counting each. */
  method ListLength(es: seq<Edge>) returns (c: int)
    ensures c == |es|
  {
    c := 0;
    var rest := es;
    while rest != []
      invariant c + |rest| == |es|
    {
      c, rest := c + 1, rest[1..];
    }
  }

  /** The inner counting loop of InDegree: the number of edges to t. */
  method CountTo(es: seq<Edge>, t: int) returns (c: int)
    ensures c == multiset(Targets(es))[t]
  {
    c := 0;
    var j := 0;
    while j < |es|
      invariant 0 <= j <= |es|
      invariant c == multiset(Targets(es[..j]))[t]
    {
      assert Targets(es[..j + 1]) == Targets(es[..j]) + [es[j].index];
      if es[j].index == t {
        c := c + 1;
      }
      j := j + 1;
    }
    assert es[..j] == es;
  }

  /** The outer loop of InDegree: the edges into d from every list but
      d's own. */
  method CountInto<T>(vs: seq<VNode<T>>, d: int) returns (degree: int)
    ensures degree == InCount(vs, d, |vs|)
  {
    degree := 0;
    var k := 0;
    while k < |vs|
      invariant 0 <= k <= |vs|
      invariant degree == InCount(vs, d, k)
    {
      if k != d {
        var c := CountTo(vs[k].edges, d);
        degree := degree + c;
      }
      k := k + 1;
    }
  }

  /** The renumbering loop of Delete over one list, corrected to drop every
      edge to d. */
  method RetargetList(es: seq<Edge>, d: int) returns (r: seq<Edge>)
    ensures r == Retarget(es, d)
  {
    r := [];
    var j := 0;
    while j < |es|
      invariant 0 <= j <= |es|
      invariant r == Retarget(es[..j], d)
    {
      assert es[..j + 1][..j] == es[..j];
      if es[j].index != d {
        r := r + [Lowered(es[j], d)];
      }
      j := j + 1;
    }
    assert es[..j] == es;
  }

  class GraphL<T(==)> {
    var vertex: seq<VNode<T>>

    /** NewGraphL: the vertices in order, with no edges. */
    constructor NewGraphL(vs: seq<T>)
      ensures Wellformed(vertex) && Names(vertex) == vs
      ensures forall k :: 0 <= k < |vertex| ==> vertex[k].edges == []
    {
      vertex := [];
      new;
      var i := 0;
      while i < |vs|
        invariant 0 <= i <= |vs|
        invariant Wellformed(vertex) && Names(vertex) == vs[..i]
        invariant forall k :: 0 <= k < |vertex| ==> vertex[k].edges == []
      {
        Insert(vs[i]);
        assert vs[..i + 1] == vs[..i] + [vs[i]];
        i := i + 1;
      }
      assert vs[..i] == vs;
    }

    /** Insert: a new vertex without edges at the end. */
    method Insert(v: T)
      modifies this
      ensures vertex == old(vertex) + [VNode(v, [])]
      ensures Names(vertex) == old(Names(vertex)) + [v]
      ensures old(Wellformed(vertex)) ==> Wellformed(vertex)
    {
      vertex := vertex + [VNode(v, [])];
      assert Names(vertex) == old(Names(vertex)) + [v];
    }

    /** AddEdge: an error, changing nothing, unless both vertices are in the
        graph (the last vertex of each name counts); otherwise an edge with
        the cost joins the end of the start vertex's list, so its out-degree
        rises by one. */
    method AddEdge(sv: T, ev: T, cost: int) returns (err: Option<string>)
      modifies this
      ensures var si, ei := LastIndex(Names(old(vertex)), sv), LastIndex(Names(old(vertex)), ev);
        if si == -1 || ei == -1 then
          err == Some("Make sure the two vertexs are both in graph.") && vertex == old(vertex)
        else
          err == None &&
          vertex == old(vertex)[si := VNode(sv, old(vertex)[si].edges + [Edge(ei, cost)])]
      ensures old(Wellformed(vertex)) ==> Wellformed(vertex)
    {
      var si, ei := FindBoth(Names(vertex), sv, ev);
      if si == -1 || ei == -1 {
        return Some("Make sure the two vertexs are both in graph.");
      }
      vertex := vertex[si := VNode(sv, vertex[si].edges + [Edge(ei, cost)])];
      err := None;
    }

    /** deletedge: the first edge from vertex si to vertex ei leaves its
        list; nothing changes when there is none. */
    method DeleteEdgeAt(si: int, ei: int)
      requires 0 <= si < |vertex|
      modifies this
      ensures vertex == old(vertex)[si := VNode(old(vertex)[si].vertex, DropFirstTo(old(vertex)[si].edges, ei))]
      ensures old(Wellformed(vertex)) ==> Wellformed(vertex)
    {
      var es := vertex[si].edges;
      var j := FindFirst(Targets(es), ei);
      if j == -1 {
        return;
      }
      vertex := vertex[si := VNode(vertex[si].vertex, es[..j] + es[j + 1..])];
    }

    /** DeleteEdge: an error, changing nothing, unless both vertices are in
        the graph and the start vertex has an edge; otherwise its first edge
        to the end vertex leaves. */
    method DeleteEdge(sv: T, ev: T) returns (err: Option<string>)
      modifies this
      ensures var si, ei := LastIndex(Names(old(vertex)), sv), LastIndex(Names(old(vertex)), ev);
        if si < 0 || ei < 0 || old(vertex)[si].edges == [] then
          err == Some("Not both vertex are in graph or on dege form start to end.") && vertex == old(vertex)
        else
          err == None &&
          vertex == old(vertex)[si := VNode(sv, DropFirstTo(old(vertex)[si].edges, ei))]
      ensures old(Wellformed(vertex)) ==> Wellformed(vertex)
    {
      var si, ei := FindBoth(Names(vertex), sv, ev);
      if si < 0 || ei < 0 || vertex[si].edges == [] {
        return Some("Not both vertex are in graph or on dege form start to end.");
      }
      DeleteEdgeAt(si, ei);
      err := None;
    }

    /** Delete: an error, changing nothing, unless the vertex is in the
        graph (the first vertex of that name counts); otherwise it leaves,
        every edge to it goes and the later vertices' indices in every list
        move down by one, so every edge still ends at a vertex. */
    method Delete(vet: T) returns (err: Option<string>)
      modifies this
      ensures var d := FirstIndex(Names(old(vertex)), vet);
        if d == -1 then
          err == Some("Make sure the vertex are in graph.") && vertex == old(vertex)
        else
          err == None && vertex == DeleteVertex(old(vertex), d)
      ensures old(Wellformed(vertex)) ==> Wellformed(vertex)
    {
      var index := FindFirst(Names(vertex), vet);
      if index == -1 {
        return Some("Make sure the vertex are in graph.");
      }
      ghost var rest := Cut(vertex, index);
      vertex := vertex[..index] + vertex[index + 1..];
      var k := 0;
      while k < |vertex|
        invariant 0 <= k <= |vertex| == |rest|
        invariant forall m :: 0 <= m < k ==> vertex[m] == VNode(rest[m].vertex, Retarget(rest[m].edges, index))
        invariant forall m :: k <= m < |rest| ==> vertex[m] == rest[m]
      {
        var r := RetargetList(vertex[k].edges, index);
        vertex := vertex[k := VNode(vertex[k].vertex, r)];
        k := k + 1;
      }
      if old(Wellformed(vertex)) {
        DeleteVertexWellformed(old(vertex), index);
      }
      err := None;
    }

    /** OutDegree: -1 for a vertex not in the graph, otherwise the length of
        its edge list. */
    method OutDegree(vet: T) returns (degree: int)
      ensures var d := FirstIndex(Names(vertex), vet);
        if d == -1 then degree == -1 else degree == |vertex[d].edges|
    {
      var index := FindFirst(Names(vertex), vet);
      if index < 0 {
        return -1;
      }
      degree := ListLength(vertex[index].edges);
    }

    /** InDegree: -1 for a vertex not in the graph, otherwise the number of
        edges to it in the lists of the other vertices (its own list is
        skipped). */
    method InDegree(vet: T) returns (degree: int)
      ensures var d := FirstIndex(Names(vertex), vet);
        if d == -1 then degree == -1 else degree == InCount(vertex, d, |vertex|)
    {
      var index := FindFirst(Names(vertex), vet);
      if index < 0 {
        return -1;
      }
      degree := CountInto(vertex, index);
    }
  }

  /** Adding an edge from vertex si to vertex ei, si other than ei, adds one
      to the in-degree of ei. */
  lemma {:induction false} InCountAdd<T>(vs: seq<VNode<T>>, si: int, ei: int, cost: int, n: int)
    requires 0 <= si < |vs| && 0 <= ei < |vs| && si != ei && 0 <= n <= |vs|
    ensures var ws := vs[si := VNode(vs[si].vertex, vs[si].edges + [Edge(ei, cost)])];
      InCount(ws, ei, n) == InCount(vs, ei, n) + (if si < n then 1 else 0)
  {
    var ws := vs[si := VNode(vs[si].vertex, vs[si].edges + [Edge(ei, cost)])];
    if n > 0 {
      InCountAdd(vs, si, ei, cost, n - 1);
      if n - 1 == si {
        assert Targets(ws[si].edges) == Targets(vs[si].edges) + [ei];
      }
    }
  }

  // ---------------------------------------------------------------------
  // GraphM: adjacency matrix

  /** A vertex and its visit flag. */
  datatype GNode<T> = GNode(value: T, visit: bool)

  function Values<T>(vs: seq<GNode<T>>): seq<T>
  {
    seq(|vs|, k requires 0 <= k < |vs| => vs[k].value)
  }

  /** An n by n matrix. */
  predicate Square(m: seq<seq<int>>, n: int)
  {
    |m| == n && forall i :: 0 <= i < |m| ==> |m[i]| == n
  }

  /** The matrix equals its transpose. */
  predicate Symmetric(m: seq<seq<int>>)
    requires Square(m, |m|)
  {
    forall i, j :: 0 <= i < |m| && 0 <= j < |m| ==> m[i][j] == m[j][i]
  }

  /** The matrix with entries [i][j] and [j][i] set to x. */
  function SetBoth(m: seq<seq<int>>, i: int, j: int, x: int): (r: seq<seq<int>>)
    requires Square(m, |m|) && 0 <= i < |m| && 0 <= j < |m|
    ensures Square(r, |m|)
  {
    var a := m[i := m[i][j := x]];
    a[j := a[j][i := x]]
  }

  /** Setting both mirror entries keeps a symmetric matrix symmetric and
      changes no other entry. */
  lemma SetBothSymmetric(m: seq<seq<int>>, i: int, j: int, x: int)
    requires Square(m, |m|) && Symmetric(m) && 0 <= i < |m| && 0 <= j < |m|
    ensures Symmetric(SetBoth(m, i, j, x))
    ensures SetBoth(m, i, j, x)[i][j] == x && SetBoth(m, i, j, x)[j][i] == x
    ensures forall a, b :: 0 <= a < |m| && 0 <= b < |m| && !(a == i && b == j) && !(a == j && b == i) ==>
      SetBoth(m, i, j, x)[a][b] == m[a][b]
  {
  }

  /** The matrix after AddEdge (x = 1) or DeleteEdge (x = 0) between the
      last vertices named sv and ev; unchanged when either is missing. */
  function Link<T(==)>(m: seq<seq<int>>, names: seq<T>, sv: T, ev: T, x: int): (r: seq<seq<int>>)
    requires Square(m, |names|)
    ensures Square(r, |names|)
  {
    var si, ei := LastIndex(names, sv), LastIndex(names, ev);
    if si == -1 || ei == -1 then m else SetBoth(m, si, ei, x)
  }

  /** Deleting an edge just added between two vertices that had none gives
      the matrix back. */
  lemma UnlinkLinked<T>(m: seq<seq<int>>, names: seq<T>, sv: T, ev: T)
    requires Square(m, |names|) && Symmetric(m)
    requires sv in names && ev in names
    requires m[LastIndex(names, sv)][LastIndex(names, ev)] == 0
    ensures Link(Link(m, names, sv, ev, 1), names, sv, ev, 0) == m
  {
    var si, ei := LastIndex(names, sv), LastIndex(names, ev);
    SetBothSymmetric(m, si, ei, 1);
    var a := SetBoth(m, si, ei, 1);
    SetBothSymmetric(a, si, ei, 0);
    var b := SetBoth(a, si, ei, 0);
    forall i | 0 <= i < |m| ensures b[i] == m[i] {
      assert |b[i]| == |m[i]|;
      forall j | 0 <= j < |m| ensures b[i][j] == m[i][j] {
      }
    }
  }

  /** An edge added between two vertices that had none raises the degree
      of each by one. */
  lemma SetBothRaisesDegree(m: seq<seq<int>>, i: int, j: int)
    requires Square(m, |m|) && Symmetric(m) && 0 <= i < |m| && 0 <= j < |m| && m[i][j] == 0
    ensures multiset(SetBoth(m, i, j, 1)[i])[1] == multiset(m[i])[1] + 1
    ensures multiset(SetBoth(m, i, j, 1)[j])[1] == multiset(m[j])[1] + 1
  {
    var r := SetBoth(m, i, j, 1);
    if i == j {
      assert r[i] == m[i][j := 1];
    } else {
      assert r[i] == m[i][j := 1];
      assert r[j] == m[j][i := 1];
    }
  }

  /** Link applied for each name of nodes in turn (Insert's loop). */
  function LinkAll<T(==)>(m: seq<seq<int>>, names: seq<T>, v: T, nodes: seq<T>): (r: seq<seq<int>>)
    requires Square(m, |names|)
    ensures Square(r, |names|)
    decreases |nodes|
  {
    if nodes == [] then m else LinkAll(Link(m, names, v, nodes[0], 1), names, v, nodes[1..])
  }

  /** Linking keeps the matrix symmetric. */
  lemma {:induction false} LinkAllSymmetric<T>(m: seq<seq<int>>, names: seq<T>, v: T, nodes: seq<T>)
    requires Square(m, |names|) && Symmetric(m)
    ensures Symmetric(LinkAll(m, names, v, nodes))
    decreases |nodes|
  {
    if nodes != [] {
      var si, ei := LastIndex(names, v), LastIndex(names, nodes[0]);
      if si != -1 && ei != -1 {
        SetBothSymmetric(m, si, ei, 1);
      }
      LinkAllSymmetric(Link(m, names, v, nodes[0], 1), names, v, nodes[1..]);
    }
  }

  /** The matrix grown by a zero column and a zero row, as Insert does. */
  function Grown(m: seq<seq<int>>): (r: seq<seq<int>>)
    requires Square(m, |m|)
    ensures Square(r, |m| + 1) && Symmetric(r) == Symmetric(m)
    ensures forall i :: 0 <= i < |m| ==> r[i][..|m|] == m[i]
    ensures forall i :: 0 <= i <= |m| ==> r[i][|m|] == 0 && r[|m|][i] == 0
  {
    var rows := seq(|m|, i requires 0 <= i < |m| => m[i] + [0]);
    var r := rows + [seq(|m| + 1, _ => 0)];
    assert forall i :: 0 <= i < |m| ==> r[i] == m[i] + [0];
    assert forall i :: 0 <= i < |m| ==> r[i][..|m|] == m[i];
    r
  }

  /** The matrix without row d and column d. */
  function Removed(m: seq<seq<int>>, d: int): (r: seq<seq<int>>)
    requires Square(m, |m|) && 0 <= d < |m|
    ensures Square(r, |m| - 1)
  {
    var rows := Cut(m, d);
    seq(|rows|, i requires 0 <= i < |rows| => Cut(rows[i], d))
  }

  /** Removing a row and the same column keeps the matrix symmetric. */
  lemma RemovedSymmetric(m: seq<seq<int>>, d: int)
    requires Square(m, |m|) && Symmetric(m) && 0 <= d < |m|
    ensures Symmetric(Removed(m, d))
  {
    var r := Removed(m, d);
    forall i, j | 0 <= i < |r| && 0 <= j < |r| ensures r[i][j] == r[j][i] {
      var oi, oj := if i < d then i else i + 1, if j < d then j else j + 1;
      assert Cut(m, d)[i] == m[oi] && Cut(m, d)[j] == m[oj];
      assert r[i][j] == m[oi][oj];
      assert r[j][i] == m[oj][oi];
    }
  }

  /** Delete's loop over the rows of the matrix: entry d leaves each row. */
  method DropColumn(rows: seq<seq<int>>, d: int) returns (r: seq<seq<int>>)
    requires 0 <= d && forall i :: 0 <= i < |rows| ==> d < |rows[i]|
    ensures |r| == |rows| && forall i :: 0 <= i < |rows| ==> r[i] == Cut(rows[i], d)
  {
    r := rows;
    var i := 0;
    while i < |r|
      invariant 0 <= i <= |r| == |rows|
      invariant forall k :: 0 <= k < i ==> r[k] == Cut(rows[k], d)
      invariant forall k :: i <= k < |rows| ==> r[k] == rows[k]
    {
      r := r[i := r[i][..d] + r[i][d + 1..]];
      i := i + 1;
    }
  }

  /** Insert's loop over the rows, then the new row: a zero column and a
      zero row join the matrix. */
  method GrowMatrix(m: seq<seq<int>>) returns (r: seq<seq<int>>)
    requires Square(m, |m|)
    ensures r == Grown(m)
  {
    r := m;
    var i := 0;
    while i < |r|
      invariant 0 <= i <= |r| == |m|
      invariant forall k :: 0 <= k < i ==> r[k] == m[k] + [0]
      invariant forall k :: i <= k < |m| ==> r[k] == m[k]
    {
      r := r[i := r[i] + [0]];
      i := i + 1;
    }
    if |r| == 0 {
      r := r + [[0]];
    } else {
      r := r + [seq(|r[0]|, _ => 0)];
    }
    forall k | 0 <= k < |m| ensures r[k] == Grown(m)[k] {
      assert Grown(m)[k] == Grown(m)[k][..|m|] + [Grown(m)[k][|m|]];
    }
    assert r[|m|] == Grown(m)[|m|] by {
      assert |r[|m|]| == |m| + 1;
      forall k | 0 <= k <= |m| ensures r[|m|][k] == 0 == Grown(m)[|m|][k] {
      }
    }
  }

  class GraphM<T(==)> {
    var vertex: seq<GNode<T>>
    var edge: seq<seq<int>>

    /** The matrix has a row and a column per vertex and is symmetric. */
    ghost predicate Valid()
      reads this
    {
      Square(edge, |vertex|) && Symmetric(edge)
    }

    /** NewGraphM: one unvisited vertex and a 1 by 1 zero matrix. */
    constructor NewGraphM(v: T)
      ensures Valid() && vertex == [GNode(v, false)] && edge == [[0]]
    {
      vertex := [GNode(v, false)];
      edge := [[0]];
    }

    /** Insert: a new unvisited vertex at the end, a zero column and a zero
        row, then an edge from it to each named vertex in turn (names not in
        the graph are skipped). */
    method Insert(v: T, nodes: seq<T>)
      requires Valid()
      modifies this
      ensures Valid() && vertex == old(vertex) + [GNode(v, false)]
      ensures edge == LinkAll(Grown(old(edge)), Values(vertex), v, nodes)
    {
      edge := GrowMatrix(edge);
      vertex := vertex + [GNode(v, false)];
      ghost var grown := edge;
      var j := 0;
      while j < |nodes|
        invariant 0 <= j <= |nodes|
        invariant Valid() && vertex == old(vertex) + [GNode(v, false)]
        invariant Square(grown, |vertex|)
        invariant LinkAll(edge, Values(vertex), v, nodes[j..]) == LinkAll(grown, Values(vertex), v, nodes)
      {
        assert nodes[j..][1..] == nodes[j + 1..];
        var _ := AddEdge(v, nodes[j]);
        j := j + 1;
      }
    }

    /** AddEdge: an error, changing nothing, unless both vertices are in the
        graph (the last vertex of each name counts); otherwise entries
        [si][ei] and [ei][si] become 1. */
    method AddEdge(sv: T, ev: T) returns (err: Option<string>)
      requires Valid()
      modifies this
      ensures Valid() && vertex == old(vertex)
      ensures edge == Link(old(edge), Values(vertex), sv, ev, 1)
      ensures err.Some? <==> sv !in Values(vertex) || ev !in Values(vertex)
      ensures err.Some? ==> err == Some("Make sure the two vertexs are both in graph.")
    {
      var si, ei := FindBoth(Values(vertex), sv, ev);
      if si == -1 || ei == -1 {
        return Some("Make sure the two vertexs are both in graph.");
      }
      SetBothSymmetric(edge, si, ei, 1);
      edge := edge[si := edge[si][ei := 1]];
      edge := edge[ei := edge[ei][si := 1]];
      err := None;
    }

    /** Delete: an error, changing nothing, unless the vertex is in the
        graph (the first vertex of that name counts); otherwise its row and
        its column leave with it. */
    method Delete(d: T) returns (err: Option<string>)
      requires Valid()
      modifies this
      ensures Valid()
      ensures var k := FirstIndex(Values(old(vertex)), d);
        if k == -1 then
          err == Some("Make sure the vertex are in graph.") && vertex == old(vertex) && edge == old(edge)
        else
          err == None && vertex == Cut(old(vertex), k) && edge == Removed(old(edge), k)
    {
      var index := FindFirst(Values(vertex), d);
      if index == -1 {
        return Some("Make sure the vertex are in graph.");
      }
      RemovedSymmetric(edge, index);
      ghost var m := edge;
      vertex := vertex[..index] + vertex[index + 1..];
      edge := DropColumn(edge[..index] + edge[index + 1..], index);
      assert edge == Removed(m, index);
      err := None;
    }

    /** DeleteEdge: an error, changing nothing, unless both vertices are in
        the graph; otherwise entries [si][ei] and [ei][si] become 0. */
    method DeleteEdge(sv: T, ev: T) returns (err: Option<string>)
      requires Valid()
      modifies this
      ensures Valid() && vertex == old(vertex)
      ensures edge == Link(old(edge), Values(vertex), sv, ev, 0)
      ensures err.Some? <==> sv !in Values(vertex) || ev !in Values(vertex)
      ensures err.Some? ==> err == Some("Make sure the two vertexs are both in graph.")
    {
      var si, ei := FindBoth(Values(vertex), sv, ev);
      if si == -1 || ei == -1 {
        return Some("Make sure the two vertexs are both in graph.");
      }
      SetBothSymmetric(edge, si, ei, 0);
      edge := edge[si := edge[si][ei := 0]];
      edge := edge[ei := edge[ei][si := 0]];
      err := None;
    }

    /** Degree: -1 for a vertex not in the graph (the last vertex of that
        name counts), otherwise the number of 1 entries in its row. */
    method Degree(vet: T) returns (degree: int)
      requires Valid()
      ensures var k := LastIndex(Values(vertex), vet);
        if k == -1 then degree == -1 else degree == multiset(edge[k])[1]
    {
      var index := FindLast(Values(vertex), vet);
      if index < 0 {
        return -1;
      }
      var row := edge[index];
      degree := 0;
      var j := 0;
      while j < |row|
        invariant 0 <= j <= |row|
        invariant degree == multiset(row[..j])[1]
      {
        assert row[..j + 1] == row[..j] + [row[j]];
        if row[j] == 1 {
          degree := degree + 1;
        }
        j := j + 1;
      }
      assert row[..j] == row;
    }

    /** Reset: every visit flag is cleared; nothing else changes. */
    method Reset()
      requires Valid()
      modifies this
      ensures Valid() && edge == old(edge) && Values(vertex) == Values(old(vertex))
      ensures |vertex| == |old(vertex)|
      ensures forall k :: 0 <= k < |vertex| ==> !vertex[k].visit
    {
      var i := 0;
      while i < |vertex|
        invariant 0 <= i <= |vertex| == |old(vertex)|
        invariant Values(vertex) == Values(old(vertex)) && edge == old(edge)
        invariant forall k :: 0 <= k < i ==> !vertex[k].visit
      {
        vertex := vertex[i := GNode(vertex[i].value, false)];
        i := i + 1;
      }
    }
  }
}
