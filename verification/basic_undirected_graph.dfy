/**
 The second graph class. It keeps the same two indices and runs the same code
 for every operation but one: its addEdge does not undo the bucket it may have
 created when the edge turns out to be present already. Such a bucket can never
 be left empty, because a missing bucket cannot hold the edge, so both classes
 compute the same representation; `AddEdge` proves it.
 */
module BasicUndirectedGraph {
  import opened Records
  import opened AbstractGraph
  import opened DualIndex
  import UndirectedGraph

  /** addEdge(v1, v2, e): the new record goes into the value's bucket (created if missing)
      and, if it was not already there, into the incidence sets of both endpoints. */
  function AddEdge<V(==), E(==)>(g: Graph<V, E>, v1: Option<V>, v2: Option<V>, e: Option<E>)
    : (r: Result<(Graph<V, E>, bool)>)
    requires Valid(g)
    ensures ValidOutcome(r)
    ensures Lift(r) == AbstractGraph.AddEdge(Abs(g), v1, v2, e)
    ensures r.Ok? && !r.value.1 ==> r.value.0 == g
    ensures r == UndirectedGraph.AddEdge(g, v1, v2, e)
  {
    if v1.None? || v2.None? then Err(VertexValueNull)
    else if !(v1.value in g.vertexMap && v2.value in g.vertexMap) then Ok((g, false))
    else
      var em1 := if e in g.edgeMap then g.edgeMap else g.edgeMap[e := {}];
      var newEdge := Key(Edge(v1.value, v2.value, e));
      var modified := newEdge !in em1[e];
      var em2 := em1[e := em1[e] + {newEdge}];
      StoredIffFiled(g, newEdge);
      if modified then
        var vm1 := g.vertexMap[v1.value := g.vertexMap[v1.value] + {newEdge}];
        var vm2 := vm1[v2.value := vm1[v2.value] + {newEdge}];
        UndirectedGraph.FileValid(g, newEdge);
        UndirectedGraph.FileByUpdates(g, v1.value, v2.value, newEdge);
        Ok((Graph(vm2, em2), true))
      else
        assert e in g.edgeMap && em1[e] + {newEdge} == em1[e];
        assert em2 == g.edgeMap;
        Ok((Graph(g.vertexMap, em2), false))
  }

  /** addEdge(v1, v2): the null-valued edge. */
  function AddNullEdge<V(==), E(==)>(g: Graph<V, E>, v1: Option<V>, v2: Option<V>)
    : (r: Result<(Graph<V, E>, bool)>)
    requires Valid(g)
    ensures ValidOutcome(r)
    ensures Lift(r) == AbstractGraph.AddEdge(Abs(g), v1, v2, None)
    ensures r == UndirectedGraph.AddNullEdge(g, v1, v2)
  {
    AddEdge(g, v1, v2, None)
  }
}
