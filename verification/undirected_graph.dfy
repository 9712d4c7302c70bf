/**
 The operations of the undirected multigraph class on its two-index
 representation. Each operation keeps the representation invariant and, seen
 through the abstraction function, does exactly what the abstract graph
 prescribes. The removal operations are loops over a set of records, as in
 the class; their invariants say how much of the final `Strip` is done.
 */
module UndirectedGraph {
  import opened Records
  import opened AbstractGraph
  import opened DualIndex

  /** The constructor: both indices empty. */
  function Empty<V(==), E(==)>(): (g: Graph<V, E>)
    ensures Valid(g)
    ensures Abs(g) == EmptyGraph()
  {
    Graph(map[], map[])
  }

  /** addVertex(v): a new vertex starts with an empty incidence set. */
  function AddVertex<V(==), E(==)>(g: Graph<V, E>, v: Option<V>): (r: Result<(Graph<V, E>, bool)>)
    requires Valid(g)
    ensures ValidOutcome(r)
    ensures Lift(r) == AbstractGraph.AddVertex(Abs(g), v)
  {
    if v.None? then Err(VertexValueNull)
    else if v.value in g.vertexMap then Ok((g, false))
    else
      var g' := Graph(g.vertexMap[v.value := {}], g.edgeMap);
      assert Abs(g') == AbsGraph(Abs(g).verts + {v.value}, Abs(g).recs);
      Ok((g', true))
  }

  /** The indices with a new record filed under its value and under each of its endpoints. */
  function File<V(==), E(==)>(g: Graph<V, E>, r: Rec<V, E>): (f: Graph<V, E>)
    ensures f.vertexMap.Keys == g.vertexMap.Keys
    ensures r.val in f.edgeMap && r in f.edgeMap[r.val]
    ensures r.val !in g.edgeMap ==> f.edgeMap[r.val] == {r}
    ensures forall w :: w in r.ends && w in g.vertexMap ==> r in f.vertexMap[w]
    ensures forall w :: w in g.vertexMap ==> f.vertexMap[w] - {r} == g.vertexMap[w] - {r}
    ensures forall w :: w in g.vertexMap && w !in r.ends ==> f.vertexMap[w] == g.vertexMap[w]
    ensures f.edgeMap.Keys == g.edgeMap.Keys + {r.val}
    ensures forall k :: k in g.edgeMap ==> f.edgeMap[k] - {r} == g.edgeMap[k] - {r}
    ensures forall k :: k in g.edgeMap && k != r.val ==> f.edgeMap[k] == g.edgeMap[k]
  {
    Graph(
      map w | w in g.vertexMap :: if w in r.ends then g.vertexMap[w] + {r} else g.vertexMap[w],
      g.edgeMap[r.val := (if r.val in g.edgeMap then g.edgeMap[r.val] else {}) + {r}])
  }

  /** Filing a new record whose endpoints are vertices keeps the invariant and adds that record. */
  lemma FileValid<V, E>(g: Graph<V, E>, r: Rec<V, E>)
    requires Valid(g) && WfEnds(r.ends) && r.ends <= g.vertexMap.Keys
    ensures Valid(File(g, r))
    ensures Abs(File(g, r)) == AbsGraph(Abs(g).verts, Abs(g).recs + {r})
  {
    var f := File(g, r);
    forall k, x | k in f.edgeMap && x in f.edgeMap[k]
      ensures x.val == k && WfEnds(x.ends)
      ensures forall w :: w in x.ends ==> w in f.vertexMap && x in f.vertexMap[w]
    {
      if x != r {
        assert k in g.edgeMap && x in g.edgeMap[k];
      }
    }
    assert EdgeIndexSound(f);
    forall w, x | w in f.vertexMap && x in f.vertexMap[w]
      ensures w in x.ends && x.val in f.edgeMap && x in f.edgeMap[x.val]
    {
      if x != r {
        assert x in g.vertexMap[w];
      }
    }
    assert VertexIndexSound(f);
    forall x | x in Abs(g).recs + {r}
      ensures x in AllRecs(f.edgeMap)
    {
      if x != r {
        StoredIffFiled(g, x);
      }
      assert x.val in f.edgeMap && x in f.edgeMap[x.val];
    }
    forall x | x in AllRecs(f.edgeMap)
      ensures x in Abs(g).recs + {r}
    {
      var k :| k in f.edgeMap && x in f.edgeMap[k];
      if x != r {
        assert k in g.edgeMap && x in g.edgeMap[k];
      }
    }
  }

  /** Filing a record between `u1` and `u2` into the incidence sets of `u1` and then `u2`, and into
      its bucket (created empty if missing), is `File`. */
  lemma FileByUpdates<V, E>(g: Graph<V, E>, u1: V, u2: V, r: Rec<V, E>)
    requires u1 in g.vertexMap && u2 in g.vertexMap && r.ends == {u1, u2}
    ensures
      var em1 := if r.val in g.edgeMap then g.edgeMap else g.edgeMap[r.val := {}];
      var vm1 := g.vertexMap[u1 := g.vertexMap[u1] + {r}];
      Graph(vm1[u2 := vm1[u2] + {r}], em1[r.val := em1[r.val] + {r}]) == File(g, r)
  {
    var vm1 := g.vertexMap[u1 := g.vertexMap[u1] + {r}];
    var vm2 := vm1[u2 := vm1[u2] + {r}];
    var f := File(g, r);
    forall w | w in g.vertexMap ensures vm2[w] == f.vertexMap[w] {
      if w == u1 && w == u2 {
        assert vm2[w] == g.vertexMap[w] + {r} + {r};
      }
    }
    assert vm2.Keys == f.vertexMap.Keys;
  }

  /** addEdge(v1, v2, e): the new record goes into the value's bucket (created if missing)
      and, if it was not already there, into the incidence sets of both endpoints; if it
      was already there, a bucket that is empty is removed again. */
  function AddEdge<V(==), E(==)>(g: Graph<V, E>, v1: Option<V>, v2: Option<V>, e: Option<E>)
    : (r: Result<(Graph<V, E>, bool)>)
    requires Valid(g)
    ensures ValidOutcome(r)
    ensures Lift(r) == AbstractGraph.AddEdge(Abs(g), v1, v2, e)
    ensures r.Ok? && !r.value.1 ==> r.value.0 == g
  {
    if v1.None? || v2.None? then Err(VertexValueNull)
    else if !(ContainsVertex(g, v1) && ContainsVertex(g, v2)) then Ok((g, false))
    else
      var em1 := if e in g.edgeMap then g.edgeMap else g.edgeMap[e := {}];
      var newEdge := Key(Edge(v1.value, v2.value, e));
      var modified := newEdge !in em1[e];
      var em2 := em1[e := em1[e] + {newEdge}];
      StoredIffFiled(g, newEdge);
      if modified then
        var vm1 := g.vertexMap[v1.value := g.vertexMap[v1.value] + {newEdge}];
        var vm2 := vm1[v2.value := vm1[v2.value] + {newEdge}];
        FileValid(g, newEdge);
        FileByUpdates(g, v1.value, v2.value, newEdge);
        Ok((Graph(vm2, em2), true))
      else
        assert e in g.edgeMap && em1 == g.edgeMap;
        assert em1[e] + {newEdge} == em1[e];
        assert em2 == em1;
        var em3 := if em2[e] == {} then em2 - {e} else em2;
        assert em3 == g.edgeMap;
        Ok((Graph(g.vertexMap, em3), false))
  }

  /** addEdge(v1, v2): the null-valued edge. */
  function AddNullEdge<V(==), E(==)>(g: Graph<V, E>, v1: Option<V>, v2: Option<V>)
    : (r: Result<(Graph<V, E>, bool)>)
    requires Valid(g)
    ensures ValidOutcome(r)
    ensures Lift(r) == AbstractGraph.AddEdge(Abs(g), v1, v2, None)
  {
    AddEdge(g, v1, v2, None)
  }

  /** containsVertex(v): a key of the vertex index; null is never one. */
  function ContainsVertex<V(==), E(==)>(g: Graph<V, E>, v: Option<V>): (b: bool)
    ensures b == AbstractGraph.ContainsVertex(Abs(g), v)
  {
    v.Some? && v.value in g.vertexMap
  }

  /** containsEdge(e): a key of the edge index, which holds only non-empty buckets. */
  function ContainsEdgeValue<V(==), E(==)>(g: Graph<V, E>, e: Option<E>): (b: bool)
    requires Valid(g)
    ensures b == AbstractGraph.ContainsEdgeValue(Abs(g), e)
  {
    KeysAreValues(g);
    e in g.edgeMap
  }

  /** containsEdge(v1, v2): the intersection is non-empty. */
  function ContainsEdge<V(==), E(==)>(g: Graph<V, E>, v1: Option<V>, v2: Option<V>): (r: Result<bool>)
    requires Valid(g)
    ensures r == AbstractGraph.ContainsEdge(Abs(g), v1, v2)
  {
    if v1.None? || v2.None? then Err(VertexValueNull)
    else
      ValidAbstractsToWf(g);
      BetweenNeedsVertices(Abs(g), v1.value, v2.value);
      Ok(Intersection(g, v1.value, v2.value) != {})
  }

  /** vertexSet(): a copy of the vertex index's keys. */
  function VertexSet<V(==), E(==)>(g: Graph<V, E>): (s: set<V>)
    ensures s == Abs(g).verts
  {
    g.vertexMap.Keys
  }

  /** edgeSet(): a copy of the edge index's keys, which are exactly the values in use. */
  function EdgeSet<V(==), E(==)>(g: Graph<V, E>): (s: set<Option<E>>)
    requires Valid(g)
    ensures s == AbstractGraph.EdgeSet(Abs(g))
  {
    KeysAreValues(g);
    g.edgeMap.Keys
  }

  /** edgeSet(v): null for an absent vertex, else the values of its incidence set. */
  function EdgeSetAt<V(==), E(==)>(g: Graph<V, E>, v: Option<V>): (r: Result<Option<set<Option<E>>>>)
    requires Valid(g)
    ensures r == AbstractGraph.EdgeSetAt(Abs(g), v)
  {
    if v.None? then Err(VertexValueNull)
    else if !ContainsVertex(g, v) then Ok(None)
    else
      EntryIsIncident(g, v.value);
      Ok(Some(Values(g.vertexMap[v.value])))
  }

  /** edgeSet(v1, v2): null if either vertex is absent, else the values of the intersection. */
  function EdgeSetBetween<V(==), E(==)>(g: Graph<V, E>, v1: Option<V>, v2: Option<V>)
    : (r: Result<Option<set<Option<E>>>>)
    requires Valid(g)
    ensures r == AbstractGraph.EdgeSetBetween(Abs(g), v1, v2)
  {
    if v1.None? || v2.None? then Err(VertexValueNull)
    else if !(ContainsVertex(g, v1) && ContainsVertex(g, v2)) then Ok(None)
    else Ok(Some(Values(Intersection(g, v1.value, v2.value))))
  }

  /** getEdge(v1, v2): the value of one record of the intersection, or null. */
  method GetEdge<V(==), E(==)>(g: Graph<V, E>, v1: Option<V>, v2: Option<V>) returns (r: Result<Option<E>>)
    requires Valid(g)
    ensures GetEdgeAllows(Abs(g), v1, v2, r)
  {
    if v1.None? || v2.None? {
      return Err(VertexValueNull);
    }
    if !(ContainsVertex(g, v1) && ContainsVertex(g, v2)) {
      return Ok(None);
    }
    var edge := PickEdge(Intersection(g, v1.value, v2.value));
    r := Ok(if edge.Some? then edge.value.val else None);
  }

  // ---------------------------------------------------------------------------
  // Removals
  // ---------------------------------------------------------------------------

  /** Stripping nothing leaves a valid representation as it is. */
  lemma StripNothing<V, E>(g: Graph<V, E>)
    requires Valid(g)
    ensures Strip(g, {}) == g
  {
    var s := Strip(g, {});
    forall w | w in g.vertexMap ensures s.vertexMap[w] == g.vertexMap[w] {
      assert g.vertexMap[w] - {} == g.vertexMap[w];
    }
    assert s.vertexMap == g.vertexMap;
    forall k | k in g.edgeMap ensures k in s.edgeMap && s.edgeMap[k] == g.edgeMap[k] {
      assert g.edgeMap[k] - {} == g.edgeMap[k];
    }
    assert s.edgeMap == g.edgeMap;
  }

  /** Stripping a whole bucket drops exactly that key from the edge index. */
  lemma StripBucket<V, E>(g: Graph<V, E>, e: Option<E>)
    requires Valid(g) && e in g.edgeMap
    ensures Strip(g, g.edgeMap[e]).edgeMap == g.edgeMap - {e}
  {
    var s := Strip(g, g.edgeMap[e]);
    forall k | k in g.edgeMap && k != e
      ensures g.edgeMap[k] - g.edgeMap[e] == g.edgeMap[k]
    {
      forall x | x in g.edgeMap[k] ensures x !in g.edgeMap[e] {
        assert x.val == k;
        assert x in g.edgeMap[e] ==> x.val == e;
      }
    }
    assert s.edgeMap.Keys == (g.edgeMap - {e}).Keys;
  }

  /** removeEdge(e): the bucket of `e` is taken out of the edge index and each of its
      records is removed from the incidence sets of its endpoints. */
  method RemoveEdge<V(==), E(==)>(g: Graph<V, E>, e: Option<E>) returns (g': Graph<V, E>, modified: bool)
    requires Valid(g)
    ensures Valid(g')
    ensures (Abs(g'), modified) == AbstractGraph.RemoveEdge(Abs(g), e)
  {
    BucketIsLabelled(g, e);
    if e !in g.edgeMap {
      assert Drop(Abs(g), {}) == Abs(g);
      return g, false;
    }
    var eSet := g.edgeMap[e];
    var em := g.edgeMap - {e};
    var vm := g.vertexMap;
    var todo := eSet;
    StripNothing(g);
    assert eSet - todo == {};
    while todo != {}
      invariant todo <= eSet
      invariant vm == Strip(g, eSet - todo).vertexMap
      decreases todo
    {
      var edge :| edge in todo;
      StoredIffFiled(g, edge);
      StripOneMore(g, eSet - todo, edge);
      vm := Detach(vm, edge);
      assert (eSet - todo) + {edge} == eSet - (todo - {edge});
      todo := todo - {edge};
    }
    StripBucket(g, e);
    StripValid(g, eSet);
    g' := Graph(vm, em);
    modified := true;
  }

  /** removeEdge(v1, v2): one record of the intersection is detached from its endpoints and
      unfiled from its bucket, and its value returned. */
  method RemoveEdgeBetween<V(==), E(==)>(g: Graph<V, E>, v1: Option<V>, v2: Option<V>)
    returns (r: Result<(Graph<V, E>, Option<E>)>)
    requires Valid(g)
    ensures ValidOutcome(r)
    ensures RemoveEdgeAllows(Abs(g), v1, v2, Lift(r))
  {
    if v1.None? || v2.None? {
      return Err(VertexValueNull);
    }
    if !(ContainsVertex(g, v1) && ContainsVertex(g, v2)) {
      return Ok((g, None));
    }
    var between := Intersection(g, v1.value, v2.value);
    var picked := PickEdge(between);
    if picked.None? {
      return Ok((g, None));
    }
    var edge := picked.value;
    StripNothing(g);
    StripOneMore(g, {}, edge);
    StripValid(g, {edge});
    var g' := Graph(Detach(g.vertexMap, edge), Unfile(g.edgeMap, edge));
    assert g' == Strip(g, {edge});
    r := Ok((g', edge.val));
    assert edge in Between(Abs(g), v1.value, v2.value) && Lift(r) == Ok((Drop(Abs(g), {edge}), edge.val));
  }

  /** Removing the records between `u1` and `u2` from the incidence sets of `u1` and `u2`
      removes them from the whole vertex index, since they touch no other vertex. */
  lemma PairEntriesStrip<V, E>(g: Graph<V, E>, u1: V, u2: V, edges: set<Rec<V, E>>)
    requires Valid(g) && u1 in g.vertexMap && u2 in g.vertexMap
    requires edges == Between(Abs(g), u1, u2)
    ensures
      var vm1 := g.vertexMap[u1 := g.vertexMap[u1] - edges];
      vm1[u2 := vm1[u2] - edges] == Strip(g, edges).vertexMap
  {
    var vm1 := g.vertexMap[u1 := g.vertexMap[u1] - edges];
    var vm2 := vm1[u2 := vm1[u2] - edges];
    forall w | w in g.vertexMap
      ensures vm2[w] == g.vertexMap[w] - edges
    {
      if w != u1 && w != u2 {
        forall x | x in g.vertexMap[w] ensures x !in edges {
          assert w in x.ends;
        }
      }
    }
  }

  /** removeAllEdges(v1, v2): the intersection is removed from the incidence sets of both
      vertices, then each of its records is unfiled from its bucket; its values are returned. */
  method RemoveAllEdgesBetween<V(==), E(==)>(g: Graph<V, E>, v1: Option<V>, v2: Option<V>)
    returns (r: Result<(Graph<V, E>, Option<set<Option<E>>>)>)
    requires Valid(g)
    ensures ValidOutcome(r)
    ensures Lift(r) == AbstractGraph.RemoveAllEdgesBetween(Abs(g), v1, v2)
  {
    if v1.None? || v2.None? {
      return Err(VertexValueNull);
    }
    if !(ContainsVertex(g, v1) && ContainsVertex(g, v2)) {
      return Ok((g, None));
    }
    var u1, u2 := v1.value, v2.value;
    var edges := Intersection(g, u1, u2);
    var vm := g.vertexMap;
    vm := vm[u1 := vm[u1] - edges];
    vm := vm[u2 := vm[u2] - edges];
    PairEntriesStrip(g, u1, u2, edges);
    var em := UnfileAll(g, edges);
    assert Graph(vm, em) == Strip(g, edges);
    StripBetween(g, v1, v2, edges);
    r := Ok((Graph(vm, em), Some(Values(edges))));
  }

  /** The loop of removeAllEdges(v1, v2) over the removed records: each is taken out of the
      bucket of its value, and a bucket that empties is dropped. */
  method UnfileAll<V(==), E(==)>(g: Graph<V, E>, edges: set<Rec<V, E>>)
    returns (em: map<Option<E>, set<Rec<V, E>>>)
    requires Valid(g) && edges <= Abs(g).recs
    ensures em == Strip(g, edges).edgeMap
  {
    em := g.edgeMap;
    var todo := edges;
    StripNothing(g);
    assert edges - todo == {};
    while todo != {}
      invariant todo <= edges
      invariant em == Strip(g, edges - todo).edgeMap
      decreases todo
    {
      var edge :| edge in todo;
      StripOneMore(g, edges - todo, edge);
      em := Unfile(em, edge);
      assert (edges - todo) + {edge} == edges - (todo - {edge});
      todo := todo - {edge};
    }
    assert edges - todo == edges;
  }

  /** Stripping the records between a pair of vertices is removeAllEdges(v1, v2) on them. */
  lemma StripBetween<V, E>(g: Graph<V, E>, v1: Option<V>, v2: Option<V>, edges: set<Rec<V, E>>)
    requires Valid(g) && v1.Some? && v2.Some? && v1.value in g.vertexMap && v2.value in g.vertexMap
    requires edges == Between(Abs(g), v1.value, v2.value)
    ensures Valid(Strip(g, edges))
    ensures Lift(Ok((Strip(g, edges), Some(Values(edges))))) == AbstractGraph.RemoveAllEdgesBetween(Abs(g), v1, v2)
  {
    StripValid(g, edges);
  }

  /** Detaching a record from the vertex index once one endpoint `u` has been taken out of it:
      nothing left to do for a self-loop, else only the other endpoint's set changes. */
  lemma DetachFromOther<V, E>(vm: map<V, set<Rec<V, E>>>, edge: Rec<V, E>, u: V, w: V)
    requires WfEnds(edge.ends) && u in edge.ends && u !in vm
    requires !IsLoop(edge) ==> w in edge.ends && w != u && w in vm
    ensures IsLoop(edge) ==> Detach(vm, edge) == vm
    ensures !IsLoop(edge) ==> Detach(vm, edge) == vm[w := vm[w] - {edge}]
  {
    if IsLoop(edge) {
      EndsArePair(edge, u, u);
    } else {
      EndsArePair(edge, u, w);
    }
  }

  /** Taking a vertex with an empty incidence set out of the vertex index keeps the invariant. */
  lemma DropVertexValid<V, E>(s: Graph<V, E>, u: V)
    requires Valid(s) && u in s.vertexMap && s.vertexMap[u] == {}
    ensures Valid(Graph(s.vertexMap - {u}, s.edgeMap))
    ensures Abs(Graph(s.vertexMap - {u}, s.edgeMap)) == AbsGraph(Abs(s).verts - {u}, Abs(s).recs)
  {
    var d := Graph(s.vertexMap - {u}, s.edgeMap);
    forall k, x, w | k in d.edgeMap && x in d.edgeMap[k] && w in x.ends
      ensures w in d.vertexMap && x in d.vertexMap[w]
    {
      assert x in s.vertexMap[w];
    }
  }

  /** removeVertex(v): the incidence set of `v` is taken out of the vertex index; each of its
      records is removed from the other endpoint's set (nothing for a self-loop) and unfiled
      from its bucket, pruning buckets that empty. */
  method RemoveVertex<V(==), E(==)>(g: Graph<V, E>, v: Option<V>) returns (g': Graph<V, E>, modified: bool)
    requires Valid(g)
    ensures Valid(g')
    ensures (Abs(g'), modified) == AbstractGraph.RemoveVertex(Abs(g), v)
  {
    if v.None? || v.value !in g.vertexMap {
      return g, false;
    }
    var u := v.value;
    var edgesToRemove := g.vertexMap[u];
    var vm := g.vertexMap - {u};
    var em := g.edgeMap;
    var todo := edgesToRemove;
    StripNothing(g);
    assert edgesToRemove - todo == {};
    while todo != {}
      invariant todo <= edgesToRemove
      invariant vm == Strip(g, edgesToRemove - todo).vertexMap - {u}
      invariant em == Strip(g, edgesToRemove - todo).edgeMap
      decreases todo
    {
      var edge :| edge in todo;
      ghost var done := edgesToRemove - todo;
      StoredIffFiled(g, edge);
      StripOneMore(g, done, edge);
      ghost var before := Strip(g, done).vertexMap;
      assert Detach(before, edge) - {u} == Detach(before - {u}, edge);
      if IsLoop(edge) {
        // the loop's only endpoint is `u`, whose entry is already gone
        DetachFromOther(vm, edge, u, u);
      } else {
        assert |edge.ends - {u}| == 1;
        var w :| w in edge.ends - {u};
        DetachFromOther(vm, edge, u, w);
        vm := vm[w := vm[w] - {edge}];
      }
      em := Unfile(em, edge);
      assert done + {edge} == edgesToRemove - (todo - {edge});
      todo := todo - {edge};
    }
    EntryIsIncident(g, u);
    StripValid(g, edgesToRemove);
    DropVertexValid(Strip(g, edgesToRemove), u);
    g' := Graph(vm, em);
    modified := true;
  }

  // ---------------------------------------------------------------------------
  // Collection removals
  // ---------------------------------------------------------------------------

  /** removeAllEdges(edges): removeEdge for each element in turn; true iff any call removed. */
  method RemoveAllEdges<V(==), E(==)>(g: Graph<V, E>, es: Option<seq<Option<E>>>)
    returns (r: Result<(Graph<V, E>, bool)>)
    requires Valid(g)
    ensures ValidOutcome(r)
    ensures Lift(r) == AbstractGraph.RemoveAllEdges(Abs(g), es)
  {
    if es.None? {
      return Err(EdgeCollectionNull);
    }
    var s := es.value;
    var cur := g;
    var modified := false;
    var i := 0;
    while i < |s|
      invariant 0 <= i <= |s|
      invariant Valid(cur)
      invariant Abs(cur) == Drop(Abs(g), LabelledIn(Abs(g), Elems(s[..i])))
      invariant modified == (LabelledIn(Abs(g), Elems(s[..i])) != {})
    {
      ElemsSnoc(s, i);
      DropLabelledStep(Abs(g), Elems(s[..i]), s[i]);
      var removed;
      cur, removed := RemoveEdge(cur, s[i]);
      if removed {
        modified := true;
      }
      i := i + 1;
    }
    assert s[..|s|] == s;
    r := Ok((cur, modified));
  }

  /** removeAllVertices(vertices): removeVertex for each element in turn; true iff any call
      removed a vertex. */
  method RemoveAllVertices<V(==), E(==)>(g: Graph<V, E>, vs: Option<seq<Option<V>>>)
    returns (r: Result<(Graph<V, E>, bool)>)
    requires Valid(g)
    ensures ValidOutcome(r)
    ensures Lift(r) == AbstractGraph.RemoveAllVertices(Abs(g), vs)
  {
    if vs.None? {
      return Err(VertexCollectionNull);
    }
    var s := vs.value;
    ValidAbstractsToWf(g);
    var cur := g;
    var modified := false;
    var i := 0;
    while i < |s|
      invariant 0 <= i <= |s|
      invariant Valid(cur)
      invariant Abs(cur) == AbsGraph(Abs(g).verts - NonNull(s[..i]), Abs(g).recs - Touching(Abs(g), NonNull(s[..i])))
      invariant modified == (Abs(g).verts * NonNull(s[..i]) != {})
    {
      NonNullSnoc(s, i);
      DropTouchingStep(Abs(g), NonNull(s[..i]), s[i]);
      var removed;
      cur, removed := RemoveVertex(cur, s[i]);
      if removed {
        modified := true;
      }
      i := i + 1;
    }
    assert s[..|s|] == s;
    r := Ok((cur, modified));
  }
}
