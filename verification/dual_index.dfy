/**
 The representation shared by both graph classes: a vertex index from each
 vertex value to the records touching it, and an edge index from each edge
 value to the records carrying it. `Valid` is the representation invariant
 (the two indices mirror each other, every endpoint is a vertex, no value
 bucket is empty) and `Abs` maps a representation to the abstract graph.

 Every removal the classes perform is, once finished, the same thing: take a
 set of records out of both indices and prune value buckets that became empty.
 `Strip` is that closed form, and `StripValid` proves it keeps the invariant.
 */
module DualIndex {
  import opened Records
  import opened AbstractGraph

  /** The two indices: vertexMap (vertex value -> incident records) and
      edgeMap (edge value -> records carrying it). */
  datatype Graph<V(==), E(==)> = Graph(
    vertexMap: map<V, set<Rec<V, E>>>,
    edgeMap: map<Option<E>, set<Rec<V, E>>>)

  /** Every record of the edge index sits under its own value, has one or two endpoints,
      and is held by the incidence set of each of its endpoints, which are all vertices. */
  ghost predicate EdgeIndexSound<V, E>(g: Graph<V, E>) {
    forall k, r :: k in g.edgeMap && r in g.edgeMap[k] ==>
      && r.val == k
      && WfEnds(r.ends)
      && forall w :: w in r.ends ==> w in g.vertexMap && r in g.vertexMap[w]
  }

  /** Every record of the vertex index touches the vertex it is filed under and is
      filed in the edge index under its value. */
  ghost predicate VertexIndexSound<V, E>(g: Graph<V, E>) {
    forall w, r :: w in g.vertexMap && r in g.vertexMap[w] ==>
      w in r.ends && r.val in g.edgeMap && r in g.edgeMap[r.val]
  }

  /** No edge value is mapped to an empty set of records. */
  ghost predicate NoEmptyBuckets<V, E>(g: Graph<V, E>) {
    forall k :: k in g.edgeMap ==> g.edgeMap[k] != {}
  }

  /** The representation invariant. */
  ghost predicate Valid<V, E>(g: Graph<V, E>)
    ensures Valid(g) ==> CheckRep(g)
  {
    EdgeIndexSound(g) && VertexIndexSound(g) && NoEmptyBuckets(g)
  }

  /** All records held by the edge index. */
  function AllRecs<V(==), E(==)>(em: map<Option<E>, set<Rec<V, E>>>): set<Rec<V, E>> {
    set k, r | k in em && r in em[k] :: r
  }

  /** The abstraction function: the vertex index's keys and the edge index's records. */
  function Abs<V(==), E(==)>(g: Graph<V, E>): (a: AbsGraph<V, E>)
    ensures EdgeIndexSound(g) ==> forall r :: r in a.recs ==> r.val in g.edgeMap && r in g.edgeMap[r.val]
    ensures Valid(g) ==> Wf(a)
  {
    AbsGraph(g.vertexMap.Keys, AllRecs(g.edgeMap))
  }

  /** The abstraction of an outcome that carries a new representation. */
  function Lift<V(==), E(==), T>(r: Result<(Graph<V, E>, T)>): Result<(AbsGraph<V, E>, T)> {
    match r
    case Ok((g, t)) => Ok((Abs(g), t))
    case Err(x) => Err(x)
  }

  /** The representation is sound after a successful call. */
  ghost predicate ValidOutcome<V, E, T>(r: Result<(Graph<V, E>, T)>) {
    r.Ok? ==> Valid(r.value.0)
  }

  /** What the classes' own self-check asserts: every endpoint of every record in the edge
      index is a key of the vertex index (vertex values are never null by construction). */
  predicate CheckRep<V(==), E(==)>(g: Graph<V, E>)
    ensures CheckRep(g) ==> forall r :: r in AllRecs(g.edgeMap) ==> r.ends <= g.vertexMap.Keys
  {
    forall k, r, w | k in g.edgeMap && r in g.edgeMap[k] && w in r.ends :: w in g.vertexMap
  }

  /** A representation passing the self-check has every endpoint of a stored record among the
      vertices. */
  lemma ValidPassesCheckRep<V, E>(g: Graph<V, E>)
    ensures CheckRep(g) ==> forall r :: r in Abs(g).recs ==> r.ends <= Abs(g).verts
  {
    if CheckRep(g) {
      forall r | r in Abs(g).recs ensures r.ends <= Abs(g).verts {
        var k :| k in g.edgeMap && r in g.edgeMap[k];
        assert forall w :: w in r.ends ==> w in g.vertexMap;
      }
    }
  }

  /** A record is stored exactly when it is in the bucket of its own value. */
  lemma StoredIffFiled<V, E>(g: Graph<V, E>, r: Rec<V, E>)
    requires Valid(g)
    ensures r in Abs(g).recs <==> r.val in g.edgeMap && r in g.edgeMap[r.val]
  {
  }

  /** A valid representation abstracts to a well-formed graph: every endpoint of a stored
      record is a vertex. */
  lemma ValidAbstractsToWf<V, E>(g: Graph<V, E>)
    requires Valid(g)
    ensures Wf(Abs(g))
  {
    forall r | r in Abs(g).recs
      ensures WfEnds(r.ends) && r.ends <= Abs(g).verts
    {
      StoredIffFiled(g, r);
    }
  }

  /** The incidence set of a vertex is exactly the set of stored records touching it. */
  lemma EntryIsIncident<V, E>(g: Graph<V, E>, u: V)
    requires Valid(g) && u in g.vertexMap
    ensures g.vertexMap[u] == Incident(Abs(g), u)
  {
    forall r | r in Incident(Abs(g), u)
      ensures r in g.vertexMap[u]
    {
      StoredIffFiled(g, r);
    }
    forall r | r in g.vertexMap[u]
      ensures r in Incident(Abs(g), u)
    {
      StoredIffFiled(g, r);
    }
  }

  /** The bucket of a value is exactly the set of stored records carrying it. */
  lemma BucketIsLabelled<V, E>(g: Graph<V, E>, e: Option<E>)
    requires Valid(g)
    ensures e in g.edgeMap ==> g.edgeMap[e] == LabelledIn(Abs(g), {e})
    ensures e !in g.edgeMap ==> LabelledIn(Abs(g), {e}) == {}
  {
    forall r | r in LabelledIn(Abs(g), {e})
      ensures e in g.edgeMap && r in g.edgeMap[e]
    {
      StoredIffFiled(g, r);
    }
  }

  /** The keys of the edge index are exactly the values carried by stored records. */
  lemma KeysAreValues<V, E>(g: Graph<V, E>)
    requires Valid(g)
    ensures g.edgeMap.Keys == Values(Abs(g).recs)
    ensures forall e :: e in g.edgeMap <==> exists r :: r in Abs(g).recs && r.val == e
  {
    forall k | k in g.edgeMap ensures k in Values(Abs(g).recs) {
      var r :| r in g.edgeMap[k];
      assert r in AllRecs(g.edgeMap);
    }
  }

  // ---------------------------------------------------------------------------
  // Removing a set of records from both indices
  // ---------------------------------------------------------------------------

  /** Both indices without the records `rs`, value buckets left empty pruned. */
  function Strip<V(==), E(==)>(g: Graph<V, E>, rs: set<Rec<V, E>>): Graph<V, E> {
    Graph(
      map w | w in g.vertexMap :: g.vertexMap[w] - rs,
      map k | k in g.edgeMap && g.edgeMap[k] - rs != {} :: g.edgeMap[k] - rs)
  }

  /** Stripping records keeps the invariant and removes exactly those records. */
  lemma StripValid<V, E>(g: Graph<V, E>, rs: set<Rec<V, E>>)
    requires Valid(g)
    ensures Valid(Strip(g, rs))
    ensures Abs(Strip(g, rs)) == Drop(Abs(g), rs)
  {
    var s := Strip(g, rs);
    forall w, r | w in s.vertexMap && r in s.vertexMap[w]
      ensures w in r.ends && r.val in s.edgeMap && r in s.edgeMap[r.val]
    {
      assert r in g.edgeMap[r.val] - rs;
    }
    assert VertexIndexSound(s);
    forall r | r in AllRecs(g.edgeMap) - rs
      ensures r in AllRecs(s.edgeMap)
    {
      var k :| k in g.edgeMap && r in g.edgeMap[k];
      assert r in g.edgeMap[k] - rs;
      assert k in s.edgeMap && r in s.edgeMap[k];
    }
  }

  /** Removes record `r` from the incidence set of each of its endpoints. */
  function Detach<V(==), E(==)>(vm: map<V, set<Rec<V, E>>>, r: Rec<V, E>): map<V, set<Rec<V, E>>> {
    map w | w in vm :: if w in r.ends then vm[w] - {r} else vm[w]
  }

  /** Removes record `r` from the bucket of its value, dropping the bucket if it empties. */
  function Unfile<V(==), E(==)>(em: map<Option<E>, set<Rec<V, E>>>, r: Rec<V, E>): map<Option<E>, set<Rec<V, E>>>
    requires r.val in em
  {
    var rest := em[r.val] - {r};
    if rest == {} then em - {r.val} else em[r.val := rest]
  }

  /** Stripping one more stored record is detaching it from its endpoints and unfiling it. */
  lemma StripOneMore<V, E>(g: Graph<V, E>, done: set<Rec<V, E>>, r: Rec<V, E>)
    requires Valid(g) && r in Abs(g).recs && r !in done
    ensures r.val in Strip(g, done).edgeMap
    ensures Strip(g, done + {r}).vertexMap == Detach(Strip(g, done).vertexMap, r)
    ensures Strip(g, done + {r}).edgeMap == Unfile(Strip(g, done).edgeMap, r)
  {
    StoredIffFiled(g, r);
    var s, s' := Strip(g, done), Strip(g, done + {r});
    assert r in g.edgeMap[r.val] - done;
    var d := Detach(s.vertexMap, r);
    forall w | w in g.vertexMap
      ensures s'.vertexMap[w] == d[w]
    {
      if w !in r.ends {
        assert r !in g.vertexMap[w];
      }
    }
    assert s'.vertexMap.Keys == d.Keys;
    var u := Unfile(s.edgeMap, r);
    forall k | k in g.edgeMap && k != r.val
      ensures g.edgeMap[k] - (done + {r}) == g.edgeMap[k] - done
    {
      assert r !in g.edgeMap[k];
    }
    assert s'.edgeMap.Keys == u.Keys;
    forall k | k in u
      ensures s'.edgeMap[k] == u[k]
    {
    }
  }

  // ---------------------------------------------------------------------------
  // The private helpers shared by both classes
  // ---------------------------------------------------------------------------

  /** intersection(v1, v2): the records between two vertices: empty if either is absent,
      the self-loops at `u1` when `u1 == u2`, else the records incident to both. */
  function Intersection<V(==), E(==)>(g: Graph<V, E>, u1: V, u2: V): (s: set<Rec<V, E>>)
    requires Valid(g)
    ensures s == Between(Abs(g), u1, u2)
  {
    ValidAbstractsToWf(g);
    if u1 in g.vertexMap && u2 in g.vertexMap then
      if u1 == u2 then
        var loops := set r | r in g.vertexMap[u1] && IsLoop(r);
        IntersectionLoops(g, u1, loops);
        loops
      else
        IntersectionPair(g, u1, u2);
        g.vertexMap[u1] * g.vertexMap[u2]
    else
      BetweenNeedsVertices(Abs(g), u1, u2);
      {}
  }

  /** The self-loops in the incidence set of `u` are the records whose only endpoint is `u`. */
  lemma IntersectionLoops<V, E>(g: Graph<V, E>, u: V, loops: set<Rec<V, E>>)
    requires Valid(g) && u in g.vertexMap
    requires loops == set r | r in g.vertexMap[u] && IsLoop(r)
    ensures loops == Between(Abs(g), u, u)
  {
    forall r | r in loops ensures r in Between(Abs(g), u, u) {
      StoredIffFiled(g, r);
      EndsArePair(r, u, u);
    }
    forall r | r in Between(Abs(g), u, u) ensures r in loops {
      StoredIffFiled(g, r);
      assert r.ends == {u};
    }
  }

  /** For distinct vertices, the records in both incidence sets are those connecting the pair. */
  lemma IntersectionPair<V, E>(g: Graph<V, E>, u1: V, u2: V)
    requires Valid(g) && u1 in g.vertexMap && u2 in g.vertexMap && u1 != u2
    ensures g.vertexMap[u1] * g.vertexMap[u2] == Between(Abs(g), u1, u2)
  {
    forall r | r in g.vertexMap[u1] * g.vertexMap[u2] ensures r in Between(Abs(g), u1, u2) {
      StoredIffFiled(g, r);
      EndsArePair(r, u1, u2);
    }
    forall r | r in Between(Abs(g), u1, u2) ensures r in g.vertexMap[u1] * g.vertexMap[u2] {
      StoredIffFiled(g, r);
      assert u1 in r.ends && u2 in r.ends;
    }
  }

  /** getEdge(Set): some member of a set of records, or none if it is empty;
      which member is left open (the class takes the first element in `ArrayList` order). */
  method PickEdge<V(==), E(==)>(s: set<Rec<V, E>>) returns (r: Option<Rec<V, E>>)
    ensures r.None? <==> s == {}
    ensures r.Some? ==> r.value in s
  {
    if s == {} {
      r := None;
    } else {
      var edge :| edge in s;
      r := Some(edge);
    }
  }
}
