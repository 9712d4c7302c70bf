/**
 The abstract graph: what every implementation of the graph interface must do,
 stated over a set of vertex values and a set of edge records.

 Each public operation of the interface is a function (or, where the interface
 leaves a choice open, a predicate over the allowed outcomes) from the abstract
 state before the call to the abstract state after it and the value returned.
 A null vertex argument or a null collection is the error `Err(..)`; an absent
 vertex, an unconnected pair or an unknown edge value is an ordinary result.
 */
module AbstractGraph {
  import opened Records

  /** The three null-argument failures of the interface. */
  datatype GraphError = VertexValueNull | EdgeCollectionNull | VertexCollectionNull

  /** The outcome of a call that may fail on a null argument. */
  datatype Result<+T> = Ok(value: T) | Err(error: GraphError)

  /** A graph: its vertex values and its edge records. */
  datatype AbsGraph<V(==), E(==)> = AbsGraph(verts: set<V>, recs: set<Rec<V, E>>)

  /** Every record has one or two endpoints, and they are vertices of the graph. */
  ghost predicate Wf<V, E>(a: AbsGraph<V, E>) {
    forall r :: r in a.recs ==> WfEnds(r.ends) && r.ends <= a.verts
  }

  /** The graph a fresh instance starts as. */
  function EmptyGraph<V(==), E(==)>(): AbsGraph<V, E> {
    AbsGraph({}, {})
  }

  /** The records connecting the unordered pair `{u1, u2}`; for `u1 == u2`, the self-loops at `u1`. */
  function Between<V(==), E(==)>(a: AbsGraph<V, E>, u1: V, u2: V): set<Rec<V, E>> {
    set r | r in a.recs && r.ends == {u1, u2}
  }

  /** The records touching vertex `u`. */
  function Incident<V(==), E(==)>(a: AbsGraph<V, E>, u: V): set<Rec<V, E>> {
    set r | r in a.recs && u in r.ends
  }

  /** The records carrying one of the values in `vals`. */
  function LabelledIn<V(==), E(==)>(a: AbsGraph<V, E>, vals: set<Option<E>>): set<Rec<V, E>> {
    set r | r in a.recs && r.val in vals
  }

  /** The records touching one of the vertices in `us`. */
  function Touching<V(==), E(==)>(a: AbsGraph<V, E>, us: set<V>): set<Rec<V, E>> {
    set r | r in a.recs && r.ends * us != {}
  }

  /** The graph without the records `rs`. */
  function Drop<V(==), E(==)>(a: AbsGraph<V, E>, rs: set<Rec<V, E>>): AbsGraph<V, E> {
    AbsGraph(a.verts, a.recs - rs)
  }

  /** The elements of a collection, as a set. */
  function Elems<T(==)>(s: seq<T>): set<T> {
    set x | x in s
  }

  /** The non-null elements of a collection, as a set. */
  function NonNull<T(==)>(s: seq<Option<T>>): set<T> {
    set o | o in s && o.Some? :: o.value
  }

  // ---------------------------------------------------------------------------
  // The interface operations
  // ---------------------------------------------------------------------------

  /** addVertex(v): true iff `v` was not yet a vertex; a null `v` is an error. */
  function AddVertex<V(==), E(==)>(a: AbsGraph<V, E>, v: Option<V>): (r: Result<(AbsGraph<V, E>, bool)>)
    ensures r.Err? <==> v.None?
    ensures r.Ok? ==> (r.value.1 <==> v.value !in a.verts)
    ensures r.Ok? ==> r.value.0.verts == a.verts + {v.value} && r.value.0.recs == a.recs
    ensures Wf(a) && r.Ok? ==> Wf(r.value.0)
  {
    match v
    case None => Err(VertexValueNull)
    case Some(u) =>
      if u in a.verts then Ok((a, false)) else Ok((AbsGraph(a.verts + {u}, a.recs), true))
  }

  /** addEdge(v1, v2, e): never creates vertices; false for an absent endpoint or a record
      equal to a stored one; otherwise the record is added. */
  function AddEdge<V(==), E(==)>(a: AbsGraph<V, E>, v1: Option<V>, v2: Option<V>, e: Option<E>)
    : (r: Result<(AbsGraph<V, E>, bool)>)
    ensures r.Err? <==> v1.None? || v2.None?
    ensures r.Ok? ==> r.value.0.verts == a.verts
    ensures r.Ok? && !r.value.1 ==> r.value.0 == a
    ensures r.Ok? && r.value.1 ==>
      var k := Key(Edge(v1.value, v2.value, e));
      k !in a.recs && r.value.0.recs == a.recs + {k} && k.ends <= a.verts
    ensures Wf(a) && r.Ok? ==> Wf(r.value.0)
  {
    if v1.None? || v2.None? then Err(VertexValueNull)
    else if !(v1.value in a.verts && v2.value in a.verts) then Ok((a, false))
    else
      var r := Key(Edge(v1.value, v2.value, e));
      if r in a.recs then Ok((a, false)) else Ok((AbsGraph(a.verts, a.recs + {r}), true))
  }

  /** containsVertex(v): false for null. */
  function ContainsVertex<V(==), E(==)>(a: AbsGraph<V, E>, v: Option<V>): (b: bool)
    ensures v.None? ==> !b
    ensures v.Some? ==> (b <==> v.value in a.verts)
  {
    v.Some? && v.value in a.verts
  }

  /** containsEdge(e): some record carries value `e` (null included). */
  function ContainsEdgeValue<V(==), E(==)>(a: AbsGraph<V, E>, e: Option<E>): (b: bool)
    ensures b <==> e in Values(a.recs)
  {
    exists r :: r in a.recs && r.val == e
  }

  /** containsEdge(v1, v2): both are vertices and some record connects them, in either order. */
  function ContainsEdge<V(==), E(==)>(a: AbsGraph<V, E>, v1: Option<V>, v2: Option<V>): (r: Result<bool>)
    ensures r.Err? <==> v1.None? || v2.None?
    ensures r == Ok(true) ==> exists x :: x in a.recs && x.ends == {v1.value, v2.value}
    ensures r == Ok(true) ==> ContainsVertex(a, v1) && ContainsVertex(a, v2)
  {
    if v1.None? || v2.None? then Err(VertexValueNull)
    else Ok(v1.value in a.verts && v2.value in a.verts && Between(a, v1.value, v2.value) != {})
  }

  /** edgeSet(): the distinct values of all records. */
  function EdgeSet<V(==), E(==)>(a: AbsGraph<V, E>): (s: set<Option<E>>)
    ensures forall e :: e in s ==> ContainsEdgeValue(a, e)
    ensures forall x :: x in a.recs ==> x.val in s
  {
    Values(a.recs)
  }

  /** edgeSet(v): null (None) for an absent vertex, else the values of the records touching it. */
  function EdgeSetAt<V(==), E(==)>(a: AbsGraph<V, E>, v: Option<V>): (r: Result<Option<set<Option<E>>>>)
    ensures r.Err? <==> v.None?
    ensures r.Ok? ==> (r.value.None? <==> !ContainsVertex(a, v))
    ensures r.Ok? && r.value.Some? ==> r.value.value <= EdgeSet(a)
  {
    if v.None? then Err(VertexValueNull)
    else if v.value !in a.verts then Ok(None)
    else Ok(Some(Values(Incident(a, v.value))))
  }

  /** edgeSet(v1, v2): null (None) if either vertex is absent, else the values connecting the pair. */
  function EdgeSetBetween<V(==), E(==)>(a: AbsGraph<V, E>, v1: Option<V>, v2: Option<V>)
    : (r: Result<Option<set<Option<E>>>>)
    ensures r.Err? <==> v1.None? || v2.None?
    ensures r.Ok? ==> (r.value.None? <==> !(ContainsVertex(a, v1) && ContainsVertex(a, v2)))
    ensures r.Ok? && r.value.Some? ==> r.value.value <= EdgeSetAt(a, v1).value.value
    ensures r.Ok? && r.value.Some? ==> (r.value.value != {} <==> ContainsEdge(a, v1, v2) == Ok(true))
  {
    if v1.None? || v2.None? then Err(VertexValueNull)
    else if !(v1.value in a.verts && v2.value in a.verts) then Ok(None)
    else
      ValuesEmptyIff(Between(a, v1.value, v2.value));
      Ok(Some(Values(Between(a, v1.value, v2.value))))
  }

  /** getEdge(v1, v2): null if absent or unconnected, otherwise the value of some record
      connecting the pair; which one is left open. */
  ghost predicate GetEdgeAllows<V, E>(a: AbsGraph<V, E>, v1: Option<V>, v2: Option<V>, r: Result<Option<E>>)
    ensures GetEdgeAllows(a, v1, v2, r) ==> (r.Err? <==> v1.None? || v2.None?)
    ensures GetEdgeAllows(a, v1, v2, r) && ContainsEdge(a, v1, v2) == Ok(false) ==> r == Ok(None)
    ensures GetEdgeAllows(a, v1, v2, r) && ContainsEdge(a, v1, v2) == Ok(true) ==>
              r.Ok? && exists x :: x in a.recs && x.ends == {v1.value, v2.value} && x.val == r.value
  {
    if v1.None? || v2.None? then r == Err(VertexValueNull)
    else if !(v1.value in a.verts && v2.value in a.verts) || Between(a, v1.value, v2.value) == {} then r == Ok(None)
    else r.Ok? && r.value in Values(Between(a, v1.value, v2.value))
  }

  /** removeAllEdges(edges): removes every record whose value is in the collection;
      true iff something was removed; a null collection is an error. */
  function RemoveAllEdges<V(==), E(==)>(a: AbsGraph<V, E>, es: Option<seq<Option<E>>>)
    : (r: Result<(AbsGraph<V, E>, bool)>)
    ensures r.Err? <==> es.None?
    ensures r.Ok? ==> r.value.0.verts == a.verts && r.value.0.recs <= a.recs
    ensures r.Ok? ==> (r.value.1 <==> r.value.0 != a)
    ensures r.Ok? ==> forall x :: x in a.recs ==> (x in r.value.0.recs <==> x.val !in es.value)
    ensures Wf(a) && r.Ok? ==> Wf(r.value.0)
  {
    match es
    case None => Err(EdgeCollectionNull)
    case Some(s) =>
      var gone := LabelledIn(a, Elems(s));
      Ok((Drop(a, gone), gone != {}))
  }

  /** removeAllEdges(v1, v2): null if either vertex is absent, else removes every record
      connecting the pair and returns their values (possibly none). */
  function RemoveAllEdgesBetween<V(==), E(==)>(a: AbsGraph<V, E>, v1: Option<V>, v2: Option<V>)
    : (r: Result<(AbsGraph<V, E>, Option<set<Option<E>>>)>)
    ensures r.Err? <==> v1.None? || v2.None?
    ensures r.Ok? ==> (r.value.1.None? <==> !(ContainsVertex(a, v1) && ContainsVertex(a, v2)))
    ensures r.Ok? && r.value.1.None? ==> r.value.0 == a
    ensures r.Ok? && r.value.1.Some? ==>
      && r.value.0.verts == a.verts
      && r.value.1 == EdgeSetBetween(a, v1, v2).value
      && ContainsEdge(r.value.0, v1, v2) == Ok(false)
      && r.value.0.recs <= a.recs
      && forall x :: x in a.recs ==> (x in r.value.0.recs <==> x.ends != {v1.value, v2.value})
    ensures Wf(a) && r.Ok? ==> Wf(r.value.0)
  {
    if v1.None? || v2.None? then Err(VertexValueNull)
    else if !(v1.value in a.verts && v2.value in a.verts) then Ok((a, None))
    else
      var gone := Between(a, v1.value, v2.value);
      Ok((Drop(a, gone), Some(Values(gone))))
  }

  /** A value is among the non-null elements exactly when it occurs, wrapped, in the collection. */
  lemma NonNullMembers<T>(s: seq<Option<T>>)
    ensures forall u :: u in NonNull(s) <==> Some(u) in s
  {
    forall u | Some(u) in s ensures u in NonNull(s) {
      var o := Some(u);
      assert o in s && o.Some?;
    }
  }

  /** A record touches one of the vertices `us` exactly when one of its endpoints is among them. */
  lemma TouchingMembers<V, E>(a: AbsGraph<V, E>, us: set<V>)
    ensures forall x :: x in a.recs ==> (x in Touching(a, us) <==> exists w :: w in x.ends && w in us)
  {
    forall x | x in a.recs && (exists w :: w in x.ends && w in us)
      ensures x in Touching(a, us)
    {
      var w :| w in x.ends && w in us;
      assert w in x.ends * us;
    }
  }

  /** removeAllVertices(vertices): removes the listed vertices present in the graph with every
      record touching them; true iff some vertex was removed; a null collection is an error. */
  function RemoveAllVertices<V(==), E(==)>(a: AbsGraph<V, E>, vs: Option<seq<Option<V>>>)
    : (r: Result<(AbsGraph<V, E>, bool)>)
    ensures r.Err? <==> vs.None?
    ensures r.Ok? ==> forall u :: u in a.verts ==> (u in r.value.0.verts <==> Some(u) !in vs.value)
    ensures r.Ok? ==> r.value.0.verts <= a.verts && r.value.0.recs <= a.recs
    ensures r.Ok? ==> (r.value.1 <==> r.value.0.verts != a.verts)
    ensures r.Ok? ==> forall x :: x in a.recs ==> (x in r.value.0.recs <==> forall w :: w in x.ends ==> Some(w) !in vs.value)
    ensures Wf(a) && r.Ok? ==> Wf(r.value.0)
  {
    match vs
    case None => Err(VertexCollectionNull)
    case Some(s) =>
      var us := NonNull(s);
      NonNullMembers(s);
      TouchingMembers(a, us);
      assert a.verts * us != {} <==> a.verts - us != a.verts by {
        if a.verts * us != {} {
          var u :| u in a.verts * us;
          assert u !in a.verts - us;
        } else {
          forall u | u in a.verts ensures u in a.verts - us {
            assert u !in a.verts * us;
          }
        }
      }
      Ok((AbsGraph(a.verts - us, a.recs - Touching(a, us)), a.verts * us != {}))
  }

  /** removeEdge(e): removes every record carrying `e`; true iff there was one. */
  function RemoveEdge<V(==), E(==)>(a: AbsGraph<V, E>, e: Option<E>): (r: (AbsGraph<V, E>, bool))
    ensures r.1 <==> ContainsEdgeValue(a, e)
    ensures !ContainsEdgeValue(r.0, e)
    ensures r.0.verts == a.verts && r.0.recs <= a.recs
    ensures forall x :: x in a.recs ==> (x in r.0.recs <==> x.val != e)
    ensures Wf(a) ==> Wf(r.0)
  {
    var gone := LabelledIn(a, {e});
    assert forall x :: x in a.recs - gone ==> x.val != e;
    (Drop(a, gone), gone != {})
  }

  /** removeEdge(v1, v2): null and no change if absent or unconnected; otherwise exactly one
      record connecting the pair is removed and its value returned; which one is left open. */
  ghost predicate RemoveEdgeAllows<V, E>(
    a: AbsGraph<V, E>, v1: Option<V>, v2: Option<V>, r: Result<(AbsGraph<V, E>, Option<E>)>)
    ensures RemoveEdgeAllows(a, v1, v2, r) ==> (r.Err? <==> v1.None? || v2.None?)
    ensures RemoveEdgeAllows(a, v1, v2, r) && ContainsEdge(a, v1, v2) == Ok(false) ==> r == Ok((a, None))
    ensures RemoveEdgeAllows(a, v1, v2, r) && ContainsEdge(a, v1, v2) == Ok(true) ==>
              && r.Ok?
              && r.value.0.verts == a.verts
              && exists x :: x in a.recs && x.ends == {v1.value, v2.value} && x.val == r.value.1
                   && r.value.0.recs == a.recs - {x}
  {
    if v1.None? || v2.None? then r == Err(VertexValueNull)
    else if !(v1.value in a.verts && v2.value in a.verts) || Between(a, v1.value, v2.value) == {} then r == Ok((a, None))
    else exists rec :: rec in Between(a, v1.value, v2.value) && r == Ok((Drop(a, {rec}), rec.val))
  }

  /** removeVertex(v): false if `v` is absent (or null); otherwise `v` goes with every record
      touching it. */
  function RemoveVertex<V(==), E(==)>(a: AbsGraph<V, E>, v: Option<V>): (r: (AbsGraph<V, E>, bool))
    ensures r.1 <==> ContainsVertex(a, v)
    ensures !r.1 ==> r.0 == a
    ensures r.1 ==> r.0.verts == a.verts - {v.value} && !ContainsVertex(r.0, v)
    ensures r.1 ==> r.0.recs <= a.recs
    ensures r.1 ==> forall x :: x in a.recs ==> (x in r.0.recs <==> v.value !in x.ends)
    ensures Wf(a) ==> Wf(r.0)
  {
    if v.None? || v.value !in a.verts then (a, false)
    else (AbsGraph(a.verts - {v.value}, a.recs - Incident(a, v.value)), true)
  }

  // ---------------------------------------------------------------------------
  // The collection operations as repeated single removals
  // ---------------------------------------------------------------------------

  /** removeEdge applied to each element of the collection in turn, or-ing the results. */
  function FoldRemoveEdge<V(==), E(==)>(a: AbsGraph<V, E>, es: seq<Option<E>>): (AbsGraph<V, E>, bool)
    decreases |es|
  {
    if es == [] then (a, false)
    else
      var (a1, m1) := RemoveEdge(a, es[0]);
      var (a2, m2) := FoldRemoveEdge(a1, es[1..]);
      (a2, m1 || m2)
  }

  /** removeVertex applied to each element of the collection in turn, or-ing the results. */
  function FoldRemoveVertex<V(==), E(==)>(a: AbsGraph<V, E>, vs: seq<Option<V>>): (AbsGraph<V, E>, bool)
    decreases |vs|
  {
    if vs == [] then (a, false)
    else
      var (a1, m1) := RemoveVertex(a, vs[0]);
      var (a2, m2) := FoldRemoveVertex(a1, vs[1..]);
      (a2, m1 || m2)
  }

  // ---------------------------------------------------------------------------
  // The collection removals, one element at a time
  // ---------------------------------------------------------------------------

  /** A prefix one longer adds one element. */
  lemma ElemsSnoc<T>(s: seq<T>, i: nat)
    requires i < |s|
    ensures Elems(s[..i + 1]) == Elems(s[..i]) + {s[i]}
  {
    assert s[..i + 1] == s[..i] + [s[i]];
  }

  /** A prefix one longer adds its last element if that is not null. */
  lemma NonNullSnoc<T>(s: seq<Option<T>>, i: nat)
    requires i < |s|
    ensures NonNull(s[..i + 1]) == NonNull(s[..i]) + (if s[i].Some? then {s[i].value} else {})
  {
    assert s[..i + 1] == s[..i] + [s[i]];
  }

  /** Removing the records labelled `e` after those labelled in `vals` removes those labelled
      in `vals + {e}`; something was removed overall iff before or in this step. */
  lemma DropLabelledStep<V, E>(a: AbsGraph<V, E>, vals: set<Option<E>>, e: Option<E>)
    ensures
      var a1 := Drop(a, LabelledIn(a, vals));
      && RemoveEdge(a1, e).0 == Drop(a, LabelledIn(a, vals + {e}))
      && (LabelledIn(a, vals + {e}) != {} <==> LabelledIn(a, vals) != {} || RemoveEdge(a1, e).1)
  {
    var a1 := Drop(a, LabelledIn(a, vals));
    assert LabelledIn(a, vals + {e}) == LabelledIn(a, vals) + LabelledIn(a1, {e});
  }

  /** Removing vertex `o` after the vertices `us` (with their records) removes the vertices
      `us` plus `o`; some vertex was removed overall iff before or in this step. */
  lemma DropTouchingStep<V, E>(a: AbsGraph<V, E>, us: set<V>, o: Option<V>)
    requires Wf(a)
    ensures
      var a1 := AbsGraph(a.verts - us, a.recs - Touching(a, us));
      var us' := us + (if o.Some? then {o.value} else {});
      && RemoveVertex(a1, o).0 == AbsGraph(a.verts - us', a.recs - Touching(a, us'))
      && (a.verts * us' != {} <==> a.verts * us != {} || RemoveVertex(a1, o).1)
  {
    var a1 := AbsGraph(a.verts - us, a.recs - Touching(a, us));
    if o.Some? {
      var x := o.value;
      var us' := us + {x};
      if x in a1.verts {
        forall r | r in a.recs
          ensures r in Touching(a, us') <==> r in Touching(a, us) || x in r.ends
        {
          if x in r.ends {
            assert x in r.ends * us';
          }
          if r.ends * us != {} {
            var w :| w in r.ends * us;
            assert w in r.ends * us';
          }
        }
        assert Touching(a, us') == Touching(a, us) + Incident(a1, x);
        assert x in a.verts * us';
      } else {
        forall r | r in a.recs
          ensures r in Touching(a, us') <==> r in Touching(a, us)
        {
          if r.ends * us' != {} {
            var w :| w in r.ends * us';
            assert r.ends <= a.verts;
            assert w in us;
            assert w in r.ends * us;
          }
        }
        assert Touching(a, us') == Touching(a, us);
        assert a.verts * us' == a.verts * us;
      }
    } else {
      assert us + {} == us;
    }
  }

  /** In a well-formed graph only vertices can be connected. */
  lemma BetweenNeedsVertices<V, E>(a: AbsGraph<V, E>, u1: V, u2: V)
    requires Wf(a)
    ensures Between(a, u1, u2) != {} ==> u1 in a.verts && u2 in a.verts
  {
    if Between(a, u1, u2) != {} {
      var r :| r in Between(a, u1, u2);
      assert u1 in r.ends && u2 in r.ends;
    }
  }
}
