/**
 Properties of the abstract graph that relate several calls: idempotent
 insertion, the undirected symmetry of edge queries, the add/remove round
 trip, and the collection removals as repeated single removals.
 */
module GraphLaws {
  import opened Records
  import opened AbstractGraph

  // ---------------------------------------------------------------------------
  // Laws of single operations
  // ---------------------------------------------------------------------------

  /** Adding a vertex twice: the second call returns false and changes nothing. */
  lemma AddVertexTwice<V, E>(a: AbsGraph<V, E>, u: V)
    ensures AddVertex(a, Some(u)).Ok?
    ensures
      var a1 := AddVertex(a, Some(u)).value.0;
      AddVertex(a1, Some(u)) == Ok((a1, false)) && a1.verts == a.verts + {u}
  {
  }

  /** Once an edge is added, adding an equal one in either orientation returns false and
      changes nothing. */
  lemma AddEdgeRefusesDuplicate<V, E>(a: AbsGraph<V, E>, u1: V, u2: V, e: Option<E>)
    requires AddEdge(a, Some(u1), Some(u2), e).Ok?
    ensures
      var a1 := AddEdge(a, Some(u1), Some(u2), e).value.0;
      && AddEdge(a1, Some(u1), Some(u2), e) == Ok((a1, false))
      && AddEdge(a1, Some(u2), Some(u1), e) == Ok((a1, false))
  {
    EdgeEqualsReversed(Edge(u1, u2, e));
  }

  /** containsEdge(v1, v2) does not depend on the order of the two vertices. */
  lemma ContainsEdgeSymmetric<V, E>(a: AbsGraph<V, E>, v1: Option<V>, v2: Option<V>)
    ensures ContainsEdge(a, v1, v2) == ContainsEdge(a, v2, v1)
  {
    if v1.Some? && v2.Some? {
      assert {v1.value, v2.value} == {v2.value, v1.value};
    }
  }

  /** Adding an edge between an unconnected pair and then removing an edge between them
      returns the added value and restores the graph; the pair is then unconnected. */
  lemma AddThenRemoveEdge<V, E>(a: AbsGraph<V, E>, u1: V, u2: V, e: Option<E>,
                                 r: Result<(AbsGraph<V, E>, Option<E>)>)
    requires u1 in a.verts && u2 in a.verts && Between(a, u1, u2) == {}
    requires RemoveEdgeAllows(AddEdge(a, Some(u1), Some(u2), e).value.0, Some(u1), Some(u2), r)
    ensures AddEdge(a, Some(u1), Some(u2), e) == Ok((AbsGraph(a.verts, a.recs + {Key(Edge(u1, u2, e))}), true))
    ensures r == Ok((a, e))
    ensures ContainsEdge(r.value.0, Some(u1), Some(u2)) == Ok(false)
  {
    var k := Key(Edge(u1, u2, e));
    assert k.ends == {u1, u2};
    assert k in a.recs ==> k in Between(a, u1, u2);
    var a1 := AbsGraph(a.verts, a.recs + {k});
    assert Between(a1, u1, u2) == {k} by {
      forall x | x in Between(a1, u1, u2) ensures x == k {
        assert x != k ==> x in Between(a, u1, u2);
      }
    }
    assert a1.recs - {k} == a.recs;
  }

  /** Removing an edge value a second time returns false and changes nothing. */
  lemma RemoveEdgeTwice<V, E>(a: AbsGraph<V, E>, e: Option<E>)
    ensures
      var a1 := RemoveEdge(a, e).0;
      && RemoveEdge(a1, e) == (a1, false)
      && !ContainsEdgeValue(a1, e)
  {
    var a1 := RemoveEdge(a, e).0;
    forall r | r in a1.recs ensures r.val != e {
      assert r !in LabelledIn(a, {e});
    }
    assert LabelledIn(a1, {e}) == {};
    assert Drop(a1, {}) == a1;
  }

  /** Removing a vertex keeps the graph well formed: no record left touches it, and the
      records (self-loops included) at every other vertex are untouched. */
  lemma RemoveVertexCascades<V, E>(a: AbsGraph<V, E>, u: V)
    requires Wf(a) && u in a.verts
    ensures
      var (a1, removed) := RemoveVertex(a, Some(u));
      && removed
      && Wf(a1)
      && u !in a1.verts
      && Incident(a1, u) == {}
      && (forall r :: r in a.recs && u !in r.ends ==> r in a1.recs)
      && (forall w :: w != u ==> Between(a1, w, w) == Between(a, w, w))
  {
    var a1 := RemoveVertex(a, Some(u)).0;
    forall r | r in a1.recs ensures r.ends <= a1.verts {
      assert r.ends <= a.verts;
    }
    forall w | w != u ensures Between(a1, w, w) == Between(a, w, w) {
      forall r | r in Between(a, w, w) ensures u !in r.ends {
        assert r.ends == {w};
      }
    }
  }

  /** After removeAllEdges(v1, v2) the pair is unconnected, and every record not between
      the pair is still there. */
  lemma RemoveAllEdgesBetweenClears<V, E>(a: AbsGraph<V, E>, u1: V, u2: V)
    requires u1 in a.verts && u2 in a.verts
    ensures
      var (a1, vals) := RemoveAllEdgesBetween(a, Some(u1), Some(u2)).value;
      && vals == Some(Values(Between(a, u1, u2)))
      && Between(a1, u1, u2) == {}
      && ContainsEdge(a1, Some(u1), Some(u2)) == Ok(false)
      && (forall r :: r in a.recs && r.ends != {u1, u2} ==> r in a1.recs)
  {
  }

  /** removeEdge(v1, v2) on a connected pair removes exactly one record, one between the pair;
      records between other pairs, whatever their value, stay. */
  lemma RemoveEdgeBetweenRemovesOne<V, E>(a: AbsGraph<V, E>, u1: V, u2: V,
                                          r: Result<(AbsGraph<V, E>, Option<E>)>)
    requires u1 in a.verts && u2 in a.verts && Between(a, u1, u2) != {}
    requires RemoveEdgeAllows(a, Some(u1), Some(u2), r)
    ensures r.Ok?
    ensures |r.value.0.recs| == |a.recs| - 1
    ensures r.value.0.recs <= a.recs
    ensures forall x :: x in a.recs && x.ends != {u1, u2} ==> x in r.value.0.recs
    ensures r.value.1 in Values(Between(a, u1, u2))
  {
    var rec :| rec in Between(a, u1, u2) && r == Ok((Drop(a, {rec}), rec.val));
  }

  /** edgeSet(v) and edgeSet(v1, v2) tell an absent vertex (null) apart from a present but
      unconnected one (the empty set), and the pair query does not depend on the order. */
  lemma EdgeSetNullOrEmpty<V, E>(a: AbsGraph<V, E>, u: V, w: V)
    ensures u !in a.verts ==> EdgeSetAt(a, Some(u)) == Ok(None)
    ensures u !in a.verts ==> EdgeSetBetween(a, Some(u), Some(w)) == Ok(None)
    ensures u in a.verts && Incident(a, u) == {} ==> EdgeSetAt(a, Some(u)) == Ok(Some({}))
    ensures u in a.verts && w in a.verts && Between(a, u, w) == {} ==>
              EdgeSetBetween(a, Some(u), Some(w)) == Ok(Some({}))
    ensures EdgeSetBetween(a, Some(u), Some(w)) == EdgeSetBetween(a, Some(w), Some(u))
  {
    assert {u, w} == {w, u};
    var none: set<Rec<V, E>> := {};
    assert Values(none) == {};
  }

  /** The value getEdge may return for a connected pair is among those edgeSet(v1, v2) reports. */
  lemma GetEdgeAmongEdgeSet<V, E>(a: AbsGraph<V, E>, v1: Option<V>, v2: Option<V>, r: Result<Option<E>>)
    requires ContainsEdge(a, v1, v2) == Ok(true)
    requires GetEdgeAllows(a, v1, v2, r)
    ensures r.Ok? && EdgeSetBetween(a, v1, v2).Ok? && EdgeSetBetween(a, v1, v2).value.Some?
    ensures r.value in EdgeSetBetween(a, v1, v2).value.value
  {
  }

  // ---------------------------------------------------------------------------
  // The collection removals are folds of the single removals
  // ---------------------------------------------------------------------------

  /** removeAllEdges(edges) is removeEdge applied to each element in turn. */
  lemma {:induction false} RemoveAllEdgesIsFold<V, E>(a: AbsGraph<V, E>, es: seq<Option<E>>)
    ensures RemoveAllEdges(a, Some(es)) == Ok(FoldRemoveEdge(a, es))
    decreases |es|
  {
    if es == [] {
      assert LabelledIn(a, Elems(es)) == {};
      assert Drop(a, {}) == a;
    } else {
      var a1 := RemoveEdge(a, es[0]).0;
      RemoveAllEdgesIsFold(a1, es[1..]);
      assert Elems(es) == {es[0]} + Elems(es[1..]) by {
        assert es == [es[0]] + es[1..];
      }
      var l0, l1 := LabelledIn(a, {es[0]}), LabelledIn(a1, Elems(es[1..]));
      assert LabelledIn(a, Elems(es)) == l0 + l1;
      assert Drop(a1, l1) == Drop(a, l0 + l1);
      assert FoldRemoveEdge(a, es) == (Drop(a1, l1), l0 != {} || l1 != {});
    }
  }

  /** In a well-formed graph, removeAllVertices(vertices) is removeVertex applied to each
      element in turn. */
  lemma {:induction false} RemoveAllVerticesIsFold<V, E>(a: AbsGraph<V, E>, vs: seq<Option<V>>)
    requires Wf(a)
    ensures RemoveAllVertices(a, Some(vs)) == Ok(FoldRemoveVertex(a, vs))
    decreases |vs|
  {
    if vs == [] {
      assert NonNull(vs) == {};
      assert Touching(a, {}) == {};
      assert AbsGraph(a.verts - {}, a.recs - {}) == a;
    } else {
      var (a1, m1) := RemoveVertex(a, vs[0]);
      var rest := vs[1..];
      assert NonNull(vs) == NonNull([vs[0]]) + NonNull(rest) by {
        assert vs == [vs[0]] + rest;
      }
      DropTouchingStep(a, {}, vs[0]);
      assert Touching(a, {}) == {};
      assert a1 == AbsGraph(a.verts - NonNull([vs[0]]), a.recs - Touching(a, NonNull([vs[0]])));
      RemoveAllVerticesIsFold(a1, rest);
      TouchingCompose(a, NonNull([vs[0]]), NonNull(rest));
    }
  }

  /** Removing the vertices `us`, then `ws`, is removing `us + ws` at once. */
  lemma TouchingCompose<V, E>(a: AbsGraph<V, E>, us: set<V>, ws: set<V>)
    ensures
      var a1 := AbsGraph(a.verts - us, a.recs - Touching(a, us));
      && a1.verts - ws == a.verts - (us + ws)
      && a1.recs - Touching(a1, ws) == a.recs - Touching(a, us + ws)
      && (a.verts * (us + ws) != {} <==> a.verts * us != {} || a1.verts * ws != {})
  {
    var a1 := AbsGraph(a.verts - us, a.recs - Touching(a, us));
    forall r | r in a.recs
      ensures r in Touching(a, us + ws) <==> r in Touching(a, us) || r.ends * ws != {}
    {
      if r.ends * (us + ws) != {} {
        var w :| w in r.ends * (us + ws);
        assert w in r.ends * us || w in r.ends * ws;
      }
      if r.ends * us != {} {
        var w :| w in r.ends * us;
        assert w in r.ends * (us + ws);
      }
      if r.ends * ws != {} {
        var w :| w in r.ends * ws;
        assert w in r.ends * (us + ws);
      }
    }
    if a.verts * (us + ws) != {} {
      var w :| w in a.verts * (us + ws);
      assert w in a.verts * us || w in a1.verts * ws;
    }
    if a1.verts * ws != {} {
      var w :| w in a1.verts * ws;
      assert w in a.verts * (us + ws);
    }
    if a.verts * us != {} {
      var w :| w in a.verts * us;
      assert w in a.verts * (us + ws);
    }
  }

  // ---------------------------------------------------------------------------
  // Where the code and the interface's documentation part ways
  // ---------------------------------------------------------------------------

  /** The interface documents removeEdge(v1, v2) as returning null only when the graph was
      not modified; but a removed record whose value is null also yields null. */
  lemma RemovedNullValueLooksUnmodified()
    ensures
      var a := AbsGraph({1, 2}, {Rec({1, 2}, None)});
      var r: Result<(AbsGraph<int, int>, Option<int>)> := Ok((AbsGraph({1, 2}, {}), None));
      && RemoveEdgeAllows(a, Some(1), Some(2), r)
      && r.value.0 != a
      && r.value.1 == None
  {
    var a := AbsGraph({1, 2}, {Rec({1, 2}, None)});
    var rec: Rec<int, int> := Rec({1, 2}, None);
    assert rec in Between(a, 1, 2);
    assert Drop(a, {rec}) == AbsGraph({1, 2}, {});
  }
}
