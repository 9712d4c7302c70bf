/**
 Edge identity for the undirected multigraph.

 The graph builds an edge from two endpoint vertex values, in the order the
 caller gave them, and an edge value that may be null. Two edges are equal
 when their endpoints agree as an unordered pair and their values agree,
 null being equal only to null. The indices of the graph store one
 representative per equality class; this module names that class (`Rec`)
 and proves that edge equality is exactly equality of classes.
 */
module Records {

  /** A Java reference that may be null: `None` is null, `Some(x)` refers to `x`. */
  datatype Option<+T> = None | Some(value: T)

  /** An edge as the graph constructs it: endpoints in call order, and a nullable value. */
  datatype Edge<V, E> = Edge(v1: V, v2: V, e: Option<E>)

  /** Null-safe comparison of two edge values: null equals only null. */
  predicate SameValue<E(==)>(x: Option<E>, y: Option<E>)
    ensures SameValue(x, y) <==> x == y
  {
    match x
    case None => y.None?
    case Some(a) => y.Some? && a == y.value
  }

  /** Edge equality: the endpoints match in either orientation and the values match null-safely. */
  predicate EdgeEquals<V(==), E(==)>(a: Edge<V, E>, b: Edge<V, E>)
    ensures EdgeEquals(a, b) <==> {a.v1, a.v2} == {b.v1, b.v2} && a.e == b.e
  {
    PairsEqual(a.v1, a.v2, b.v1, b.v2);
    && ((a.v1 == b.v1 && a.v2 == b.v2) || (a.v1 == b.v2 && a.v2 == b.v1))
    && SameValue(a.e, b.e)
  }

  /** A stored edge record: the unordered endpoint set and the (nullable) value. */
  datatype Rec<V, E> = Rec(ends: set<V>, val: Option<E>)

  /** A record has one endpoint (a self-loop) or two. */
  predicate WfEnds<V(==)>(s: set<V>) {
    |s| == 1 || |s| == 2
  }

  /** A self-loop: both endpoints are the same vertex. */
  predicate IsLoop<V(==), E(==)>(r: Rec<V, E>) {
    |r.ends| == 1
  }

  /** The values carried by a set of records (duplicates collapse). */
  function Values<V(==), E(==)>(rs: set<Rec<V, E>>): (vs: set<Option<E>>)
    ensures forall r :: r in rs ==> r.val in vs
    ensures forall x :: x in vs ==> exists r :: r in rs && r.val == x
  {
    set r | r in rs :: r.val
  }

  /** A set of records carries no value exactly when it is empty. */
  lemma ValuesEmptyIff<V, E>(rs: set<Rec<V, E>>)
    ensures Values(rs) == {} <==> rs == {}
  {
    if rs != {} {
      var r :| r in rs;
      assert r.val in Values(rs);
    }
  }

  /** The record an edge is stored as. */
  function Key<V(==), E(==)>(a: Edge<V, E>): (r: Rec<V, E>)
    ensures WfEnds(r.ends)
    ensures a.v1 in r.ends && a.v2 in r.ends
    ensures IsLoop(r) <==> a.v1 == a.v2
    ensures r.val == a.e
  {
    var r := Rec({a.v1, a.v2}, a.e);
    assert a.v1 != a.v2 ==> |r.ends| == 2;
    r
  }

  /** A set of at most two elements that holds two distinct values is exactly those two. */
  lemma PairFills<V>(s: set<V>, a: V, b: V)
    requires a != b && a in s && b in s && |s| <= 2
    ensures s == {a, b}
  {
    if x :| x in s && x != a && x != b {
      assert {a, b, x} <= s;
      assert |{a, b, x}| == 3;
      SubsetCard({a, b, x}, s);
      assert false;
    }
  }

  /** A subset is no larger than its superset. */
  lemma {:induction false} SubsetCard<V>(s: set<V>, t: set<V>)
    requires s <= t
    ensures |s| <= |t|
    decreases |s|
  {
    if s != {} {
      var x :| x in s;
      SubsetCard(s - {x}, t - {x});
    }
  }

  /** A one-element set holds exactly one value. */
  lemma SingletonIs<V>(s: set<V>, a: V)
    requires a in s && |s| == 1
    ensures s == {a}
  {
    if x :| x in s && x != a {
      assert {a, x} <= s;
      SubsetCard({a, x}, s);
      assert false;
    }
  }

  /** Two unordered pairs are equal exactly when they match in one of the two orientations. */
  lemma PairsEqual<V>(a: V, b: V, c: V, d: V)
    ensures {a, b} == {c, d} <==> ((a == c && b == d) || (a == d && b == c))
  {
    if {a, b} == {c, d} {
      assert c in {a, b} && d in {a, b};
      assert a in {c, d} && b in {c, d};
    }
  }

  /** Edge equality coincides with equality of the stored records, so a set of records
      keeps one representative per equality class, as the hashed sets of the graph do. */
  lemma EdgeEqualsIffSameKey<V, E>(a: Edge<V, E>, b: Edge<V, E>)
    ensures EdgeEquals(a, b) <==> Key(a) == Key(b)
  {
    PairsEqual(a.v1, a.v2, b.v1, b.v2);
    assert SameValue(a.e, b.e) <==> a.e == b.e;
  }

  /** Edge equality ignores the orientation of the endpoints. */
  lemma EdgeEqualsReversed<V, E>(a: Edge<V, E>)
    ensures EdgeEquals(a, Edge(a.v2, a.v1, a.e))
    ensures Key(a) == Key(Edge(a.v2, a.v1, a.e))
  {
    EdgeEqualsIffSameKey(a, Edge(a.v2, a.v1, a.e));
  }

  /** The endpoint set of a two-endpoint record containing `a` and `b` is `{a, b}`. */
  lemma EndsArePair<V, E>(r: Rec<V, E>, a: V, b: V)
    requires WfEnds(r.ends) && a in r.ends && b in r.ends
    requires a != b || IsLoop(r)
    ensures r.ends == {a, b}
  {
    if a != b {
      PairFills(r.ends, a, b);
    } else {
      SingletonIs(r.ends, a);
    }
  }
}
