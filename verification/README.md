# GraphADT: a verified model of the undirected multigraph

GraphADT is a small Java library with one interface, `AbstractGraph<V,E>`, and
two classes that implement it, `UndirectedGraph<V,E>` and
`BasicUndirectedGraph<V,E>`. The graph is an undirected multigraph:
- vertex values are never null;
- edge values may be null;
- several edges may join the same pair of vertices, as long as no two are equal.

Two edges are equal when their endpoints agree as an unordered pair and their
values agree, null being equal only to null.

Both classes keep the graph in two hash maps:
- `vertexMap` sends each vertex to the set of edge records touching it;
- `edgeMap` sends each edge value to the set of records carrying it.

This project models that representation and every public operation on it. It
proves that each operation keeps the two maps consistent. It also proves that,
seen through an abstraction function, each operation does what the interface's
documentation promises, except where noted below.

## Structure

| module | file | contents |
|---|---|---|
| `Records` | `records.dfy` | `Option` (for Java null), the class's `Edge` with its `equals`, and the normalised stored record `Rec(ends, val)`, whose built-in equality is edge equality |
| `AbstractGraph` | `abstract_graph.dfy` | the interface contract: each operation as a function (or, where the interface leaves a choice open, a predicate over allowed outcomes) on `AbsGraph(verts, recs)` |
| `DualIndex` | `dual_index.dfy` | the two-map representation `Graph(vertexMap, edgeMap)`, the representation invariant `Valid`, the abstraction `Abs`, the closed form `Strip` of every removal, and the private helpers `intersection` and `getEdge(Set)` |
| `UndirectedGraph` | `undirected_graph.dfy` | every public operation of `UndirectedGraph`, as a function or, for the loops, as a method |
| `BasicUndirectedGraph` | `basic_undirected_graph.dfy` | the one operation in which `BasicUndirectedGraph` differs (`addEdge`), proved equal to the other class's |
| `GraphLaws` | `graph_laws.dfy` | properties relating several calls, and the collection removals as folds of the single removals |

## Modelling choices

- **Null.** A Java reference that may be null is an `Option`:
  - a vertex argument is `Option<V>`;
  - an edge value is `Option<E>`, so the null value is an ordinary key of `edgeMap`;
  - a collection argument is `Option<seq<...>>`.
- **Exceptions.** The exceptions the interface throws on a null argument are `Err(VertexValueNull)`, `Err(EdgeCollectionNull)` and `Err(VertexCollectionNull)`; their message strings are not modelled.
- **Mutation.** A mutating call becomes a function or method from the old representation to the new one plus the Java return value. The contract of each operation says two things:
  - `Valid` holds of the new representation;
  - `Abs` of the new representation and the returned value are what `AbstractGraph` prescribes.
- **Results are copies.** `vertexSet`, `edgeSet` and friends return fresh sets in the Java code; in the model they are plain values.
- **Arbitrary choices.** The private `getEdge(Set)` returns the first element of the set in `ArrayList` order, which depends on hashing. The model picks any member (`PickEdge`), so `getEdge(v1, v2)` and `removeEdge(v1, v2)` are specified by the predicates `GetEdgeAllows` and `RemoveEdgeAllows`, which admit every possible pick.
- **The two classes.** Apart from comments and `toString`, the two classes differ only in:
  - `addEdge`, where `UndirectedGraph` removes a value bucket that a refused insertion left empty;
  - the `RUN_CHECKREP` flag.

  A refused insertion finds the equal record already in the bucket, so that bucket is never empty. `BasicUndirectedGraph.AddEdge` proves the two `addEdge`s compute the same representation. Every other operation of `BasicUndirectedGraph` is the same code as in `UndirectedGraph`, and its model is the one in module `UndirectedGraph`.
- **The self-check.** `checkRep` asserts that no vertex key is null, that no stored edge is null, and that every endpoint of every record in `edgeMap` is a key of `vertexMap`. The first two hold trivially in the model, since neither `V` nor `Rec` has a null value; the third is `DualIndex.CheckRep`. `Valid`'s own contract states that the invariant implies it, and `Valid` is strictly stronger; `ValidPassesCheckRep` proves that passing it means stored records only join vertices.

### Where the documentation and the code part ways

The interface says `removeEdge(v1, v2)` returns "null if graph was not
modified". The code returns the removed record's value, and that value may be
null. A successful removal of a null-valued edge is therefore indistinguishable
from no removal. `GraphLaws.RemovedNullValueLooksUnmodified` exhibits it:
- the graph has vertices 1 and 2 and a single null-valued edge between them;
- removing that edge is an allowed outcome;
- the graph changes, yet the result is null.

The model follows the code. This follows from the interface allowing null edge
values; it is not a defect in the code.

## Model

| member | source | states |
|---|---|---|
| `Records.SameValue` | src/graphADT/UndirectedGraph.java:106-119 | the null-safe value comparison of `equals` (null equals only null) is plain equality of optional values |
| `Records.EdgeEquals` | src/graphADT/UndirectedGraph.java:106-119 | two edges are equal exactly when their endpoint pairs are equal as unordered sets and their values are equal |
| `Records.Values` | src/graphADT/UndirectedGraph.java:484-490 | extractEdges: every record's value is in the result, and every value in the result is carried by some record of the set |
| `Records.Key` | src/graphADT/UndirectedGraph.java:61-65 | an edge's stored record has one or two endpoints, holds both of the edge's vertices, is a self-loop exactly when the vertices are equal, and carries the edge's value |
| `Records.EdgeEqualsIffSameKey` | src/graphADT/UndirectedGraph.java:89-120 | the class's edge `equals` (unordered endpoint pair, null-safe value comparison) holds exactly when the two edges are stored as the same record, so hashed sets of edges keep one record per equality class |
| `Records.EdgeEqualsReversed` | src/graphADT/BasicUndirectedGraph.java:97-110 | an edge equals the same edge with its endpoints swapped, and both are stored as the same record |
| `Records.EndsArePair` | src/graphADT/UndirectedGraph.java:458-476 | a record holding two given vertices (equal ones only for a self-loop) joins exactly that pair, which is why the intersection of two incidence sets, or the self-loops of one, are the edges between the pair |
| `AbstractGraph.AddVertex` | src/graphADT/AbstractGraph.java:18-27 | fails exactly for null; true exactly when the vertex was not yet in the graph; afterwards the vertex is present and the edges are unchanged; well-formedness is kept |
| `AbstractGraph.AddEdge` | src/graphADT/AbstractGraph.java:29-54 | fails exactly for a null endpoint; never changes the vertex set; false means no change at all; true means exactly the new edge, which joins two vertices and equals no stored edge, was added; well-formedness is kept |
| `AbstractGraph.ContainsVertex` | src/graphADT/AbstractGraph.java:56-66 | false for null, otherwise true exactly for a vertex of the graph |
| `AbstractGraph.ContainsEdgeValue` | src/graphADT/AbstractGraph.java:68-77 | true exactly when the value, null included, is among the values carried by the edges |
| `AbstractGraph.ContainsEdge` | src/graphADT/AbstractGraph.java:79-94 | fails exactly for a null endpoint; a true answer means both are vertices and some edge joins exactly that unordered pair |
| `AbstractGraph.EdgeSet` | src/graphADT/AbstractGraph.java:103-108 | every value returned is contained, and every edge's value is returned |
| `AbstractGraph.EdgeSetAt` | src/graphADT/AbstractGraph.java:110-122 | fails exactly for null; null exactly for an absent vertex; otherwise a subset of all edge values |
| `AbstractGraph.EdgeSetBetween` | src/graphADT/AbstractGraph.java:124-139 | fails exactly for a null endpoint; null exactly when a vertex is absent; otherwise a subset of the first vertex's edge values, non-empty exactly when containsEdge(v1, v2) holds |
| `AbstractGraph.GetEdgeAllows` | src/graphADT/AbstractGraph.java:141-155 | an allowed outcome fails exactly for a null endpoint, is null for an unconnected pair, and for a connected pair is the value of some edge joining the pair |
| `AbstractGraph.RemoveAllEdges` | src/graphADT/AbstractGraph.java:157-168 | fails exactly for a null collection; keeps the vertices; an edge stays exactly when its value is not in the collection; true exactly when the graph changed; well-formedness is kept |
| `AbstractGraph.RemoveAllEdgesBetween` | src/graphADT/AbstractGraph.java:170-184 | fails exactly for a null endpoint; null, with no change, exactly when a vertex is absent; otherwise returns edgeSet(v1, v2), keeps the vertices, removes exactly the edges joining the pair, and leaves the pair unconnected; well-formedness is kept |
| `AbstractGraph.RemoveAllVertices` | src/graphADT/AbstractGraph.java:186-198 | fails exactly for a null collection; a vertex stays exactly when it is not listed; an edge stays exactly when none of its endpoints is listed; true exactly when the vertex set changed; well-formedness is kept |
| `AbstractGraph.RemoveEdge` | src/graphADT/AbstractGraph.java:200-210 | true exactly when the value was contained; afterwards it is not; the vertices are kept and an edge stays exactly when it carries another value; well-formedness is kept |
| `AbstractGraph.RemoveEdgeAllows` | src/graphADT/AbstractGraph.java:212-225 | an allowed outcome fails exactly for a null endpoint, is null with no change for an unconnected pair, and for a connected pair removes exactly one edge joining the pair, keeps the vertices, and returns that edge's value |
| `AbstractGraph.RemoveVertex` | src/graphADT/AbstractGraph.java:227-239 | true exactly when the vertex was contained; false means no change; otherwise the vertex is gone and an edge stays exactly when it does not touch the vertex; well-formedness is kept |
| `DualIndex.Valid` | src/graphADT/UndirectedGraph.java:158-173 | the representation invariant: the two maps mirror each other, endpoints are vertices, no value bucket is empty; it implies the condition the self-check asserts |
| `DualIndex.Abs` | src/graphADT/UndirectedGraph.java:147-156 | the abstraction function: every abstract edge sits in the bucket of its own value, and a valid representation abstracts to a well-formed graph |
| `DualIndex.CheckRep` | src/graphADT/UndirectedGraph.java:503-522 | the condition checkRep asserts; when it holds, every record in the edge map joins vertices of the vertex map |
| `DualIndex.ValidAbstractsToWf` | src/graphADT/UndirectedGraph.java:158-173 | under the representation invariant every stored record has one or two endpoints, all of them vertices of the graph |
| `DualIndex.ValidPassesCheckRep` | src/graphADT/UndirectedGraph.java:503-522 | passing the self-check (every endpoint of a record in the edge map is a key of the vertex map) means stored records only join vertices of the abstract graph |
| `DualIndex.EntryIsIncident` | src/graphADT/UndirectedGraph.java:144-145 | the vertex map's entry for a vertex is exactly the set of stored records touching that vertex |
| `DualIndex.BucketIsLabelled` | src/graphADT/UndirectedGraph.java:144-145 | the edge map's bucket for a value is exactly the set of stored records carrying it, and an absent key means no record carries that value |
| `DualIndex.KeysAreValues` | src/graphADT/UndirectedGraph.java:236-238 | the keys of the edge map are exactly the values carried by stored records, because no bucket is ever left empty |
| `DualIndex.StripValid` | src/graphADT/UndirectedGraph.java:362-380 | taking a set of records out of both maps and pruning emptied buckets keeps the invariant and removes exactly those records from the abstract graph |
| `DualIndex.StripOneMore` | src/graphADT/UndirectedGraph.java:429-434 | removing one more stored record from its endpoints' incidence sets and from its bucket (dropping the bucket if it empties) is one step of that closed form |
| `DualIndex.Intersection` | src/graphADT/UndirectedGraph.java:458-476 | the private intersection is the set of records joining the pair: empty if either vertex is absent, the self-loops at the vertex when both are equal, otherwise the records touching both |
| `DualIndex.PickEdge` | src/graphADT/UndirectedGraph.java:495-498 | the private getEdge(Set) returns nothing exactly for the empty set and otherwise some member of the set |
| `UndirectedGraph.Empty` | src/graphADT/UndirectedGraph.java:175-179 | a new graph satisfies the invariant and has no vertices and no edges |
| `UndirectedGraph.AddVertex` | src/graphADT/UndirectedGraph.java:182-194 | null fails; a present vertex gives false and no change; otherwise the vertex is added with no edges and the result is true |
| `UndirectedGraph.File` | src/graphADT/UndirectedGraph.java:214-219 | filing a record keeps the vertex keys, puts the record in its value's bucket (a new bucket holds exactly that record) and in the incidence set of each endpoint, adds no edge-map key but the record's value, and leaves the incidence sets of other vertices and every other bucket exactly as they were |
| `UndirectedGraph.FileValid` | src/graphADT/UndirectedGraph.java:214-219 | filing a new record under its value and under each of its endpoints (a self-loop is one set member) keeps the invariant and adds exactly that record |
| `UndirectedGraph.AddEdge` | src/graphADT/UndirectedGraph.java:202-228 | null endpoints fail; an absent endpoint or an edge equal to a stored one gives false and leaves the representation unchanged, empty-bucket undo included; otherwise the edge is added and the result is true |
| `UndirectedGraph.AddNullEdge` | src/graphADT/UndirectedGraph.java:197-199 | the two-argument addEdge adds the null-valued edge, under the same rules |
| `UndirectedGraph.ContainsVertex` | src/graphADT/UndirectedGraph.java:231-233 | true exactly for a non-null vertex of the graph |
| `UndirectedGraph.ContainsEdgeValue` | src/graphADT/UndirectedGraph.java:236-238 | true exactly when some stored edge carries the value, null included |
| `UndirectedGraph.ContainsEdge` | src/graphADT/UndirectedGraph.java:241-246 | null endpoints fail; otherwise true exactly when both are vertices and some edge joins them, in either order |
| `UndirectedGraph.VertexSet` | src/graphADT/UndirectedGraph.java:249-251 | the vertex set of the abstract graph |
| `UndirectedGraph.EdgeSet` | src/graphADT/UndirectedGraph.java:254-256 | the set of values carried by the stored edges |
| `UndirectedGraph.EdgeSetAt` | src/graphADT/UndirectedGraph.java:259-270 | null fails; an absent vertex gives null; otherwise the values of the edges touching the vertex |
| `UndirectedGraph.EdgeSetBetween` | src/graphADT/UndirectedGraph.java:273-280 | null fails; an absent vertex gives null; otherwise the values of the edges joining the pair |
| `UndirectedGraph.GetEdge` | src/graphADT/UndirectedGraph.java:283-291 | null fails; an absent or unconnected pair gives null; otherwise the value of some edge joining the pair |
| `UndirectedGraph.RemoveEdge` | src/graphADT/UndirectedGraph.java:362-380 | every edge carrying the value leaves both maps, the value's key goes too, and the result is true exactly when such an edge existed |
| `UndirectedGraph.RemoveEdgeBetween` | src/graphADT/UndirectedGraph.java:383-406 | null fails; an absent or unconnected pair gives null and no change; otherwise exactly one edge joining the pair is removed and its value returned |
| `UndirectedGraph.PairEntriesStrip` | src/graphADT/UndirectedGraph.java:321-322 | removing the pair's edges from the two endpoints' incidence sets removes them from the whole vertex map, since they touch no other vertex |
| `UndirectedGraph.RemoveAllEdgesBetween` | src/graphADT/UndirectedGraph.java:312-336 | null fails; an absent vertex gives null and no change; otherwise every edge joining the pair is removed and the set of their values returned, empty if there were none |
| `UndirectedGraph.UnfileAll` | src/graphADT/UndirectedGraph.java:324-332 | the loop that takes each removed record out of its value's bucket, dropping buckets that empty, leaves exactly the edge map of the closed-form removal |
| `UndirectedGraph.StripBetween` | src/graphADT/UndirectedGraph.java:312-336 | removing the records between two present vertices from both maps keeps the invariant and is exactly the interface's removeAllEdges(v1, v2) |
| `UndirectedGraph.DetachFromOther` | src/graphADT/UndirectedGraph.java:421-428 | once the removed vertex's entry is gone, a self-loop needs no further detaching and any other edge needs detaching only from its other endpoint |
| `UndirectedGraph.RemoveVertex` | src/graphADT/UndirectedGraph.java:409-439 | an absent or null vertex gives false and no change; otherwise the vertex and every edge touching it, self-loops included, are removed and the result is true |
| `UndirectedGraph.RemoveAllEdges` | src/graphADT/UndirectedGraph.java:294-309 | a null collection fails; otherwise every edge whose value is in the collection is removed, and the result is true exactly when one was |
| `UndirectedGraph.RemoveAllVertices` | src/graphADT/UndirectedGraph.java:339-354 | a null collection fails; otherwise every listed vertex of the graph goes with the edges touching it, and the result is true exactly when some vertex was removed |
| `BasicUndirectedGraph.AddEdge` | src/graphADT/BasicUndirectedGraph.java:169-192 | the same outcome as the interface's addEdge and, although the bucket undo is missing, the very same representation as the other class's addEdge; a refused edge leaves the representation unchanged |
| `BasicUndirectedGraph.AddNullEdge` | src/graphADT/BasicUndirectedGraph.java:164-166 | the two-argument addEdge adds the null-valued edge, under the same rules, with the same representation as the other class's |
| `GraphLaws.AddVertexTwice` | src/graphADT/AbstractGraph.java:18-27 | adding a vertex succeeds, and adding it again returns false and changes nothing |
| `GraphLaws.AddEdgeRefusesDuplicate` | test/graphADT/UndirectedGraphTest.java:173-196 | after an edge is added, adding an equal edge in either orientation returns false and changes nothing |
| `GraphLaws.ContainsEdgeSymmetric` | src/graphADT/AbstractGraph.java:79-94 | containsEdge(v1, v2) equals containsEdge(v2, v1), errors included |
| `GraphLaws.EdgeSetNullOrEmpty` | src/graphADT/AbstractGraph.java:110-139 | the edge-set queries give null for an absent vertex and the empty set for a present but unconnected one, and the pair query ignores order |
| `GraphLaws.GetEdgeAmongEdgeSet` | src/graphADT/AbstractGraph.java:141-155 | for a connected pair, every value getEdge may return is one that edgeSet(v1, v2) reports |
| `GraphLaws.AddThenRemoveEdge` | src/graphADT/AbstractGraph.java:212-225 | on an unconnected pair, adding an edge and then removing one between the pair returns the added value and restores the graph, leaving the pair unconnected |
| `GraphLaws.RemoveEdgeBetweenRemovesOne` | src/graphADT/AbstractGraph.java:212-225 | removeEdge(v1, v2) on a connected pair removes exactly one edge, one joining the pair, keeps every edge on other pairs whatever its value, and returns a value edgeSet(v1, v2) held |
| `GraphLaws.RemovedNullValueLooksUnmodified` | src/graphADT/AbstractGraph.java:221 | a removal that changes the graph can still return null, when the removed edge's value is null |
| `GraphLaws.RemoveEdgeTwice` | src/graphADT/AbstractGraph.java:200-210 | removing an edge value twice: the second call returns false and changes nothing, and the value is no longer contained |
| `GraphLaws.RemoveVertexCascades` | src/graphADT/AbstractGraph.java:227-239 | removing a present vertex returns true, keeps the graph well formed, leaves no edge touching it, and keeps every other edge, self-loops at other vertices included |
| `GraphLaws.RemoveAllEdgesBetweenClears` | src/graphADT/AbstractGraph.java:170-184 | after removeAllEdges(v1, v2) on present vertices the result holds the values that joined them, the pair is unconnected, and edges between other pairs remain |
| `GraphLaws.RemoveAllEdgesIsFold` | src/graphADT/UndirectedGraph.java:294-309 | removeAllEdges on a collection is removeEdge applied to each element in turn, with the results or-ed |
| `GraphLaws.RemoveAllVerticesIsFold` | src/graphADT/UndirectedGraph.java:339-354 | in a well-formed graph, removeAllVertices on a collection is removeVertex applied to each element in turn, with the results or-ed |
| `GraphLaws.TouchingCompose` | src/graphADT/UndirectedGraph.java:346-350 | removing one group of vertices and then another removes the same vertices and edges as removing both groups at once |

## Left out

- `Edge.hashCode` and `getOuterType`: hashing is replaced by built-in equality of records, and all edges of one graph share one outer instance.
- `toString` of the graph and of `Edge`: text output only.
- The `RUN_CHECKREP` flag and the Java `assert`s in `checkRep`: the invariant is `DualIndex.Valid`, proved after every operation rather than checked at run time; `CheckRep` states the condition the asserts test.
- The messages of the null-argument exceptions: the three failures are the values of `GraphError`.
- The iteration order of `HashSet` and `ArrayList`: the private `getEdge(Set)` may pick any member, which covers whichever one the Java code picks.
- The Java collections passed to `removeAllEdges` and `removeAllVertices` are sequences; a collection that changes while it is iterated is not modelled.
- The generic `equals`/`hashCode` of user-supplied `V` and `E`: they are taken to be Dafny equality, so a value type whose `equals` is inconsistent is not modelled.
- Concurrency: the classes are not thread-safe and the model is sequential.
