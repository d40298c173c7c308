# Graph<TVertex, TProperty> in Dafny

A model of `Graph<TVertex, TProperty>` from `Graph.cs`: a directed graph held in two
dictionaries. The first maps each vertex key to its list of outgoing edges, each edge a target
key and a property. The second maps each vertex key to its property.

The class keeps its source form. `Lab4.Graph` has three fields that its methods update in place:
`adjacency` and `vertexProperties` are the two dictionaries, and `keys` is the order in which the
first dictionary enumerates its keys. Every operation that changes the graph is a method. Each
method is proved to leave the graph in the state a transition function of `GraphModel` computes
from the old state. That function also gives the outcome, either `Pass` or the exception that
was thrown. The lemmas of `GraphProperties` prove what each transition promises: which call
fails and with which error, what the new state contains, and which invariant is kept. The
read-only members (`ContainsVertex`, `ContainsEdge`, `GetVertexDegree`, the property getters,
`VertexCount`, `Empty`, the comparison operators) are `GraphModel` functions applied to
`Model()`.

Files:

- `outcomes.dfy`: `Outcomes`, the errors a call can throw, and `Result`/`Option`.
- `edge_lists.dfy`: `EdgeLists`, an edge as a value and the `List<Edge>` operations the class
  uses (`Exists`, `Find`, `RemoveAll`, appending).
- `graph_model.dfy`: `GraphModel`, the state as a value, the queries, and every operation as a
  transition `State -> Step(outcome, after)`.
- `graph_properties.dfy`: `GraphProperties`, the lemmas about those transitions.
- `graph.dfy`: `Lab4.Graph`, the class with its loops.
- `graph_scenarios.dfy`: `GraphScenarios`, the unit tests of `GraphTest.cs` and the surprising
  behaviours below, written as runs of the class on `Graph<int, string>`.

Where the code behaves differently from what its interface suggests, the model follows the code:

- `AddEdge` never deduplicates. A second edge between the same pair adds a second record.
  `ContainsEdge`, `GetEdgeProperty`, `SetEdgeProperty` and `==` only look at the first record.
  `RemoveEdge` removes all of them.
- `RemoveVertex` does not remove every edge into the removed vertex. It only prunes the lists
  of the vertex's own out-neighbours, so an edge `u -> v` stays when `v` has no edge back to
  `u` (`RemoveVertexLeavesInEdges`).
- `RemoveVertex` also keeps the removed vertex's `vertexProperties` entry.
  `GetVertexProperty` and `SetVertexProperty` check that dictionary, so both still succeed on
  the removed key.
- `RemoveVertex` is not atomic. Its loop indexes `adjacencyList[edge.TargetVertex]`, which throws
  `KeyNotFoundException` when the target was already removed (a dangling edge). With a
  self-loop, `RemoveAll` changes the list being enumerated, so the enumeration throws at its next
  step. In both cases the pruning already done stays and the vertex stays
  (`RemoveVertexIsNotAtomic`).
- `Clone` copies only the properties of present vertices. It throws on a dangling edge, because
  it re-adds every edge through `AddEdge`.
- `==` is false when both sides are the same object. It only checks the left graph's contents
  against the right one, so it is not symmetric (`EqualIsNotSymmetric`). A graph is `==` to its
  clone exactly when no list holds two records to one target with different properties
  (`CloneEqualIffConsistent`, `DuplicateEdgesBreakCloneEquality`).

Exceptions are modelled as outcomes: `DuplicateKey`, `UnknownVertex` and `EdgeNotFound` stand
for the `ArgumentException`s of the code. `MissingTargetKey` is the `KeyNotFoundException` of
the dictionary indexer. `CollectionModified` is the `InvalidOperationException` thrown by a
`List` enumerator after its list changed. A state-changing method that throws midway leaves
whatever it had already written, and the transition's `after` state says what that is.

## Model

| member | source | states |
|---|---|---|
| EdgeLists.HasTarget | Graph.cs:101 | `List.Exists` with the target test: true exactly when some record of the list points at the target, which needs a non-empty list |
| EdgeLists.FirstMatch | Graph.cs:123 | `Find` succeeds exactly when some record goes to the target, and then returns the position of the first such record |
| EdgeLists.CountTo | Graph.cs:90 | the number of records to a target is at most the list length, and zero exactly when no record goes there |
| EdgeLists.RemoveAllTo | Graph.cs:90 | `RemoveAll` leaves no record to the target, keeps the others in order (a subsequence), and shortens the list by the number of records it matched |
| EdgeLists.SubsequenceMembers | Graph.cs:90 | every record of a subsequence is a record of the original list |
| EdgeLists.RemoveAllToAbsent | Graph.cs:82 | `RemoveAll` on a list with no record to the target leaves the list unchanged |
| EdgeLists.RemoveAllToKeepsOthers | Graph.cs:90 | removing the records to one target keeps every other target, and the first record to each other target is unchanged |
| EdgeLists.FirstMatchAfterAppend | Graph.cs:73 | after `Add` the first record to a target is the old first record if there was one, otherwise the appended record when it goes there |
| GraphModel.EmptyGraph | Graph.cs:37-41 | a new graph is valid and edge-closed, has no vertices and has `EdgeCount` 0 |
| GraphModel.VertexCount | Graph.cs:43-46 | the `Count` of the first dictionary: zero exactly when that dictionary is empty |
| GraphModel.ContainsVertex | Graph.cs:94-97 | `ContainsKey` on the first dictionary: in a valid graph, true exactly for the keys the enumeration yields, and every such key has a property entry |
| GraphModel.ContainsEdge | Graph.cs:99-102 | true exactly when the source is a vertex and `Find` finds a record to the target in its list; then the source's degree is at least 1 |
| GraphModel.IsEmpty | Graph.cs:160-163 | `Empty()` is true exactly when the vertex count is zero, and in a valid graph exactly when the enumeration yields no key |
| GraphModel.GetVertexDegree | Graph.cs:104-109 | succeeds exactly when the vertex is present and fails with `UnknownVertex` otherwise |
| GraphModel.GetVertexProperty | Graph.cs:111-116 | succeeds exactly when the key has a `vertexProperties` entry and fails with `UnknownVertex` otherwise |
| GraphModel.GetEdgeProperty | Graph.cs:118-129 | succeeds exactly when `ContainsEdge` holds. It fails with `UnknownVertex` for a missing source and with `EdgeNotFound` for a missing edge. On success it returns the property of the first record to the target |
| GraphModel.Without | Graph.cs:83 | removing a key from the key order keeps exactly the other keys, and they stay duplicate-free |
| GraphModel.CompareTo | Graph.cs:268-271 | `Int32.CompareTo` of the vertex counts: -1, 0 or 1, with its sign following the order of the counts |
| GraphModel.Greater | Graph.cs:273-276 | operator `>` holds exactly when the left graph has more vertices |
| GraphModel.Less | Graph.cs:277-280 | operator `<` holds exactly when the left graph has fewer vertices |
| GraphModel.AtLeast | Graph.cs:282-285 | operator `>=` holds exactly when the left graph has at least as many vertices |
| GraphModel.AtMost | Graph.cs:287-290 | operator `<=` holds exactly when the left graph has at most as many vertices |
| GraphProperties.VertexCountIsKeyCount | Graph.cs:43-46 | in a valid graph the dictionary's keys are exactly the keys of the enumeration order, and `VertexCount` is the number of keys that order yields |
| GraphProperties.ElementsSize | Graph.cs:43-46 | a key order without repeats holds as many distinct keys as its length |
| GraphProperties.EdgeCountIsSumOfAllLists | Graph.cs:48-59 | `EdgeCount` is the sum of the lengths of all lists, in whatever order the keys are enumerated |
| GraphProperties.SumLengthsIsSumOver | Graph.cs:53-56 | the in-order sum over a duplicate-free key order is the sum over its key set |
| GraphProperties.SumOverRemove | Graph.cs:53-56 | the sum over a key set may take any of its keys first |
| GraphProperties.SumLengthsUpdate | Graph.cs:53-56 | replacing one list changes the in-order sum by the difference of the two lengths |
| GraphProperties.AddVertexSpec | Graph.cs:61-67 | succeeds exactly on a new key. A duplicate key fails with `DuplicateKey` and changes nothing. On success the vertex is present with its property, degree 0 and last place in the key order; no other property entry changes (those of removed vertices included); the vertex count grows by one, `EdgeCount` is unchanged, every other list is untouched, and the graph stays valid |
| GraphProperties.AddVertexQueries | Graph.cs:61-67 | after adding a new key it is present with its property and degree 0, last in the key order, with the vertex count one larger, the other lists untouched and only its own property entry written |
| GraphProperties.AddVertexKeepsValid | Graph.cs:61-67 | adding a new key keeps the graph valid |
| GraphProperties.AddVertexKeepsEdgeCount | Graph.cs:61-67 | adding a new key leaves `EdgeCount` unchanged |
| GraphProperties.AddEdgeSpec | Graph.cs:69-74 | succeeds exactly when both endpoints are present; otherwise it fails with `UnknownVertex` and changes nothing. On success the record is appended to the source's list, the edge is contained, the degree and `EdgeCount` grow by one, and the first-match property is the old one if the edge existed before. Everything else is unchanged |
| GraphProperties.RemoveEdgeSpec | Graph.cs:86-91 | succeeds exactly when both endpoints are present; otherwise it fails with `UnknownVertex` and changes nothing. On success every record to the target is gone from the source's list and `EdgeCount` drops by their number. Containment and first-match properties of other targets, the other lists and the properties are unchanged |
| GraphProperties.PruneBackSpec | Graph.cs:81-82 | the loop of `RemoveVertex` keeps the key set. It runs to the end exactly when every target is a key other than the vertex, and otherwise stops with `MissingTargetKey` or `CollectionModified`. Each list is left alone or loses its records to the vertex; after a full run exactly the out-neighbours' lists are pruned |
| GraphProperties.PruneBackOutcome | Graph.cs:81-82 | the loop keeps the key set and completes exactly when every target is a present key other than the vertex; otherwise it stops with one of the two errors |
| GraphProperties.PruneBackLists | Graph.cs:81-82 | each list is either untouched or pruned of its records to the vertex; after a full run exactly the out-neighbours' lists are pruned |
| GraphProperties.PruneBackFirst | Graph.cs:81-82 | one step of that loop: a missing target stops it, a self-loop prunes and stops it, and any other target prunes and goes on |
| GraphProperties.RemoveVertexOutcome | Graph.cs:76-84 | succeeds exactly when the vertex is present and none of its edges is a self-loop or dangling. A missing vertex fails with `UnknownVertex` and changes nothing. Any later failure leaves the vertex, the key order and the properties in place and the graph valid, with each list untouched or pruned of its edges to the vertex |
| GraphProperties.RemoveVertexSpec | Graph.cs:76-84 | on success the vertex is gone, the count drops by one, and the graph stays valid. Exactly the lists of its out-neighbours lose their edges back to it. Its property entry stays, so `GetVertexProperty` and `SetVertexProperty` still succeed on it |
| GraphProperties.RemoveVertexLeavesInEdges | Graph.cs:81-83 | an edge `u -> v` from a vertex `v` does not point at survives removal of `v`, dangling, after which `Clone` fails |
| GraphProperties.RemoveVertexIsNotAtomic | Graph.cs:81-83 | on a concrete graph with a self-loop, removal fails with `CollectionModified` after pruning one list, and the vertex is still present |
| GraphProperties.SetVertexPropertySpec | Graph.cs:131-139 | succeeds exactly when the key has a property entry; otherwise it fails with `UnknownVertex` and changes nothing. On success only that entry changes |
| GraphProperties.SetEdgePropertySpec | Graph.cs:141-152 | succeeds exactly when `ContainsEdge` holds, failing with `UnknownVertex` or `EdgeNotFound` and changing nothing otherwise. On success only the first matching record's property changes, and the new first-match property is the new value. Targets, lengths and `EdgeCount` are unchanged |
| GraphProperties.EdgesClosedPreserved | Graph.cs:61-152 | adding a vertex or an edge, removing an edge, and setting properties never create a dangling edge |
| GraphProperties.NotInPrefix | Graph.cs:169-172 | in a duplicate-free key order no key occurs before its own position |
| GraphProperties.VerticesOfStep | Graph.cs:169-172 | each `AddVertex` of the first loop of `Clone` succeeds and extends the copy by that key and its property |
| GraphProperties.EmptyListsExtend | Graph.cs:171 | adding a key to the copy gives it an empty list |
| GraphProperties.PropertiesExtend | Graph.cs:171 | adding a key to the copy gives it the original's property |
| GraphProperties.VerticesOfAll | Graph.cs:169-172 | after the first loop the copy has all vertices, each with the original's property |
| GraphProperties.CopyEdgeStep | Graph.cs:176-179 | each `AddEdge` of the second loop extends the copied list by one record, and fails exactly when the target is not a vertex |
| GraphProperties.ListsOfStep | Graph.cs:174-180 | copying one more list extends the copied part of the adjacency by that list |
| GraphProperties.ListsOfBounds | Graph.cs:167-180 | before the second loop no list is copied, and after it every list is |
| GraphProperties.ListsClosedStep | Graph.cs:174-180 | the checked lists stay edge-closed when the next one is |
| GraphProperties.ListsClosedAll | Graph.cs:174-180 | checking every list in key order is checking that the graph is edge-closed |
| GraphProperties.CloneSpec | Graph.cs:165-183 | succeeds exactly on an edge-closed graph and fails with `UnknownVertex` otherwise. The copy is valid and edge-closed, with the same lists, key order, vertex and edge counts, and the properties of the present vertices |
| GraphProperties.EqualSameContents | Graph.cs:200-226 | between two graphs with the same lists and properties, `==` holds exactly when no list has two records to one target with different properties |
| GraphProperties.CloneEqualIffConsistent | Graph.cs:165-226 | a graph is `==` to its clone exactly when it is first-match consistent |
| GraphProperties.DistinctTargetsConsistent | Graph.cs:200-226 | a graph whose lists never repeat a target is first-match consistent |
| GraphProperties.DuplicateEdgesBreakCloneEquality | Graph.cs:165-226 | on a concrete graph with two records `1 -> 2` carrying different properties, the clone succeeds but is not `==` to the original |
| GraphProperties.EqualSameVertexSet | Graph.cs:200-213 | two graphs that are `==` have the same vertex set and compare as equal in size |
| GraphProperties.EqualIgnoresExtraRightEdges | Graph.cs:215-222 | adding an edge to the right-hand graph keeps `==` true |
| GraphProperties.EqualIsNotSymmetric | Graph.cs:200-226 | two concrete graphs where `l == r` holds but `r == l` does not |
| GraphProperties.SubsetSize | Graph.cs:204 | a subset is no larger than its superset, which is what lets equal vertex counts turn key inclusion into set equality |
| GraphProperties.SampleIsValid | Graph.cs:34-35 | a two-vertex graph whose edges only point at its vertices is valid and edge-closed |
| GraphProperties.OrderIsBySize | Graph.cs:268-290 | `>` and `<` are converse, `>=` is `!<`, `<=` is `!>`, and `>=` together with `<=` means the vertex counts are equal |
| GraphProperties.EqualImpliesSameOrder | Graph.cs:200-290 | two graphs that are `==` are neither `>` nor `<` each other, and both `>=` and `<=` hold |
| Lab4.Graph.constructor | Graph.cs:37-41 | a new graph is valid and empty |
| Lab4.Graph.EdgeCount | Graph.cs:48-59 | the loop's total equals the model's `EdgeCount`, the sum of the lengths of all lists |
| Lab4.Graph.AddVertex | Graph.cs:61-67 | keeps the graph valid; outcome and new state are those of `GraphModel.AddVertex` |
| Lab4.Graph.AddEdge | Graph.cs:69-74 | keeps the graph valid; outcome and new state are those of `GraphModel.AddEdge` |
| Lab4.Graph.RemoveVertex | Graph.cs:76-84 | the loop over the vertex's list keeps the graph valid, and its outcome and state, partial pruning included, are those of `GraphModel.RemoveVertex` |
| Lab4.Graph.RemoveEdge | Graph.cs:86-91 | keeps the graph valid; outcome and new state are those of `GraphModel.RemoveEdge` |
| Lab4.Graph.SetVertexProperty | Graph.cs:131-139 | keeps the graph valid; outcome and new state are those of `GraphModel.SetVertexProperty` |
| Lab4.Graph.SetEdgeProperty | Graph.cs:141-152 | keeps the graph valid; outcome and new state are those of `GraphModel.SetEdgeProperty` |
| Lab4.Graph.Clear | Graph.cs:154-158 | the graph is valid and empty again |
| Lab4.Graph.Clone | Graph.cs:165-183 | succeeds exactly on an edge-closed graph and fails with `UnknownVertex` otherwise. On success it returns a fresh valid graph whose state is `Cloned` of this one |
| Lab4.Graph.CopyVertices | Graph.cs:167-172 | the first loop of `Clone` builds a fresh valid graph with every key, in order, with its property and an empty list |
| Lab4.Graph.CopyEdges | Graph.cs:176-179 | the inner loop of `Clone` copies a list into the copy and succeeds exactly when every target of that list is a vertex |
| Lab4.Graph.Equal | Graph.cs:200-226 | operator `==` is true exactly when the operands are two distinct non-null graphs and `GraphModel.Equal` holds: equal vertex counts, and each left key, property and edge found in the right graph with the same first-match property |
| Lab4.Graph.NotEqual | Graph.cs:264-267 | operator `!=` is the negation of `==`, null and same-object cases included |
| Lab4.Graph.Reverse | Graph.cs:298-305 | yields the keys in reverse enumeration order, as many as there are keys, and exactly the present vertices |
| GraphScenarios.AddVertexScenario | GraphTest.cs:9-15 | after `AddVertex(1, "A")` the vertex is present, and adding key 1 again fails with `DuplicateKey` |
| GraphScenarios.AddEdgeScenario | GraphTest.cs:18-25 | after the edge `1 -> 2` it is contained. `EdgeCount` is 1, the degrees are 1 and 0, and adding the same edge again makes `EdgeCount` 2 |
| GraphScenarios.AddEdgeToMissingVertex | Graph.cs:69-74 | an edge to a missing vertex fails with `UnknownVertex` and `EdgeCount` stays 1 |
| GraphScenarios.RemoveVertexScenario | GraphTest.cs:29-35 | after removal the vertex is gone, but its property still reads `"A"` and can still be set |
| GraphScenarios.RemoveTargetScenario | Graph.cs:76-84 | removing the target of `1 -> 2` succeeds, the edge dangles, and `Clone` then fails |
| GraphScenarios.RemoveEdgeScenario | GraphTest.cs:39-47 | after `RemoveEdge(1, 2)` the edge is gone and `EdgeCount` is 0 |
| GraphScenarios.PropertiesScenario | GraphTest.cs:64-84 | the vertex property is `"A"` and the edge property `"Edge1"`; after `SetEdgeProperty` the edge property is `"Edge2"`, and setting a missing edge fails with `EdgeNotFound` |
| GraphScenarios.CloneScenario | GraphTest.cs:88-97 | the clone succeeds and is `==` to the original, the graph is not `==` to itself, and adding a vertex to the clone leaves the original with 2 vertices |
| GraphScenarios.ReverseAndClearScenario | Graph.cs:154-158 | `Reverse` yields `[2, 1]`, and after `Clear` the graph is empty |

## Left out

- `GetHashCode` (Graph.cs:237-262) and `ToString` (Graph.cs:185-198): they only produce a hash and a text, and neither is used by the other operations.
- `Equals(object)` (Graph.cs:228-235): for a graph argument it is operator `==`, which is modelled; the case of an argument of another type is not.
- `GetEnumerator` and the non-generic `IEnumerable` plumbing: enumeration is the `keys` field itself. `Reverse` is modelled as a method that takes the snapshot of the keys when it is called and returns the whole reversed sequence at once. In the code it is a lazy `yield` iterator: the `ToList()` snapshot is taken at the first `MoveNext`, not at the call, so a change to the graph between the call and the first step is seen, and every new enumeration of the result takes a fresh snapshot.
- The key order of `Dictionary`: the model assumes insertion order with removed keys deleted. .NET reuses freed slots after a removal, so a later `AddVertex` can appear earlier in the enumeration. `Reverse`, the loop of `EdgeCount`, the loops of `Clone` and the loop of `==` walk the order. `EdgeCount`'s total, the contents of `Clone`'s copy and the result of `==` do not depend on it; the copy enumerates its keys in the original's order, so its `Reverse` does.
- `Lab4.Graph.EdgeCount`: does not model the 32-bit `int` of `count` and `EdgeCount`, because the counts are unbounded in the model and an overflow would need more than two billion edges.
- `GraphModel.CompareTo`: null operands of `<`, `>`, `<=`, `>=` throw `NullReferenceException` in `CompareTo`; the model's ordering functions take two graphs and do not model null.
- Null keys: when `TVertex` is a reference type, every `Dictionary` call the operations make first (`ContainsKey` or the indexer, Graph.cs:63-143) throws `ArgumentNullException` on a null key, so even `ContainsVertex(null)` throws. The model has no null key: every `K` value is an ordinary key, and there is no error outcome for null.
- The text of the exception messages; each exception is one `Error` value.
- Reference identity of `Edge` objects and of property values: edges are values, because the code never shares an `Edge` object between lists (`AddEdge` allocates a new one, and `Clone` re-adds through `AddEdge`). `Clone` copies property references, so a mutable `TProperty` would be shared between the graph and its copy; the model treats properties as values.
- `GraphProperty<TProperty>` (Graph.cs:314-328): it is not used by the graph.
- The partly built graph of a failed `Clone` is dropped by the code and not returned by the model.
