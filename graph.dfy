/** The Graph<TVertex, TProperty> class of Graph.cs: its two dictionaries (and the
    order the first enumerates its keys in) are fields that the methods update in place.
    Each method is proved against the transition of GraphModel it implements; the read-only
    queries are the functions of GraphModel applied to Model(). */
module Lab4 {
  import opened Outcomes
  import opened EdgeLists
  import opened GraphModel
  import GraphProperties

  class Graph<K(==), P(==)> {
    var adjacency: map<K, seq<Edge<K, P>>>
    var vertexProperties: map<K, P>
    var keys: seq<K>

    /** The state of this graph as a value. */
    function Model(): State<K, P>
      reads this
    {
      State(adjacency, vertexProperties, keys)
    }

    ghost predicate Valid()
      reads this
    {
      GraphModel.Valid(Model())
    }

    constructor ()
      ensures Valid()
      ensures Model() == EmptyGraph()
    {
      adjacency := map[];
      vertexProperties := map[];
      keys := [];
    }

    /** The EdgeCount property: the loop over all lists, adding up their lengths. */
    method EdgeCount() returns (count: nat)
      requires Valid()
      ensures count == GraphModel.EdgeCount(Model())
      ensures count == SumOver(adjacency, adjacency.Keys)
    {
      count := 0;
      for i := 0 to |keys|
        invariant count == SumLengths(adjacency, keys[..i])
      {
        assert keys[..i + 1][..i] == keys[..i];
        count := count + |adjacency[keys[i]]|;
      }
      assert keys[..|keys|] == keys;
      GraphProperties.EdgeCountIsSumOfAllLists(Model());
    }

    method AddVertex(vertex: K, property: P) returns (outcome: Outcome)
      requires Valid()
      modifies this
      ensures Valid()
      ensures Step(outcome, Model()) == GraphModel.AddVertex(old(Model()), vertex, property)
    {
      if vertex in adjacency {
        return Fail(DuplicateKey);
      }
      GraphProperties.AddVertexSpec(Model(), vertex, property);
      adjacency := adjacency[vertex := []];
      vertexProperties := vertexProperties[vertex := property];
      keys := keys + [vertex];
      outcome := Pass;
    }

    method AddEdge(source: K, target: K, property: P) returns (outcome: Outcome)
      requires Valid()
      modifies this
      ensures Valid()
      ensures Step(outcome, Model()) == GraphModel.AddEdge(old(Model()), source, target, property)
    {
      if source !in adjacency || target !in adjacency {
        return Fail(UnknownVertex);
      }
      GraphProperties.AddEdgeSpec(Model(), source, target, property);
      adjacency := adjacency[source := adjacency[source] + [Edge(target, property)]];
      outcome := Pass;
    }

    /** Enumerates v's list and prunes each target's list of its edges back to v, then
        drops v's own entry. A missing target throws at the indexer; a self-loop prunes
        the list being enumerated, so the enumeration throws at its next step. */
    method RemoveVertex(vertex: K) returns (outcome: Outcome)
      requires Valid()
      modifies this
      ensures Valid()
      ensures Step(outcome, Model()) == GraphModel.RemoveVertex(old(Model()), vertex)
    {
      ghost var g := Model();
      GraphProperties.RemoveVertexOutcome(g, vertex);
      if vertex !in adjacency {
        return Fail(UnknownVertex);
      }
      var edges := adjacency[vertex];
      var i := 0;
      while i < |edges|
        invariant 0 <= i <= |edges|
        invariant Model() == g.(adjacency := adjacency)
        invariant PruneBack(adjacency, vertex, edges[i..]) == PruneBack(g.adjacency, vertex, edges)
      {
        GraphProperties.PruneBackFirst(adjacency, vertex, edges, i);
        var target := edges[i].target;
        if target !in adjacency {
          return Fail(MissingTargetKey);
        }
        adjacency := adjacency[target := RemoveAllTo(adjacency[target], vertex)];
        if target == vertex {
          return Fail(CollectionModified);
        }
        i := i + 1;
      }
      assert edges[i..] == [];
      GraphProperties.RemoveVertexSpec(g, vertex, vertexProperties[vertex]);
      adjacency := adjacency - {vertex};
      keys := Without(keys, vertex);
      outcome := Pass;
    }

    method RemoveEdge(source: K, target: K) returns (outcome: Outcome)
      requires Valid()
      modifies this
      ensures Valid()
      ensures Step(outcome, Model()) == GraphModel.RemoveEdge(old(Model()), source, target)
    {
      if source !in adjacency || target !in adjacency {
        return Fail(UnknownVertex);
      }
      GraphProperties.RemoveEdgeSpec(Model(), source, target);
      adjacency := adjacency[source := RemoveAllTo(adjacency[source], target)];
      outcome := Pass;
    }

    method SetVertexProperty(vertex: K, newProperty: P) returns (outcome: Outcome)
      requires Valid()
      modifies this
      ensures Valid()
      ensures Step(outcome, Model()) == GraphModel.SetVertexProperty(old(Model()), vertex, newProperty)
    {
      if vertex !in vertexProperties {
        return Fail(UnknownVertex);
      }
      vertexProperties := vertexProperties[vertex := newProperty];
      outcome := Pass;
    }

    /** Finds the first record to the target and sets its property. */
    method SetEdgeProperty(source: K, target: K, newProperty: P) returns (outcome: Outcome)
      requires Valid()
      modifies this
      ensures Valid()
      ensures Step(outcome, Model()) == GraphModel.SetEdgeProperty(old(Model()), source, target, newProperty)
    {
      if source !in adjacency {
        return Fail(UnknownVertex);
      }
      var edges := adjacency[source];
      var found := FirstMatch(edges, target);
      if found.None? {
        return Fail(EdgeNotFound);
      }
      var i := found.value;
      adjacency := adjacency[source := edges[i := edges[i].(property := newProperty)]];
      outcome := Pass;
    }

    method Clear()
      modifies this
      ensures Valid()
      ensures Model() == EmptyGraph()
    {
      adjacency := map[];
      vertexProperties := map[];
      keys := [];
    }

    /** A new graph built by AddVertex for every key, in enumeration order, and then by
        AddEdge for every edge of every list; the first AddEdge whose target is not a
        vertex throws, and the partly built graph is dropped. */
    method Clone() returns (result: Result<Graph<K, P>>)
      requires Valid()
      ensures result.Ok? <==> EdgesClosed(Model())
      ensures result.Err? ==> result.error == UnknownVertex
      ensures result.Ok? ==> fresh(result.value) && result.value.Valid() && Cloned(Model()) == Ok(result.value.Model())
    {
      var newGraph := CopyVertices();
      GraphProperties.ListsOfBounds(Model());
      ghost var properties := newGraph.vertexProperties;
      for i := 0 to |keys|
        invariant fresh(newGraph) && newGraph.Valid()
        invariant newGraph.keys == keys && newGraph.vertexProperties == properties
        invariant newGraph.adjacency == ListsOf(Model(), keys[..i])
        invariant ListsClosed(Model(), keys[..i])
      {
        var outcome := CopyEdges(newGraph, keys[i]);
        if outcome.Fail? {
          return Err(UnknownVertex);
        }
        GraphProperties.ListsOfStep(Model(), i);
        GraphProperties.ListsClosedStep(Model(), i);
      }
      assert keys[..|keys|] == keys;
      GraphProperties.ListsClosedAll(Model());
      GraphProperties.VerticesOfAll(Model());
      return Ok(newGraph);
    }

    /** The first loop of Clone: a new graph with every vertex and its property, added
        by AddVertex in enumeration order, and no edges. */
    method CopyVertices() returns (copy: Graph<K, P>)
      requires Valid()
      ensures fresh(copy) && copy.Valid()
      ensures copy.Model() == VerticesOf(Model(), keys)
    {
      ghost var g := Model();
      var order, properties := keys, vertexProperties;
      copy := new Graph();
      assert order[..0] == [];
      for i := 0 to |order|
        invariant fresh(copy) && copy.Valid()
        invariant copy.Model() == VerticesOf(g, order[..i])
      {
        GraphProperties.VerticesOfStep(g, i);
        var outcome := copy.AddVertex(order[i], properties[order[i]]);
      }
      assert order[..|order|] == order;
    }

    /** The inner loop of Clone: AddEdge on the copy for each edge of source's list. */
    method CopyEdges(copy: Graph<K, P>, source: K) returns (outcome: Outcome)
      requires Valid() && copy.Valid() && copy != this
      requires source in adjacency
      requires copy.keys == keys && copy.adjacency.Keys == adjacency.Keys && copy.adjacency[source] == []
      modifies copy
      ensures copy.Valid()
      ensures copy.keys == keys && copy.vertexProperties == old(copy.vertexProperties)
      ensures outcome == Pass <==> forall m :: 0 <= m < |adjacency[source]| ==> adjacency[source][m].target in adjacency
      ensures outcome == Pass ==> copy.adjacency == old(copy.adjacency)[source := adjacency[source]]
    {
      var edges := adjacency[source];
      ghost var start := copy.Model();
      assert start.adjacency[source := edges[..0]] == start.adjacency;
      for m := 0 to |edges|
        invariant copy.Valid()
        invariant copy.Model() == start.(adjacency := start.adjacency[source := edges[..m]])
        invariant forall q :: 0 <= q < m ==> edges[q].target in start.adjacency
      {
        GraphProperties.CopyEdgeStep(start, source, edges, m);
        outcome := copy.AddEdge(source, edges[m].target, edges[m].property);
        if outcome.Fail? {
          return;
        }
      }
      assert edges[..|edges|] == edges;
      outcome := Pass;
    }

    /** operator ==: false for the same reference or a null operand; otherwise Equal of
        the two states, checked by walking the left graph's keys and lists. */
    static method Equal(left: Graph?<K, P>, right: Graph?<K, P>) returns (equal: bool)
      requires left != null ==> left.Valid()
      requires right != null ==> right.Valid()
      ensures equal <==> left != right && left != null && right != null && GraphModel.Equal(left.Model(), right.Model())
    {
      if left == right || left == null || right == null || |left.adjacency| != |right.adjacency| {
        return false;
      }
      var l, r := left.Model(), right.Model();
      for i := 0 to |l.keys|
        invariant forall j :: 0 <= j < i ==> VertexMatches(l, r, l.keys[j])
      {
        var k := l.keys[i];
        if !ContainsVertex(r, k) {
          return false;
        }
        if GetVertexProperty(r, k) != Ok(l.vertexProperties[k]) {
          return false;
        }
        var edges := l.adjacency[k];
        for m := 0 to |edges|
          invariant forall q :: 0 <= q < m ==> EdgeMatches(r, k, edges[q])
        {
          if !ContainsEdge(r, k, edges[m].target) {
            return false;
          }
          if GetEdgeProperty(r, k, edges[m].target) != Ok(edges[m].property) {
            return false;
          }
        }
      }
      return true;
    }

    /** operator !=. */
    static method NotEqual(left: Graph?<K, P>, right: Graph?<K, P>) returns (notEqual: bool)
      requires left != null ==> left.Valid()
      requires right != null ==> right.Valid()
      ensures notEqual <==> !(left != right && left != null && right != null && GraphModel.Equal(left.Model(), right.Model()))
    {
      var equal := Equal(left, right);
      notEqual := !equal;
    }

    /** Reverse: a snapshot of the keys in enumeration order, handed out back to front. */
    method Reverse() returns (reversed: seq<K>)
      requires Valid()
      ensures |reversed| == |keys|
      ensures forall i :: 0 <= i < |keys| ==> reversed[i] == keys[|keys| - 1 - i]
      ensures forall k :: k in reversed <==> k in adjacency
    {
      var snapshot := keys;
      reversed := [];
      var i := |snapshot| - 1;
      while i >= 0
        invariant -1 <= i < |snapshot|
        invariant |reversed| == |snapshot| - 1 - i
        invariant forall j :: 0 <= j < |reversed| ==> reversed[j] == snapshot[|snapshot| - 1 - j]
      {
        reversed := reversed + [snapshot[i]];
        i := i - 1;
      }
      forall k | k in adjacency ensures k in reversed {
        var j :| 0 <= j < |keys| && keys[j] == k;
        assert reversed[|keys| - 1 - j] == k;
      }
    }
  }
}
