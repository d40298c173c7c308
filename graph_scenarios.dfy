/** The unit tests of GraphTest.cs, and the behaviours of Graph.cs that differ from what a
    reader of its interface would expect, as runs of the class on Graph<int, string>. */
module GraphScenarios {
  import opened Outcomes
  import opened EdgeLists
  import opened GraphModel
  import GraphProperties
  import opened Lab4

  /** A graph with vertices 1 ("A") and 2 ("B") and the edge 1 -> 2 ("Edge1"): the
      set-up shared by most tests. */
  method TwoVerticesOneEdge() returns (graph: Graph<int, string>)
    ensures fresh(graph) && graph.Valid()
    ensures graph.Model() == State(map[1 := [Edge(2, "Edge1")], 2 := []], map[1 := "A", 2 := "B"], [1, 2])
  {
    graph := new Graph();
    SetUpSteps();
    var a := graph.AddVertex(1, "A");
    var b := graph.AddVertex(2, "B");
    var e := graph.AddEdge(1, 2, "Edge1");
  }

  /** The three transitions of the shared set-up. */
  lemma SetUpSteps()
    ensures GraphModel.AddVertex(EmptyGraph<int, string>(), 1, "A")
      == Step(Pass, State(map[1 := []], map[1 := "A"], [1]))
    ensures GraphModel.AddVertex(State(map[1 := []], map[1 := "A"], [1]), 2, "B")
      == Step(Pass, State(map[1 := [], 2 := []], map[1 := "A", 2 := "B"], [1, 2]))
    ensures GraphModel.AddEdge(State(map[1 := [], 2 := []], map[1 := "A", 2 := "B"], [1, 2]), 1, 2, "Edge1")
      == Step(Pass, State(map[1 := [Edge(2, "Edge1")], 2 := []], map[1 := "A", 2 := "B"], [1, 2]))
  {
    var none: seq<Edge<int, string>> := [];
    assert none + [Edge(2, "Edge1")] == [Edge(2, "Edge1")];
  }

  /** The EdgeCount of a graph whose key order is 1, 2. */
  lemma EdgeCountOfTwo(g: State<int, string>)
    requires g.keys == [1, 2] && 1 in g.adjacency && 2 in g.adjacency
    ensures EdgeCount(g) == |g.adjacency[1]| + |g.adjacency[2]|
  {
    assert [1, 2][..1] == [1];
    assert [1][..0] == [];
    assert SumLengths(g.adjacency, [1]) == |g.adjacency[1]|;
  }

  /** TestAddVertex. */
  method AddVertexScenario() returns (contains: bool, again: Outcome)
    ensures contains
    ensures again == Fail(DuplicateKey)
  {
    var graph := new Graph<int, string>();
    var _ := graph.AddVertex(1, "A");
    contains := ContainsVertex(graph.Model(), 1);
    again := graph.AddVertex(1, "B");
  }

  /** TestAddEdge and TestVertexDegree: the edge is there, it counts for the source's
      degree, not for the target's, and a second identical AddEdge adds a second record. */
  method AddEdgeScenario() returns (contains: bool, count: nat, degree1: Result<nat>, degree2: Result<nat>, twice: nat)
    ensures contains && count == 1
    ensures degree1 == Ok(1) && degree2 == Ok(0)
    ensures twice == 2
  {
    var graph := TwoVerticesOneEdge();
    assert graph.adjacency[1][0].target == 2;
    contains := ContainsEdge(graph.Model(), 1, 2);
    count := graph.EdgeCount();
    EdgeCountOfTwo(graph.Model());
    degree1 := GetVertexDegree(graph.Model(), 1);
    degree2 := GetVertexDegree(graph.Model(), 2);
    var _ := graph.AddEdge(1, 2, "Edge1");
    twice := graph.EdgeCount();
    EdgeCountOfTwo(graph.Model());
  }

  /** AddEdge to a vertex that is not there fails and changes nothing. */
  method AddEdgeToMissingVertex() returns (outcome: Outcome, count: nat)
    ensures outcome == Fail(UnknownVertex)
    ensures count == 1
  {
    var graph := TwoVerticesOneEdge();
    outcome := graph.AddEdge(1, 3, "Edge2");
    count := graph.EdgeCount();
    EdgeCountOfTwo(graph.Model());
  }

  /** TestRemoveVertex: the vertex is gone, yet its property can still be read and set. */
  method RemoveVertexScenario() returns (outcome: Outcome, contains: bool, property: Result<string>, setAgain: Outcome)
    ensures outcome == Pass && !contains
    ensures property == Ok("A")
    ensures setAgain == Pass
  {
    var graph := new Graph<int, string>();
    var _ := graph.AddVertex(1, "A");
    outcome := graph.RemoveVertex(1);
    contains := ContainsVertex(graph.Model(), 1);
    property := GetVertexProperty(graph.Model(), 1);
    setAgain := graph.SetVertexProperty(1, "Z");
  }

  /** Removing the target of an edge leaves the edge dangling in its source's list, and
      Clone then fails on it. */
  method RemoveTargetScenario() returns (outcome: Outcome, dangling: bool, cloned: bool)
    ensures outcome == Pass
    ensures dangling
    ensures !cloned
  {
    var graph := TwoVerticesOneEdge();
    outcome := graph.RemoveVertex(2);
    assert graph.adjacency[1][0].target == 2;
    dangling := ContainsEdge(graph.Model(), 1, 2);
    var copy := graph.Clone();
    cloned := copy.Ok?;
  }

  /** TestRemoveEdge. */
  method RemoveEdgeScenario() returns (outcome: Outcome, contains: bool, count: nat)
    ensures outcome == Pass && !contains && count == 0
  {
    var graph := TwoVerticesOneEdge();
    outcome := graph.RemoveEdge(1, 2);
    contains := ContainsEdge(graph.Model(), 1, 2);
    count := graph.EdgeCount();
    EdgeCountOfTwo(graph.Model());
  }

  /** TestVertexProperty and TestEdgeProperty, then SetEdgeProperty. */
  method PropertiesScenario() returns (vertex: Result<string>, edge: Result<string>, updated: Result<string>, missing: Outcome)
    ensures vertex == Ok("A") && edge == Ok("Edge1")
    ensures updated == Ok("Edge2")
    ensures missing == Fail(EdgeNotFound)
  {
    var graph := TwoVerticesOneEdge();
    vertex := GetVertexProperty(graph.Model(), 1);
    edge := GetEdgeProperty(graph.Model(), 1, 2);
    var _ := graph.SetEdgeProperty(1, 2, "Edge2");
    updated := GetEdgeProperty(graph.Model(), 1, 2);
    missing := graph.SetEdgeProperty(2, 1, "Edge3");
  }

  /** TestGraphClone: operator == holds between the graph and its copy, but not between
      the graph and itself; adding a vertex to the copy leaves the original as it was. */
  method CloneScenario() returns (cloned: bool, equal: bool, self: bool, originalCount: nat)
    ensures cloned && equal && !self
    ensures originalCount == 2
  {
    var graph := TwoVerticesOneEdge();
    var copy := graph.Clone();
    cloned := copy.Ok?;
    if copy.Ok? {
      GraphProperties.DistinctTargetsConsistent(graph.Model());
      GraphProperties.CloneEqualIffConsistent(graph.Model());
      equal := Graph.Equal(graph, copy.value);
      var _ := copy.value.AddVertex(3, "C");
    }
    self := Graph.Equal(graph, graph);
    originalCount := VertexCount(graph.Model());
  }

  /** Reverse hands out the keys last-added first; Clear empties the graph. */
  method ReverseAndClearScenario() returns (reversed: seq<int>, empty: bool)
    ensures reversed == [2, 1]
    ensures empty
  {
    var graph := TwoVerticesOneEdge();
    reversed := graph.Reverse();
    graph.Clear();
    empty := IsEmpty(graph.Model());
  }
}
