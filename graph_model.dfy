/** The state of a Graph<TVertex, TProperty> as a value, its queries, and every
    operation of the class as a transition from one state to the next. */
module GraphModel {
  import opened Outcomes
  import opened EdgeLists

  /** The two dictionaries of Graph.cs and the order in which the first one
      enumerates its keys.
      adjacency: vertex -> its outgoing edges, in insertion order (duplicates allowed);
      vertexProperties: vertex -> its property (entries of removed vertices stay);
      keys: the keys of adjacency in enumeration order. */
  datatype State<K, P> = State(
    adjacency: map<K, seq<Edge<K, P>>>,
    vertexProperties: map<K, P>,
    keys: seq<K>)

  /** What an operation signals and the state it leaves behind. */
  datatype Step<K, P> = Step(outcome: Outcome, after: State<K, P>)

  predicate NoDuplicates<K(==)>(s: seq<K>) {
    forall i, j :: 0 <= i < j < |s| ==> s[i] != s[j]
  }

  /** The invariant every operation keeps: the key order lists each vertex once, and
      every vertex has a property entry (AddVertex writes both dictionaries, and no
      operation removes a property entry while the vertex stays). */
  ghost predicate Valid<K, P>(g: State<K, P>) {
    && NoDuplicates(g.keys)
    && (forall k :: k in g.adjacency ==> k in g.keys)
    && (forall i :: 0 <= i < |g.keys| ==> g.keys[i] in g.adjacency)
    && (forall k :: k in g.adjacency ==> k in g.vertexProperties)
  }

  /** Every edge points at a present vertex. AddEdge checks this for the edge it adds;
      RemoveVertex can break it. */
  predicate EdgesClosed<K, P>(g: State<K, P>) {
    forall s, i :: s in g.adjacency && 0 <= i < |g.adjacency[s]| ==> g.adjacency[s][i].target in g.adjacency
  }

  /** The state of a newly constructed graph, and of one after Clear. */
  function EmptyGraph<K, P>(): (g: State<K, P>)
    ensures Valid(g) && EdgesClosed(g)
    ensures IsEmpty(g) && EdgeCount(g) == 0
  {
    State(map[], map[], [])
  }

  // ---------------------------------------------------------------- queries

  /** The Count of the first dictionary. */
  function VertexCount<K, P>(g: State<K, P>): (n: nat)
    ensures n == 0 <==> g.adjacency == map[]
  {
    |g.adjacency|
  }

  /** The length of k's list, 0 for a key that has none. */
  function Length<K, P>(adjacency: map<K, seq<Edge<K, P>>>, k: K): nat {
    if k in adjacency then |adjacency[k]| else 0
  }

  /** The sum of the list lengths of the given keys, taken in order (the loop of the
      EdgeCount property). */
  function SumLengths<K, P>(adjacency: map<K, seq<Edge<K, P>>>, ks: seq<K>): nat {
    if ks == [] then 0
    else SumLengths(adjacency, ks[..|ks| - 1]) + Length(adjacency, ks[|ks| - 1])
  }

  /** The sum of the list lengths of a set of keys, in no particular order: the
      reference definition EdgeCount is proved against. */
  ghost function SumOver<K, P>(adjacency: map<K, seq<Edge<K, P>>>, ks: set<K>): nat
    decreases ks
  {
    if ks == {} then 0
    else
      var k :| k in ks;
      Length(adjacency, k) + SumOver(adjacency, ks - {k})
  }

  function EdgeCount<K, P>(g: State<K, P>): nat {
    SumLengths(g.adjacency, g.keys)
  }

  /** ContainsKey on the first dictionary: exactly the keys its enumeration yields. */
  function ContainsVertex<K, P>(g: State<K, P>, v: K): (b: bool)
    ensures Valid(g) ==> (b <==> v in g.keys)
    ensures Valid(g) && b ==> v in g.vertexProperties
  {
    v in g.adjacency
  }

  /** The source is a vertex and its list has a record to t, which is when Find finds one. */
  function ContainsEdge<K, P>(g: State<K, P>, s: K, t: K): (b: bool)
    ensures b <==> s in g.adjacency && FirstMatch(g.adjacency[s], t).Some?
    ensures b ==> GetVertexDegree(g, s).Ok? && GetVertexDegree(g, s).value > 0
  {
    s in g.adjacency && HasTarget(g.adjacency[s], t)
  }

  /** The out-degree: the number of records in the vertex's list, duplicates included. */
  function GetVertexDegree<K, P>(g: State<K, P>, v: K): (r: Result<nat>)
    ensures r.Ok? <==> ContainsVertex(g, v)
    ensures r.Err? ==> r.error == UnknownVertex
  {
    if v !in g.adjacency then Err(UnknownVertex) else Ok(|g.adjacency[v]|)
  }

  /** Looks in vertexProperties, not in adjacency: a removed vertex keeps its property. */
  function GetVertexProperty<K, P>(g: State<K, P>, v: K): (r: Result<P>)
    ensures r.Ok? <==> v in g.vertexProperties
    ensures r.Err? ==> r.error == UnknownVertex
  {
    if v !in g.vertexProperties then Err(UnknownVertex) else Ok(g.vertexProperties[v])
  }

  /** The property of the first s -> t record of s's list. */
  function GetEdgeProperty<K, P>(g: State<K, P>, s: K, t: K): (r: Result<P>)
    ensures r.Ok? <==> ContainsEdge(g, s, t)
    ensures s !in g.adjacency ==> r == Err(UnknownVertex)
    ensures s in g.adjacency && !HasTarget(g.adjacency[s], t) ==> r == Err(EdgeNotFound)
    ensures r.Ok? ==> exists i :: IsFirstMatch(g.adjacency[s], t, i) && g.adjacency[s][i].property == r.value
  {
    if s !in g.adjacency then Err(UnknownVertex)
    else match FirstMatch(g.adjacency[s], t)
      case None => Err(EdgeNotFound)
      case Some(i) => Ok(g.adjacency[s][i].property)
  }

  /** Empty(): no vertex at all, so the enumeration yields nothing. */
  function IsEmpty<K, P>(g: State<K, P>): (b: bool)
    ensures b <==> VertexCount(g) == 0
    ensures Valid(g) ==> (b <==> g.keys == [])
  {
    assert Valid(g) && g.keys != [] ==> g.keys[0] in g.adjacency;
    |g.adjacency| == 0
  }

  // ---------------------------------------------------------------- mutators

  function AddVertex<K, P>(g: State<K, P>, v: K, p: P): Step<K, P> {
    if v in g.adjacency then Step(Fail(DuplicateKey), g)
    else Step(Pass, State(g.adjacency[v := []], g.vertexProperties[v := p], g.keys + [v]))
  }

  function AddEdge<K, P>(g: State<K, P>, s: K, t: K, p: P): Step<K, P> {
    if s !in g.adjacency || t !in g.adjacency then Step(Fail(UnknownVertex), g)
    else Step(Pass, g.(adjacency := g.adjacency[s := g.adjacency[s] + [Edge(t, p)]]))
  }

  /** The loop of RemoveVertex over a snapshot `out` of v's outgoing list: each edge's
      target list loses its edges back to v. A target that is not a key stops the loop
      (the indexer throws); a self-loop stops it after its own pruning, because that
      pruning changed the list being enumerated. Pruning done before the stop stays. */
  function PruneBack<K, P(==)>(adjacency: map<K, seq<Edge<K, P>>>, v: K, out: seq<Edge<K, P>>)
    : (Outcome, map<K, seq<Edge<K, P>>>)
    decreases |out|
  {
    if out == [] then (Pass, adjacency)
    else
      var t := out[0].target;
      if t !in adjacency then (Fail(MissingTargetKey), adjacency)
      else
        var pruned := adjacency[t := RemoveAllTo(adjacency[t], v)];
        if t == v then (Fail(CollectionModified), pruned)
        else PruneBack(pruned, v, out[1..])
  }

  /** The key order without k. */
  function Without<K(==)>(ks: seq<K>, k: K): (r: seq<K>)
    ensures forall i :: 0 <= i < |r| ==> r[i] in ks && r[i] != k
    ensures forall i :: 0 <= i < |ks| && ks[i] != k ==> ks[i] in r
    ensures NoDuplicates(ks) ==> NoDuplicates(r)
  {
    if ks == [] then []
    else if ks[0] == k then Without(ks[1..], k)
    else [ks[0]] + Without(ks[1..], k)
  }

  /** RemoveVertex as Graph.cs runs it: the vertexProperties entry stays, and only the
      lists of v's out-neighbours are pruned. */
  function RemoveVertex<K, P(==)>(g: State<K, P>, v: K): Step<K, P> {
    if v !in g.adjacency then Step(Fail(UnknownVertex), g)
    else
      var (outcome, pruned) := PruneBack(g.adjacency, v, g.adjacency[v]);
      if outcome.Fail? then Step(outcome, g.(adjacency := pruned))
      else Step(Pass, g.(adjacency := pruned - {v}, keys := Without(g.keys, v)))
  }

  function RemoveEdge<K, P(==)>(g: State<K, P>, s: K, t: K): Step<K, P> {
    if s !in g.adjacency || t !in g.adjacency then Step(Fail(UnknownVertex), g)
    else Step(Pass, g.(adjacency := g.adjacency[s := RemoveAllTo(g.adjacency[s], t)]))
  }

  /** Checks vertexProperties, so it also succeeds on a removed vertex. */
  function SetVertexProperty<K, P>(g: State<K, P>, v: K, p: P): Step<K, P> {
    if v !in g.vertexProperties then Step(Fail(UnknownVertex), g)
    else Step(Pass, g.(vertexProperties := g.vertexProperties[v := p]))
  }

  /** Sets the property of the first s -> t record of s's list. */
  function SetEdgeProperty<K, P>(g: State<K, P>, s: K, t: K, p: P): Step<K, P> {
    if s !in g.adjacency then Step(Fail(UnknownVertex), g)
    else match FirstMatch(g.adjacency[s], t)
      case None => Step(Fail(EdgeNotFound), g)
      case Some(i) =>
        var edges := g.adjacency[s];
        Step(Pass, g.(adjacency := g.adjacency[s := edges[i := edges[i].(property := p)]]))
  }

  /** Clone: the vertices in enumeration order with their properties, then every
      list's edges re-added through AddEdge, which fails on a target that is not a
      vertex. Properties of removed vertices are not copied. */
  function Cloned<K, P>(g: State<K, P>): Result<State<K, P>> {
    if !EdgesClosed(g) then Err(UnknownVertex)
    else Ok(State(g.adjacency, map k | k in g.adjacency && k in g.vertexProperties :: g.vertexProperties[k], g.keys))
  }

  /** The graph the first loop of Clone has built after adding the vertices ks of g,
      with their properties and no edges. */
  function VerticesOf<K, P>(g: State<K, P>, ks: seq<K>): State<K, P> {
    State(map k | k in ks :: [], map k | k in ks && k in g.vertexProperties :: g.vertexProperties[k], ks)
  }

  /** The lists the second loop of Clone has copied after the keys ks: those of ks in
      full, the others still empty. */
  function ListsOf<K, P>(g: State<K, P>, ks: seq<K>): map<K, seq<Edge<K, P>>> {
    map k | k in g.adjacency :: if k in ks then g.adjacency[k] else []
  }

  /** The lists of the keys ks hold only edges to present vertices. */
  predicate ListsClosed<K, P>(g: State<K, P>, ks: seq<K>) {
    forall j, m :: 0 <= j < |ks| && ks[j] in g.adjacency && 0 <= m < |g.adjacency[ks[j]]| ==>
      g.adjacency[ks[j]][m].target in g.adjacency
  }

  // ---------------------------------------------------------------- equality and order

  /** The right graph has an edge s -> e.target whose first-match property is e's. */
  predicate EdgeMatches<K, P(==)>(right: State<K, P>, s: K, e: Edge<K, P>) {
    ContainsEdge(right, s, e.target) && GetEdgeProperty(right, s, e.target) == Ok(e.property)
  }

  /** What operator == checks for one key of the left graph. */
  predicate VertexMatches<K, P(==)>(left: State<K, P>, right: State<K, P>, k: K) {
    && k in left.adjacency && k in right.adjacency
    && k in left.vertexProperties && k in right.vertexProperties
    && left.vertexProperties[k] == right.vertexProperties[k]
    && forall i :: 0 <= i < |left.adjacency[k]| ==> EdgeMatches(right, k, left.adjacency[k][i])
  }

  /** operator == for two distinct non-null graphs: equal vertex counts, and every key
      and every edge of the left graph found in the right one (never the converse). */
  predicate Equal<K, P(==)>(left: State<K, P>, right: State<K, P>) {
    VertexCount(left) == VertexCount(right) &&
    forall k :: k in left.adjacency ==> VertexMatches(left, right, k)
  }

  /** CompareTo: Int32.CompareTo of the two vertex counts. */
  function CompareTo<K, P>(left: State<K, P>, right: State<K, P>): (c: int)
    ensures -1 <= c <= 1
    ensures c < 0 <==> VertexCount(left) < VertexCount(right)
    ensures c > 0 <==> VertexCount(left) > VertexCount(right)
  {
    if VertexCount(left) < VertexCount(right) then -1
    else if VertexCount(left) > VertexCount(right) then 1
    else 0
  }

  /** operator >. */
  function Greater<K, P>(left: State<K, P>, right: State<K, P>): (b: bool)
    ensures b <==> VertexCount(left) > VertexCount(right)
  {
    CompareTo(left, right) > 0
  }

  /** operator <. */
  function Less<K, P>(left: State<K, P>, right: State<K, P>): (b: bool)
    ensures b <==> VertexCount(left) < VertexCount(right)
  {
    CompareTo(left, right) < 0
  }

  /** operator >=. */
  function AtLeast<K, P>(left: State<K, P>, right: State<K, P>): (b: bool)
    ensures b <==> VertexCount(left) >= VertexCount(right)
  {
    CompareTo(left, right) >= 0
  }

  /** operator <=. */
  function AtMost<K, P>(left: State<K, P>, right: State<K, P>): (b: bool)
    ensures b <==> VertexCount(left) <= VertexCount(right)
  {
    CompareTo(left, right) <= 0
  }
}
