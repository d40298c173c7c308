/** What the operations of Graph.cs promise, proved about the transitions of GraphModel. */
module GraphProperties {
  import opened Outcomes
  import opened EdgeLists
  import opened GraphModel

  // ---------------------------------------------------------------- counting

  /** The keys of a key sequence, as a set. */
  ghost function Elements<K>(ks: seq<K>): set<K> {
    set i | 0 <= i < |ks| :: ks[i]
  }

  /** A key sequence without repeats has as many keys as its set. */
  lemma {:induction false} ElementsSize<K>(ks: seq<K>)
    requires NoDuplicates(ks)
    ensures |Elements(ks)| == |ks|
  {
    if ks != [] {
      var init := ks[..|ks| - 1];
      var last := ks[|ks| - 1];
      ElementsSize(init);
      forall j | 0 <= j < |init| ensures init[j] != last {
        assert init[j] == ks[j];
      }
      assert Elements(ks) == Elements(init) + {last} by {
        forall k | k in Elements(ks) ensures k in Elements(init) + {last} {
          var i :| 0 <= i < |ks| && ks[i] == k;
          if i < |init| {
            assert init[i] == k;
          }
        }
      }
      assert last !in Elements(init);
    }
  }

  /** VertexCount, the Count of the dictionary, is the number of keys its enumeration
      yields. */
  lemma VertexCountIsKeyCount<K, P>(g: State<K, P>)
    requires Valid(g)
    ensures g.adjacency.Keys == Elements(g.keys)
    ensures VertexCount(g) == |g.keys|
  {
    assert g.adjacency.Keys == Elements(g.keys) by {
      forall k | k in g.adjacency ensures k in Elements(g.keys) {
        var i :| 0 <= i < |g.keys| && g.keys[i] == k;
      }
    }
    ElementsSize(g.keys);
  }

  /** Summing over a set may take any of its keys first. */
  lemma {:induction false} SumOverRemove<K, P>(adjacency: map<K, seq<Edge<K, P>>>, ks: set<K>, k: K)
    requires k in ks
    ensures SumOver(adjacency, ks) == Length(adjacency, k) + SumOver(adjacency, ks - {k})
    decreases |ks|
  {
    var k0 :| k0 in ks && SumOver(adjacency, ks) == Length(adjacency, k0) + SumOver(adjacency, ks - {k0});
    if k0 != k {
      SumOverRemove(adjacency, ks - {k0}, k);
      SumOverRemove(adjacency, ks - {k}, k0);
      assert ks - {k0} - {k} == ks - {k} - {k0};
    }
  }

  /** The in-order sum over a key sequence without repeats is the sum over its set. */
  lemma {:induction false} SumLengthsIsSumOver<K, P>(adjacency: map<K, seq<Edge<K, P>>>, ks: seq<K>)
    requires NoDuplicates(ks)
    ensures SumLengths(adjacency, ks) == SumOver(adjacency, Elements(ks))
    decreases |ks|
  {
    if ks != [] {
      var init, last := ks[..|ks| - 1], ks[|ks| - 1];
      SumLengthsIsSumOver(adjacency, init);
      SumOverRemove(adjacency, Elements(ks), last);
      assert Elements(ks) - {last} == Elements(init) by {
        forall x | x in Elements(ks) - {last} ensures x in Elements(init) {
          var i :| 0 <= i < |ks| && ks[i] == x;
          assert init[i] == x;
        }
        forall x | x in Elements(init) ensures x in Elements(ks) - {last} {
          var i :| 0 <= i < |init| && init[i] == x;
          assert ks[i] == x;
        }
      }
    }
  }

  /** EdgeCount is the sum of all edge-list lengths, whatever order the keys are
      enumerated in. */
  lemma EdgeCountIsSumOfAllLists<K, P>(g: State<K, P>)
    requires Valid(g)
    ensures EdgeCount(g) == SumOver(g.adjacency, g.adjacency.Keys)
  {
    SumLengthsIsSumOver(g.adjacency, g.keys);
    assert Elements(g.keys) == g.adjacency.Keys;
  }

  /** Replacing the list of one key changes the in-order sum by the difference of the
      two lengths, provided the key occurs once in the sequence. */
  lemma {:induction false} SumLengthsUpdate<K, P>(adjacency: map<K, seq<Edge<K, P>>>, ks: seq<K>, s: K, l: seq<Edge<K, P>>)
    requires NoDuplicates(ks)
    ensures SumLengths(adjacency[s := l], ks) + (if s in ks then Length(adjacency, s) else 0)
         == SumLengths(adjacency, ks) + (if s in ks then |l| else 0)
    decreases |ks|
  {
    if ks != [] {
      var init := ks[..|ks| - 1];
      SumLengthsUpdate(adjacency, init, s, l);
      assert s in ks <==> s in init || s == ks[|ks| - 1];
      assert s == ks[|ks| - 1] ==> s !in init;
    }
  }

  // ---------------------------------------------------------------- vertex insertion

  lemma AddVertexSpec<K, P>(g: State<K, P>, v: K, p: P)
    requires Valid(g)
    ensures var st := AddVertex(g, v, p);
      && (st.outcome == Pass <==> !ContainsVertex(g, v))
      && (st.outcome.Fail? ==> st.outcome.error == DuplicateKey && st.after == g)
      && (st.outcome == Pass ==>
        && Valid(st.after)
        && ContainsVertex(st.after, v)
        && GetVertexProperty(st.after, v) == Ok(p)
        && GetVertexDegree(st.after, v) == Ok(0)
        && VertexCount(st.after) == VertexCount(g) + 1
        && EdgeCount(st.after) == EdgeCount(g)
        && st.after.keys == g.keys + [v]
        && st.after.vertexProperties == g.vertexProperties[v := p]
        && forall u :: u in g.adjacency ==> u in st.after.adjacency && st.after.adjacency[u] == g.adjacency[u])
  {
    if v !in g.adjacency {
      AddVertexQueries(g, v, p);
      AddVertexKeepsValid(g, v, p);
      AddVertexKeepsEdgeCount(g, v, p);
    }
  }

  lemma AddVertexQueries<K, P>(g: State<K, P>, v: K, p: P)
    requires v !in g.adjacency
    ensures var h := AddVertex(g, v, p).after;
      && AddVertex(g, v, p).outcome == Pass
      && ContainsVertex(h, v)
      && GetVertexProperty(h, v) == Ok(p)
      && GetVertexDegree(h, v) == Ok(0)
      && VertexCount(h) == VertexCount(g) + 1
      && h.keys == g.keys + [v]
      && h.vertexProperties == g.vertexProperties[v := p]
      && forall u :: u in g.adjacency ==> u in h.adjacency && h.adjacency[u] == g.adjacency[u]
  {
    var h := AddVertex(g, v, p).after;
    assert h.adjacency.Keys == g.adjacency.Keys + {v};
  }

  lemma AddVertexKeepsValid<K, P>(g: State<K, P>, v: K, p: P)
    requires Valid(g) && v !in g.adjacency
    ensures Valid(AddVertex(g, v, p).after)
  {
    var h := AddVertex(g, v, p).after;
    assert v !in g.keys;
    forall i, j | 0 <= i < j < |h.keys| ensures h.keys[i] != h.keys[j] {
      if j == |g.keys| {
        assert h.keys[i] == g.keys[i];
      }
    }
  }

  lemma AddVertexKeepsEdgeCount<K, P>(g: State<K, P>, v: K, p: P)
    requires Valid(g) && v !in g.adjacency
    ensures EdgeCount(AddVertex(g, v, p).after) == EdgeCount(g)
  {
    var h := AddVertex(g, v, p).after;
    assert v !in g.keys;
    calc {
      EdgeCount(h);
      SumLengths(h.adjacency, g.keys + [v]);
      { assert (g.keys + [v])[..|g.keys|] == g.keys; }
      SumLengths(h.adjacency, g.keys) + Length(h.adjacency, v);
      { SumLengthsUpdate(g.adjacency, g.keys, v, []); }
      SumLengths(g.adjacency, g.keys);
    }
  }

  // ---------------------------------------------------------------- edge insertion

  lemma AddEdgeSpec<K, P>(g: State<K, P>, s: K, t: K, p: P)
    requires Valid(g)
    ensures var st := AddEdge(g, s, t, p);
      && (st.outcome == Pass <==> ContainsVertex(g, s) && ContainsVertex(g, t))
      && (st.outcome.Fail? ==> st.outcome.error == UnknownVertex && st.after == g)
      && (st.outcome == Pass ==>
        && Valid(st.after)
        && st.after.adjacency[s] == g.adjacency[s] + [Edge(t, p)]
        && st.after.adjacency.Keys == g.adjacency.Keys
        && (forall u :: u in g.adjacency && u != s ==> st.after.adjacency[u] == g.adjacency[u])
        && st.after.vertexProperties == g.vertexProperties
        && st.after.keys == g.keys
        && ContainsEdge(st.after, s, t)
        && GetVertexDegree(st.after, s) == Ok(|g.adjacency[s]| + 1)
        && EdgeCount(st.after) == EdgeCount(g) + 1
        && GetEdgeProperty(st.after, s, t) == (if ContainsEdge(g, s, t) then GetEdgeProperty(g, s, t) else Ok(p)))
  {
    var st := AddEdge(g, s, t, p);
    if st.outcome == Pass {
      var l := g.adjacency[s] + [Edge(t, p)];
      SumLengthsUpdate(g.adjacency, g.keys, s, l);
      FirstMatchAfterAppend(g.adjacency[s], Edge(t, p), t);
      assert l[|g.adjacency[s]|].target == t;
    }
  }

  // ---------------------------------------------------------------- edge removal

  lemma RemoveEdgeSpec<K, P>(g: State<K, P>, s: K, t: K)
    requires Valid(g)
    ensures var st := RemoveEdge(g, s, t);
      && (st.outcome == Pass <==> ContainsVertex(g, s) && ContainsVertex(g, t))
      && (st.outcome.Fail? ==> st.outcome.error == UnknownVertex && st.after == g)
      && (st.outcome == Pass ==>
        && Valid(st.after)
        && !ContainsEdge(st.after, s, t)
        && st.after.adjacency[s] == RemoveAllTo(g.adjacency[s], t)
        && st.after.adjacency.Keys == g.adjacency.Keys
        && (forall u :: u in g.adjacency && u != s ==> st.after.adjacency[u] == g.adjacency[u])
        && st.after.vertexProperties == g.vertexProperties
        && st.after.keys == g.keys
        && EdgeCount(st.after) == EdgeCount(g) - CountTo(g.adjacency[s], t)
        && forall u :: u != t ==>
             && (ContainsEdge(st.after, s, u) <==> ContainsEdge(g, s, u))
             && GetEdgeProperty(st.after, s, u) == GetEdgeProperty(g, s, u))
  {
    var st := RemoveEdge(g, s, t);
    if st.outcome == Pass {
      var l := RemoveAllTo(g.adjacency[s], t);
      SumLengthsUpdate(g.adjacency, g.keys, s, l);
      forall u | u != t
        ensures (ContainsEdge(st.after, s, u) <==> ContainsEdge(g, s, u))
        ensures GetEdgeProperty(st.after, s, u) == GetEdgeProperty(g, s, u)
      {
        RemoveAllToKeepsOthers(g.adjacency[s], t, u);
      }
    }
  }

  // ---------------------------------------------------------------- vertex removal

  /** What the pruning loop of RemoveVertex does: it never adds or drops a key; it
      completes exactly when every edge of the snapshot points at a present vertex
      other than v; and when it completes, each out-neighbour's list has lost its edges
      to v while every other list is as it was. */
  lemma PruneBackSpec<K, P>(adjacency: map<K, seq<Edge<K, P>>>, v: K, out: seq<Edge<K, P>>)
    ensures var (outcome, pruned) := PruneBack(adjacency, v, out);
      && pruned.Keys == adjacency.Keys
      && (outcome == Pass <==> forall i :: 0 <= i < |out| ==> out[i].target in adjacency && out[i].target != v)
      && (outcome.Fail? ==> outcome.error == MissingTargetKey || outcome.error == CollectionModified)
      && (forall u :: u in adjacency ==> pruned[u] == adjacency[u] || pruned[u] == RemoveAllTo(adjacency[u], v))
      && (outcome == Pass ==> forall u :: u in adjacency ==>
            pruned[u] == if HasTarget(out, u) then RemoveAllTo(adjacency[u], v) else adjacency[u])
  {
    PruneBackOutcome(adjacency, v, out);
    PruneBackLists(adjacency, v, out);
  }

  /** The loop of RemoveVertex keeps the key set, and runs to the end exactly when every
      target of the list is a key other than v. */
  lemma {:induction false} PruneBackOutcome<K, P>(adjacency: map<K, seq<Edge<K, P>>>, v: K, out: seq<Edge<K, P>>)
    ensures var (outcome, pruned) := PruneBack(adjacency, v, out);
      && pruned.Keys == adjacency.Keys
      && (outcome == Pass <==> forall i :: 0 <= i < |out| ==> out[i].target in adjacency && out[i].target != v)
      && (outcome.Fail? ==> outcome.error == MissingTargetKey || outcome.error == CollectionModified)
    decreases |out|
  {
    if out != [] {
      var t := out[0].target;
      if t in adjacency && t != v {
        var step := adjacency[t := RemoveAllTo(adjacency[t], v)];
        PruneBackOutcome(step, v, out[1..]);
        assert step.Keys == adjacency.Keys;
        forall i | 0 <= i < |out[1..]| ensures out[1..][i] == out[i + 1] {}
      }
    }
  }

  /** Each list is either left alone or loses its edges back to v; when the loop runs to
      the end, exactly the lists of v's out-neighbours are pruned. */
  lemma {:induction false} PruneBackLists<K, P>(adjacency: map<K, seq<Edge<K, P>>>, v: K, out: seq<Edge<K, P>>)
    ensures var (outcome, pruned) := PruneBack(adjacency, v, out);
      && pruned.Keys == adjacency.Keys
      && (forall u :: u in adjacency ==> pruned[u] == adjacency[u] || pruned[u] == RemoveAllTo(adjacency[u], v))
      && (outcome == Pass ==> forall u :: u in adjacency ==>
            pruned[u] == if HasTarget(out, u) then RemoveAllTo(adjacency[u], v) else adjacency[u])
    decreases |out|
  {
    PruneBackOutcome(adjacency, v, out);
    if out != [] {
      var t := out[0].target;
      if t in adjacency && t != v {
        var step := adjacency[t := RemoveAllTo(adjacency[t], v)];
        PruneBackLists(step, v, out[1..]);
        var (outcome, pruned) := PruneBack(step, v, out[1..]);
        RemoveAllToAbsent(RemoveAllTo(adjacency[t], v), v);
        forall u | u in adjacency
          ensures pruned[u] == adjacency[u] || pruned[u] == RemoveAllTo(adjacency[u], v)
          ensures outcome == Pass ==>
            pruned[u] == if HasTarget(out, u) then RemoveAllTo(adjacency[u], v) else adjacency[u]
        {
          HasTargetCons(out, u);
        }
      }
    }
  }

  /** One step of the loop of RemoveVertex, at position i of the snapshot. */
  lemma PruneBackFirst<K, P>(adjacency: map<K, seq<Edge<K, P>>>, v: K, out: seq<Edge<K, P>>, i: nat)
    requires i < |out|
    ensures var t := out[i].target;
      PruneBack(adjacency, v, out[i..]) ==
        if t !in adjacency then (Fail(MissingTargetKey), adjacency)
        else if t == v then (Fail(CollectionModified), adjacency[t := RemoveAllTo(adjacency[t], v)])
        else PruneBack(adjacency[t := RemoveAllTo(adjacency[t], v)], v, out[i + 1..])
  {
    assert out[i..][1..] == out[i + 1..];
  }

  /** RemoveVertex completes exactly when v is present and none of its edges is a
      self-loop or points at a vertex that is no longer a key. Whenever it fails, v
      stays a vertex and the key order and properties are untouched; a failure after
      the presence check can still have pruned lists. */
  lemma RemoveVertexOutcome<K, P>(g: State<K, P>, v: K)
    requires Valid(g)
    ensures var st := RemoveVertex(g, v);
      && (st.outcome == Pass <==>
            && ContainsVertex(g, v)
            && forall i :: 0 <= i < |g.adjacency[v]| ==>
                 g.adjacency[v][i].target in g.adjacency && g.adjacency[v][i].target != v)
      && (!ContainsVertex(g, v) ==> st.outcome == Fail(UnknownVertex) && st.after == g)
      && (ContainsVertex(g, v) && st.outcome.Fail? ==>
            && (st.outcome.error == MissingTargetKey || st.outcome.error == CollectionModified)
            && Valid(st.after)
            && ContainsVertex(st.after, v)
            && st.after.adjacency.Keys == g.adjacency.Keys
            && st.after.keys == g.keys
            && st.after.vertexProperties == g.vertexProperties
            && forall u :: u in g.adjacency ==>
                 st.after.adjacency[u] == g.adjacency[u] || st.after.adjacency[u] == RemoveAllTo(g.adjacency[u], v))
  {
    if v in g.adjacency {
      PruneBackSpec(g.adjacency, v, g.adjacency[v]);
    }
  }

  /** A completed RemoveVertex: v is gone and the vertex count drops by one; each
      out-neighbour of v has lost its edges to v and every other list is unchanged;
      the property entry of v stays, so its property can still be read and set. */
  lemma RemoveVertexSpec<K, P>(g: State<K, P>, v: K, p: P)
    requires Valid(g)
    requires RemoveVertex(g, v).outcome == Pass
    ensures var h := RemoveVertex(g, v).after;
      && Valid(h)
      && !ContainsVertex(h, v)
      && VertexCount(h) == VertexCount(g) - 1
      && h.adjacency.Keys == g.adjacency.Keys - {v}
      && (forall u :: u in h.adjacency ==>
            h.adjacency[u] == if HasTarget(g.adjacency[v], u) then RemoveAllTo(g.adjacency[u], v) else g.adjacency[u])
      && (forall u :: u in h.adjacency && HasTarget(g.adjacency[v], u) ==> !ContainsEdge(h, u, v))
      && h.vertexProperties == g.vertexProperties
      && GetVertexProperty(h, v) == GetVertexProperty(g, v)
      && GetVertexProperty(h, v).Ok?
      && SetVertexProperty(h, v, p).outcome == Pass
  {
    var (outcome, pruned) := PruneBack(g.adjacency, v, g.adjacency[v]);
    PruneBackSpec(g.adjacency, v, g.adjacency[v]);
    var h := RemoveVertex(g, v).after;
    assert h.adjacency.Keys == g.adjacency.Keys - {v};
    assert |h.adjacency.Keys| == |g.adjacency.Keys| - 1;
  }

  /** An edge u -> v whose source is not an out-neighbour of v survives RemoveVertex(v):
      it dangles, the graph is no longer edge-closed, and a later Clone fails. */
  lemma RemoveVertexLeavesInEdges<K, P>(g: State<K, P>, v: K, u: K)
    requires Valid(g)
    requires RemoveVertex(g, v).outcome == Pass
    requires u in g.adjacency && u != v
    requires !HasTarget(g.adjacency[v], u) && HasTarget(g.adjacency[u], v)
    ensures ContainsEdge(RemoveVertex(g, v).after, u, v)
    ensures !ContainsVertex(RemoveVertex(g, v).after, v)
    ensures !EdgesClosed(RemoveVertex(g, v).after)
    ensures Cloned(RemoveVertex(g, v).after) == Err(UnknownVertex)
  {
    var h := RemoveVertex(g, v).after;
    RemoveVertexSpec(g, v, g.vertexProperties[v]);
    assert h.adjacency[u] == g.adjacency[u];
    var i :| 0 <= i < |h.adjacency[u]| && h.adjacency[u][i].target == v;
    assert h.adjacency[u][i].target !in h.adjacency;
  }

  /** Two vertices with edges 1 -> 2, 2 -> 1 and the self-loop 1 -> 1: RemoveVertex(1)
      fails on the self-loop, yet vertex 2's list has already lost its edge to 1 and
      vertex 1's list its self-loop. The operation is not atomic. */
  lemma RemoveVertexIsNotAtomic()
    ensures var g := State(map[1 := [Edge(2, "a"), Edge(1, "b")], 2 := [Edge(1, "c")]], map[1 := "A", 2 := "B"], [1, 2]);
      var st := RemoveVertex(g, 1);
      && Valid(g) && EdgesClosed(g)
      && st.outcome == Fail(CollectionModified)
      && ContainsVertex(st.after, 1)
      && st.after.adjacency == map[1 := [Edge(2, "a")], 2 := []]
  {
    var g := State(map[1 := [Edge(2, "a"), Edge(1, "b")], 2 := [Edge(1, "c")]], map[1 := "A", 2 := "B"], [1, 2]);
    SampleIsValid(g);
    var out := g.adjacency[1];
    assert out[1..] == [Edge(1, "b")];
    assert RemoveAllTo([Edge(1, "c")], 1) == [];
    assert RemoveAllTo([Edge(2, "a"), Edge(1, "b")], 1) == [Edge(2, "a")] by {
      assert [Edge(2, "a"), Edge(1, "b")][1..] == [Edge(1, "b")];
      assert RemoveAllTo([Edge(1, "b")], 1) == [];
    }
  }

  /** A two-vertex graph with key order 1, 2 whose lists only point at 1 and 2 is valid
      and edge-closed. */
  lemma SampleIsValid(g: State<int, string>)
    requires g.adjacency.Keys == {1, 2} && g.vertexProperties.Keys == {1, 2} && g.keys == [1, 2]
    requires forall i :: 0 <= i < |g.adjacency[1]| ==> g.adjacency[1][i].target in {1, 2}
    requires forall i :: 0 <= i < |g.adjacency[2]| ==> g.adjacency[2][i].target in {1, 2}
    ensures Valid(g) && EdgesClosed(g)
  {
  }

  // ---------------------------------------------------------------- properties

  lemma SetVertexPropertySpec<K, P>(g: State<K, P>, v: K, p: P)
    requires Valid(g)
    ensures var st := SetVertexProperty(g, v, p);
      && (st.outcome == Pass <==> GetVertexProperty(g, v).Ok?)
      && (st.outcome.Fail? ==> st.outcome.error == UnknownVertex && st.after == g)
      && (st.outcome == Pass ==>
        && Valid(st.after)
        && GetVertexProperty(st.after, v) == Ok(p)
        && (forall u :: u != v ==> GetVertexProperty(st.after, u) == GetVertexProperty(g, u))
        && st.after.adjacency == g.adjacency
        && st.after.keys == g.keys)
  {
  }

  /** SetEdgeProperty rewrites the property of the first s -> t record and nothing else:
      every list keeps its length and its targets. */
  lemma SetEdgePropertySpec<K, P>(g: State<K, P>, s: K, t: K, p: P)
    requires Valid(g)
    ensures var st := SetEdgeProperty(g, s, t, p);
      && (st.outcome == Pass <==> ContainsEdge(g, s, t))
      && (!ContainsVertex(g, s) ==> st.outcome == Fail(UnknownVertex) && st.after == g)
      && (ContainsVertex(g, s) && !ContainsEdge(g, s, t) ==> st.outcome == Fail(EdgeNotFound) && st.after == g)
      && (st.outcome == Pass ==>
        && Valid(st.after)
        && GetEdgeProperty(st.after, s, t) == Ok(p)
        && st.after.adjacency.Keys == g.adjacency.Keys
        && (forall u :: u in g.adjacency && u != s ==> st.after.adjacency[u] == g.adjacency[u])
        && |st.after.adjacency[s]| == |g.adjacency[s]|
        && (forall i :: 0 <= i < |g.adjacency[s]| ==> st.after.adjacency[s][i].target == g.adjacency[s][i].target)
        && (forall i :: 0 <= i < |g.adjacency[s]| && !IsFirstMatch(g.adjacency[s], t, i) ==>
              st.after.adjacency[s][i] == g.adjacency[s][i])
        && EdgeCount(st.after) == EdgeCount(g)
        && st.after.vertexProperties == g.vertexProperties
        && st.after.keys == g.keys)
  {
    var st := SetEdgeProperty(g, s, t, p);
    if st.outcome == Pass {
      var edges := g.adjacency[s];
      var i := FirstMatch(edges, t).value;
      var l := edges[i := edges[i].(property := p)];
      SumLengthsUpdate(g.adjacency, g.keys, s, l);
      assert IsFirstMatch(l, t, i);
      FirstMatchUnique(l, t, i, FirstMatch(l, t).value);
    }
  }

  // ---------------------------------------------------------------- the edge-closure invariant

  /** Every mutator except RemoveVertex keeps every edge pointing at a present vertex. */
  lemma EdgesClosedPreserved<K, P>(g: State<K, P>, v: K, s: K, t: K, p: P)
    requires EdgesClosed(g)
    ensures EdgesClosed(AddVertex(g, v, p).after)
    ensures EdgesClosed(AddEdge(g, s, t, p).after)
    ensures EdgesClosed(RemoveEdge(g, s, t).after)
    ensures EdgesClosed(SetVertexProperty(g, v, p).after)
    ensures EdgesClosed(SetEdgeProperty(g, s, t, p).after)
  {
    var h := RemoveEdge(g, s, t).after;
    if s in g.adjacency && t in g.adjacency {
      forall u, i | u in h.adjacency && 0 <= i < |h.adjacency[u]| ensures h.adjacency[u][i].target in h.adjacency {
        if u == s {
          SubsequenceMembers(h.adjacency[s], g.adjacency[s], i);
          var j :| 0 <= j < |g.adjacency[s]| && g.adjacency[s][j] == h.adjacency[s][i];
        }
      }
    }
    var h' := AddEdge(g, s, t, p).after;
    if s in g.adjacency && t in g.adjacency {
      forall u, i | u in h'.adjacency && 0 <= i < |h'.adjacency[u]| ensures h'.adjacency[u][i].target in h'.adjacency {
        if u == s && i < |g.adjacency[s]| {
          assert h'.adjacency[s][i] == g.adjacency[s][i];
        }
      }
    }
  }

  // ---------------------------------------------------------------- clone and equality

  /** Every record's property is the one GetEdgeProperty reports for its endpoints, that
      is, no list holds two records to one target with different properties. */
  ghost predicate FirstMatchConsistent<K, P>(g: State<K, P>) {
    forall s, i :: s in g.adjacency && 0 <= i < |g.adjacency[s]| ==>
      GetEdgeProperty(g, s, g.adjacency[s][i].target) == Ok(g.adjacency[s][i].property)
  }

  /** In a list without duplicates no element occurs before its own position. */
  lemma NotInPrefix<K>(s: seq<K>, i: nat)
    requires NoDuplicates(s) && i < |s|
    ensures s[i] !in s[..i]
  {
    forall j | 0 <= j < i
      ensures s[..i][j] != s[i]
    {
      assert s[..i][j] == s[j];
    }
  }

  /** One step of the first loop of Clone: AddVertex of the next key of g, with its
      property, extends the copy built so far by that key. */
  lemma VerticesOfStep<K, P>(g: State<K, P>, i: nat)
    requires Valid(g) && i < |g.keys|
    ensures g.keys[i] in g.vertexProperties
    ensures AddVertex(VerticesOf(g, g.keys[..i]), g.keys[i], g.vertexProperties[g.keys[i]])
      == Step(Pass, VerticesOf(g, g.keys[..i + 1]))
  {
    var k, ks := g.keys[i], g.keys[..i];
    assert g.keys[..i + 1] == ks + [k];
    NotInPrefix(g.keys, i);
    assert k in g.vertexProperties;
    EmptyListsExtend(g, ks, k);
    PropertiesExtend(g, ks, k);
  }

  lemma EmptyListsExtend<K, P>(g: State<K, P>, ks: seq<K>, k: K)
    ensures VerticesOf(g, ks).adjacency[k := []] == VerticesOf(g, ks + [k]).adjacency
  {
  }

  lemma PropertiesExtend<K, P>(g: State<K, P>, ks: seq<K>, k: K)
    requires k in g.vertexProperties
    ensures VerticesOf(g, ks).vertexProperties[k := g.vertexProperties[k]] == VerticesOf(g, ks + [k]).vertexProperties
  {
  }

  /** The first loop of Clone over all keys yields g's vertices, with the properties
      Clone copies and empty lists. */
  lemma VerticesOfAll<K, P>(g: State<K, P>)
    requires Valid(g)
    ensures VerticesOf(g, g.keys).vertexProperties
      == map k | k in g.adjacency && k in g.vertexProperties :: g.vertexProperties[k]
    ensures VerticesOf(g, g.keys).adjacency.Keys == g.adjacency.Keys
  {
    forall k | k in g.adjacency ensures k in g.keys {
    }
    forall k | k in g.keys ensures k in g.adjacency {
      var j :| 0 <= j < |g.keys| && g.keys[j] == k;
    }
  }

  /** One step of the second loop of Clone: copying the next key's list. */
  lemma ListsOfStep<K, P>(g: State<K, P>, i: nat)
    requires Valid(g) && i < |g.keys|
    ensures ListsOf(g, g.keys[..i])[g.keys[i] := g.adjacency[g.keys[i]]] == ListsOf(g, g.keys[..i + 1])
  {
    assert g.keys[..i + 1] == g.keys[..i] + [g.keys[i]];
  }

  /** One step of the inner loop of Clone: AddEdge of the next edge of a list extends
      the copied prefix of that list, and fails exactly when its target is not a vertex. */
  lemma CopyEdgeStep<K, P>(start: State<K, P>, s: K, edges: seq<Edge<K, P>>, m: nat)
    requires m < |edges| && s in start.adjacency
    ensures var st := AddEdge(start.(adjacency := start.adjacency[s := edges[..m]]), s, edges[m].target, edges[m].property);
      && (st.outcome == Pass <==> edges[m].target in start.adjacency)
      && (st.outcome == Pass ==> st.after == start.(adjacency := start.adjacency[s := edges[..m + 1]]))
  {
    PrefixExtend(edges, m);
  }

  /** Before the second loop of Clone nothing is copied; after it, every list is. */
  lemma ListsOfBounds<K, P>(g: State<K, P>)
    requires Valid(g)
    ensures ListsOf(g, []) == VerticesOf(g, g.keys).adjacency
    ensures ListsOf(g, g.keys) == g.adjacency
  {
    VerticesOfAll(g);
  }

  /** The lists checked so far stay closed when the next key's list is closed. */
  lemma ListsClosedStep<K, P>(g: State<K, P>, i: nat)
    requires i < |g.keys| && g.keys[i] in g.adjacency
    requires ListsClosed(g, g.keys[..i])
    requires forall m :: 0 <= m < |g.adjacency[g.keys[i]]| ==> g.adjacency[g.keys[i]][m].target in g.adjacency
    ensures ListsClosed(g, g.keys[..i + 1])
  {
    assert g.keys[..i + 1] == g.keys[..i] + [g.keys[i]];
  }

  /** Checking the lists of all keys in order is checking EdgesClosed. */
  lemma ListsClosedAll<K, P>(g: State<K, P>)
    requires Valid(g)
    ensures ListsClosed(g, g.keys) <==> EdgesClosed(g)
  {
    if ListsClosed(g, g.keys) {
      forall s, m | s in g.adjacency && 0 <= m < |g.adjacency[s]|
        ensures g.adjacency[s][m].target in g.adjacency
      {
        var j :| 0 <= j < |g.keys| && g.keys[j] == s;
      }
    }
  }

  /** Clone succeeds exactly on an edge-closed graph and then copies the keys in order,
      every list with its order and duplicates, and the properties of present vertices. */
  lemma CloneSpec<K, P>(g: State<K, P>)
    requires Valid(g)
    ensures Cloned(g).Ok? <==> EdgesClosed(g)
    ensures Cloned(g).Err? ==> Cloned(g).error == UnknownVertex
    ensures Cloned(g).Ok? ==>
      var c := Cloned(g).value;
      && Valid(c) && EdgesClosed(c)
      && c.adjacency == g.adjacency
      && c.keys == g.keys
      && c.vertexProperties.Keys == g.adjacency.Keys
      && (forall k :: k in g.adjacency ==> GetVertexProperty(c, k) == GetVertexProperty(g, k))
      && VertexCount(c) == VertexCount(g)
      && EdgeCount(c) == EdgeCount(g)
  {
  }

  /** For two graphs with the same lists and the same vertex properties, operator ==
      holds exactly when the left graph is first-match consistent. */
  lemma EqualSameContents<K, P>(l: State<K, P>, r: State<K, P>)
    requires Valid(l) && Valid(r)
    requires l.adjacency == r.adjacency
    requires forall k :: k in l.adjacency ==> l.vertexProperties[k] == r.vertexProperties[k]
    ensures Equal(l, r) <==> FirstMatchConsistent(l)
  {
    if FirstMatchConsistent(l) {
      forall k | k in l.adjacency ensures VertexMatches(l, r, k) {
        forall i | 0 <= i < |l.adjacency[k]| ensures EdgeMatches(r, k, l.adjacency[k][i]) {
          assert HasTarget(l.adjacency[k], l.adjacency[k][i].target);
        }
      }
    }
    if Equal(l, r) {
      forall s, i | s in l.adjacency && 0 <= i < |l.adjacency[s]|
        ensures GetEdgeProperty(l, s, l.adjacency[s][i].target) == Ok(l.adjacency[s][i].property)
      {
        assert VertexMatches(l, r, s);
        assert EdgeMatches(r, s, l.adjacency[s][i]);
      }
    }
  }

  /** graph == graph.Clone() holds exactly when the graph is first-match consistent. */
  lemma CloneEqualIffConsistent<K, P>(g: State<K, P>)
    requires Valid(g) && EdgesClosed(g)
    ensures Cloned(g).Ok?
    ensures Equal(g, Cloned(g).value) <==> FirstMatchConsistent(g)
  {
    CloneSpec(g);
    EqualSameContents(g, Cloned(g).value);
  }

  /** A graph none of whose lists repeats a target is first-match consistent. */
  lemma DistinctTargetsConsistent<K, P>(g: State<K, P>)
    requires forall s, i, j :: s in g.adjacency && 0 <= i < j < |g.adjacency[s]| ==>
      g.adjacency[s][i].target != g.adjacency[s][j].target
    ensures FirstMatchConsistent(g)
  {
    forall s, i | s in g.adjacency && 0 <= i < |g.adjacency[s]|
      ensures GetEdgeProperty(g, s, g.adjacency[s][i].target) == Ok(g.adjacency[s][i].property)
    {
      var edges := g.adjacency[s];
      assert IsFirstMatch(edges, edges[i].target, i);
      FirstMatchUnique(edges, edges[i].target, i, FirstMatch(edges, edges[i].target).value);
    }
  }

  /** Two records 1 -> 2 with different properties: the clone succeeds, yet
      graph == clone is false. */
  lemma DuplicateEdgesBreakCloneEquality()
    ensures var g := State(map[1 := [Edge(2, "a"), Edge(2, "b")], 2 := []], map[1 := "A", 2 := "B"], [1, 2]);
      && Valid(g) && EdgesClosed(g)
      && Cloned(g).Ok?
      && !Equal(g, Cloned(g).value)
  {
    var g := State(map[1 := [Edge(2, "a"), Edge(2, "b")], 2 := []], map[1 := "A", 2 := "B"], [1, 2]);
    SampleIsValid(g);
    CloneEqualIffConsistent(g);
    assert GetEdgeProperty(g, 1, 2) == Ok("a");
    assert g.adjacency[1][1].property == "b";
  }

  /** operator == implies equal vertex sets, hence also equal size order. */
  lemma EqualSameVertexSet<K, P>(l: State<K, P>, r: State<K, P>)
    requires Valid(l) && Valid(r) && Equal(l, r)
    ensures l.adjacency.Keys == r.adjacency.Keys
    ensures CompareTo(l, r) == 0
  {
    var a, b := l.adjacency.Keys, r.adjacency.Keys;
    assert a <= b by {
      forall k | k in a ensures k in b {
        assert VertexMatches(l, r, k);
      }
    }
    forall x | x in b ensures x in a {
      if x !in a {
        assert |b - {x}| == |b| - 1;
        assert |l.adjacency| == |a| && |r.adjacency| == |b|;
        SubsetSize(a, b - {x});
        assert false;
      }
    }
  }

  lemma {:induction false} SubsetSize<T>(a: set<T>, b: set<T>)
    requires a <= b
    ensures |a| <= |b|
    decreases b
  {
    if a != {} {
      var x :| x in a;
      SubsetSize(a - {x}, b - {x});
    }
  }

  /** operator == never looks at edges that only the right graph has: adding one keeps
      left == right. */
  lemma EqualIgnoresExtraRightEdges<K, P>(l: State<K, P>, r: State<K, P>, s: K, t: K, p: P)
    requires Valid(l) && Valid(r) && Equal(l, r)
    requires AddEdge(r, s, t, p).outcome == Pass
    ensures Equal(l, AddEdge(r, s, t, p).after)
  {
    var r' := AddEdge(r, s, t, p).after;
    forall k | k in l.adjacency ensures VertexMatches(l, r', k) {
      assert VertexMatches(l, r, k);
      forall i | 0 <= i < |l.adjacency[k]| ensures EdgeMatches(r', k, l.adjacency[k][i]) {
        var e := l.adjacency[k][i];
        assert EdgeMatches(r, k, e);
        if k == s {
          FirstMatchAfterAppend(r.adjacency[s], Edge(t, p), e.target);
        }
      }
    }
  }

  /** Vertices 1 and 2 on both sides, and an edge 1 -> 2 only on the right:
      left == right holds, right == left does not. */
  lemma EqualIsNotSymmetric()
    ensures var l := State(map[1 := [], 2 := []], map[1 := "A", 2 := "B"], [1, 2]);
      var r := State(map[1 := [Edge(2, "E")], 2 := []], map[1 := "A", 2 := "B"], [1, 2]);
      && Valid(l) && Valid(r)
      && Equal(l, r) && !Equal(r, l)
  {
    var l := State(map[1 := [], 2 := []], map[1 := "A", 2 := "B"], [1, 2]);
    var r := State(map[1 := [Edge(2, "E")], 2 := []], map[1 := "A", 2 := "B"], [1, 2]);
    assert VertexMatches(l, r, 1) && VertexMatches(l, r, 2);
    assert !EdgeMatches(l, 1, r.adjacency[1][0]);
  }

  // ---------------------------------------------------------------- order

  /** The four comparison operators look at the vertex counts only: > and < are converse,
      >= and <= are the negations of < and >, and two graphs with as many vertices are
      neither greater nor less than each other, whatever their edges. */
  lemma OrderIsBySize<K, P>(l: State<K, P>, r: State<K, P>)
    ensures Greater(l, r) <==> Less(r, l)
    ensures AtLeast(l, r) <==> !Less(l, r)
    ensures AtMost(l, r) <==> !Greater(l, r)
    ensures AtLeast(l, r) && AtMost(l, r) <==> VertexCount(l) == VertexCount(r)
  {
  }

  /** Graphs that operator == calls equal are ordered as equal. */
  lemma EqualImpliesSameOrder<K, P>(l: State<K, P>, r: State<K, P>)
    requires Equal(l, r)
    ensures !Greater(l, r) && !Less(l, r) && AtLeast(l, r) && AtMost(l, r)
  {
  }
}
