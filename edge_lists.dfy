/** The outgoing-edge list of one vertex (a List<Edge> in Graph.cs) and the list
    operations the graph uses on it: Add, Exists, Find, RemoveAll and Count. */
module EdgeLists {
  import opened Outcomes

  /** One outgoing edge: the target vertex and the edge's property. The source vertex
      is the key under which the list is stored. */
  datatype Edge<K, P> = Edge(target: K, property: P)

  /** Some record of the list points at t (List.Exists with a target test). */
  function HasTarget<K(==), P>(edges: seq<Edge<K, P>>, t: K): (b: bool)
    ensures b <==> exists e :: e in edges && e.target == t
    ensures b ==> edges != []
  {
    exists i :: 0 <= i < |edges| && edges[i].target == t
  }

  /** i is the position of the first record of the list that points at t. */
  predicate IsFirstMatch<K(==), P>(edges: seq<Edge<K, P>>, t: K, i: int) {
    0 <= i < |edges| && edges[i].target == t &&
    forall j :: 0 <= j < i ==> edges[j].target != t
  }

  /** The position of the record List.Find returns when it looks for target t. */
  function FirstMatch<K(==), P>(edges: seq<Edge<K, P>>, t: K): (r: Option<nat>)
    ensures r.Some? <==> HasTarget(edges, t)
    ensures r.Some? ==> IsFirstMatch(edges, t, r.value)
  {
    if edges == [] then None
    else if edges[0].target == t then Some(0)
    else match FirstMatch(edges[1..], t)
      case None => None
      case Some(i) => Some(i + 1)
  }

  /** The number of records that point at t. */
  function CountTo<K(==), P>(edges: seq<Edge<K, P>>, t: K): (n: nat)
    ensures n <= |edges|
    ensures n == 0 <==> !HasTarget(edges, t)
  {
    if edges == [] then 0
    else (if edges[0].target == t then 1 else 0) + CountTo(edges[1..], t)
  }

  /** A prefix one element longer is the shorter prefix followed by that element. */
  lemma PrefixExtend<T>(s: seq<T>, m: nat)
    requires m < |s|
    ensures s[..m + 1] == s[..m] + [s[m]]
  {
  }

  /** a keeps some of the elements of b, in b's order. */
  predicate IsSubsequence<T(==)>(a: seq<T>, b: seq<T>)
    decreases |b|
  {
    if a == [] then true
    else if b == [] then false
    else (a[0] == b[0] && IsSubsequence(a[1..], b[1..])) || IsSubsequence(a, b[1..])
  }

  /** List.RemoveAll with the test "the target is t": drop every record that points at t. */
  function RemoveAllTo<K(==), P(==)>(edges: seq<Edge<K, P>>, t: K): (r: seq<Edge<K, P>>)
    ensures forall i :: 0 <= i < |r| ==> r[i].target != t
    ensures |r| == |edges| - CountTo(edges, t)
    ensures IsSubsequence(r, edges)
  {
    if edges == [] then []
    else if edges[0].target == t then RemoveAllTo(edges[1..], t)
    else [edges[0]] + RemoveAllTo(edges[1..], t)
  }

  /** Every element of a subsequence is an element of the whole. */
  lemma {:induction false} SubsequenceMembers<T>(a: seq<T>, b: seq<T>, i: int)
    requires IsSubsequence(a, b) && 0 <= i < |a|
    ensures a[i] in b
    decreases |b|
  {
    if b == [] {
    } else if a[0] == b[0] && IsSubsequence(a[1..], b[1..]) {
      if i > 0 {
        SubsequenceMembers(a[1..], b[1..], i - 1);
      }
    } else {
      SubsequenceMembers(a, b[1..], i);
    }
  }

  /** RemoveAll on a list with no record to t leaves it as it was. */
  lemma {:induction false} RemoveAllToAbsent<K, P>(edges: seq<Edge<K, P>>, t: K)
    requires !HasTarget(edges, t)
    ensures RemoveAllTo(edges, t) == edges
  {
    if edges != [] {
      assert edges[0].target != t;
      assert !HasTarget(edges[1..], t) by {
        forall i | 0 <= i < |edges[1..]| ensures edges[1..][i].target != t {
          assert edges[1..][i] == edges[i + 1];
        }
      }
      RemoveAllToAbsent(edges[1..], t);
      assert edges == [edges[0]] + edges[1..];
    }
  }

  /** Removing the records to t does not change which other targets the list reaches,
      nor the first record to any other target. */
  lemma {:induction false} RemoveAllToKeepsOthers<K, P>(edges: seq<Edge<K, P>>, t: K, u: K)
    requires u != t
    ensures HasTarget(RemoveAllTo(edges, t), u) <==> HasTarget(edges, u)
    ensures HasTarget(edges, u) ==>
      RemoveAllTo(edges, t)[FirstMatch(RemoveAllTo(edges, t), u).value] == edges[FirstMatch(edges, u).value]
  {
    if edges != [] {
      RemoveAllToKeepsOthers(edges[1..], t, u);
      var rest := RemoveAllTo(edges[1..], t);
      HasTargetCons(edges, u);
      if edges[0].target != t {
        var r := [edges[0]] + rest;
        assert r[1..] == rest;
        HasTargetCons(r, u);
      }
    }
  }

  /** A non-empty list reaches u through its head or through its tail. */
  lemma HasTargetCons<K, P>(edges: seq<Edge<K, P>>, u: K)
    requires edges != []
    ensures HasTarget(edges, u) <==> edges[0].target == u || HasTarget(edges[1..], u)
  {
    if HasTarget(edges, u) && edges[0].target != u {
      var i :| 0 <= i < |edges| && edges[i].target == u;
      assert edges[1..][i - 1] == edges[i];
    }
    if HasTarget(edges[1..], u) {
      var i :| 0 <= i < |edges[1..]| && edges[1..][i].target == u;
      assert edges[i + 1] == edges[1..][i];
    }
  }

  /** The first record to t is unique. */
  lemma FirstMatchUnique<K, P>(edges: seq<Edge<K, P>>, t: K, i: int, j: int)
    requires IsFirstMatch(edges, t, i) && IsFirstMatch(edges, t, j)
    ensures i == j
  {
  }

  /** List.Add: the record appended at the end is found by Find only when no earlier
      record has the same target. */
  lemma FirstMatchAfterAppend<K, P>(edges: seq<Edge<K, P>>, e: Edge<K, P>, t: K)
    ensures FirstMatch(edges + [e], t) ==
      if HasTarget(edges, t) then FirstMatch(edges, t)
      else if e.target == t then Some(|edges|)
      else None
  {
    var r := FirstMatch(edges + [e], t);
    if HasTarget(edges, t) {
      var i := FirstMatch(edges, t).value;
      assert IsFirstMatch(edges + [e], t, i);
      FirstMatchUnique(edges + [e], t, i, r.value);
    } else if e.target == t {
      assert IsFirstMatch(edges + [e], t, |edges|);
      FirstMatchUnique(edges + [e], t, |edges|, r.value);
    }
  }
}
