/** Directed graphs whose edges carry an integer gain: no closed path gains exactly
    when the nodes have potentials that no edge can raise. */
module Potentials {
  import opened Graphs

  datatype Edge<T> = Edge(target: T, gain: int)

  type Weighted<T(==)> = map<T, seq<Edge<T>>>

  ghost predicate Path<T(!new)>(graph: Weighted<T>, start: T, path: seq<Edge<T>>) {
    start in graph
    && (path != [] ==> path[0] in graph[start] && Path(graph, path[0].target, path[1..]))
  }

  function Gain<T>(path: seq<Edge<T>>): int {
    if path == [] then 0 else path[0].gain + Gain(path[1..])
  }

  function End<T>(start: T, path: seq<Edge<T>>): T {
    if path == [] then start else path[|path| - 1].target
  }

  ghost predicate NoGainingCycle<T(!new)>(graph: Weighted<T>) {
    forall node, path :: Path(graph, node, path) && End(node, path) == node ==> Gain(path) <= 0
  }

  /** Following an edge inside the graph never raises gain plus potential. */
  ghost predicate Potential<T(!new)>(graph: Weighted<T>, phi: map<T, nat>) {
    && phi.Keys == graph.Keys
    && forall node, edge :: node in graph && edge in graph[node] && edge.target in graph ==>
         phi[edge.target] + edge.gain <= phi[node]
  }

  // ---- Paths ----

  lemma {:induction false} GainSplit<T(!new)>(path: seq<Edge<T>>, k: nat)
    requires k <= |path|
    ensures Gain(path) == Gain(path[..k]) + Gain(path[k..])
  {
    if k > 0 {
      GainSplit(path[1..], k - 1);
      assert path[1..][..k - 1] == path[..k][1..];
      assert path[1..][k - 1..] == path[k..];
    } else {
      assert path[k..] == path;
    }
  }

  lemma {:induction false} PathSplit<T(!new)>(graph: Weighted<T>, start: T, path: seq<Edge<T>>, k: nat)
    requires Path(graph, start, path) && k <= |path|
    ensures Path(graph, start, path[..k])
    ensures Path(graph, End(start, path[..k]), path[k..])
  {
    if k > 0 {
      PathSplit(graph, path[0].target, path[1..], k - 1);
      assert path[1..][..k - 1] == path[..k][1..];
      assert path[1..][k - 1..] == path[k..];
      assert k > 1 ==> path[1..][..k - 1][k - 2] == path[k - 1];
    } else {
      assert path[k..] == path;
    }
  }

  lemma {:induction false} PathJoin<T(!new)>(graph: Weighted<T>, start: T, a: seq<Edge<T>>, b: seq<Edge<T>>)
    requires Path(graph, start, a) && Path(graph, End(start, a), b)
    ensures Path(graph, start, a + b) && Gain(a + b) == Gain(a) + Gain(b)
  {
    if a == [] {
      assert a + b == b;
    } else {
      assert End(start, a) == End(a[0].target, a[1..]);
      PathJoin(graph, a[0].target, a[1..], b);
      assert (a + b)[1..] == a[1..] + b;
    }
  }

  /** A potential bounds every path, so no closed path gains. */
  lemma {:induction false} PotentialBounds<T(!new)>(graph: Weighted<T>, phi: map<T, nat>, start: T, path: seq<Edge<T>>)
    requires Potential(graph, phi) && Path(graph, start, path)
    ensures End(start, path) in phi && Gain(path) + phi[End(start, path)] <= phi[start]
  {
    if path != [] {
      PotentialBounds(graph, phi, path[0].target, path[1..]);
      assert End(start, path) == End(path[0].target, path[1..]);
    }
  }

  /** A node with a gaining edge to itself is a gaining cycle. */
  lemma SelfLoopGains<T(!new)>(graph: Weighted<T>, node: T, gain: int)
    requires node in graph && Edge(node, gain) in graph[node] && gain > 0
    ensures !NoGainingCycle(graph)
  {
    var loop := [Edge(node, gain)];
    assert loop[1..] == [];
    assert Path(graph, node, loop[1..]) && Gain(loop[1..]) == 0;
    assert Path(graph, node, loop) && End(node, loop) == node && Gain(loop) == gain;
  }

  // ---- The greatest gain over paths of bounded length ----

  function Max(a: int, b: int): int {
    if a < b then b else a
  }

  function Best<T>(graph: Weighted<T>, node: T, length: nat): nat
    decreases length, 1
  {
    if length == 0 || node !in graph then 0 else BestOf(graph, graph[node], length)
  }

  function BestOf<T>(graph: Weighted<T>, edges: seq<Edge<T>>, length: nat): nat
    requires length > 0
    decreases length, 0, edges
  {
    if edges == [] then 0 else
      var rest := BestOf(graph, edges[1..], length);
      if edges[0].target in graph then Max(edges[0].gain + Best(graph, edges[0].target, length - 1), rest) else rest
  }

  lemma {:induction false} BestOfAbove<T(!new)>(graph: Weighted<T>, edges: seq<Edge<T>>, length: nat, edge: Edge<T>)
    requires length > 0 && edge in edges && edge.target in graph
    ensures edge.gain + Best(graph, edge.target, length - 1) <= BestOf(graph, edges, length)
  {
    if edges[0] != edge {
      BestOfAbove(graph, edges[1..], length, edge);
    }
  }

  lemma {:induction false} BestIsUpperBound<T(!new)>(graph: Weighted<T>, start: T, path: seq<Edge<T>>, length: nat)
    requires Path(graph, start, path) && |path| <= length
    ensures Gain(path) <= Best(graph, start, length)
  {
    if path != [] {
      BestIsUpperBound(graph, path[0].target, path[1..], length - 1);
      BestOfAbove(graph, graph[start], length, path[0]);
    }
  }

  lemma {:induction false} BestIsAttained<T(!new)>(graph: Weighted<T>, start: T, length: nat)
    returns (path: seq<Edge<T>>)
    requires start in graph
    ensures Path(graph, start, path) && |path| <= length && Gain(path) == Best(graph, start, length)
    decreases length, 1
  {
    if length == 0 {
      path := [];
    } else {
      path := BestOfIsAttained(graph, start, graph[start], length);
    }
  }

  lemma {:induction false} BestOfIsAttained<T(!new)>(graph: Weighted<T>, start: T, edges: seq<Edge<T>>, length: nat)
    returns (path: seq<Edge<T>>)
    requires start in graph && length > 0 && forall edge :: edge in edges ==> edge in graph[start]
    ensures Path(graph, start, path) && |path| <= length && Gain(path) == BestOf(graph, edges, length)
    decreases length, 0, edges
  {
    if edges == [] {
      path := [];
    } else {
      path := BestOfIsAttained(graph, start, edges[1..], length);
      var first := edges[0];
      if first.target in graph {
        var onward := BestIsAttained(graph, first.target, length - 1);
        if Gain(path) <= first.gain + Gain(onward) {
          path := [first] + onward;
          assert path[1..] == onward;
        }
      }
    }
  }

  // ---- Long paths can be shortened without losing gain ----

  lemma {:induction false} PathNodesInGraph<T(!new)>(graph: Weighted<T>, start: T, path: seq<Edge<T>>, k: nat)
    requires Path(graph, start, path) && k <= |path|
    ensures End(start, path[..k]) in graph
  {
    PathSplit(graph, start, path, k);
  }

  lemma Shorten<T(!new)>(graph: Weighted<T>, start: T, path: seq<Edge<T>>) returns (shorter: seq<Edge<T>>)
    requires NoGainingCycle(graph) && Path(graph, start, path) && |graph| <= |path|
    ensures Path(graph, start, shorter) && |shorter| < |path| && Gain(path) <= Gain(shorter)
  {
    var nodes := seq(|path| + 1, k requires 0 <= k <= |path| => End(start, path[..k]));
    forall x | x in nodes
      ensures x in graph.Keys
    {
      var k :| 0 <= k < |nodes| && nodes[k] == x;
      PathNodesInGraph(graph, start, path, k);
    }
    assert |graph.Keys| == |graph|;
    var i, j := Pigeonhole(nodes, graph.Keys);
    var head, loop, tail := path[..i], path[i..j], path[j..];
    PathSplit(graph, start, path, j);
    PathSplit(graph, start, path[..j], i);
    assert path[..j][..i] == head && path[..j][i..] == loop;
    assert End(start, path[..j]) == End(End(start, head), loop);
    GainSplit(path, j);
    GainSplit(path[..j], i);
    assert Gain(loop) <= 0;
    PathJoin(graph, start, head, tail);
    shorter := head + tail;
  }

  function BestPotential<T>(graph: Weighted<T>): map<T, nat> {
    map node | node in graph :: Best(graph, node, |graph| - 1)
  }

  lemma BestIsPotential<T(!new)>(graph: Weighted<T>)
    requires NoGainingCycle(graph)
    ensures Potential(graph, BestPotential(graph))
  {
    var phi := BestPotential(graph);
    forall node, edge | node in graph && edge in graph[node] && edge.target in graph
      ensures phi[edge.target] + edge.gain <= phi[node]
    {
      BestOfAbove(graph, graph[node], |graph|, edge);
      var path := BestIsAttained(graph, node, |graph|);
      if |path| == |graph| {
        path := Shorten(graph, node, path);
      }
      BestIsUpperBound(graph, node, path, |graph| - 1);
    }
  }

  /** Potentials exist exactly when no closed path has a positive total gain. */
  lemma PotentialExistsIff<T(!new)>(graph: Weighted<T>)
    ensures NoGainingCycle(graph) <==> exists phi :: Potential(graph, phi)
  {
    if NoGainingCycle(graph) {
      BestIsPotential(graph);
    }
    if phi :| Potential(graph, phi) {
      forall node, path | Path(graph, node, path) && End(node, path) == node
        ensures Gain(path) <= 0
      {
        PotentialBounds(graph, phi, node, path);
      }
    }
  }
}
