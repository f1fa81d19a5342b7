/** Finite directed graphs, shared by every component that orders or walks one.

    A graph maps a node to the sequence of its successors; a node outside the
    map has none. */
module Graphs {
  type Graph<T(==)> = map<T, seq<T>>

  function Next<T>(graph: Graph<T>, node: T): seq<T> {
    if node in graph then graph[node] else []
  }

  ghost predicate Walk<T(!new)>(graph: Graph<T>, walk: seq<T>) {
    forall i, j :: 0 <= i < j < |walk| && j == i + 1 ==> walk[j] in Next(graph, walk[i])
  }

  /** A walk along at least one edge that ends where it began. */
  ghost predicate ClosedWalk<T(!new)>(graph: Graph<T>, walk: seq<T>) {
    && 2 <= |walk|
    && Walk(graph, walk)
    && walk[0] == walk[|walk| - 1]
  }

  ghost predicate Acyclic<T(!new)>(graph: Graph<T>) {
    forall walk :: !ClosedWalk(graph, walk)
  }

  /** Every node of `order` comes after all its successors that are in the graph. */
  ghost predicate SuccessorsFirst<T(!new)>(graph: Graph<T>, order: seq<T>) {
    forall k, s :: 0 <= k < |order| && s in Next(graph, order[k]) && s in graph ==> s in order[..k]
  }

  lemma WalkPrepend<T(!new)>(graph: Graph<T>, node: T, walk: seq<T>)
    requires Walk(graph, walk) && walk != [] && walk[0] in Next(graph, node)
    ensures Walk(graph, [node] + walk)
  {
  }

  // ---- An order that puts successors first rules out closed walks ----

  ghost function FirstIndex<T(!new)>(order: seq<T>, node: T): (k: nat)
    requires node in order
    ensures k < |order| && order[k] == node
    ensures forall j :: 0 <= j < k ==> order[j] != node
  {
    if order[0] == node then 0 else FirstIndex(order[1..], node) + 1
  }

  lemma ExtendOrder<T(!new)>(graph: Graph<T>, order: seq<T>, node: T)
    requires SuccessorsFirst(graph, order)
    requires forall s :: s in Next(graph, node) && s in graph ==> s in order
    ensures SuccessorsFirst(graph, order + [node])
  {
    var longer := order + [node];
    forall k, s | 0 <= k < |longer| && s in Next(graph, longer[k]) && s in graph
      ensures s in longer[..k]
    {
      if k < |order| {
        assert s in Next(graph, order[k]);
        assert longer[..k] == order[..k];
      } else {
        assert longer[..k] == order;
      }
    }
  }

  lemma SuccessorRanksLower<T(!new)>(graph: Graph<T>, order: seq<T>, node: T, successor: T)
    requires SuccessorsFirst(graph, order)
    requires node in order && successor in Next(graph, node) && successor in graph
    ensures successor in order && FirstIndex(order, successor) < FirstIndex(order, node)
  {
    var k := FirstIndex(order, node);
    assert successor in Next(graph, order[k]);
    var j :| 0 <= j < k && order[..k][j] == successor;
    assert order[j] == successor;
  }

  lemma {:induction false} WalkDescends<T(!new)>(graph: Graph<T>, order: seq<T>, walk: seq<T>, i: nat)
    requires SuccessorsFirst(graph, order)
    requires Walk(graph, walk) && i < |walk|
    requires forall k :: 0 <= k < |walk| ==> walk[k] in graph && walk[k] in order
    ensures FirstIndex(order, walk[i]) + i <= FirstIndex(order, walk[0])
  {
    if i > 0 {
      WalkDescends(graph, order, walk, i - 1);
      SuccessorRanksLower(graph, order, walk[i - 1], walk[i]);
    }
  }

  lemma OrderedIsAcyclic<T(!new)>(graph: Graph<T>, order: seq<T>)
    requires SuccessorsFirst(graph, order)
    requires forall node :: node in graph ==> node in order
    ensures Acyclic(graph)
  {
    forall walk | ClosedWalk(graph, walk)
      ensures false
    {
      forall i | 0 <= i < |walk|
        ensures walk[i] in graph && walk[i] in order
      {
        var next := if i < |walk| - 1 then i + 1 else 1;
        assert walk[next] in Next(graph, walk[next - 1]);
      }
      WalkDescends(graph, order, walk, |walk| - 1);
    }
  }

  // ---- In an acyclic graph every finite non-empty set has a minimal node ----

  ghost predicate Minimal<T(!new)>(graph: Graph<T>, nodes: set<T>, node: T) {
    node in nodes && forall s :: s in Next(graph, node) ==> s !in nodes
  }

  /** More entries than values: two entries agree. */
  lemma {:induction false} Pigeonhole<T>(items: seq<T>, values: set<T>) returns (i: nat, j: nat)
    requires |items| > |values|
    requires forall x :: x in items ==> x in values
    ensures i < j < |items| && items[i] == items[j]
  {
    var last := items[|items| - 1];
    var rest := items[..|items| - 1];
    if last in rest {
      j := |items| - 1;
      i :| 0 <= i < |rest| && rest[i] == last;
    } else {
      assert forall x :: x in rest ==> x in items;
      i, j := Pigeonhole(rest, values - {last});
    }
  }

  lemma {:induction false} LongWalk<T(!new)>(graph: Graph<T>, nodes: set<T>, length: nat) returns (walk: seq<T>)
    requires nodes != {}
    requires forall node {:trigger Minimal(graph, nodes, node)} :: node in nodes ==> !Minimal(graph, nodes, node)
    ensures |walk| == length + 1 && Walk(graph, walk)
    ensures forall node :: node in walk ==> node in nodes
  {
    if length == 0 {
      var node :| node in nodes;
      walk := [node];
    } else {
      var shorter := LongWalk(graph, nodes, length - 1);
      var last := shorter[length - 1];
      assert !Minimal(graph, nodes, last);
      var s :| s in Next(graph, last) && s in nodes;
      walk := shorter + [s];
    }
  }

  lemma MinimalNode<T(!new)>(graph: Graph<T>, nodes: set<T>) returns (node: T)
    requires Acyclic(graph)
    requires nodes != {}
    ensures Minimal(graph, nodes, node)
  {
    if forall n {:trigger Minimal(graph, nodes, n)} :: n in nodes ==> !Minimal(graph, nodes, n) {
      var walk := LongWalk(graph, nodes, |nodes|);
      var i, j := Pigeonhole(walk, nodes);
      var loop := walk[i..j + 1];
      assert ClosedWalk(graph, loop);
    }
    node :| Minimal(graph, nodes, node);
  }

  // ---- Reachability and worklists ----

  ghost predicate Reachable<T(!new)>(graph: Graph<T>, starts: seq<T>, node: T) {
    exists walk :: Walk(graph, walk) && walk != [] && walk[0] in starts && walk[|walk| - 1] == node
  }

  lemma StartReachable<T(!new)>(graph: Graph<T>, starts: seq<T>, node: T)
    requires node in starts
    ensures Reachable(graph, starts, node)
  {
    var walk := [node];
    assert Walk(graph, walk) && walk[|walk| - 1] == node;
  }

  lemma StepReachable<T(!new)>(graph: Graph<T>, starts: seq<T>, node: T, next: T)
    requires Reachable(graph, starts, node) && next in Next(graph, node)
    ensures Reachable(graph, starts, next)
  {
    var walk :| Walk(graph, walk) && walk != [] && walk[0] in starts && walk[|walk| - 1] == node;
    var longer := walk + [next];
    assert Walk(graph, longer) && longer[|longer| - 1] == next;
  }

  /** Every start and every successor of a visited node is visited, pending, or not
      a node of the graph. */
  ghost predicate Frontier<T(!new)>(graph: Graph<T>, starts: seq<T>, visited: set<T>, pending: seq<T>) {
    && (forall s :: s in starts && s in graph ==> s in visited || s in pending)
    && (forall v, s :: v in visited && s in Next(graph, v) && s in graph ==> s in visited || s in pending)
  }

  lemma FrontierVisit<T(!new)>(graph: Graph<T>, starts: seq<T>, visited: set<T>, rest: seq<T>, node: T)
    requires Frontier(graph, starts, visited, rest + [node])
    ensures Frontier(graph, starts, visited + {node}, rest + Next(graph, node))
    ensures node in visited || node !in graph ==> Frontier(graph, starts, visited, rest)
  {
    assert forall s :: s in rest + [node] <==> s in rest || s == node;
    assert forall s :: s in rest + Next(graph, node) <==> s in rest || s in Next(graph, node);
  }

  lemma {:induction false} ClosedContainsWalk<T(!new)>(graph: Graph<T>, starts: seq<T>, visited: set<T>, walk: seq<T>,
                                                       k: nat)
    requires Frontier(graph, starts, visited, [])
    requires Walk(graph, walk) && k < |walk| && walk[0] in starts
    ensures walk[k] in graph ==> walk[k] in visited
  {
    if k > 0 {
      ClosedContainsWalk(graph, starts, visited, walk, k - 1);
      assert walk[k] in Next(graph, walk[k - 1]);
    }
  }

  /** A worklist that has run dry has visited every reachable node. */
  lemma ClosedContainsReachable<T(!new)>(graph: Graph<T>, starts: seq<T>, visited: set<T>, node: T)
    requires Frontier(graph, starts, visited, [])
    requires node in graph && Reachable(graph, starts, node)
    ensures node in visited
  {
    var walk :| Walk(graph, walk) && walk != [] && walk[0] in starts && walk[|walk| - 1] == node;
    ClosedContainsWalk(graph, starts, visited, walk, |walk| - 1);
  }

  /** Fewer edges reach less. */
  lemma SubgraphReaches<T(!new)>(small: Graph<T>, large: Graph<T>, starts: seq<T>, node: T)
    requires forall v, s :: s in Next(small, v) ==> s in Next(large, v)
    requires Reachable(small, starts, node)
    ensures Reachable(large, starts, node)
  {
    var walk :| Walk(small, walk) && walk != [] && walk[0] in starts && walk[|walk| - 1] == node;
    assert Walk(large, walk);
  }
}
