/** Admission of a gate list: `validateGateGraph` and `findDependencyCycle`. */
module GateGraph {
  import opened Options
  import opened Graphs

  type Id = string

  /** The scheduling part of a gate; absent lists are empty. */
  datatype Gate = Gate(id: Id, needs: seq<Id>, after: seq<Id>)

  function Predecessors(gate: Gate): seq<Id> {
    gate.needs + gate.after
  }

  function Ids(gates: seq<Gate>): set<Id> {
    set gate | gate in gates :: gate.id
  }

  /** Gates by id, as a map built in list order: the last gate of an id wins. */
  function Dependencies(gates: seq<Gate>): (graph: Graph<Id>)
    ensures graph.Keys == Ids(gates)
  {
    if gates == [] then map[] else
      var last := gates[|gates| - 1];
      assert gates == gates[..|gates| - 1] + [last];
      Dependencies(gates[..|gates| - 1])[last.id := Predecessors(last)]
  }

  ghost predicate UniqueIds(gates: seq<Gate>) {
    forall i, j :: 0 <= i < j < |gates| ==> gates[i].id != gates[j].id
  }

  ghost predicate KnownIds(gates: seq<Gate>) {
    forall gate, id :: gate in gates && id in Predecessors(gate) ==> id in Ids(gates)
  }

  /** What a gate list must satisfy for every run of it to be meaningful. */
  ghost predicate Admissible(gates: seq<Gate>) {
    && gates != []
    && UniqueIds(gates)
    && KnownIds(gates)
    && Acyclic(Dependencies(gates))
  }

  lemma {:induction false} DependenciesOf(gates: seq<Gate>, gate: Gate)
    requires UniqueIds(gates) && gate in gates
    ensures Next(Dependencies(gates), gate.id) == Predecessors(gate)
  {
    var last := gates[|gates| - 1];
    var rest := gates[..|gates| - 1];
    assert gates == rest + [last];
    if gate != last {
      DependenciesOf(rest, gate);
      assert gate.id != last.id;
    }
  }

  // ---- Depth-first search for a cycle ----

  class CycleSearch {
    const graph: Graph<Id>
    var complete: set<Id>
    var active: map<Id, nat>
    var path: seq<Id>
    /** The completed ids in the order they were completed. */
    ghost var finished: seq<Id>

    constructor (graph: Graph<Id>)
      ensures this.graph == graph && Valid() && path == []
    {
      this.graph := graph;
      complete, active, path, finished := {}, map[], [], [];
    }

    /** The path is a walk indexed by `active`, and the completed ids are closed:
        their successors were completed before them. */
    ghost predicate Valid()
      reads this
    {
      && Walk(graph, path)
      && (forall i :: 0 <= i < |path| ==> path[i] in graph && path[i] in active && active[path[i]] == i)
      && (forall id :: id in active ==> active[id] < |path| && path[active[id]] == id)
      && SuccessorsFirst(graph, finished)
      && (forall id :: id in finished <==> id in complete)
      && complete <= graph.Keys
    }

    method Enter(id: Id)
      requires Valid() && id in graph && id !in active
      requires path != [] ==> id in Next(graph, path[|path| - 1])
      modifies this
      ensures Valid() && unchanged(`complete, `finished)
      ensures path == old(path) + [id] && active == old(active)[id := |old(path)|]
    {
      active := active[id := |path|];
      path := path + [id];
    }

    method Leave(id: Id, ghost entered: seq<Id>, ghost enteredActive: map<Id, nat>)
      requires Valid() && id in graph && id !in enteredActive
      requires path == entered + [id] && active == enteredActive[id := |entered|]
      requires forall p :: p in graph[id] && p in graph ==> p in complete
      modifies this
      ensures Valid() && path == entered && active == enteredActive
      ensures complete == old(complete) + {id}
    {
      path := path[..|path| - 1];
      active := active - {id};
      complete := complete + {id};
      ExtendOrder(graph, finished, id);
      finished := finished + [id];
      assert path == entered;
      assert active == enteredActive;
    }

    method Visit(id: Id) returns (cycle: Option<seq<Id>>)
      requires Valid()
      requires path != [] ==> id in Next(graph, path[|path| - 1])
      modifies this
      ensures cycle.None? ==> Valid() && path == old(path) && active == old(active)
      ensures cycle.None? ==> old(complete) <= complete && (id in graph ==> id in complete)
      ensures cycle.Some? ==> ClosedWalk(graph, cycle.value)
      decreases graph.Keys - active.Keys
    {
      if id in complete {
        return None;
      }
      if id in active {
        return Some(path[active[id]..] + [id]);
      }
      if id !in graph {
        return None;
      }

      Enter(id);
      for i := 0 to |graph[id]|
        invariant Valid()
        invariant path == old(path) + [id] && active == old(active)[id := |old(path)|]
        invariant old(complete) <= complete
        invariant forall j :: 0 <= j < i && graph[id][j] in graph ==> graph[id][j] in complete
      {
        assert path[|path| - 1] == id;
        cycle := Visit(graph[id][i]);
        if cycle.Some? {
          return;
        }
      }
      Leave(id, old(path), old(active));
      return None;
    }
  }

  /** Sound and complete: an answer is a closed walk, and no answer means there is none. */
  method FindDependencyCycle(gates: seq<Gate>) returns (cycle: Option<seq<Id>>)
    ensures cycle.Some? ==> ClosedWalk(Dependencies(gates), cycle.value)
    ensures cycle.None? <==> Acyclic(Dependencies(gates))
  {
    var search := new CycleSearch(Dependencies(gates));
    for i := 0 to |gates|
      invariant search.Valid() && search.graph == Dependencies(gates) && search.path == []
      invariant forall j :: 0 <= j < i ==> gates[j].id in search.complete
    {
      cycle := search.Visit(gates[i].id);
      if cycle.Some? {
        ClosedIsCyclic(search.graph, cycle.value);
        return;
      }
    }
    EveryGateFinished(gates, search.finished, search.complete);
    OrderedIsAcyclic(search.graph, search.finished);
    return None;
  }

  lemma ClosedIsCyclic(graph: Graph<Id>, walk: seq<Id>)
    requires ClosedWalk(graph, walk)
    ensures !Acyclic(graph)
  {
  }

  lemma EveryGateFinished(gates: seq<Gate>, finished: seq<Id>, complete: set<Id>)
    requires forall j :: 0 <= j < |gates| ==> gates[j].id in complete
    requires forall id :: id in finished <==> id in complete
    ensures forall node :: node in Dependencies(gates) ==> node in finished
  {
  }

  // ---- Validation ----

  datatype GraphError =
    | NoGates
    | DuplicateId(id: Id)
    | UnknownNeed(id: Id, need: Id)
    | UnknownAfter(id: Id, predecessor: Id)
    | DependencyCycle(cycle: seq<Id>)

  /** Whether an error names a real defect of the list. */
  ghost predicate Justified(gates: seq<Gate>, error: GraphError) {
    match error
    case NoGates => gates == []
    case DuplicateId(id) => exists i, j :: 0 <= i < j < |gates| && gates[i].id == gates[j].id == id
    case UnknownNeed(id, need) =>
      exists gate :: gate in gates && gate.id == id && need in gate.needs && need !in Ids(gates)
    case UnknownAfter(id, predecessor) =>
      exists gate :: gate in gates && gate.id == id && predecessor in gate.after && predecessor !in Ids(gates)
    case DependencyCycle(cycle) => UniqueIds(gates) && KnownIds(gates) && ClosedWalk(Dependencies(gates), cycle)
  }

  method UnknownReference(gates: seq<Gate>, ids: set<Id>) returns (error: Option<GraphError>)
    requires ids == Ids(gates)
    ensures error.None? <==> KnownIds(gates)
    ensures error.Some? ==> Justified(gates, error.value)
  {
    for i := 0 to |gates|
      invariant forall gate, id :: gate in gates[..i] && id in Predecessors(gate) ==> id in ids
    {
      var gate := gates[i];
      for j := 0 to |gate.needs|
        invariant forall id :: id in gate.needs[..j] ==> id in ids
      {
        if gate.needs[j] !in ids {
          assert gate.needs[j] in Predecessors(gate);
          return Some(UnknownNeed(gate.id, gate.needs[j]));
        }
      }
      for j := 0 to |gate.after|
        invariant forall id :: id in gate.after[..j] ==> id in ids
      {
        if gate.after[j] !in ids {
          assert gate.after[j] in Predecessors(gate);
          return Some(UnknownAfter(gate.id, gate.after[j]));
        }
      }
    }
    return None;
  }

  /** Rejects exactly the lists that are not admissible, always for a real reason. */
  method ValidateGateGraph(gates: seq<Gate>) returns (error: Option<GraphError>)
    ensures error.None? <==> Admissible(gates)
    ensures error.Some? ==> Justified(gates, error.value)
  {
    if |gates| == 0 {
      return Some(NoGates);
    }
    var ids: set<Id> := {};
    for i := 0 to |gates|
      invariant ids == Ids(gates[..i])
      invariant UniqueIds(gates[..i])
    {
      if gates[i].id in ids {
        var k :| 0 <= k < i && gates[..i][k].id == gates[i].id;
        return Some(DuplicateId(gates[i].id));
      }
      ids := ids + {gates[i].id};
    }
    assert gates[..|gates|] == gates;
    error := UnknownReference(gates, ids);
    if error.Some? {
      return;
    }
    var cycle := FindDependencyCycle(gates);
    if cycle.Some? {
      return Some(DependencyCycle(cycle.value));
    }
  }
}
