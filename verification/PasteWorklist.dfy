/**
 * The paste worklist itself, over the collections that it updates
 * (scripts/gen-config-catalog.ts:656-717).
 */
module PasteWorklist {
  import opened TypeNames
  import opened PasteClosure
  import opened PasteReport

  class Worklist {
    const package: Package
    const globals: set<string>
    const root: Mention
    var found: Found
    var pastes: seq<Pointer>
    var queue: seq<Mention>
    var violations: seq<Violation>

    function View(): Work
      reads this
    {
      Work(found, pastes, queue, violations)
    }

    constructor (package: Package, globals: set<string>, root: Mention)
      ensures View() == Work(Found(map[], map[]), [], [root], [])
      ensures this.package == package && this.globals == globals && this.root == root
    {
      this.package, this.globals, this.root := package, globals, root;
      found, pastes, queue, violations := Found(map[], map[]), [], [root], [];
    }

    method TakeFirst()
      requires queue != []
      modifies this
      ensures View() == Round(package, globals, root, old(View()))
    {
      var m := queue[0];
      queue := queue[1..];
      var taken := Take(package, root, found, m);
      match taken
      case Rejected(violation) =>
        violations := violations + Reports(package, m, violation);
      case Pastes(pointer, file) =>
        found := Added(found, m, taken);
        pastes := pastes + [pointer];
        violations := violations + Undocumented(DeclOfName(package, file, m.name).undocumented);
        queue := queue + MentionsOf(package, file, m.name, globals);
      case _ =>
        found := Added(found, m, taken);
    }
  }

  lemma StartValid(package: Package, globals: set<string>, root: Mention)
    ensures Valid(package, globals, root, Work(Found(map[], map[]), [], [root], []))
  {
    RootReached(package, globals, root);
  }

  // Main result: the worklist ends, reports nothing if and only if every reached
  // name has one meaning, and has then found exactly the closure.
  method CollectPastes(package: Package, globals: set<string>, root: Mention)
    returns (found: Found, pastes: seq<Pointer>, violations: seq<Violation>)
    requires Answers(package, globals, root)
    ensures violations == [] <==> Unambiguous(package, globals, root)
    ensures violations == [] ==> forall m :: Reached(package, globals, root, m) ==> Handled(package, found, m)
    ensures Justified(package, globals, root, found)
    ensures forall v :: v in violations <==> Earned(package, globals, root, found, v)
    ensures |pastes| == |found.pasted| && (forall p :: p in pastes <==> p in found.pasted.Values)
    ensures violations == [] ==> pastes != [] && pastes[0] == PointerOf(package, Resolve(package, root).file, root.name)
  {
    var work := new Worklist(package, globals, root);
    StartValid(package, globals, root);
    StartAccounted(package, globals, root);
    while |work.queue| > 0
      invariant Valid(package, globals, root, work.View())
      invariant Listed(root, work.View()) && Accounted(package, globals, root, work.View())
      invariant work.package == package && work.globals == globals && work.root == root
      decreases |NamesOf(package, root) - work.found.pasted.Keys|, |work.queue|
    {
      RoundValid(package, globals, root, work.View());
      RoundListed(package, globals, root, work.View());
      RoundAccounted(package, globals, root, work.View());
      assert work.queue[0] in work.queue;
      RoundProgresses(package, globals, root, work.View(), NamesOf(package, root));
      work.TakeFirst();
    }
    found, pastes, violations := work.found, work.pastes, work.violations;
    forall v
      ensures v in violations <==> Earned(package, globals, root, found, v)
    {
      FinishedReports(package, globals, root, work.View(), v);
    }
    if violations == [] {
      FinishedUnambiguous(package, globals, root, found);
      RootReached(package, globals, root);
      forall m | Reached(package, globals, root, m)
        ensures Handled(package, found, m)
      {
        ReachedHandled(package, globals, root, found, m);
      }
    }
  }
}
