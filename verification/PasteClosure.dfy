/**
 * The paste worklist: the declarations a configuration type needs, verbatim, and
 * the imports they leave as references (scripts/gen-config-catalog.ts:656-717).
 */
module PasteClosure {
  import opened TypeNames

  datatype Violation =
    | NotResolved(name: string)
    | BadImport
    | ConfigImported
    | PastedAndImported(name: string)
    | ImportedTwice(name: string)
    | DeclaredTwice(name: string)
    | NoDocumentation

  // What the worklist has found so far.
  datatype Found = Found(pasted: map<string, Pointer>, refs: map<string, TypeRef>)

  // ----- invariants -----

  // The mention resolves to what is recorded under its name.
  predicate Handled(package: Package, found: Found, m: Mention) {
    match Resolve(package, m)
    case Declared(file) => m.name in found.pasted && found.pasted[m.name] == PointerOf(package, file, m.name)
    case External(ref) => m.name in found.refs && found.refs[m.name] == ref
    case _ => false
  }

  // A reached mention of the name resolves to the declaration at the pointer.
  ghost predicate Declares(package: Package, globals: set<string>, root: Mention, name: string, p: Pointer,
                           m: Mention)
  {
    && m.name == name && Reached(package, globals, root, m)
    && Resolve(package, m).Declared? && PointerOf(package, Resolve(package, m).file, m.name) == p
  }

  // A reached mention of the name resolves to the import.
  ghost predicate Imports(package: Package, globals: set<string>, root: Mention, name: string, ref: TypeRef,
                          m: Mention)
  {
    m.name == name && Reached(package, globals, root, m) && Resolve(package, m) == External(ref)
  }

  // Everything recorded was reached, and no name is both pasted and a reference.
  ghost predicate Justified(package: Package, globals: set<string>, root: Mention, found: Found) {
    && (forall n :: n in found.pasted ==> exists m :: Declares(package, globals, root, n, found.pasted[n], m))
    && (forall n :: n in found.refs ==>
          n != root.name && exists m :: Imports(package, globals, root, n, found.refs[n], m))
    && found.pasted.Keys !! found.refs.Keys
  }

  // Whatever a handled mention leads to is handled or waits in the queue.
  ghost predicate Covered(package: Package, globals: set<string>, found: Found, queue: seq<Mention>) {
    forall m, next :: Handled(package, found, m) && next in LeadsTo(package, globals, m) ==>
      Handled(package, found, next) || next in queue
  }

  ghost predicate Documented(package: Package, found: Found) {
    forall m :: Handled(package, found, m) ==> Pasteable(package, m)
  }

  ghost predicate AllReached(package: Package, globals: set<string>, root: Mention, queue: seq<Mention>) {
    forall m {:trigger m in queue} :: m in queue ==> Reached(package, globals, root, m)
  }

  // ----- taking one mention -----

  // What one mention adds: a paste, a reference, nothing, or a violation.
  datatype Taken = Kept | Refers(ref: TypeRef) | Pastes(pointer: Pointer, file: FileId) | Rejected(violation: Violation)

  function Take(package: Package, root: Mention, found: Found, m: Mention): Taken {
    match Resolve(package, m)
    case Declared(file) =>
      var p := PointerOf(package, file, m.name);
      if m.name in found.pasted then if found.pasted[m.name] == p then Kept else Rejected(DeclaredTwice(m.name))
      else if m.name in found.refs then Rejected(PastedAndImported(m.name))
      else Pastes(p, file)
    case External(ref) =>
      if m.name == root.name then Rejected(ConfigImported)
      else if m.name in found.pasted then Rejected(PastedAndImported(m.name))
      else if m.name in found.refs && (found.refs[m.name].specifier != ref.specifier
                                       || found.refs[m.name].imported != ref.imported)
      then Rejected(ImportedTwice(m.name))
      else Refers(ref)
    case _ => Rejected(NotResolved(m.name))
  }

  function Added(found: Found, m: Mention, taken: Taken): Found {
    match taken
    case Refers(ref) => found.(refs := found.refs[m.name := ref])
    case Pastes(p, _) => found.(pasted := found.pasted[m.name := p])
    case _ => found
  }

  lemma SamePointer(package: Package, a: Mention, b: Mention)
    requires a.name == b.name && Resolve(package, a).Declared? && Resolve(package, b).Declared?
    ensures PointerOf(package, Resolve(package, a).file, a.name) == PointerOf(package, Resolve(package, b).file, b.name)
            <==> Resolve(package, a) == Resolve(package, b)
  {
  }

  // A rejected mention is one no closure could have pasted without ambiguity.
  lemma RejectedIsAmbiguous(package: Package, globals: set<string>, root: Mention, found: Found, m: Mention)
    requires Justified(package, globals, root, found) && Reached(package, globals, root, m)
    requires Take(package, root, found, m).Rejected?
    ensures !Unambiguous(package, globals, root)
  {
    RootReached(package, globals, root);
    var r := Resolve(package, m);
    if Pasteable(package, m) && !(r.External? && m.name == root.name) {
      if m.name in found.pasted {
        var n :| Declares(package, globals, root, m.name, found.pasted[m.name], n);
        assert Resolve(package, n) != r;
      } else {
        var n :| Imports(package, globals, root, m.name, found.refs[m.name], n);
        assert Resolve(package, n) != r;
      }
    }
  }

  lemma AddedJustified(package: Package, globals: set<string>, root: Mention, found: Found, m: Mention)
    requires Justified(package, globals, root, found) && Reached(package, globals, root, m)
    requires !Take(package, root, found, m).Rejected?
    ensures Justified(package, globals, root, Added(found, m, Take(package, root, found, m)))
  {
    var taken := Take(package, root, found, m);
    if taken.Pastes? {
      assert Declares(package, globals, root, m.name, taken.pointer, m);
    } else if taken.Refers? {
      assert Imports(package, globals, root, m.name, taken.ref, m);
    }
  }

  lemma AddedHandles(package: Package, root: Mention, found: Found, m: Mention)
    requires !Take(package, root, found, m).Rejected?
    ensures Handled(package, Added(found, m, Take(package, root, found, m)), m)
  {
  }

  // What was handled stays handled.
  lemma AddedKeeps(package: Package, globals: set<string>, root: Mention, found: Found, m: Mention, other: Mention)
    requires Justified(package, globals, root, found)
    requires !Take(package, root, found, m).Rejected? && Handled(package, found, other)
    ensures Handled(package, Added(found, m, Take(package, root, found, m)), other)
  {
  }

  // What is newly handled resolves as the mention taken.
  lemma NewlyHandled(package: Package, root: Mention, found: Found, m: Mention, other: Mention)
    requires !Take(package, root, found, m).Rejected?
    requires !Handled(package, found, other) && Handled(package, Added(found, m, Take(package, root, found, m)), other)
    ensures other.name == m.name && Resolve(package, other) == Resolve(package, m)
    ensures !Take(package, root, found, m).Kept?
  {
  }

  // ----- keeping the closure covered -----

  // After one mention is taken: what `other` leads to is handled, waits, or was added.
  lemma NextCovered(package: Package, globals: set<string>, root: Mention, found: Found, m: Mention,
                    rest: seq<Mention>, added: seq<Mention>,
                    other: Mention, next: Mention)
    requires Justified(package, globals, root, found) && Covered(package, globals, found, [m] + rest)
    requires !Take(package, root, found, m).Rejected?
    requires Take(package, root, found, m).Pastes? ==> LeadsTo(package, globals, m) == added
    requires var after := Added(found, m, Take(package, root, found, m));
             Handled(package, after, other) && next in LeadsTo(package, globals, other)
    ensures Handled(package, Added(found, m, Take(package, root, found, m)), next) || next in rest || next in added
  {
    if Handled(package, found, other) {
      assert Handled(package, found, next) || next in [m] + rest;
      if Handled(package, found, next) {
        AddedKeeps(package, globals, root, found, m, next);
      } else if next == m {
        AddedHandles(package, root, found, m);
      }
    } else {
      NewlyHandled(package, root, found, m, other);
    }
  }

  lemma CoveredStep(package: Package, globals: set<string>, root: Mention, found: Found, m: Mention,
                    rest: seq<Mention>, added: seq<Mention>)
    requires Justified(package, globals, root, found) && Covered(package, globals, found, [m] + rest)
    requires !Take(package, root, found, m).Rejected?
    requires Take(package, root, found, m).Pastes? ==> LeadsTo(package, globals, m) == added
    ensures Covered(package, globals, Added(found, m, Take(package, root, found, m)), rest + added)
  {
    var after := Added(found, m, Take(package, root, found, m));
    forall other, next | Handled(package, after, other) && next in LeadsTo(package, globals, other)
      ensures Handled(package, after, next) || next in rest + added
    {
      NextCovered(package, globals, root, found, m, rest, added, other, next);
    }
  }

  lemma DocumentedStep(package: Package, globals: set<string>, root: Mention, found: Found, m: Mention)
    requires Documented(package, found) && Pasteable(package, m) && !Take(package, root, found, m).Rejected?
    ensures Documented(package, Added(found, m, Take(package, root, found, m)))
  {
    var after := Added(found, m, Take(package, root, found, m));
    forall other | Handled(package, after, other)
      ensures Pasteable(package, other)
    {
      if !Handled(package, found, other) {
        NewlyHandled(package, root, found, m, other);
      }
    }
  }

  lemma QueueReached(package: Package, globals: set<string>, root: Mention, queue: seq<Mention>, m: Mention)
    requires AllReached(package, globals, root, queue) && Reached(package, globals, root, m)
    ensures AllReached(package, globals, root, queue + LeadsTo(package, globals, m))
  {
    forall next | next in LeadsTo(package, globals, m)
      ensures Reached(package, globals, root, next)
    {
      StepReached(package, globals, root, m, next);
    }
  }

  lemma HandledStep(package: Package, globals: set<string>, found: Found, m: Mention, next: Mention)
    requires Covered(package, globals, found, []) && Handled(package, found, m) && next in LeadsTo(package, globals, m)
    ensures Handled(package, found, next)
  {
  }

  lemma TrailStep(package: Package, globals: set<string>, root: Mention, trail: seq<Mention>, k: nat)
    requires Trail(package, globals, root, trail) && 0 < k < |trail|
    ensures trail[k] in LeadsTo(package, globals, trail[k - 1])
  {
  }

  // With nothing left in the queue, everything reached is handled.
  lemma {:induction false} TrailHandled(package: Package, globals: set<string>, root: Mention, found: Found,
                                        trail: seq<Mention>, k: nat)
    requires Covered(package, globals, found, []) && Handled(package, found, root)
    requires Trail(package, globals, root, trail) && k < |trail|
    ensures Handled(package, found, trail[k])
  {
    if k > 0 {
      TrailHandled(package, globals, root, found, trail, k - 1);
      TrailStep(package, globals, root, trail, k);
      HandledStep(package, globals, found, trail[k - 1], trail[k]);
    }
  }

  lemma ReachedHandled(package: Package, globals: set<string>, root: Mention, found: Found, m: Mention)
    requires Covered(package, globals, found, []) && Handled(package, found, root)
    requires Reached(package, globals, root, m)
    ensures Handled(package, found, m)
  {
    var trail :| TrailTo(package, globals, root, trail, m);
    TrailHandled(package, globals, root, found, trail, |trail| - 1);
  }

  lemma HandledAgree(package: Package, globals: set<string>, root: Mention, found: Found, m: Mention, n: Mention)
    requires Justified(package, globals, root, found) && m.name == n.name
    requires Handled(package, found, m) && Handled(package, found, n)
    ensures Resolve(package, m) == Resolve(package, n)
  {
    if Resolve(package, m).Declared? && Resolve(package, n).Declared? {
      SamePointer(package, m, n);
    }
  }

  lemma FinishedUnambiguous(package: Package, globals: set<string>, root: Mention, found: Found)
    requires Justified(package, globals, root, found) && Documented(package, found)
    requires Covered(package, globals, found, []) && Handled(package, found, root)
    ensures Unambiguous(package, globals, root)
  {
    forall m | Reached(package, globals, root, m)
      ensures Pasteable(package, m)
    {
      ReachedHandled(package, globals, root, found, m);
    }
    forall m, n | Reached(package, globals, root, m) && Reached(package, globals, root, n) && m.name == n.name
      ensures Resolve(package, m) == Resolve(package, n)
    {
      ReachedHandled(package, globals, root, found, m);
      ReachedHandled(package, globals, root, found, n);
      HandledAgree(package, globals, root, found, m, n);
    }
  }

  // ----- the names a closure can paste -----

  function NamesOf(package: Package, root: Mention): set<string> {
    {root.name} + set f, d, n | f in package && d in package[f].decls && n in package[f].decls[d].names :: n
  }

  predicate Named(package: Package, root: Mention, queue: seq<Mention>) {
    forall m {:trigger m in queue} :: m in queue ==> m.name in NamesOf(package, root)
  }

  lemma LeadsToNamed(package: Package, globals: set<string>, root: Mention, queue: seq<Mention>, m: Mention)
    requires Named(package, root, queue)
    ensures Named(package, root, queue + LeadsTo(package, globals, m))
  {
  }

  lemma FewerNames(universe: set<string>, pasted: set<string>, name: string)
    requires name in universe && name !in pasted
    ensures |universe - (pasted + {name})| < |universe - pasted|
  {
    assert universe - (pasted + {name}) == (universe - pasted) - {name};
  }

  // ----- soundness while nothing is rejected -----

  // For every mention reached, the chain of imports followed for it ends: the
  // source's resolution returns.
  ghost predicate Answers(package: Package, globals: set<string>, root: Mention) {
    forall m :: Reached(package, globals, root, m) ==> ChainEnds(package, m)
  }

  // As long as nothing is rejected.
  ghost predicate Sound(package: Package, globals: set<string>, root: Mention, found: Found, queue: seq<Mention>) {
    && Covered(package, globals, found, queue) && Documented(package, found)
    && (Handled(package, found, root) || root in queue)
  }

  lemma SoundStep(package: Package, globals: set<string>, root: Mention, found: Found, m: Mention, rest: seq<Mention>,
                  added: seq<Mention>)
    requires Justified(package, globals, root, found) && Sound(package, globals, root, found, [m] + rest)
    requires !Take(package, root, found, m).Rejected? && Pasteable(package, m)
    requires Take(package, root, found, m).Pastes? ==> LeadsTo(package, globals, m) == added
    ensures Sound(package, globals, root, Added(found, m, Take(package, root, found, m)), rest + added)
  {
    CoveredStep(package, globals, root, found, m, rest, added);
    DocumentedStep(package, globals, root, found, m);
    AddedHandles(package, root, found, m);
    if Handled(package, found, root) {
      AddedKeeps(package, globals, root, found, m, root);
    }
  }

  // ----- one round -----

  datatype Work = Work(found: Found, pastes: seq<Pointer>, queue: seq<Mention>, violations: seq<Violation>)

  ghost predicate Valid(package: Package, globals: set<string>, root: Mention, w: Work) {
    && Justified(package, globals, root, w.found)
    && AllReached(package, globals, root, w.queue) && Named(package, root, w.queue)
    && |w.pastes| == |w.found.pasted|
    && (if w.violations == [] then Sound(package, globals, root, w.found, w.queue)
        else !Unambiguous(package, globals, root))
  }

  // What resolving a rejected mention and rejecting it report.
  function Reports(package: Package, m: Mention, violation: Violation): seq<Violation> {
    (if Resolve(package, m) == Unresolved(1) then [BadImport] else []) + [violation]
  }

  function Undocumented(n: nat): (vs: seq<Violation>)
    ensures |vs| == n
  {
    if n == 0 then [] else [NoDocumentation] + Undocumented(n - 1)
  }

  // The first mention of the queue is rejected, recorded, or pasted.
  function Round(package: Package, globals: set<string>, root: Mention, w: Work): Work
    requires w.queue != []
  {
    var m, rest := w.queue[0], w.queue[1..];
    var taken := Take(package, root, w.found, m);
    match taken
    case Rejected(violation) =>
      w.(queue := rest, violations := w.violations + Reports(package, m, violation))
    case Pastes(pointer, file) =>
      Work(Added(w.found, m, taken), w.pastes + [pointer], rest + MentionsOf(package, file, m.name, globals),
           w.violations + Undocumented(DeclOfName(package, file, m.name).undocumented))
    case _ =>
      w.(found := Added(w.found, m, taken), queue := rest)
  }

  lemma RestValid(package: Package, globals: set<string>, root: Mention, m: Mention, rest: seq<Mention>)
    requires AllReached(package, globals, root, [m] + rest) && Named(package, root, [m] + rest)
    ensures Reached(package, globals, root, m) && m.name in NamesOf(package, root)
    ensures AllReached(package, globals, root, rest) && Named(package, root, rest)
  {
    assert m in [m] + rest;
    assert forall x :: x in rest ==> x in [m] + rest;
  }

  lemma RejectValid(package: Package, globals: set<string>, root: Mention, found: Found, m: Mention, rest: seq<Mention>,
                    pastes: seq<Pointer>, violations: seq<Violation>, more: seq<Violation>)
    requires Valid(package, globals, root, Work(found, pastes, [m] + rest, violations)) && more != []
    requires Take(package, root, found, m).Rejected?
    ensures Valid(package, globals, root, Work(found, pastes, rest, violations + more))
  {
    RestValid(package, globals, root, m, rest);
    RejectedIsAmbiguous(package, globals, root, found, m);
  }

  lemma ReferValid(package: Package, globals: set<string>, root: Mention, found: Found, m: Mention, rest: seq<Mention>,
                   pastes: seq<Pointer>, violations: seq<Violation>)
    requires Valid(package, globals, root, Work(found, pastes, [m] + rest, violations))
    requires Take(package, root, found, m).Kept? || Take(package, root, found, m).Refers?
    ensures Valid(package, globals, root, Work(Added(found, m, Take(package, root, found, m)),
                                              pastes, rest, violations))
  {
    RestValid(package, globals, root, m, rest);
    AddedJustified(package, globals, root, found, m);
    if violations == [] {
      ReferSound(package, globals, root, found, m, rest);
    }
  }

  lemma ReferSound(package: Package, globals: set<string>, root: Mention, found: Found, m: Mention, rest: seq<Mention>)
    requires Justified(package, globals, root, found) && Sound(package, globals, root, found, [m] + rest)
    requires Take(package, root, found, m).Kept? || Take(package, root, found, m).Refers?
    ensures Sound(package, globals, root, Added(found, m, Take(package, root, found, m)), rest)
  {
    KeptPasteable(package, globals, root, found, m);
    SoundStep(package, globals, root, found, m, rest, []);
    assert rest + [] == rest;
  }

  // A mention of a declaration already pasted is documented as that one was.
  lemma KeptPasteable(package: Package, globals: set<string>, root: Mention, found: Found, m: Mention)
    requires Documented(package, found)
    requires Take(package, root, found, m).Kept? || Take(package, root, found, m).Refers?
    ensures Pasteable(package, m)
  {
    if Take(package, root, found, m).Kept? {
      assert Handled(package, found, m);
    }
  }

  lemma NotPasteable(package: Package, globals: set<string>, root: Mention, m: Mention)
    requires Reached(package, globals, root, m) && !Pasteable(package, m)
    ensures !Unambiguous(package, globals, root)
  {
  }

  lemma PastedKeys(found: Found, m: Mention, taken: Taken)
    requires taken.Pastes? && m.name !in found.pasted
    ensures Added(found, m, taken).pasted.Keys == found.pasted.Keys + {m.name}
    ensures |Added(found, m, taken).pasted| == |found.pasted| + 1
  {
    assert Added(found, m, taken).pasted.Keys == found.pasted.Keys + {m.name};
    assert |Added(found, m, taken).pasted.Keys| == |found.pasted.Keys| + 1;
  }

  lemma PasteValid(package: Package, globals: set<string>, root: Mention, found: Found, m: Mention, rest: seq<Mention>,
                   pastes: seq<Pointer>, violations: seq<Violation>, pointer: Pointer, more: seq<Violation>)
    requires Valid(package, globals, root, Work(found, pastes, [m] + rest, violations))
    requires Take(package, root, found, m).Pastes? && (more == [] <==> Pasteable(package, m))
    ensures Valid(package, globals, root, Work(Added(found, m, Take(package, root, found, m)), pastes + [pointer],
                                               rest + LeadsTo(package, globals, m), violations + more))
  {
    RestValid(package, globals, root, m, rest);
    AddedJustified(package, globals, root, found, m);
    QueueReached(package, globals, root, rest, m);
    LeadsToNamed(package, globals, root, rest, m);
    PastedKeys(found, m, Take(package, root, found, m));
    if more != [] {
      NotPasteable(package, globals, root, m);
    } else if violations == [] {
      PasteSound(package, globals, root, found, m, rest);
    }
  }

  lemma PasteSound(package: Package, globals: set<string>, root: Mention, found: Found, m: Mention, rest: seq<Mention>)
    requires Justified(package, globals, root, found) && Sound(package, globals, root, found, [m] + rest)
    requires Take(package, root, found, m).Pastes? && Pasteable(package, m)
    ensures Sound(package, globals, root, Added(found, m, Take(package, root, found, m)),
                  rest + LeadsTo(package, globals, m))
  {
    SoundStep(package, globals, root, found, m, rest, LeadsTo(package, globals, m));
  }

  lemma FirstOfQueue(w: Work)
    requires w.queue != []
    ensures w == Work(w.found, w.pastes, [w.queue[0]] + w.queue[1..], w.violations)
  {
    assert w.queue == [w.queue[0]] + w.queue[1..];
  }

  lemma RoundRejects(package: Package, globals: set<string>, root: Mention, w: Work)
    requires w.queue != [] && Valid(package, globals, root, w)
    requires Take(package, root, w.found, w.queue[0]).Rejected?
    ensures Valid(package, globals, root, Round(package, globals, root, w))
  {
    FirstOfQueue(w);
    RejectValid(package, globals, root, w.found, w.queue[0], w.queue[1..], w.pastes, w.violations,
                Reports(package, w.queue[0], Take(package, root, w.found, w.queue[0]).violation));
  }

  lemma RoundPastes(package: Package, globals: set<string>, root: Mention, w: Work)
    requires w.queue != [] && Valid(package, globals, root, w)
    requires Take(package, root, w.found, w.queue[0]).Pastes?
    ensures Valid(package, globals, root, Round(package, globals, root, w))
  {
    var m := w.queue[0];
    var Pastes(pointer, file) := Take(package, root, w.found, m);
    FirstOfQueue(w);
    PasteValid(package, globals, root, w.found, m, w.queue[1..], w.pastes, w.violations, pointer,
               Undocumented(DeclOfName(package, file, m.name).undocumented));
  }

  lemma RoundValid(package: Package, globals: set<string>, root: Mention, w: Work)
    requires w.queue != [] && Valid(package, globals, root, w)
    ensures Valid(package, globals, root, Round(package, globals, root, w))
  {
    match Take(package, root, w.found, w.queue[0])
    case Rejected(_) => RoundRejects(package, globals, root, w);
    case Pastes(_, _) => RoundPastes(package, globals, root, w);
    case _ =>
      FirstOfQueue(w);
      ReferValid(package, globals, root, w.found, w.queue[0], w.queue[1..], w.pastes, w.violations);
  }

  predicate Lists(pasted: map<string, Pointer>, pastes: seq<Pointer>) {
    && (forall n :: n in pasted ==> pasted[n] in pastes)
    && (forall p :: p in pastes ==> p in pasted.Values)
  }

  // The pastes are the recorded declarations, the configuration type's first.
  predicate Listed(root: Mention, w: Work) {
    && Lists(w.found.pasted, w.pastes)
    && (w.violations == [] ==>
          if w.pastes == [] then w.queue == [root] && w.found == Found(map[], map[])
          else root.name in w.found.pasted && w.pastes[0] == w.found.pasted[root.name])
  }

  lemma PasteListed(pasted: map<string, Pointer>, pastes: seq<Pointer>, name: string, p: Pointer)
    requires Lists(pasted, pastes) && name !in pasted
    ensures Lists(pasted[name := p], pastes + [p])
  {
    var after := pasted[name := p];
    assert p in pastes + [p];
    forall q | q in pastes + [p]
      ensures q in after.Values
    {
      if q in pastes {
        var n :| n in pasted && pasted[n] == q;
        assert after[n] == q;
      } else {
        assert after[name] == q;
      }
    }
  }

  lemma RoundListed(package: Package, globals: set<string>, root: Mention, w: Work)
    requires w.queue != [] && Listed(root, w)
    ensures Listed(root, Round(package, globals, root, w))
  {
    var m := w.queue[0];
    var taken := Take(package, root, w.found, m);
    if taken.Pastes? {
      PasteListed(w.found.pasted, w.pastes, m.name, taken.pointer);
    }
  }

  // The queue only grows when a name is pasted for the first time.
  lemma RoundProgresses(package: Package, globals: set<string>, root: Mention, w: Work, universe: set<string>)
    requires w.queue != [] && w.queue[0].name in universe
    ensures var after := Round(package, globals, root, w);
            || |universe - after.found.pasted.Keys| < |universe - w.found.pasted.Keys|
            || (after.found.pasted == w.found.pasted && |after.queue| < |w.queue|)
  {
    var m := w.queue[0];
    var taken := Take(package, root, w.found, m);
    if taken.Pastes? {
      PastedKeys(w.found, m, taken);
      FewerNames(universe, w.found.pasted.Keys, m.name);
    }
  }
}
