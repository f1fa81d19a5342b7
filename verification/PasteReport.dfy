/**
 * What the paste worklist reports: the violations a closure earns, told from what
 * was pasted and referred to in the end.
 */
module PasteReport {
  import opened TypeNames
  import opened PasteClosure

  // The declaration of the name in the file mentions the type.
  ghost predicate Mentions(package: Package, globals: set<string>, file: FileId, name: string, m: Mention) {
    && file in package && name in package[file].decls
    && m.file == file && m.name in package[file].decls[name].names && m.name !in globals
  }

  // The configuration type itself, and what the pasted declarations mention.
  ghost predicate Met(package: Package, globals: set<string>, root: Mention, found: Found, m: Mention) {
    m == root || exists n :: n in found.pasted && Mentions(package, globals, found.pasted[n].file, n, m)
  }

  ghost predicate IsPasted(package: Package, found: Found, file: FileId, name: string) {
    && file in package && name in package[file].decls && name in found.pasted
    && found.pasted[name] == Pointer(file, package[file].decls[name].line)
  }

  ghost predicate IsReferredTo(found: Found, name: string, ref: TypeRef) {
    name in found.refs && found.refs[name].specifier == ref.specifier && found.refs[name].imported == ref.imported
  }

  // The mention is at odds with what was found.
  ghost predicate Deserves(package: Package, root: Mention, found: Found, m: Mention, v: Violation) {
    var r := Resolve(package, m);
    match v
    case NotResolved(n) => n == m.name && !r.Declared? && !r.External?
    case BadImport => r == Unresolved(1)
    case ConfigImported => r.External? && m.name == root.name
    case PastedAndImported(n) =>
      n == m.name && ((r.External? && n != root.name && n in found.pasted) || (r.Declared? && n in found.refs))
    case ImportedTwice(n) =>
      n == m.name && r.External? && n != root.name && n in found.refs && !IsReferredTo(found, n, r.ref)
    case DeclaredTwice(n) =>
      n == m.name && r.Declared? && n in found.pasted && !IsPasted(package, found, r.file, n)
    case NoDocumentation => false
  }

  // ----- what one mention settles -----

  predicate NameFound(found: Found, name: string) {
    name in found.pasted || name in found.refs
  }

  // Nothing found later changes what the mention deserves.
  ghost predicate Settled(package: Package, root: Mention, found: Found, violations: seq<Violation>, m: Mention) {
    var r := Resolve(package, m);
    && (r.Declared? || (r.External? && m.name != root.name) ==> NameFound(found, m.name))
    && forall v :: Deserves(package, root, found, m, v) ==> v in violations
  }

  // What is found under a name stays, and is of one kind.
  ghost predicate Grows(found: Found, after: Found) {
    && (forall n :: n in found.pasted ==> n in after.pasted && after.pasted[n] == found.pasted[n])
    && (forall n :: n in found.refs ==> n in after.refs && after.refs[n] == found.refs[n])
    && after.pasted.Keys !! after.refs.Keys
  }

  lemma AddedGrows(package: Package, globals: set<string>, root: Mention, found: Found, m: Mention)
    requires Justified(package, globals, root, found) && !Take(package, root, found, m).Rejected?
    ensures Grows(found, Added(found, m, Take(package, root, found, m)))
  {
    var taken := Take(package, root, found, m);
    if taken.Refers? {
      SameReference(package, globals, root, found, m);
    }
  }

  lemma SameReference(package: Package, globals: set<string>, root: Mention, found: Found, m: Mention)
    requires Justified(package, globals, root, found) && Take(package, root, found, m).Refers?
    ensures m.name in found.refs ==> found.refs[m.name] == Take(package, root, found, m).ref
    ensures m.name !in found.pasted
  {
    if m.name in found.refs {
      var n :| Imports(package, globals, root, m.name, found.refs[m.name], n);
    }
  }

  lemma DeservesStays(package: Package, root: Mention, found: Found, after: Found, m: Mention, v: Violation)
    requires Grows(found, after)
    ensures Deserves(package, root, found, m, v) ==> Deserves(package, root, after, m, v)
    ensures NameFound(found, m.name) && Deserves(package, root, after, m, v) ==> Deserves(package, root, found, m, v)
  {
  }

  lemma SettledStays(package: Package, root: Mention, found: Found, after: Found, violations: seq<Violation>,
                     more: seq<Violation>, m: Mention)
    requires Grows(found, after) && Settled(package, root, found, violations, m)
    ensures Settled(package, root, after, violations + more, m)
  {
    forall v | Deserves(package, root, after, m, v)
      ensures v in violations + more
    {
      DeservesStays(package, root, found, after, m, v);
    }
  }

  lemma RejectedDeserves(package: Package, root: Mention, found: Found, m: Mention, v: Violation)
    requires found.pasted.Keys !! found.refs.Keys && Take(package, root, found, m).Rejected?
    ensures Deserves(package, root, found, m, v) <==>
              v in Reports(package, m, Take(package, root, found, m).violation)
  {
  }

  lemma KeptDeservesNone(package: Package, root: Mention, found: Found, m: Mention, v: Violation)
    requires found.pasted.Keys !! found.refs.Keys && !Take(package, root, found, m).Rejected?
    ensures !Deserves(package, root, Added(found, m, Take(package, root, found, m)), m, v)
  {
  }

  lemma TakenFound(package: Package, root: Mention, found: Found, m: Mention)
    ensures var r := Resolve(package, m);
            r.Declared? || (r.External? && m.name != root.name) ==>
              NameFound(Added(found, m, Take(package, root, found, m)), m.name)
  {
  }

  // Taking a mention settles it, with the reports it deserves and no other.
  lemma TakenSettled(package: Package, root: Mention, found: Found, m: Mention, violations: seq<Violation>)
    requires found.pasted.Keys !! found.refs.Keys
    ensures var taken := Take(package, root, found, m);
            var after := Added(found, m, taken);
            var more := if taken.Rejected? then Reports(package, m, taken.violation) else [];
            && Settled(package, root, after, violations + more, m)
            && forall v :: v in more ==> Deserves(package, root, after, m, v)
  {
    var taken := Take(package, root, found, m);
    TakenFound(package, root, found, m);
    forall v
      ensures Deserves(package, root, Added(found, m, taken), m, v) <==>
                taken.Rejected? && v in Reports(package, m, taken.violation)
    {
      if taken.Rejected? {
        RejectedDeserves(package, root, found, m, v);
      } else {
        KeptDeservesNone(package, root, found, m, v);
      }
    }
  }

  // ----- while the worklist runs -----

  // The declaration lacks documentation somewhere.
  ghost predicate LacksProse(package: Package, found: Found, n: string) {
    && n in found.pasted && found.pasted[n].file in package && n in package[found.pasted[n].file].decls
    && package[found.pasted[n].file].decls[n].undocumented > 0
  }

  ghost predicate Complete(package: Package, globals: set<string>, root: Mention, w: Work) {
    forall m :: Met(package, globals, root, w.found, m) ==>
      m in w.queue || Settled(package, root, w.found, w.violations, m)
  }

  ghost predicate Earned(package: Package, globals: set<string>, root: Mention, found: Found, v: Violation) {
    if v.NoDocumentation? then exists n :: LacksProse(package, found, n)
    else exists m :: Met(package, globals, root, found, m) && Deserves(package, root, found, m, v)
  }

  ghost predicate Accounted(package: Package, globals: set<string>, root: Mention, w: Work) {
    && Complete(package, globals, root, w)
    && (forall m {:trigger m in w.queue} :: m in w.queue ==> Met(package, globals, root, w.found, m))
    && (forall v :: v in w.violations ==> Earned(package, globals, root, w.found, v))
    && (forall n :: LacksProse(package, w.found, n) ==> NoDocumentation in w.violations)
  }

  lemma MetGrows(package: Package, globals: set<string>, root: Mention, found: Found, after: Found, m: Mention)
    requires Grows(found, after) && Met(package, globals, root, found, m)
    ensures Met(package, globals, root, after, m)
  {
    if m != root {
      var n :| n in found.pasted && Mentions(package, globals, found.pasted[n].file, n, m);
      assert n in after.pasted && after.pasted[n] == found.pasted[n];
    }
  }

  lemma EarnedStays(package: Package, globals: set<string>, root: Mention, found: Found, after: Found, v: Violation)
    requires Grows(found, after) && Earned(package, globals, root, found, v)
    ensures Earned(package, globals, root, after, v)
  {
    if v.NoDocumentation? {
      var n :| LacksProse(package, found, n);
      assert LacksProse(package, after, n);
    } else {
      var m :| Met(package, globals, root, found, m) && Deserves(package, root, found, m, v);
      MetGrows(package, globals, root, found, after, m);
      DeservesStays(package, root, found, after, m, v);
    }
  }

  // ----- one round -----

  function MoreReports(package: Package, m: Mention, taken: Taken): seq<Violation>
    requires taken.Pastes? ==> taken.file in package && m.name in package[taken.file].decls
  {
    match taken
    case Rejected(violation) => Reports(package, m, violation)
    case Pastes(_, file) => Undocumented(DeclOfName(package, file, m.name).undocumented)
    case _ => []
  }

  function MoreMentions(package: Package, globals: set<string>, m: Mention, taken: Taken): seq<Mention>
    requires taken.Pastes? ==> taken.file in package && m.name in package[taken.file].decls
  {
    if taken.Pastes? then MentionsOf(package, taken.file, m.name, globals) else []
  }

  lemma RoundShape(package: Package, globals: set<string>, root: Mention, w: Work)
    requires w.queue != [] && Justified(package, globals, root, w.found)
    ensures var m, after := w.queue[0], Round(package, globals, root, w);
            var taken := Take(package, root, w.found, m);
            && after.found == Added(w.found, m, taken) && Grows(w.found, after.found)
            && after.violations == w.violations + MoreReports(package, m, taken)
            && after.queue == w.queue[1..] + MoreMentions(package, globals, m, taken)
  {
    if !Take(package, root, w.found, w.queue[0]).Rejected? {
      AddedGrows(package, globals, root, w.found, w.queue[0]);
    }
    assert w.queue[1..] + [] == w.queue[1..] && w.violations + [] == w.violations;
  }

  lemma UndocumentedMembers(n: nat)
    ensures forall v :: v in Undocumented(n) ==> v == NoDocumentation
    ensures n > 0 ==> NoDocumentation in Undocumented(n)
  {
  }

  // A mention met after the round was met before, or is mentioned by what was pasted.
  lemma MetBefore(package: Package, globals: set<string>, root: Mention, found: Found, m: Mention, other: Mention)
    requires var taken := Take(package, root, found, m); Met(package, globals, root, Added(found, m, taken), other)
    ensures Met(package, globals, root, found, other)
            || other in MoreMentions(package, globals, m, Take(package, root, found, m))
  {
    var taken := Take(package, root, found, m);
    var after := Added(found, m, taken);
    if other != root {
      var n :| n in after.pasted && Mentions(package, globals, after.pasted[n].file, n, other);
      if taken.Pastes? && n == m.name {
        assert after.pasted[n].file == taken.file;
      } else {
        assert n in found.pasted && found.pasted[n] == after.pasted[n];
      }
    }
  }

  lemma MoreAreMet(package: Package, globals: set<string>, root: Mention, found: Found, m: Mention, other: Mention)
    requires other in MoreMentions(package, globals, m, Take(package, root, found, m))
    ensures Met(package, globals, root, Added(found, m, Take(package, root, found, m)), other)
  {
    var taken := Take(package, root, found, m);
    var after := Added(found, m, taken);
    assert m.name in after.pasted && Mentions(package, globals, after.pasted[m.name].file, m.name, other);
  }

  lemma TakenIsSettled(package: Package, globals: set<string>, root: Mention, found: Found, m: Mention,
                       violations: seq<Violation>)
    requires Justified(package, globals, root, found)
    ensures var taken := Take(package, root, found, m);
            Settled(package, root, Added(found, m, taken), violations + MoreReports(package, m, taken), m)
  {
    TakenSettled(package, root, found, m, violations);
    var taken := Take(package, root, found, m);
    if !taken.Rejected? {
      forall v
        ensures !Deserves(package, root, Added(found, m, taken), m, v)
      {
        TakenSettled(package, root, found, m, []);
      }
    }
  }

  lemma RoundComplete(package: Package, globals: set<string>, root: Mention, w: Work)
    requires w.queue != [] && Justified(package, globals, root, w.found) && Complete(package, globals, root, w)
    ensures Complete(package, globals, root, Round(package, globals, root, w))
  {
    var m, after := w.queue[0], Round(package, globals, root, w);
    var more := MoreReports(package, m, Take(package, root, w.found, m));
    RoundShape(package, globals, root, w);
    forall other | Met(package, globals, root, after.found, other)
      ensures other in after.queue || Settled(package, root, after.found, after.violations, other)
    {
      MetBefore(package, globals, root, w.found, m, other);
      if other == m {
        TakenIsSettled(package, globals, root, w.found, m, w.violations);
      } else if other in w.queue {
        assert w.queue == [m] + w.queue[1..];
      } else if Met(package, globals, root, w.found, other) {
        SettledStays(package, root, w.found, after.found, w.violations, more, other);
      }
    }
  }

  lemma RoundMet(package: Package, globals: set<string>, root: Mention, w: Work)
    requires w.queue != [] && Justified(package, globals, root, w.found)
    requires forall m {:trigger m in w.queue} :: m in w.queue ==> Met(package, globals, root, w.found, m)
    ensures var after := Round(package, globals, root, w);
            forall m {:trigger m in after.queue} :: m in after.queue ==> Met(package, globals, root, after.found, m)
  {
    var m, after := w.queue[0], Round(package, globals, root, w);
    RoundShape(package, globals, root, w);
    forall other | other in after.queue
      ensures Met(package, globals, root, after.found, other)
    {
      if other in w.queue[1..] {
        assert other in w.queue;
        MetGrows(package, globals, root, w.found, after.found, other);
      } else {
        MoreAreMet(package, globals, root, w.found, m, other);
      }
    }
  }

  lemma RoundEarned(package: Package, globals: set<string>, root: Mention, w: Work)
    requires w.queue != [] && Justified(package, globals, root, w.found)
    requires Met(package, globals, root, w.found, w.queue[0])
    requires forall v :: v in w.violations ==> Earned(package, globals, root, w.found, v)
    ensures var after := Round(package, globals, root, w);
            forall v :: v in after.violations ==> Earned(package, globals, root, after.found, v)
  {
    var m, after := w.queue[0], Round(package, globals, root, w);
    var taken := Take(package, root, w.found, m);
    RoundShape(package, globals, root, w);
    forall v | v in after.violations
      ensures Earned(package, globals, root, after.found, v)
    {
      if v in w.violations {
        EarnedStays(package, globals, root, w.found, after.found, v);
      } else if taken.Pastes? {
        UndocumentedMembers(DeclOfName(package, taken.file, m.name).undocumented);
        assert LacksProse(package, after.found, m.name);
      } else {
        TakenSettled(package, root, w.found, m, w.violations);
        MetGrows(package, globals, root, w.found, after.found, m);
      }
    }
  }

  lemma RoundProse(package: Package, globals: set<string>, root: Mention, w: Work, n: string)
    requires w.queue != [] && Justified(package, globals, root, w.found)
    requires LacksProse(package, w.found, n) ==> NoDocumentation in w.violations
    requires LacksProse(package, Round(package, globals, root, w).found, n)
    ensures NoDocumentation in Round(package, globals, root, w).violations
  {
    var m := w.queue[0];
    var taken := Take(package, root, w.found, m);
    RoundShape(package, globals, root, w);
    if taken.Pastes? && n == m.name {
      UndocumentedMembers(DeclOfName(package, taken.file, m.name).undocumented);
    } else {
      assert LacksProse(package, w.found, n);
    }
  }

  lemma RoundAccounted(package: Package, globals: set<string>, root: Mention, w: Work)
    requires w.queue != [] && Justified(package, globals, root, w.found) && Accounted(package, globals, root, w)
    ensures Accounted(package, globals, root, Round(package, globals, root, w))
  {
    assert w.queue[0] in w.queue;
    RoundComplete(package, globals, root, w);
    RoundMet(package, globals, root, w);
    RoundEarned(package, globals, root, w);
    forall n | LacksProse(package, Round(package, globals, root, w).found, n)
      ensures NoDocumentation in Round(package, globals, root, w).violations
    {
      RoundProse(package, globals, root, w, n);
    }
  }

  lemma StartAccounted(package: Package, globals: set<string>, root: Mention)
    ensures Accounted(package, globals, root, Work(Found(map[], map[]), [], [root], []))
  {
  }

  // Exactly the violations that the mentions met and the pasted declarations earn.
  lemma FinishedReports(package: Package, globals: set<string>, root: Mention, w: Work, v: Violation)
    requires Accounted(package, globals, root, w) && w.queue == []
    ensures v in w.violations <==> Earned(package, globals, root, w.found, v)
  {
    if Earned(package, globals, root, w.found, v) && !v.NoDocumentation? {
      var m :| Met(package, globals, root, w.found, m) && Deserves(package, root, w.found, m, v);
      assert Settled(package, root, w.found, w.violations, m);
    }
  }
}
