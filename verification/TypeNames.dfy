/**
 * Type names of one package: how a mentioned name resolves, and which mentions a
 * configuration type leads to (scripts/gen-config-catalog.ts:128-200).
 *
 * Files and their declarations are taken as data.  The pointer of a declaration
 * is its file and line.
 */
module TypeNames {
  type FileId = nat

  // A declaration's line, the type names it mentions without repetition, and how
  // many of its members lack documentation.
  datatype Decl = Decl(line: nat, names: seq<string>, undocumented: nat)

  // `target` is the file a relative specifier names.
  datatype Import = Import(imported: string, specifier: string, target: FileId)

  datatype File = File(decls: map<string, Decl>, imports: map<string, Import>)

  type Package = map<FileId, File>

  // An import left as a reference, and the place of a pasted declaration.
  datatype TypeRef = TypeRef(alias: string, imported: string, specifier: string)

  datatype Pointer = Pointer(file: FileId, line: nat)

  // A name and the file that mentions it.
  datatype Mention = Mention(name: string, file: FileId)

  // NoAnswer: the chain of imports comes back to a file or leaves the package.
  datatype Resolution = Declared(file: FileId) | External(ref: TypeRef) | Unresolved(problems: nat) | NoAnswer

  // What a file itself says about a name: an answer, or the file to ask next.
  datatype Here = Answer(resolution: Resolution) | Follow(target: FileId)

  predicate IsRelative(specifier: string) {
    "." <= specifier
  }

  predicate EndsInTs(specifier: string) {
    |specifier| >= 3 && specifier[|specifier| - 3..] == ".ts"
  }

  function Ask(package: Package, file: FileId, name: string): (here: Here)
    requires file in package
    ensures here.Answer? ==> here.resolution != NoAnswer
    ensures here.Answer? && here.resolution.Declared? ==> here.resolution.file == file && name in package[file].decls
    ensures here.Answer? && here.resolution.External? ==> here.resolution.ref.alias == name
  {
    if name in package[file].decls then Answer(Declared(file))
    else if name !in package[file].imports then Answer(Unresolved(0))
    else
      var imported := package[file].imports[name];
      if !IsRelative(imported.specifier) then Answer(External(TypeRef(name, imported.imported, imported.specifier)))
      else if !EndsInTs(imported.specifier) || imported.imported != name then Answer(Unresolved(1))
      else Follow(imported.target)
  }

  function ResolveFrom(package: Package, file: FileId, name: string, seen: set<FileId>): (r: Resolution)
    ensures r.Declared? ==> r.file in package && name in package[r.file].decls
    ensures r.External? ==> r.ref.alias == name
    decreases package.Keys - seen
  {
    if file !in package || file in seen then NoAnswer
    else
      match Ask(package, file, name)
      case Answer(r) => r
      case Follow(target) => ResolveFrom(package, target, name, seen + {file})
  }

  function Resolve(package: Package, m: Mention): (r: Resolution)
    ensures r.Declared? ==> r.file in package && m.name in package[r.file].decls
    ensures r.External? ==> r.ref.alias == m.name
  {
    ResolveFrom(package, m.file, m.name, {})
  }

  // ----- chains of imports -----

  // The resolution of the source, which remembers no files, after so many calls.
  function ResolveWithin(package: Package, file: FileId, name: string, calls: nat): Resolution
    decreases calls
  {
    if calls == 0 || file !in package then NoAnswer
    else
      match Ask(package, file, name)
      case Answer(r) => r
      case Follow(target) => ResolveWithin(package, target, name, calls - 1)
  }

  // The files followed for the name from a file lie in the package, and each
  // leads to one of smaller rank.
  ghost predicate Ranks(package: Package, name: string, file: FileId, rank: map<FileId, nat>) {
    && file in rank
    && forall f :: f in rank ==>
         f in package && (Ask(package, f, name).Follow? ==>
           var next := Ask(package, f, name).target; next in rank && rank[next] < rank[f])
  }

  // The chain of imports followed for a mention ends.
  ghost predicate ChainEnds(package: Package, m: Mention) {
    exists rank :: Ranks(package, m.name, m.file, rank)
  }

  lemma {:induction false} RankedResolves(package: Package, name: string, file: FileId, rank: map<FileId, nat>,
                                          seen: set<FileId>, calls: nat)
    requires Ranks(package, name, file, rank) && rank[file] < calls
    requires forall s :: s in seen && s in rank ==> rank[file] < rank[s]
    ensures ResolveFrom(package, file, name, seen) != NoAnswer
    ensures ResolveWithin(package, file, name, calls) == ResolveFrom(package, file, name, seen)
    decreases rank[file]
  {
    match Ask(package, file, name)
    case Answer(_) =>
    case Follow(target) => RankedResolves(package, name, target, rank, seen + {file}, calls - 1);
  }

  // An answer after finitely many calls ranks the files asked.
  lemma {:induction false} AnswerRanks(package: Package, name: string, file: FileId, calls: nat)
    returns (rank: map<FileId, nat>)
    requires ResolveWithin(package, file, name, calls) != NoAnswer
    ensures Ranks(package, name, file, rank)
    decreases calls
  {
    match Ask(package, file, name)
    case Answer(_) => rank := map[file := 0];
    case Follow(target) =>
      rank := AnswerRanks(package, name, target, calls - 1);
      if file !in rank {
        rank := rank[file := rank[target] + 1];
      }
  }

  lemma {:induction false} ResolveTakesCalls(package: Package, name: string, file: FileId, seen: set<FileId>)
    returns (calls: nat)
    requires ResolveFrom(package, file, name, seen) != NoAnswer
    ensures ResolveWithin(package, file, name, calls) == ResolveFrom(package, file, name, seen)
    decreases package.Keys - seen
  {
    match Ask(package, file, name)
    case Answer(_) => calls := 1;
    case Follow(target) =>
      calls := ResolveTakesCalls(package, name, target, seen + {file});
      calls := calls + 1;
  }

  // A name gets an answer exactly when the chain of imports followed for it ends,
  // and that is exactly when the source's recursion ends.
  lemma AnswersIffChainEnds(package: Package, m: Mention)
    ensures Resolve(package, m) != NoAnswer <==> ChainEnds(package, m)
    ensures ChainEnds(package, m) <==> exists calls :: ResolveWithin(package, m.file, m.name, calls) != NoAnswer
    ensures forall calls :: ResolveWithin(package, m.file, m.name, calls) in {NoAnswer, Resolve(package, m)}
  {
    if Resolve(package, m) != NoAnswer {
      var calls := ResolveTakesCalls(package, m.name, m.file, {});
    }
    forall calls | ResolveWithin(package, m.file, m.name, calls) != NoAnswer
      ensures ChainEnds(package, m) && ResolveWithin(package, m.file, m.name, calls) == Resolve(package, m)
    {
      var rank := AnswerRanks(package, m.name, m.file, calls);
      RankedResolves(package, m.name, m.file, rank, {}, rank[m.file] + calls + 1);
      MoreCalls(package, m.name, m.file, calls, rank[m.file] + calls + 1);
    }
    if rank :| Ranks(package, m.name, m.file, rank) {
      RankedResolves(package, m.name, m.file, rank, {}, rank[m.file] + 1);
    }
  }

  lemma {:induction false} MoreCalls(package: Package, name: string, file: FileId, calls: nat, more: nat)
    requires calls <= more && ResolveWithin(package, file, name, calls) != NoAnswer
    ensures ResolveWithin(package, file, name, more) == ResolveWithin(package, file, name, calls)
    decreases calls
  {
    match Ask(package, file, name)
    case Answer(_) =>
    case Follow(target) => MoreCalls(package, name, target, calls - 1, more - 1);
  }

  // Two files that import a name from each other, neither declaring it: the source
  // asks them in turn and never ends.
  lemma {:induction false} MutualImportsLoop(package: Package, m: Mention, a: FileId, b: FileId, calls: nat)
    requires {a, b} <= package.Keys && m.file == a
    requires Ask(package, a, m.name) == Follow(b) && Ask(package, b, m.name) == Follow(a)
    ensures ResolveWithin(package, a, m.name, calls) == NoAnswer && !ChainEnds(package, m)
    decreases calls
  {
    forall rank
      ensures !Ranks(package, m.name, a, rank)
    {
    }
    if calls > 0 {
      MutualImportsLoop(package, Mention(m.name, b), b, a, calls - 1);
    }
  }

  function MutualImports(name: string): Package {
    map[0 := File(map[], map[name := Import(name, "./b.ts", 1)]),
        1 := File(map[], map[name := Import(name, "./a.ts", 0)])]
  }

  lemma MutualImportsExample(name: string, calls: nat)
    ensures ResolveWithin(MutualImports(name), 0, name, calls) == NoAnswer
    ensures !ChainEnds(MutualImports(name), Mention(name, 0))
  {
    MutualImportsLoop(MutualImports(name), Mention(name, 0), 0, 1, calls);
  }

  // ----- the resolution by the files asked, in turn -----

  // The file neither declares the name nor answers for it: it imports it under its own
  // name from the next file, by a relative path with its extension.
  ghost predicate PassesOn(package: Package, file: FileId, name: string, next: FileId) {
    && file in package && name !in package[file].decls && name in package[file].imports
    && var i := package[file].imports[name];
       && i.specifier != "" && i.specifier[0] == '.' && (exists stem :: i.specifier == stem + ".ts")
       && i.imported == name && i.target == next
  }

  // The file answers for the name itself.
  ghost predicate Answered(package: Package, file: FileId, name: string, r: Resolution) {
    && file in package
    && if name in package[file].decls then r == Declared(file)
       else if name !in package[file].imports then r == Unresolved(0)
       else
         var i := package[file].imports[name];
         if i.specifier == "" || i.specifier[0] != '.' then r == External(TypeRef(name, i.imported, i.specifier))
         else r == Unresolved(1) && ((forall stem :: i.specifier != stem + ".ts") || i.imported != name)
  }

  ghost predicate AskedInTurn(package: Package, m: Mention, files: seq<FileId>) {
    && files != [] && files[0] == m.file
    && forall k, l :: 0 <= k < l < |files| && l == k + 1 ==> PassesOn(package, files[k], m.name, files[l])
  }

  ghost predicate AnsweredAfter(package: Package, m: Mention, files: seq<FileId>, r: Resolution) {
    AskedInTurn(package, m, files) && Answered(package, files[|files| - 1], m.name, r)
  }

  lemma AskIff(package: Package, file: FileId, name: string, next: FileId, r: Resolution)
    requires file in package
    ensures Ask(package, file, name) == Follow(next) <==> PassesOn(package, file, name, next)
    ensures Ask(package, file, name) == Answer(r) <==> Answered(package, file, name, r)
  {
    if name in package[file].imports {
      var specifier := package[file].imports[name].specifier;
      EndsIff(specifier);
      assert IsRelative(specifier) <==> specifier != "" && specifier[0] == '.';
    }
  }

  lemma EndsIff(specifier: string)
    ensures EndsInTs(specifier) <==> exists stem :: specifier == stem + ".ts"
  {
    if EndsInTs(specifier) {
      assert specifier == specifier[..|specifier| - 3] + ".ts";
    }
  }

  lemma {:induction false} WithinIsChain(package: Package, m: Mention, calls: nat) returns (files: seq<FileId>)
    requires ResolveWithin(package, m.file, m.name, calls) != NoAnswer
    ensures AnsweredAfter(package, m, files, ResolveWithin(package, m.file, m.name, calls))
    decreases calls
  {
    files := [m.file];
    match Ask(package, m.file, m.name)
    case Answer(r) =>
      AskIff(package, m.file, m.name, 0, r);
    case Follow(next) =>
      AskIff(package, m.file, m.name, next, NoAnswer);
      var rest := WithinIsChain(package, Mention(m.name, next), calls - 1);
      files := [m.file] + rest;
      AskedFirst(package, m, next, rest);
  }

  lemma AskedFirst(package: Package, m: Mention, next: FileId, rest: seq<FileId>)
    requires PassesOn(package, m.file, m.name, next) && AskedInTurn(package, Mention(m.name, next), rest)
    ensures AskedInTurn(package, m, [m.file] + rest)
  {
    var files := [m.file] + rest;
    forall k, l | 0 <= k < l < |files| && l == k + 1
      ensures PassesOn(package, files[k], m.name, files[l])
    {
      if k > 0 {
        assert files[k] == rest[k - 1] && files[l] == rest[l - 1];
      }
    }
  }

  lemma AskedNext(package: Package, m: Mention, files: seq<FileId>)
    requires AskedInTurn(package, m, files) && |files| > 1
    ensures PassesOn(package, m.file, m.name, files[1])
    ensures AskedInTurn(package, Mention(m.name, files[1]), files[1..])
  {
    var rest := files[1..];
    assert PassesOn(package, files[0], m.name, files[1]);
    forall k, l | 0 <= k < l < |rest| && l == k + 1
      ensures PassesOn(package, rest[k], m.name, rest[l])
    {
      assert rest[k] == files[k + 1] && rest[l] == files[l + 1];
    }
  }

  lemma {:induction false} ChainIsWithin(package: Package, m: Mention, files: seq<FileId>, r: Resolution)
    requires AnsweredAfter(package, m, files, r)
    ensures ResolveWithin(package, m.file, m.name, |files|) == r && r != NoAnswer
    decreases |files|
  {
    if |files| == 1 {
      AskIff(package, m.file, m.name, 0, r);
    } else {
      AskedNext(package, m, files);
      AskIff(package, m.file, m.name, files[1], r);
      ChainIsWithin(package, Mention(m.name, files[1]), files[1..], r);
    }
  }

  // A mention resolves to what the first file answers that does not pass the name on.
  lemma ResolveIff(package: Package, m: Mention, r: Resolution)
    ensures Resolve(package, m) == r && r != NoAnswer <==> exists files :: AnsweredAfter(package, m, files, r)
  {
    AnswersIffChainEnds(package, m);
    if Resolve(package, m) == r && r != NoAnswer {
      var calls :| ResolveWithin(package, m.file, m.name, calls) != NoAnswer;
      var files := WithinIsChain(package, m, calls);
    }
    if files :| AnsweredAfter(package, m, files, r) {
      ChainIsWithin(package, m, files, r);
    }
  }

  // ----- what a configuration type leads to -----

  function DeclOfName(package: Package, file: FileId, name: string): Decl
    requires file in package && name in package[file].decls
  {
    package[file].decls[name]
  }

  function PointerOf(package: Package, file: FileId, name: string): Pointer
    requires file in package && name in package[file].decls
  {
    Pointer(file, DeclOfName(package, file, name).line)
  }

  // The names a declaration mentions, seen from its file, without the global ones.
  function MentionsIn(names: seq<string>, file: FileId, globals: set<string>): (ms: seq<Mention>)
    ensures forall m :: m in ms <==> m.name in names && m.name !in globals && m.file == file
  {
    if names == [] then []
    else (if names[0] in globals then [] else [Mention(names[0], file)]) + MentionsIn(names[1..], file, globals)
  }

  function MentionsOf(package: Package, file: FileId, name: string, globals: set<string>): seq<Mention>
    requires file in package && name in package[file].decls
  {
    MentionsIn(DeclOfName(package, file, name).names, file, globals)
  }

  // The mentions one mention leads to: those of the declaration it resolves to.
  function LeadsTo(package: Package, globals: set<string>, m: Mention): seq<Mention> {
    var r := Resolve(package, m);
    if r.Declared? then MentionsOf(package, r.file, m.name, globals) else []
  }

  ghost predicate Trail(package: Package, globals: set<string>, root: Mention, trail: seq<Mention>) {
    && trail != [] && trail[0] == root
    && forall i, j :: 0 <= i && j == i + 1 && j < |trail| ==> trail[j] in LeadsTo(package, globals, trail[i])
  }

  ghost predicate TrailTo(package: Package, globals: set<string>, root: Mention, trail: seq<Mention>, m: Mention) {
    Trail(package, globals, root, trail) && trail[|trail| - 1] == m
  }

  ghost predicate Reached(package: Package, globals: set<string>, root: Mention, m: Mention) {
    exists trail :: TrailTo(package, globals, root, trail, m)
  }

  lemma RootReached(package: Package, globals: set<string>, root: Mention)
    ensures Reached(package, globals, root, root)
  {
    var trail := [root];
    assert TrailTo(package, globals, root, trail, root);
  }

  lemma StepReached(package: Package, globals: set<string>, root: Mention, m: Mention, next: Mention)
    requires Reached(package, globals, root, m) && next in LeadsTo(package, globals, m)
    ensures Reached(package, globals, root, next)
  {
    var trail :| TrailTo(package, globals, root, trail, m);
    var longer := trail + [next];
    assert TrailTo(package, globals, root, longer, next);
  }

  // ----- when a closure can be pasted -----

  ghost predicate Pasteable(package: Package, m: Mention) {
    match Resolve(package, m)
    case Declared(file) => DeclOfName(package, file, m.name).undocumented == 0
    case External(_) => true
    case _ => false
  }

  // Everything reached has one meaning per name, the root one in its own package.
  ghost predicate Unambiguous(package: Package, globals: set<string>, root: Mention) {
    && Resolve(package, root).Declared?
    && (forall m :: Reached(package, globals, root, m) ==> Pasteable(package, m))
    && (forall m, n :: Reached(package, globals, root, m) && Reached(package, globals, root, n) && m.name == n.name ==>
          Resolve(package, m) == Resolve(package, n))
  }
}
