/** `collectProjectReferenceFaceViolations`: the worklist over Project References. */
module FaceTraversal {
  import opened Options
  import opened Graphs
  import opened ProjectFaces

  /** A reported edge: the config, the reference's target, the split project entered. */
  datatype Violation = Violation(config: Path, target: Path, splitRoot: Path, face: Option<Face>)

  /** The diagnosis of one reference edge. */
  function Judge(repo: Repo, config: Path, target: Path): Option<Violation>
    requires config in repo.configs
  {
    var face := FaceOf(repo, config);
    match ContainingSplitRoot(repo, target)
    case None => None
    case Some(splitRoot) =>
      if face.Some? && target == splitRoot + [Leaf(face.value)] then None
      else Some(Violation(config, target, splitRoot, face))
  }

  function Aggregates(repo: Repo): seq<Path> {
    [repo.root + [HOST_LEAF], repo.root + [CLIENT_LEAF]]
  }

  /** All reference edges of existing configs. */
  function AllEdges(repo: Repo): Graph<Path> {
    map config | config in repo.configs :: repo.configs[config].references
  }

  function Permitted(repo: Repo, config: Path, references: seq<Path>): seq<Path>
    requires config in repo.configs
  {
    if references == [] then []
    else
      var rest, last := Permitted(repo, config, references[..|references| - 1]), references[|references| - 1];
      if Judge(repo, config, last).None? then rest + [last] else rest
  }

  lemma {:induction false} PermittedMembers(repo: Repo, config: Path, references: seq<Path>, t: Path)
    requires config in repo.configs
    ensures t in Permitted(repo, config, references) <==> t in references && Judge(repo, config, t).None?
  {
    if references != [] {
      PermittedMembers(repo, config, references[..|references| - 1], t);
      assert references == references[..|references| - 1] + [references[|references| - 1]];
    }
  }

  /** The edges the traversal follows: those it does not report. */
  function PermittedEdges(repo: Repo): Graph<Path> {
    map config | config in repo.configs :: Permitted(repo, config, repo.configs[config].references)
  }

  ghost predicate Followed(repo: Repo, config: Path) {
    config in repo.configs && Reachable(PermittedEdges(repo), Aggregates(repo), config)
  }

  /** The violations of the listed configs, config by config, in reference order. */
  function ReportOf(repo: Repo, config: Path, references: seq<Path>): seq<Violation>
    requires config in repo.configs
  {
    if references == [] then []
    else
      var rest := ReportOf(repo, config, references[..|references| - 1]);
      var last := Judge(repo, config, references[|references| - 1]);
      if last.Some? then rest + [last.value] else rest
  }

  function Report(repo: Repo, order: seq<Path>): seq<Violation>
    requires forall c :: c in order ==> c in repo.configs
  {
    if order == [] then []
    else
      var last := order[|order| - 1];
      Report(repo, order[..|order| - 1]) + ReportOf(repo, last, repo.configs[last].references)
  }

  lemma {:induction false} ReportOfMembers(repo: Repo, config: Path, references: seq<Path>)
    requires config in repo.configs
    ensures forall v :: v in ReportOf(repo, config, references) <==>
              exists t :: t in references && Judge(repo, config, t) == Some(v)
  {
    if references != [] {
      ReportOfMembers(repo, config, references[..|references| - 1]);
      assert references == references[..|references| - 1] + [references[|references| - 1]];
    }
  }

  lemma {:induction false} ReportMembers(repo: Repo, order: seq<Path>)
    requires forall c :: c in order ==> c in repo.configs
    ensures forall v :: v in Report(repo, order) <==>
              exists c, t :: c in order && t in repo.configs[c].references && Judge(repo, c, t) == Some(v)
  {
    if order != [] {
      var last := order[|order| - 1];
      ReportMembers(repo, order[..|order| - 1]);
      ReportOfMembers(repo, last, repo.configs[last].references);
      assert order == order[..|order| - 1] + [last];
    }
  }

  ghost predicate NoRepeats(order: seq<Path>) {
    forall i, j :: 0 <= i < j < |order| ==> order[i] != order[j]
  }

  /** Each config that permitted edges reach is judged once, reference by reference. */
  ghost predicate ReportsReachable(repo: Repo, order: seq<Path>, violations: seq<Violation>) {
    && NoRepeats(order)
    && (forall c :: c in order <==> Followed(repo, c))
    && violations == Report(repo, order)
  }

  method JudgeReferences(repo: Repo, config: Path, violations0: seq<Violation>, pending0: seq<Path>)
    returns (violations: seq<Violation>, pending: seq<Path>)
    requires config in repo.configs
    ensures violations == violations0 + ReportOf(repo, config, repo.configs[config].references)
    ensures pending == pending0 + Permitted(repo, config, repo.configs[config].references)
  {
    var references := repo.configs[config].references;
    violations, pending := violations0, pending0;
    for i := 0 to |references|
      invariant violations == violations0 + ReportOf(repo, config, references[..i])
      invariant pending == pending0 + Permitted(repo, config, references[..i])
    {
      Extend(repo, config, references, i);
      var verdict := Judge(repo, config, references[i]);
      if verdict.Some? {
        violations := violations + [verdict.value];
        continue;
      }
      pending := pending + [references[i]];
    }
    assert references[..|references|] == references;
  }

  lemma Extend(repo: Repo, config: Path, references: seq<Path>, i: nat)
    requires config in repo.configs && i < |references|
    ensures var verdict := Judge(repo, config, references[i]);
            && ReportOf(repo, config, references[..i + 1])
               == ReportOf(repo, config, references[..i]) + (if verdict.Some? then [verdict.value] else [])
            && Permitted(repo, config, references[..i + 1])
               == Permitted(repo, config, references[..i]) + (if verdict.None? then [references[i]] else [])
  {
    assert references[..i + 1][..i] == references[..i];
  }

  /** Where the worklist stands. */
  ghost predicate Progress(repo: Repo, visited: set<Path>, pending: seq<Path>, order: seq<Path>) {
    && visited <= repo.configs.Keys
    && Frontier(PermittedEdges(repo), Aggregates(repo), visited, pending)
    && (forall p :: p in pending || p in visited ==> Reachable(PermittedEdges(repo), Aggregates(repo), p))
    && NoRepeats(order)
    && (forall c :: c in order <==> c in visited)
  }

  lemma ProgressStarts(repo: Repo)
    ensures Progress(repo, {}, Aggregates(repo), [])
  {
    forall p | p in Aggregates(repo)
      ensures Reachable(PermittedEdges(repo), Aggregates(repo), p)
    {
      StartReachable(PermittedEdges(repo), Aggregates(repo), p);
    }
  }

  lemma ProgressSkips(repo: Repo, visited: set<Path>, rest: seq<Path>, config: Path, order: seq<Path>)
    requires Progress(repo, visited, rest + [config], order)
    requires config in visited || config !in repo.configs
    ensures Progress(repo, visited, rest, order)
  {
    FrontierVisit(PermittedEdges(repo), Aggregates(repo), visited, rest, config);
    assert forall p :: p in rest ==> p in rest + [config];
  }

  lemma ProgressVisits(repo: Repo, visited: set<Path>, rest: seq<Path>, config: Path, order: seq<Path>)
    requires Progress(repo, visited, rest + [config], order)
    requires config !in visited && config in repo.configs
    ensures Progress(repo, visited + {config}, rest + Permitted(repo, config, repo.configs[config].references),
                     order + [config])
  {
    var graph := PermittedEdges(repo);
    FrontierVisit(graph, Aggregates(repo), visited, rest, config);
    assert forall p :: p in rest ==> p in rest + [config];
    assert config in rest + [config];
    AppendReachable(graph, Aggregates(repo), rest, config);
    assert rest + Next(graph, config) == rest + Permitted(repo, config, repo.configs[config].references);
  }

  lemma ProgressEnds(repo: Repo, visited: set<Path>, order: seq<Path>)
    requires Progress(repo, visited, [], order)
    ensures forall c :: c in order <==> Followed(repo, c)
  {
    forall c
      ensures c in order <==> Followed(repo, c)
    {
      if Followed(repo, c) {
        ClosedContainsReachable(PermittedEdges(repo), Aggregates(repo), visited, c);
      }
    }
  }

  /** The edge from a followed config is judged with this violation. */
  ghost predicate Earns(repo: Repo, config: Path, target: Path, violation: Violation) {
    Followed(repo, config) && config in repo.configs && target in repo.configs[config].references
    && Judge(repo, config, target) == Some(violation)
  }

  lemma ReportIsEarned(repo: Repo, order: seq<Path>, violations: seq<Violation>, v: Violation)
    requires ReportsReachable(repo, order, violations)
    ensures v in violations <==> exists c, t :: Earns(repo, c, t, v)
  {
    ReportMembers(repo, order);
    if v in violations {
      var c, t :| c in order && t in repo.configs[c].references && Judge(repo, c, t) == Some(v);
      assert Earns(repo, c, t, v);
    }
  }

  method CollectViolations(repo: Repo) returns (violations: seq<Violation>, ghost order: seq<Path>)
    ensures ReportsReachable(repo, order, violations)
    ensures violations == [] <==> AllReachableObey(repo)
    ensures forall v :: v in violations <==> exists c, t :: Earns(repo, c, t, v)
  {
    violations, order := [], [];
    var pending := Aggregates(repo);
    var visited: set<Path> := {};
    ProgressStarts(repo);
    while |pending| > 0
      invariant Progress(repo, visited, pending, order)
      invariant violations == Report(repo, order)
      decreases repo.configs.Keys - visited, |pending|
    {
      var config := pending[|pending| - 1];
      var rest := pending[..|pending| - 1];
      LastApart(pending);
      if config in visited || config !in repo.configs {
        ProgressSkips(repo, visited, rest, config, order);
        pending := rest;
        continue;
      }
      ProgressVisits(repo, visited, rest, config, order);
      ReportExtends(repo, order, config);
      violations, pending := JudgeReferences(repo, config, violations, rest);
      visited := visited + {config};
      order := order + [config];
    }
    ProgressEnds(repo, visited, order);
    EmptyIffAllObey(repo, order, violations);
    AllReportsEarned(repo, order, violations);
  }

  lemma LastApart(paths: seq<Path>)
    requires paths != []
    ensures paths == paths[..|paths| - 1] + [paths[|paths| - 1]]
  {
  }

  lemma ReportExtends(repo: Repo, order: seq<Path>, config: Path)
    requires config in repo.configs && forall c :: c in order ==> c in repo.configs
    ensures Report(repo, order + [config])
            == Report(repo, order) + ReportOf(repo, config, repo.configs[config].references)
  {
    assert (order + [config])[..|order|] == order;
  }

  lemma AllReportsEarned(repo: Repo, order: seq<Path>, violations: seq<Violation>)
    requires ReportsReachable(repo, order, violations)
    ensures forall v :: v in violations <==> exists c, t :: Earns(repo, c, t, v)
  {
    forall v
      ensures v in violations <==> exists c, t :: Earns(repo, c, t, v)
    {
      ReportIsEarned(repo, order, violations, v);
    }
  }

  lemma AppendReachable(graph: Graph<Path>, starts: seq<Path>, rest: seq<Path>, config: Path)
    requires Reachable(graph, starts, config) && forall p :: p in rest ==> Reachable(graph, starts, p)
    ensures forall p :: p in rest + Next(graph, config) ==> Reachable(graph, starts, p)
  {
    forall p | p in rest + Next(graph, config)
      ensures Reachable(graph, starts, p)
    {
      if p !in rest {
        StepReachable(graph, starts, config, p);
      }
    }
  }

  // ---- Exact despite pruning ----

  /** A reference edge obeys the rule: where it enters a split project, it names the
      leaf of its source's face. */
  ghost predicate Obeys(repo: Repo, config: Path, target: Path)
    requires config in repo.configs
  {
    forall splitRoot :: ContainingSplitRoot(repo, target) == Some(splitRoot) ==>
      && FaceOf(repo, config).Some?
      && target == splitRoot + [Leaf(FaceOf(repo, config).value)]
  }

  ghost predicate AllReachableObey(repo: Repo) {
    forall c, t ::
      c in repo.configs && Reachable(AllEdges(repo), Aggregates(repo), c) && t in repo.configs[c].references ==>
        Obeys(repo, c, t)
  }

  lemma FollowedIsReachable(repo: Repo, config: Path)
    requires Followed(repo, config)
    ensures Reachable(AllEdges(repo), Aggregates(repo), config)
  {
    forall v, s | s in Next(PermittedEdges(repo), v)
      ensures s in Next(AllEdges(repo), v)
    {
      PermittedMembers(repo, v, repo.configs[v].references, s);
    }
    SubgraphReaches(PermittedEdges(repo), AllEdges(repo), Aggregates(repo), config);
  }

  /** With nothing reported nothing was pruned. */
  lemma NothingPruned(repo: Repo, order: seq<Path>, config: Path)
    requires ReportsReachable(repo, order, [])
    requires config in repo.configs && Reachable(AllEdges(repo), Aggregates(repo), config)
    ensures config in order
  {
    var visited := set c | c in order;
    forall v, s | v in visited && s in Next(AllEdges(repo), v) && s in repo.configs
      ensures s in visited
    {
      NoVerdict(repo, order, v, s);
      PermittedMembers(repo, v, repo.configs[v].references, s);
      StepReachable(PermittedEdges(repo), Aggregates(repo), v, s);
      assert Followed(repo, s);
    }
    forall s | s in Aggregates(repo) && s in repo.configs
      ensures s in visited
    {
      StartReachable(PermittedEdges(repo), Aggregates(repo), s);
      assert Followed(repo, s);
    }
    assert Frontier(AllEdges(repo), Aggregates(repo), visited, []);
    ClosedContainsReachable(AllEdges(repo), Aggregates(repo), visited, config);
  }

  lemma NoVerdict(repo: Repo, order: seq<Path>, config: Path, target: Path)
    requires ReportsReachable(repo, order, []) && config in order && target in repo.configs[config].references
    ensures Judge(repo, config, target).None?
  {
    ReportMembers(repo, order);
    assert forall v :: v !in Report(repo, order);
  }

  /** The violation list is empty exactly when every reference edge reachable from
      the two aggregates, through violations too, obeys the rule. */
  lemma EmptyIffAllObey(repo: Repo, order: seq<Path>, violations: seq<Violation>)
    requires ReportsReachable(repo, order, violations)
    ensures violations == [] <==> AllReachableObey(repo)
  {
    if violations == [] {
      forall c, t | c in repo.configs && Reachable(AllEdges(repo), Aggregates(repo), c)
                    && t in repo.configs[c].references
        ensures Obeys(repo, c, t)
      {
        NothingPruned(repo, order, c);
        NoVerdict(repo, order, c, t);
      }
    } else {
      ReportMembers(repo, order);
      assert violations[0] in violations;
      var c, t :| c in order && t in repo.configs[c].references && Judge(repo, c, t) == Some(violations[0]);
      FollowedIsReachable(repo, c);
      assert !Obeys(repo, c, t);
    }
  }
}
