/** `RegistryPublication.publish` and `verify` as they update the registry, tied
    command by command to one run of the protocol. */
module RegistryPublication {
  import opened Options
  import opened Registry
  import opened Publication
  import opened Convergence

  /** The registry as the npm client changes it, counting the writes it accepts. */
  class NpmRegistry {
    var state: State
    var writes: nat

    constructor (state: State)
      ensures this.state == state && writes == 0
    {
      this.state, writes := state, 0;
    }

    method Publish(name: Name, version: Version, integrity: Integrity, tag: Tag) returns (ok: bool)
      modifies this
      ensures ok == NpmPublish(old(state), name, version, integrity, tag).Some?
      ensures ok ==> Some(state) == NpmPublish(old(state), name, version, integrity, tag) && writes == old(writes) + 1
      ensures !ok ==> state == old(state) && writes == old(writes)
    {
      ok := (name, version) !in state.published;
      if ok {
        state := State(state.published[(name, version) := integrity], state.tags[(name, tag) := version]);
        writes := writes + 1;
      }
    }

    method AddDistTag(name: Name, version: Version, tag: Tag) returns (ok: bool)
      modifies this
      ensures ok == NpmDistTagAdd(old(state), name, version, tag).Some?
      ensures ok ==> Some(state) == NpmDistTagAdd(old(state), name, version, tag) && writes == old(writes) + 1
      ensures !ok ==> state == old(state) && writes == old(writes)
    {
      ok := (name, version) in state.published;
      if ok {
        state := state.(tags := state.tags[(name, tag) := version]);
        writes := writes + 1;
      }
    }
  }

  lemma Unroll(bundle: Bundle, s: State, pc: Pc)
    requires InRange(bundle, pc) && !Ended(pc)
    ensures RunAlone(bundle, s, pc) == RunAlone(bundle, Step(bundle, s, pc).0, Step(bundle, s, pc).1)
  {
  }

  lemma PackagePlaced(bundle: Bundle, s: State, i: nat)
    requires i < Size(bundle) && AllPlaced(bundle, s)
    ensures Placed(bundle, s, bundle.packages[i])
  {
  }

  class RegistryPublication {
    const bundle: Bundle
    const registry: NpmRegistry

    constructor (bundle: Bundle, registry: NpmRegistry)
      ensures this.bundle == bundle && this.registry == registry
    {
      this.bundle, this.registry := bundle, registry;
    }

    /** Move a tag unless it already points at this version. */
    method EnsureDistTag(name: Name, tag: Tag) returns (ok: bool)
      modifies registry
      ensures Points(old(registry.state), name, tag, bundle.version) ==>
                ok && registry.state == old(registry.state) && registry.writes == old(registry.writes)
      ensures !Points(old(registry.state), name, tag, bundle.version) ==>
                && ok == NpmDistTagAdd(old(registry.state), name, bundle.version, tag).Some?
                && (ok ==> Some(registry.state) == NpmDistTagAdd(old(registry.state), name, bundle.version, tag))
                && (!ok ==> registry.state == old(registry.state))
    {
      if Points(registry.state, name, tag, bundle.version) {
        return true;
      }
      ok := registry.AddDistTag(name, bundle.version, tag);
    }

    /** Publish one package unless it is there, and move its release dist-tag. */
    method PublishPackage(i: nat) returns (ok: bool)
      requires i < Size(bundle)
      modifies registry
      ensures RunAlone(bundle, old(registry.state), Check(i)) ==
              RunAlone(bundle, registry.state, if ok then Check(i + 1) else Failed)
      ensures Placed(bundle, old(registry.state), bundle.packages[i]) ==>
                ok && registry.state == old(registry.state) && registry.writes == old(registry.writes)
    {
      var package := bundle.packages[i];
      Unroll(bundle, registry.state, Check(i));
      if (package.name, bundle.version) !in registry.state.published {
        Unroll(bundle, registry.state, Upload(i));
        ok := registry.Publish(package.name, bundle.version, package.integrity, bundle.distTag);
      } else if registry.state.published[(package.name, bundle.version)] != package.integrity {
        return false;
      }
      ghost var before := registry.state;
      Unroll(bundle, before, ReadTag(i));
      ok := EnsureDistTag(package.name, bundle.distTag);
      if !Points(before, package.name, bundle.distTag, bundle.version) {
        Unroll(bundle, before, WriteTag(i));
      }
    }

    method VerifyRemote() returns (ok: bool)
      ensures ok <==> AllPlaced(bundle, registry.state)
      ensures RunAlone(bundle, registry.state, Verify(0))
              == RunAlone(bundle, registry.state, if ok then VerifyLatest else Failed)
    {
      for i := 0 to |bundle.packages|
        invariant PlacedUpTo(bundle, registry.state, i)
        invariant RunAlone(bundle, registry.state, Verify(0)) == RunAlone(bundle, registry.state, Verify(i))
      {
        var package := bundle.packages[i];
        Unroll(bundle, registry.state, Verify(i));
        assert package in bundle.packages;
        if (package.name, bundle.version) !in registry.state.published
           || registry.state.published[(package.name, bundle.version)] != package.integrity {
          return false;
        }
        Unroll(bundle, registry.state, VerifyTag(i));
        if !Points(registry.state, package.name, bundle.distTag, bundle.version) {
          return false;
        }
      }
      UpToEnd(bundle, registry.state);
      Unroll(bundle, registry.state, Verify(Size(bundle)));
      return true;
    }

    method VerifyReleaseEntryDistTag() returns (ok: bool)
      ensures ok <==> LatestIsThis(bundle, registry.state)
    {
      return Points(registry.state, RELEASE_ENTRY_PACKAGE, LATEST_DIST_TAG, bundle.version);
    }

    /** `publish()`: succeeds exactly when nothing conflicts and the entry package is
        available, then leaves the completed registry with every check passing, and
        writes nothing to a registry that is already complete. */
    method Publish() returns (ok: bool)
      requires Loadable(bundle)
      modifies registry
      ensures (registry.state, if ok then Done else Failed) == RunAlone(bundle, old(registry.state), Check(0))
      ensures ok <==> Completable(bundle, old(registry.state))
      ensures ok ==> registry.state == Completed(bundle, old(registry.state))
      ensures AllPlaced(bundle, old(registry.state)) && LatestIsThis(bundle, old(registry.state)) ==>
                ok && registry.state == old(registry.state) && registry.writes == old(registry.writes)
    {
      ghost var start, writes := registry.state, registry.writes;
      CompleteRun(bundle, start);
      ghost var finished := AllPlaced(bundle, start) && LatestIsThis(bundle, start);
      for i := 0 to |bundle.packages|
        invariant RunAlone(bundle, start, Check(0)) == RunAlone(bundle, registry.state, Check(i))
        invariant finished ==> registry.state == start && registry.writes == writes
      {
        if finished {
          PackagePlaced(bundle, start, i);
        }
        ok := PublishPackage(i);
        if !ok {
          return;
        }
      }
      ok := Finish();
    }

    /** After the last package: move `latest`, then verify what the registry holds. */
    method Finish() returns (ok: bool)
      modifies registry
      ensures (registry.state, if ok then Done else Failed)
              == RunAlone(bundle, old(registry.state), Check(Size(bundle)))
      ensures AllPlaced(bundle, old(registry.state)) && LatestIsThis(bundle, old(registry.state)) ==>
                registry.state == old(registry.state) && registry.writes == old(registry.writes)
    {
      ok := PublishLatest();
      if !ok {
        return;
      }
      ok := VerifyRemote();
      if !ok {
        return;
      }
      Unroll(bundle, registry.state, VerifyLatest);
      ok := VerifyReleaseEntryDistTag();
    }

    /** Move `latest` of the entry package, after every package. */
    method PublishLatest() returns (ok: bool)
      modifies registry
      ensures RunAlone(bundle, old(registry.state), Check(Size(bundle))) ==
              RunAlone(bundle, registry.state, if ok then Verify(0) else Failed)
      ensures LatestIsThis(bundle, old(registry.state)) ==>
                ok && registry.state == old(registry.state) && registry.writes == old(registry.writes)
    {
      ghost var before := registry.state;
      Unroll(bundle, before, Check(Size(bundle)));
      Unroll(bundle, before, ReadLatest);
      ok := EnsureDistTag(RELEASE_ENTRY_PACKAGE, LATEST_DIST_TAG);
      if !LatestIsThis(bundle, before) {
        Unroll(bundle, before, WriteLatest);
      }
    }
  }
}
