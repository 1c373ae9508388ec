/** The compiling service itself: one call, step by step over its store. */
module SemanticService {
  import opened SemanticCompile
  import opened Wrappers

  method LoadSources(ids: set<Id>, sigs: map<Id, Signature>, docs: map<Id, Doc>, compiler: nat)
    returns (loaded: map<Id, Source>)
    ensures loaded == LoadAll(ids, sigs, docs, compiler)
  {
    loaded := map[];
    var rest := ids;
    while rest != {}
      invariant rest <= ids
      invariant loaded == LoadAll(ids - rest, sigs, docs, compiler)
      decreases rest
    {
      var id :| id in rest;
      rest := rest - {id};
      // Documents without IR nodes stay searchable but are not compiled.
      if id in sigs && id in docs && docs[id].nodes {
        loaded := loaded[id := Source(sigs[id], docs[id].sig.gen, compiler)];
      }
    }
    assert ids - rest == ids;
  }

  /** The changes off the fast path, from fingerprints. */
  method FindLoadedChanges(p: Plan, loaded: map<Id, Source>, fp: Fingerprint) returns (dirty: set<Id>, deleted: set<Id>)
    ensures dirty == SlowDirty(p, loaded, fp) && deleted == SlowDeleted(p, loaded)
  {
    dirty, deleted := {}, {};
    var rest := p.pending;
    while rest != {}
      invariant rest <= p.pending
      invariant dirty == (p.pending - rest) * loaded.Keys && deleted == (p.pending - rest) - loaded.Keys
      decreases rest
    {
      var id :| id in rest;
      rest := rest - {id};
      if id in loaded {
        dirty := dirty + {id};
      } else {
        deleted := deleted + {id};
      }
    }
    if p.previous.None? {
      return;
    }
    var prior := p.previous.value.fingerprints;
    if prior == map[] {
      // A compilation without fingerprints is never reused.
      dirty := dirty + loaded.Keys;
      deleted := deleted + (p.previous.value.ids - loaded.Keys);
      return;
    }
    rest := loaded.Keys;
    while rest != {}
      invariant rest <= loaded.Keys
      invariant forall id :: id in dirty <==>
        id in loaded && (id in p.pending || (id !in rest && (id !in prior || prior[id] != fp(id, loaded[id]))))
      decreases rest
    {
      var id :| id in rest;
      rest := rest - {id};
      if id !in prior || prior[id] != fp(id, loaded[id]) {
        dirty := dirty + {id};
      }
    }
    deleted := deleted + (prior.Keys - loaded.Keys);
  }

  /** One compilation active, any other one retired. */
  function Activated(comps: map<nat, Comp>, gen: nat): map<nat, Comp>
    requires gen in comps
  {
    var retired := map g | g in comps :: if comps[g].state == Active then comps[g].(state := Retired) else comps[g];
    retired[gen := retired[gen].(state := Active)]
  }

  /** Every compilation is kept as it is, but for the active one being retired. */
  predicate Retires(before: map<nat, Comp>, after: map<nat, Comp>) {
    forall g <- before ::
      g in after && after[g] == if before[g].state == Active then before[g].(state := Retired) else before[g]
  }

  lemma PublishingIsSound(comps: map<nat, Comp>, gen: nat, comp: Comp, docs: map<Id, Doc>, fp: Fingerprint)
    requires (forall g <- comps :: Sound(comps[g], docs, fp)) && Sound(comp, docs, fp) && comp.state == Building
    ensures var after := Activated(comps[gen := comp], gen);
      && after.Keys == comps.Keys + {gen} && after[gen] == comp.(state := Active)
      && (gen !in comps ==> Retires(comps, after))
      && forall g <- after :: Sound(after[g], docs, fp) && (after[g].state == Active <==> g == gen)
  {
    hide Sound;
    var after := Activated(comps[gen := comp], gen);
    forall g | g in after
      ensures Sound(after[g], docs, fp)
    {
      StateDoesNotMatter(if g == gen then comp else comps[g], after[g].state, docs, fp);
    }
  }

  class Service {
    var docs: map<Id, Doc>
    var pending: seq<Id>
    var comps: map<nat, Comp>
    var active: Option<nat>
    var compiler: nat
    const fp: Fingerprint

    ghost predicate Valid()
      reads this
    {
      && SoundDocs(docs)
      && (forall gen <- comps :: Sound(comps[gen], docs, fp) && (comps[gen].state == Active <==> active == Some(gen)))
      && (active.Some? ==> active.value in comps)
    }

    method NextGeneration() returns (gen: nat)
      ensures gen > 0 && (forall g <- comps :: g < gen) && (gen == 1 || gen - 1 in comps)
    {
      gen := 1;
      var rest := comps.Keys;
      while rest != {}
        invariant rest <= comps.Keys && gen > 0 && (gen == 1 || gen - 1 in comps)
        invariant forall g <- comps :: g !in rest ==> g < gen
        decreases rest
      {
        var g :| g in rest;
        rest := rest - {g};
        gen := if g >= gen then g + 1 else gen;
      }
    }

    /** What the compiler decides, without writing anything. */
    method Decide(p: Plan) returns (o: Outcome)
      requires p.pending == Elements(pending) && p.compiler == compiler
      requires p.previous.Some? ==> Coherent(p.previous.value, fp)
      ensures o == Compile(p, LoadAll(ToLoad(p), p.sigs, docs, p.compiler), fp)
    {
      hide LoadAll, DirtyIds, DeletedIds, CurrentIds, SlowDirty, SlowDeleted, Merge;
      var loaded, dirty, deleted, ids, fingerprints;
      if Fast(p) {
        var prior := p.previous.value;
        dirty, deleted := FindChanges(p.sigs, pending, prior.signatures, Changed(p));
        if dirty == {} && deleted == {} {
          return UpToDate;
        }
        loaded := LoadSources(dirty, p.sigs, docs, compiler);
        var ok;
        ids, fingerprints, ok := CollectCurrent(p.sigs, prior.ids, prior.fingerprints, dirty, loaded, fp);
        if !ok {
          return LacksFingerprint;
        }
      } else {
        loaded := LoadSources(p.sigs.Keys, p.sigs, docs, compiler);
        dirty, deleted := FindLoadedChanges(p, loaded, fp);
        ids, fingerprints := loaded.Keys, map id | id in loaded :: fp(id, loaded[id]);
      }
      assert fingerprints == FingerprintsOf(ids, loaded, PriorFingerprints(p), fp);
      o := Assemble(p, loaded, dirty, deleted, ids, fingerprints);
    }

    method Assemble(p: Plan, loaded: map<Id, Source>, dirty: set<Id>, deleted: set<Id>, ids: set<Id>,
                    fingerprints: map<Id, nat>)
      returns (o: Outcome)
      requires dirty == Dirty(p, loaded, fp) && deleted == Deleted(p, loaded) && ids == Current(p, loaded)
      requires fingerprints == FingerprintsOf(ids, loaded, PriorFingerprints(p), fp)
      requires Fast(p) ==>
        (dirty != {} || deleted != {}) && forall id <- ids :: id in loaded || id in PriorFingerprints(p)
      ensures o == Compile(p, loaded, fp)
    {
      hide Dirty, Deleted, Current, ToLoad, FingerprintsOf, Merge;
      if p.previous.None? && loaded == map[] {
        return NothingToCompile;
      }
      if p.previous.Some? && !Changed(p) && dirty == {} && deleted == {} {
        return UpToDate;
      }
      var units;
      if p.previous.None? || Changed(p) {
        if loaded == map[] {
          return NothingToCompile;
        }
        units := loaded;
      } else {
        var delta := map id | id in loaded && id in ids && id in dirty :: loaded[id];
        units := Merge(PriorUnits(p), delta, dirty + deleted);
      }
      var signatures := map id | id in ids && id in p.sigs :: p.sigs[id];
      o := Built(Comp(Building, p.compiler, ids, fingerprints, signatures, units));
    }

    /** Makes a stored compilation the active one and retires any other. */
    method Activate(gen: nat)
      requires gen in comps
      modifies this`comps, this`active
      ensures comps == Activated(old(comps), gen) && active == Some(gen)
    {
      var retired := map g | g in comps :: if comps[g].state == Active then comps[g].(state := Retired) else comps[g];
      comps := retired[gen := retired[gen].(state := Active)];
      active := Some(gen);
    }

    /** Creating, activating and resolving one compilation. */
    method Publish(comp: Comp) returns (gen: nat)
      requires Valid() && Sound(comp, docs, fp) && comp.state == Building
      modifies this
      ensures Valid() && docs == old(docs) && compiler == old(compiler)
      ensures active == Some(gen) && pending == [] && gen !in old(comps) && comps.Keys == old(comps).Keys + {gen}
      ensures comps[gen] == comp.(state := Active) && Retires(old(comps), comps)
    {
      hide Sound, SoundDocs, Activated, Retires;
      gen := NextGeneration();
      PublishingIsSound(comps, gen, comp, docs, fp);
      comps := comps[gen := comp];
      Activate(gen);
      pending := [];
    }

    /** One compile: on success the active compilation is the full rebuild of the
        documents; on failure nothing has changed. */
    method CompileSemanticMemory() returns (r: Option<nat>)
      requires Valid()
      modifies this
      ensures Valid() && docs == old(docs) && compiler == old(compiler)
      ensures r.None? <==>
        Rebuild(docs, compiler) == map[] && (old(active).Some? ==> old(comps)[old(active).value].compiler != compiler)
      ensures r.None? ==> comps == old(comps) && active == old(active) && pending == old(pending)
      ensures r.Some? ==> active == r && pending == [] && IsRebuild(comps[r.value], docs, compiler, fp)
      ensures r.Some? ==> if r == old(active) then comps == old(comps)
        else r.value !in old(comps) && comps.Keys == old(comps).Keys + {r.value} && Retires(old(comps), comps)
    {
      hide Compile, LoadAll, ToLoad, Rebuild, IsRebuild, SoundDocs, Retires;
      var p := Plan(Listed(docs), if active.Some? then Some(comps[active.value]) else None,
                    if active.Some? then active.value else 0, Elements(pending), compiler);
      FailsIffNothingToCompile(p, docs, fp);
      var o := Decide(p);
      match o
      case UpToDate =>
        UpToDateIsRebuild(p, docs, fp);
        pending := [];
        r := active;
      case Built(comp) =>
        BuiltIsRebuild(p, docs, fp);
        CompileIsSound(p, docs, fp);
        RebuildAnyState(comp, Active, docs, compiler, fp);
        var gen := Publish(comp);
        r := Some(gen);
      case _ =>
        r := None;
    }
  }
}
