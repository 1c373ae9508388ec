/** One compilation of a base's semantic memory: what the metadata fast path
    decides, what it reuses, and why that equals rebuilding everything. */
module SemanticCompile {
  import opened Wrappers

  type Id = nat

  /** The metadata signature of a document: active generation, source version, title. */
  datatype Signature = Signature(gen: nat, version: nat, title: string)

  /** nodes tells whether the active generation has Document IR; a dead document
      is a tombstone. */
  datatype Doc = Doc(ready: bool, directory: bool, sig: Signature, nodes: bool, dead: bool)

  /** What a document contributed to a compilation: the metadata it was listed
      with, the generation its IR was read from, and the compiler that read it. */
  datatype Source = Source(sig: Signature, ir: nat, compiler: nat)

  datatype CompState = Building | Active | Retired

  /** ids are the source document ids; units stands for the compiled units by the
      document they stem from. */
  datatype Comp = Comp(state: CompState, compiler: nat, ids: set<Id>, fingerprints: map<Id, nat>,
                       signatures: map<Id, Signature>, units: map<Id, Source>)

  /** A source fingerprint: a function of the document and what was read of it. */
  type Fingerprint = (Id, Source) -> nat

  // ---------------------------------------------------------- what is decided

  /** The signatures of the ready documents; directories have none. */
  function Listed(docs: map<Id, Doc>): map<Id, Signature> {
    map id | id in docs && docs[id].ready && !docs[id].directory :: docs[id].sig
  }

  function DirtyIds(sigs: map<Id, Signature>, pending: set<Id>, prior: map<Id, Signature>,
                    compilerChanged: bool): set<Id> {
    set id | id in sigs && (compilerChanged || id in pending || id !in prior || prior[id] != sigs[id])
  }

  function DeletedIds(sigs: map<Id, Signature>, pending: set<Id>, prior: map<Id, Signature>): set<Id> {
    set id | id in pending + prior.Keys && id !in sigs
  }

  function Elements(s: seq<Id>): set<Id> { set id | id in s }

  /** The dirty and the deleted documents, from metadata alone. */
  method FindChanges(sigs: map<Id, Signature>, pending: seq<Id>, prior: map<Id, Signature>, compilerChanged: bool)
    returns (dirty: set<Id>, deleted: set<Id>)
    ensures dirty == DirtyIds(sigs, Elements(pending), prior, compilerChanged)
    ensures deleted == DeletedIds(sigs, Elements(pending), prior)
  {
    dirty, deleted := {}, {};
    for i := 0 to |pending|
      invariant forall id :: id in dirty <==> id in sigs && id in pending[..i]
      invariant forall id :: id in deleted <==> id !in sigs && id in pending[..i]
    {
      if pending[i] in sigs {
        dirty := dirty + {pending[i]};
      } else {
        deleted := deleted + {pending[i]};
      }
      assert pending[..i + 1] == pending[..i] + [pending[i]];
    }
    var rest := sigs.Keys;
    while rest != {}
      invariant rest <= sigs.Keys
      invariant forall id :: id in dirty <==>
        id in sigs && (id in pending || (id !in rest && (id !in prior || prior[id] != sigs[id])))
      decreases rest
    {
      var id :| id in rest;
      rest := rest - {id};
      if id !in prior || prior[id] != sigs[id] {
        dirty := dirty + {id};
      }
    }
    rest := prior.Keys;
    while rest != {}
      invariant rest <= prior.Keys
      invariant forall id :: id in deleted <==> id !in sigs && (id in pending || (id in prior && id !in rest))
      decreases rest
    {
      var id :| id in rest;
      rest := rest - {id};
      if id !in sigs {
        deleted := deleted + {id};
      }
    }
    if compilerChanged {
      dirty := dirty + sigs.Keys;
    }
  }

  /** What reading the IR of some listed documents yields: those without nodes are skipped. */
  function LoadAll(ids: set<Id>, sigs: map<Id, Signature>, docs: map<Id, Doc>, compiler: nat): map<Id, Source> {
    map id | id in ids && id in sigs && id in docs && docs[id].nodes :: Source(sigs[id], docs[id].sig.gen, compiler)
  }

  function CurrentIds(sigs: map<Id, Signature>, prior: set<Id>, dirty: set<Id>, loaded: map<Id, Source>): set<Id> {
    set id | id in sigs && ((id in prior && id !in dirty) || id in loaded)
  }

  function FingerprintsOf(ids: set<Id>, loaded: map<Id, Source>, prior: map<Id, nat>, fp: Fingerprint): map<Id, nat> {
    map id | id in ids && (id in loaded || id in prior) :: if id in loaded then fp(id, loaded[id]) else prior[id]
  }

  /** The current source ids, and a fingerprint for each of them; ok is false when
      one of them lacks a reusable fingerprint. */
  method CollectCurrent(sigs: map<Id, Signature>, prior: set<Id>, priorFingerprints: map<Id, nat>,
                        dirty: set<Id>, loaded: map<Id, Source>, fp: Fingerprint)
    returns (ids: set<Id>, fingerprints: map<Id, nat>, ok: bool)
    ensures ids == CurrentIds(sigs, prior, dirty, loaded)
    ensures ok <==> forall id <- ids :: id in loaded || id in priorFingerprints
    ensures ok ==> fingerprints == FingerprintsOf(ids, loaded, priorFingerprints, fp) && fingerprints.Keys == ids
  {
    ids, fingerprints, ok := {}, map[], true;
    var rest := sigs.Keys;
    while rest != {}
      invariant rest <= sigs.Keys
      invariant forall id :: id in ids <==> id in sigs && id !in rest && ((id in prior && id !in dirty) || id in loaded)
      decreases rest
    {
      var id :| id in rest;
      rest := rest - {id};
      if (id in prior && id !in dirty) || id in loaded {
        ids := ids + {id};
      }
    }
    rest := ids;
    while rest != {}
      invariant rest <= ids
      invariant fingerprints == FingerprintsOf(ids - rest, loaded, priorFingerprints, fp)
      invariant forall id <- ids - rest :: id in loaded || id in priorFingerprints
      decreases rest
    {
      var id :| id in rest;
      if id in loaded {
        fingerprints := fingerprints[id := fp(id, loaded[id])];
      } else if id in priorFingerprints {
        fingerprints := fingerprints[id := priorFingerprints[id]];
      } else {
        ok := false;
        return;
      }
      rest := rest - {id};
    }
    assert ids - rest == ids;
  }

  /** The contract of the incremental merge: units stemming from dirty or deleted
      documents go, everything else stays, and the delta is added. */
  function Merge(previous: map<Id, Source>, delta: map<Id, Source>, gone: set<Id>): map<Id, Source> {
    (map id | id in previous && id !in gone :: previous[id]) + delta
  }

  /** What compiling every ready document with IR from scratch would contain. */
  function Rebuild(docs: map<Id, Doc>, compiler: nat): map<Id, Source> {
    map id | id in docs && docs[id].ready && !docs[id].directory && docs[id].nodes ::
      Source(docs[id].sig, docs[id].sig.gen, compiler)
  }

  // ----------------------------------------------------------- one compilation

  /** What the compiler read up front: the listing, the active compilation and the pending marks. */
  datatype Plan = Plan(sigs: map<Id, Signature>, previous: Option<Comp>, previousGen: nat, pending: set<Id>,
                       compiler: nat)

  predicate Changed(p: Plan) { p.previous.Some? && p.previous.value.compiler != p.compiler }

  predicate Fast(p: Plan) { p.previous.Some? && p.previous.value.signatures != map[] }

  function PriorIds(p: Plan): set<Id> { if p.previous.Some? then p.previous.value.ids else {} }

  function PriorFingerprints(p: Plan): map<Id, nat> {
    if p.previous.Some? then p.previous.value.fingerprints else map[]
  }

  function PriorUnits(p: Plan): map<Id, Source> { if p.previous.Some? then p.previous.value.units else map[] }

  /** The documents whose IR is read: the dirty ones, or all of them off the fast path. */
  function ToLoad(p: Plan): set<Id> {
    if Fast(p) then DirtyIds(p.sigs, p.pending, p.previous.value.signatures, Changed(p)) else p.sigs.Keys
  }

  /** Off the fast path, changes are found by comparing fingerprints instead. */
  function SlowDirty(p: Plan, loaded: map<Id, Source>, fp: Fingerprint): set<Id> {
    set id | id in loaded && (id in p.pending ||
      (p.previous.Some? && (id !in PriorFingerprints(p) || PriorFingerprints(p)[id] != fp(id, loaded[id]))))
  }

  function SlowDeleted(p: Plan, loaded: map<Id, Source>): set<Id> {
    set id | id in p.pending + (if PriorFingerprints(p) != map[] then PriorFingerprints(p).Keys else PriorIds(p))
      && id !in loaded
  }

  function Dirty(p: Plan, loaded: map<Id, Source>, fp: Fingerprint): set<Id> {
    if Fast(p) then ToLoad(p) else SlowDirty(p, loaded, fp)
  }

  function Deleted(p: Plan, loaded: map<Id, Source>): set<Id> {
    if Fast(p) then DeletedIds(p.sigs, p.pending, p.previous.value.signatures) else SlowDeleted(p, loaded)
  }

  function Current(p: Plan, loaded: map<Id, Source>): set<Id> {
    if Fast(p) then CurrentIds(p.sigs, PriorIds(p), ToLoad(p), loaded) else loaded.Keys
  }

  /** The dirty documents recompiled. */
  function Delta(p: Plan, loaded: map<Id, Source>, fp: Fingerprint): map<Id, Source> {
    map id | id in loaded && id in Current(p, loaded) && id in Dirty(p, loaded, fp) :: loaded[id]
  }

  function MergedUnits(p: Plan, loaded: map<Id, Source>, fp: Fingerprint): map<Id, Source> {
    Merge(PriorUnits(p), Delta(p, loaded, fp), Dirty(p, loaded, fp) + Deleted(p, loaded))
  }

  datatype Outcome = UpToDate | NothingToCompile | LacksFingerprint | Built(comp: Comp)

  /** What the compiler makes of the IR it read. */
  function Compile(p: Plan, loaded: map<Id, Source>, fp: Fingerprint): Outcome {
    var dirty, deleted, ids := Dirty(p, loaded, fp), Deleted(p, loaded), Current(p, loaded);
    if Fast(p) && dirty == {} && deleted == {} then UpToDate
    else if Fast(p) && exists id <- ids :: id !in loaded && id !in PriorFingerprints(p) then LacksFingerprint
    else if p.previous.None? && loaded == map[] then NothingToCompile
    else if p.previous.Some? && !Changed(p) && dirty == {} && deleted == {} then UpToDate
    else if (p.previous.None? || Changed(p)) && loaded == map[] then NothingToCompile
    else
      var units := if p.previous.None? || Changed(p) then loaded else MergedUnits(p, loaded, fp);
      Built(Comp(Building, p.compiler, ids, FingerprintsOf(ids, loaded, PriorFingerprints(p), fp),
                 map id | id in ids && id in p.sigs :: p.sigs[id], units))
  }

  // ---------------------------------------------------------------- soundness

  /** The records of a compilation agree with each other, id by id. */
  predicate Coherent(c: Comp, fp: Fingerprint) {
    && c.signatures.Keys == c.ids && c.fingerprints.Keys == c.ids && c.units.Keys == c.ids
    && forall id <- c.ids ::
         c.units[id].sig == c.signatures[id] && c.units[id].compiler == c.compiler
         && c.fingerprints[id] == fp(id, c.units[id])
  }

  /** The IR a source was read from is no older than its listing and no newer than
      the document, and if the document has not moved on, it still has that IR. */
  predicate Honest(id: Id, s: Source, docs: map<Id, Doc>) {
    && id in docs && !docs[id].directory
    && s.sig.gen <= s.ir <= docs[id].sig.gen
    && (s.ir == docs[id].sig.gen ==> docs[id].nodes || docs[id].dead)
  }

  predicate Sound(c: Comp, docs: map<Id, Doc>, fp: Fingerprint) {
    Coherent(c, fp) && forall id <- c.units :: Honest(id, c.units[id], docs)
  }

  predicate SoundDocs(docs: map<Id, Doc>) {
    forall id <- docs :: (docs[id].dead ==> !docs[id].ready && !docs[id].nodes)
      && (docs[id].directory ==> !docs[id].nodes)
  }

  lemma StateDoesNotMatter(c: Comp, state: CompState, docs: map<Id, Doc>, fp: Fingerprint)
    requires Sound(c, docs, fp)
    ensures Sound(c.(state := state), docs, fp)
  {
  }

  /** The listing may be old, but never newer than the documents. */
  predicate SoundPlan(p: Plan, docs: map<Id, Doc>, fp: Fingerprint) {
    && (forall id <- p.sigs :: id in docs && !docs[id].directory && p.sigs[id].gen <= docs[id].sig.gen)
    && (p.previous.Some? ==> Sound(p.previous.value, docs, fp))
  }

  /** The error "lacks a reusable fingerprint" cannot happen. */
  lemma FingerprintsAreReusable(p: Plan, docs: map<Id, Doc>, loaded: map<Id, Source>, fp: Fingerprint)
    requires SoundPlan(p, docs, fp)
    ensures !Compile(p, loaded, fp).LacksFingerprint?
  {
  }

  /** One document of an incremental fast-path compilation: reloaded when dirty,
      carried over with its recorded signature when not, and gone otherwise. */
  lemma IncrementalSource(p: Plan, docs: map<Id, Doc>, fp: Fingerprint, id: Id)
    requires SoundPlan(p, docs, fp) && Fast(p) && !Changed(p)
    ensures var loaded := LoadAll(ToLoad(p), p.sigs, docs, p.compiler);
      var units := MergedUnits(p, loaded, fp);
      && (id in units <==> id in Current(p, loaded))
      && (id in loaded ==> id in units && units[id] == loaded[id])
      && (id in units && id !in loaded ==>
            && id in p.previous.value.ids && units[id] == p.previous.value.units[id]
            && id in p.sigs && p.previous.value.signatures[id] == p.sigs[id])
  {
  }

  /** Off the fast path the previous compilation is empty, so nothing is carried over. */
  lemma SlowSources(p: Plan, docs: map<Id, Doc>, fp: Fingerprint, loaded: map<Id, Source>)
    requires SoundPlan(p, docs, fp) && !Fast(p)
    ensures PriorUnits(p) == map[]
      && SlowDirty(p, loaded, fp) == (if p.previous.Some? then loaded.Keys else loaded.Keys * p.pending)
  {
    if p.previous.Some? {
      assert p.previous.value.ids == {};
    }
  }

  /** The units a compilation is built with, in terms of the plan. */
  lemma BuiltParts(p: Plan, loaded: map<Id, Source>, fp: Fingerprint)
    ensures var o := Compile(p, loaded, fp);
      o.Built? ==>
        && o.comp.ids == Current(p, loaded)
        && o.comp.units == if p.previous.None? || Changed(p) then loaded else MergedUnits(p, loaded, fp)
  {
    hide Dirty, Deleted, Current, MergedUnits, FingerprintsOf, Fast, Changed, PriorFingerprints;
  }

  /** Where one unit of a compilation comes from. */
  predicate Stems(p: Plan, loaded: map<Id, Source>, id: Id, unit: Source) {
    id in p.sigs &&
    if id in loaded then unit == loaded[id]
    else
      && !Changed(p) && Fast(p) && id in p.previous.value.ids && id in p.previous.value.units
      && unit == p.previous.value.units[id]
      && id in p.previous.value.signatures && p.previous.value.signatures[id] == p.sigs[id]
  }

  lemma FastUnits(p: Plan, docs: map<Id, Doc>, fp: Fingerprint, loaded: map<Id, Source>)
    requires SoundPlan(p, docs, fp) && loaded == LoadAll(ToLoad(p), p.sigs, docs, p.compiler) && Fast(p) && !Changed(p)
    ensures MergedUnits(p, loaded, fp).Keys == Current(p, loaded)
    ensures forall id <- Current(p, loaded) :: Stems(p, loaded, id, MergedUnits(p, loaded, fp)[id])
  {
    assert forall id <- Current(p, loaded) :: id in p.sigs;
    assert p.previous.value.signatures.Keys == p.previous.value.ids == p.previous.value.units.Keys;
    hide MergedUnits, Current, LoadAll, ToLoad, SoundPlan, Fast, Changed;
    forall id: Id
      ensures id in MergedUnits(p, loaded, fp) <==> id in Current(p, loaded)
      ensures id in Current(p, loaded) ==> Stems(p, loaded, id, MergedUnits(p, loaded, fp)[id])
    {
      IncrementalSource(p, docs, fp, id);
    }
  }

  lemma FullUnits(p: Plan, docs: map<Id, Doc>, fp: Fingerprint, loaded: map<Id, Source>)
    requires SoundPlan(p, docs, fp) && loaded == LoadAll(ToLoad(p), p.sigs, docs, p.compiler)
      && (!Fast(p) || Changed(p))
    ensures Current(p, loaded) == loaded.Keys && forall id <- loaded :: id in p.sigs
    ensures !Fast(p) && p.previous.Some? ==> MergedUnits(p, loaded, fp) == loaded
  {
    if !Fast(p) {
      SlowSources(p, docs, fp, loaded);
    }
  }

  /** Whatever happened between listing and reading, the units a compilation is
      built with are those of its current ids, each read now or carried over. */
  lemma BuiltUnits(p: Plan, docs: map<Id, Doc>, fp: Fingerprint)
    requires SoundPlan(p, docs, fp)
    ensures var loaded := LoadAll(ToLoad(p), p.sigs, docs, p.compiler);
      var o := Compile(p, loaded, fp);
      o.Built? ==>
        && o.comp.units.Keys == o.comp.ids == Current(p, loaded)
        && forall id <- o.comp.ids :: Stems(p, loaded, id, o.comp.units[id])
  {
    var loaded := LoadAll(ToLoad(p), p.sigs, docs, p.compiler);
    BuiltParts(p, loaded, fp);
    if Fast(p) && !Changed(p) {
      FastUnits(p, docs, fp, loaded);
    } else {
      FullUnits(p, docs, fp, loaded);
    }
    assert p.previous.None? ==> !Fast(p);
    hide Compile, MergedUnits, Current, LoadAll, ToLoad, SoundPlan, Fast, Changed;
  }

  /** Whatever happened between listing and reading, what is compiled is sound. */
  lemma CompileIsSound(p: Plan, docs: map<Id, Doc>, fp: Fingerprint)
    requires SoundDocs(docs) && SoundPlan(p, docs, fp)
    ensures var o := Compile(p, LoadAll(ToLoad(p), p.sigs, docs, p.compiler), fp);
      o.Built? ==> Sound(o.comp, docs, fp) && o.comp.compiler == p.compiler && o.comp.state == Building
  {
    hide MergedUnits, ToLoad, Current, Dirty, Deleted;
    BuiltUnits(p, docs, fp);
  }

  // ------------------------------------------------- the same as a full reload

  /** The compilation is what compiling every ready document from scratch would give. */
  predicate IsRebuild(c: Comp, docs: map<Id, Doc>, compiler: nat, fp: Fingerprint) {
    && Coherent(c, fp) && c.compiler == compiler && c.units == Rebuild(docs, compiler)
  }

  lemma RebuildAnyState(c: Comp, state: CompState, docs: map<Id, Doc>, compiler: nat, fp: Fingerprint)
    requires IsRebuild(c, docs, compiler, fp)
    ensures IsRebuild(c.(state := state), docs, compiler, fp)
  {
  }

  /** An undirtied source is what a reload would read now. */
  lemma CleanSourceIsCurrent(p: Plan, docs: map<Id, Doc>, fp: Fingerprint, id: Id)
    requires SoundDocs(docs) && SoundPlan(p, docs, fp) && p.sigs == Listed(docs) && p.previous.Some? && !Changed(p)
    requires id in p.sigs && id in p.previous.value.ids && p.previous.value.signatures[id] == p.sigs[id]
    ensures id in Rebuild(docs, p.compiler) && p.previous.value.units[id] == Rebuild(docs, p.compiler)[id]
  {
    assert Honest(id, p.previous.value.units[id], docs);
  }

  /** With no document changing between listing and reading, whatever the pending
      marks say, the result is the full rebuild. */
  lemma BuiltIsRebuild(p: Plan, docs: map<Id, Doc>, fp: Fingerprint)
    requires SoundDocs(docs) && SoundPlan(p, docs, fp) && p.sigs == Listed(docs)
    ensures var o := Compile(p, LoadAll(ToLoad(p), p.sigs, docs, p.compiler), fp);
      o.Built? ==> IsRebuild(o.comp, docs, p.compiler, fp)
  {
    var loaded := LoadAll(ToLoad(p), p.sigs, docs, p.compiler);
    var o := Compile(p, loaded, fp);
    CompileIsSound(p, docs, fp);
    BuiltUnits(p, docs, fp);
    if o.Built? {
      var units := o.comp.units;
      forall id | id in units
        ensures id in Rebuild(docs, p.compiler) && units[id] == Rebuild(docs, p.compiler)[id]
      {
        if id !in loaded {
          CleanSourceIsCurrent(p, docs, fp, id);
        }
      }
      forall id | id in Rebuild(docs, p.compiler)
        ensures id in units
      {
        assert id in Current(p, loaded);
      }
    }
  }

  /** Finding nothing dirty and nothing deleted on the fast path. */
  lemma NothingFound(p: Plan, docs: map<Id, Doc>, fp: Fingerprint)
    requires SoundPlan(p, docs, fp) && Fast(p) && ToLoad(p) == {} && Deleted(p, map[]) == {}
    ensures !Changed(p) && p.previous.value.signatures == p.sigs
  {
    var prior := p.previous.value.signatures;
    forall id | id in prior
      ensures id in p.sigs && prior[id] == p.sigs[id]
    {
      assert id !in Deleted(p, map[]) && id !in ToLoad(p);
    }
    forall id | id in p.sigs
      ensures id in prior && !Changed(p)
    {
      assert id !in ToLoad(p);
    }
    var some :| some in prior;
    assert some in p.sigs;
  }

  /** A full reload reads what compiling from scratch would contain. */
  lemma FullLoadIsRebuild(p: Plan, docs: map<Id, Doc>, fp: Fingerprint)
    requires p.sigs == Listed(docs) && (!Fast(p) || Changed(p))
    ensures LoadAll(ToLoad(p), p.sigs, docs, p.compiler) == Rebuild(docs, p.compiler)
  {
    assert ToLoad(p) == p.sigs.Keys;
  }

  /** When nothing is found to do, the active compilation already is the full rebuild:
      a lost pending mark hides nothing. */
  lemma UpToDateIsRebuild(p: Plan, docs: map<Id, Doc>, fp: Fingerprint)
    requires SoundDocs(docs) && SoundPlan(p, docs, fp) && p.sigs == Listed(docs)
    requires Compile(p, LoadAll(ToLoad(p), p.sigs, docs, p.compiler), fp).UpToDate?
    ensures p.previous.Some? && IsRebuild(p.previous.value, docs, p.compiler, fp)
  {
    var loaded := LoadAll(ToLoad(p), p.sigs, docs, p.compiler);
    var rebuild := Rebuild(docs, p.compiler);
    if Fast(p) {
      assert Deleted(p, loaded) == Deleted(p, map[]);
      NothingFound(p, docs, fp);
      forall id | id in PriorUnits(p)
        ensures id in rebuild && PriorUnits(p)[id] == rebuild[id]
      {
        CleanSourceIsCurrent(p, docs, fp, id);
      }
      assert PriorUnits(p) == rebuild;
    } else {
      SlowSources(p, docs, fp, loaded);
      FullLoadIsRebuild(p, docs, fp);
    }
  }

  /** A compile with no document changing meanwhile fails exactly when no ready
      document has IR and a full compilation is needed: the first one, or the first
      after a compiler change. */
  lemma FailsIffNothingToCompile(p: Plan, docs: map<Id, Doc>, fp: Fingerprint)
    requires SoundDocs(docs) && SoundPlan(p, docs, fp) && p.sigs == Listed(docs)
    ensures var o := Compile(p, LoadAll(ToLoad(p), p.sigs, docs, p.compiler), fp);
      !o.UpToDate? && !o.Built? <==> (p.previous.None? || Changed(p)) && Rebuild(docs, p.compiler) == map[]
  {
    var loaded := LoadAll(ToLoad(p), p.sigs, docs, p.compiler);
    FingerprintsAreReusable(p, docs, loaded, fp);
    if p.previous.None? || Changed(p) {
      FullLoadIsRebuild(p, docs, fp);
      if Fast(p) && ToLoad(p) == {} && Deleted(p, loaded) == {} {
        assert Deleted(p, loaded) == Deleted(p, map[]);
        NothingFound(p, docs, fp);
      }
    }
  }

  /** Compiling again with nothing changed and no mark pending finds nothing to do if
      and only if every ready document has IR, or none has. */
  lemma SecondCompileIsNoop(p: Plan, docs: map<Id, Doc>, fp: Fingerprint)
    requires SoundDocs(docs) && p.sigs == Listed(docs) && p.pending == {}
    requires p.previous.Some? && IsRebuild(p.previous.value, docs, p.compiler, fp)
    ensures Compile(p, LoadAll(ToLoad(p), p.sigs, docs, p.compiler), fp).UpToDate? <==>
      ((forall id <- p.sigs :: docs[id].nodes) || (forall id <- p.sigs :: !docs[id].nodes))
  {
    var loaded := LoadAll(ToLoad(p), p.sigs, docs, p.compiler);
    var prior := p.previous.value;
    assert prior.ids == Rebuild(docs, p.compiler).Keys;
    assert forall id <- p.sigs :: docs[id].nodes <==> id in prior.ids;
    if Fast(p) {
      assert ToLoad(p) == set id | id in p.sigs && !docs[id].nodes;
      assert Deleted(p, loaded) == {};
      var some :| some in prior.signatures;
      assert loaded == map[];
    } else {
      assert prior.ids == {};
      FullLoadIsRebuild(p, docs, fp);
      assert loaded == map[];
    }
  }
}
