/** Semantic compilation over whole runs: documents change, marks get lost, the
    compiler is upgraded, and the compiling process may crash between reading,
    creating, activating and resolving. */
module SemanticRuns {
  import opened SemanticCompile
  import opened Wrappers

  /** Where the one compiling worker is. */
  datatype Worker =
    | Idle
    | Planned(plan: Plan)
    | Creating(comp: Comp, gen: nat)
    | Activating(gen: nat)
    | Resolving(gen: nat)
    | Returned(gen: nat)
    | Failed

  datatype Memory = Memory(docs: map<Id, Doc>, pending: set<Id>, comps: map<nat, Comp>, compiler: nat, worker: Worker)

  datatype Action =
    | Put(id: Id, doc: Doc) | Mark(id: Id) | Upgrade(compiler: nat) | Retire | Crash
    | Begin | Read | Create | Activate | Resolve

  ghost predicate IsActive(m: Memory, gen: nat) { gen in m.comps && m.comps[gen].state == Active }

  ghost predicate HasActive(m: Memory) { exists gen :: IsActive(m, gen) }

  ghost function ActiveGen(m: Memory): (gen: nat)
    requires HasActive(m)
    ensures IsActive(m, gen)
  {
    var gen :| IsActive(m, gen);
    gen
  }

  ghost function MakePlan(m: Memory): Plan {
    if HasActive(m) then Plan(Listed(m.docs), Some(m.comps[ActiveGen(m)]), ActiveGen(m), m.pending, m.compiler)
    else Plan(Listed(m.docs), None, 0, m.pending, m.compiler)
  }

  /** Documents move forward: a generation's IR does not change while the document
      lives, and a tombstone stays one. */
  predicate MayPut(docs: map<Id, Doc>, id: Id, doc: Doc) {
    && (doc.dead ==> !doc.ready && !doc.nodes) && (doc.directory ==> !doc.nodes)
    && (id in docs ==>
         && !docs[id].dead && docs[id].directory == doc.directory && docs[id].sig.gen <= doc.sig.gen
         && (docs[id].sig.gen == doc.sig.gen ==> doc.nodes == docs[id].nodes || doc.dead))
  }

  function RetireActive(comps: map<nat, Comp>): map<nat, Comp> {
    map gen | gen in comps :: if comps[gen].state == Active then comps[gen].(state := Retired) else comps[gen]
  }

  /** One above the newest generation. */
  predicate IsNext(comps: map<nat, Comp>, gen: nat) {
    gen > 0 && (forall g <- comps :: g < gen) && (gen == 1 || gen - 1 in comps)
  }

  ghost predicate Next(m: Memory, a: Action, m': Memory, fp: Fingerprint) {
    match a
    case Put(id, doc) => MayPut(m.docs, id, doc) && m' == m.(docs := m.docs[id := doc])
    case Mark(id) => m' == m.(pending := m.pending + {id})
    case Upgrade(compiler) => m.worker.Idle? && m' == m.(compiler := compiler)
    case Retire => m' == m.(comps := RetireActive(m.comps))
    case Crash => m' == m.(worker := Idle)
    case Begin =>
      && (m.worker.Idle? || m.worker.Returned? || m.worker.Failed?)
      && m' == m.(worker := Planned(MakePlan(m)))
    case Read =>
      && m.worker.Planned?
      && (var p := m.worker.plan;
          match Compile(p, LoadAll(ToLoad(p), p.sigs, m.docs, p.compiler), fp)
          case Built(comp) => exists gen :: IsNext(m.comps, gen) && m' == m.(worker := Creating(comp, gen))
          case UpToDate => m' == m.(worker := Resolving(p.previousGen))
          case _ => m' == m.(worker := Failed))
    case Create =>
      && m.worker.Creating?
      && m' == m.(comps := m.comps[m.worker.gen := m.worker.comp], worker := Activating(m.worker.gen))
    case Activate =>
      && m.worker.Activating? && m.worker.gen in m.comps && m.comps[m.worker.gen].state == Building
      && m' == m.(comps := RetireActive(m.comps)[m.worker.gen := m.comps[m.worker.gen].(state := Active)],
                  worker := Resolving(m.worker.gen))
    case Resolve =>
      m.worker.Resolving? && m' == m.(pending := {}, worker := Returned(m.worker.gen))
  }

  // ---------------------------------------------------------------- invariant

  ghost predicate SoundWorker(m: Memory, fp: Fingerprint) {
    match m.worker
    case Planned(plan) => SoundPlan(plan, m.docs, fp)
    case Creating(comp, gen) =>
      Sound(comp, m.docs, fp) && comp.state == Building && (forall g <- m.comps :: g < gen)
    case Activating(gen) => gen in m.comps && m.comps[gen].state == Building
    case _ => true
  }

  ghost predicate Inv(m: Memory, fp: Fingerprint) {
    && SoundDocs(m.docs)
    && (forall gen <- m.comps :: Sound(m.comps[gen], m.docs, fp))
    && (forall g, h :: IsActive(m, g) && IsActive(m, h) ==> g == h)
    && SoundWorker(m, fp)
  }

  /** A document that moves forward leaves every record about it honest. */
  lemma PutKeepsSound(c: Comp, docs: map<Id, Doc>, id: Id, doc: Doc, fp: Fingerprint)
    requires Sound(c, docs, fp) && MayPut(docs, id, doc)
    ensures Sound(c, docs[id := doc], fp)
  {
    forall i | i in c.units
      ensures Honest(i, c.units[i], docs[id := doc])
    {
      assert Honest(i, c.units[i], docs);
    }
  }

  lemma PutKeepsInv(m: Memory, id: Id, doc: Doc, fp: Fingerprint)
    requires Inv(m, fp) && MayPut(m.docs, id, doc)
    ensures Inv(m.(docs := m.docs[id := doc]), fp)
  {
    hide Sound;
    var m' := m.(docs := m.docs[id := doc]);
    forall gen | gen in m.comps
      ensures Sound(m.comps[gen], m'.docs, fp)
    {
      PutKeepsSound(m.comps[gen], m.docs, id, doc, fp);
    }
    if m.worker.Planned? && m.worker.plan.previous.Some? {
      PutKeepsSound(m.worker.plan.previous.value, m.docs, id, doc, fp);
    } else if m.worker.Creating? {
      PutKeepsSound(m.worker.comp, m.docs, id, doc, fp);
    }
    assert forall g :: IsActive(m', g) <==> IsActive(m, g);
  }

  lemma RetireKeepsInv(m: Memory, fp: Fingerprint)
    requires Inv(m, fp)
    ensures Inv(m.(comps := RetireActive(m.comps)), fp)
    ensures forall g :: !IsActive(m.(comps := RetireActive(m.comps)), g)
  {
    hide Sound;
    forall gen | gen in m.comps
      ensures Sound(RetireActive(m.comps)[gen], m.docs, fp)
    {
      StateDoesNotMatter(m.comps[gen], Retired, m.docs, fp);
    }
  }

  lemma ActivateKeepsInv(m: Memory, m': Memory, fp: Fingerprint)
    requires Inv(m, fp) && Next(m, Activate, m', fp)
    ensures Inv(m', fp)
  {
    hide Sound;
    RetireKeepsInv(m, fp);
    StateDoesNotMatter(m.comps[m.worker.gen], Active, m.docs, fp);
    assert forall g :: IsActive(m', g) ==> g == m.worker.gen;
  }

  lemma ReadKeepsInv(m: Memory, m': Memory, fp: Fingerprint)
    requires Inv(m, fp) && Next(m, Read, m', fp)
    ensures Inv(m', fp)
  {
    hide Sound, Compile, LoadAll, ToLoad;
    CompileIsSound(m.worker.plan, m.docs, fp);
    assert forall g :: IsActive(m', g) <==> IsActive(m, g);
  }

  /** Every step, crashes included, keeps every stored compilation coherent and honest,
      and at most one of them active. */
  lemma StepKeepsInv(m: Memory, a: Action, m': Memory, fp: Fingerprint)
    requires Inv(m, fp) && Next(m, a, m', fp)
    ensures Inv(m', fp)
  {
    hide Sound, Compile;
    match a
    case Put(id, doc) => PutKeepsInv(m, id, doc, fp);
    case Retire => RetireKeepsInv(m, fp);
    case Activate => ActivateKeepsInv(m, m', fp);
    case Read => ReadKeepsInv(m, m', fp);
    case Create =>
      assert forall g :: IsActive(m', g) <==> IsActive(m, g);
    case _ =>
      assert forall g :: IsActive(m', g) <==> IsActive(m, g);
  }

  ghost predicate Run(states: seq<Memory>, actions: seq<Action>, fp: Fingerprint) {
    && |states| == |actions| + 1
    && states[0] == Memory(map[], {}, map[], states[0].compiler, Idle)
    && forall i :: 0 <= i < |actions| ==> Next(states[i], actions[i], states[i + 1], fp)
  }

  lemma {:induction false} RunKeepsInv(states: seq<Memory>, actions: seq<Action>, fp: Fingerprint, k: nat)
    requires Run(states, actions, fp) && k < |states|
    ensures Inv(states[k], fp)
  {
    hide Next, Sound;
    if k > 0 {
      RunKeepsInv(states, actions, fp, k - 1);
      StepKeepsInv(states[k - 1], actions[k - 1], states[k], fp);
    }
  }

  // ------------------------------------------------- a compile left undisturbed

  /** One compile from begin to end, no other step in between. */
  ghost predicate Compiles(m: Memory, m': Memory, fp: Fingerprint) {
    exists planned, read: Memory :: Next(m, Begin, planned, fp) && Next(planned, Read, read, fp)
      && Publishes(read, m', fp)
  }

  ghost predicate Publishes(read: Memory, m': Memory, fp: Fingerprint) {
    if read.worker.Creating? then
      exists created, active: Memory ::
        Next(read, Create, created, fp) && Next(created, Activate, active, fp) && Next(active, Resolve, m', fp)
    else if read.worker.Resolving? then Next(read, Resolve, m', fp)
    else m' == read
  }

  lemma PlanIsSound(m: Memory, fp: Fingerprint)
    requires Inv(m, fp)
    ensures SoundPlan(MakePlan(m), m.docs, fp)
  {
  }

  /** At any reachable point, whatever crashed before and whichever marks were lost, a
      compile left undisturbed leaves the active compilation equal to a full rebuild
      of the documents as they are, or fails for want of any document with IR. */
  lemma CompileRebuilds(states: seq<Memory>, actions: seq<Action>, fp: Fingerprint, k: nat, m': Memory)
    requires Run(states, actions, fp) && k < |states| && Compiles(states[k], m', fp)
    ensures var m := states[k];
      && m'.docs == m.docs && m'.compiler == m.compiler
      && (m'.worker.Failed? || m'.worker.Returned?)
      && (m'.worker.Returned? ==>
            && IsActive(m', m'.worker.gen) && m'.pending == {}
            && IsRebuild(m'.comps[m'.worker.gen], m.docs, m.compiler, fp))
      && (m'.worker.Failed? <==>
            && Rebuild(m.docs, m.compiler) == map[]
            && (HasActive(m) ==> m.comps[ActiveGen(m)].compiler != m.compiler))
      && (m'.worker.Failed? ==> m'.comps == m.comps && m'.pending == m.pending)
  {
    hide Sound, Compile, LoadAll, ToLoad, IsRebuild, Rebuild, Run;
    var m := states[k];
    RunKeepsInv(states, actions, fp, k);
    CompileFrom(m, m', fp);
  }

  lemma CompileFrom(m: Memory, m': Memory, fp: Fingerprint)
    requires Inv(m, fp) && Compiles(m, m', fp)
    ensures m'.docs == m.docs && m'.compiler == m.compiler && (m'.worker.Failed? || m'.worker.Returned?)
    ensures m'.worker.Returned? ==>
      IsActive(m', m'.worker.gen) && m'.pending == {} && IsRebuild(m'.comps[m'.worker.gen], m.docs, m.compiler, fp)
    ensures m'.worker.Failed? <==>
      Rebuild(m.docs, m.compiler) == map[] && (HasActive(m) ==> m.comps[ActiveGen(m)].compiler != m.compiler)
    ensures m'.worker.Failed? ==> m'.comps == m.comps && m'.pending == m.pending
  {
    hide Sound, Compile, LoadAll, ToLoad, IsRebuild, Rebuild;
    var planned: Memory, read: Memory :|
      Next(m, Begin, planned, fp) && Next(planned, Read, read, fp) && Publishes(read, m', fp);
    var p := MakePlan(m);
    PlanIsSound(m, fp);
    FailsIffNothingToCompile(p, m.docs, fp);
    FingerprintsAreReusable(p, m.docs, LoadAll(ToLoad(p), p.sigs, m.docs, p.compiler), fp);
    if read.worker.Creating? {
      BuiltIsRebuild(p, m.docs, fp);
      PublishedIsActive(read, m', fp);
      RebuildAnyState(read.worker.comp, Active, m.docs, m.compiler, fp);
    } else if read.worker.Resolving? {
      UpToDateIsRebuild(p, m.docs, fp);
    }
  }

  lemma PublishedIsActive(read: Memory, m': Memory, fp: Fingerprint)
    requires read.worker.Creating? && Publishes(read, m', fp)
    ensures m'.worker == Returned(read.worker.gen) && IsActive(m', read.worker.gen) && m'.pending == {}
    ensures m'.comps[read.worker.gen] == read.worker.comp.(state := Active)
    ensures m'.docs == read.docs && m'.compiler == read.compiler
  {
    hide Sound, Compile;
  }

  lemma {:induction false} Newest(gens: set<nat>) returns (newest: nat)
    requires gens != {}
    ensures newest in gens && forall g <- gens :: g <= newest
    decreases gens
  {
    newest :| newest in gens;
    if gens != {newest} {
      assert gens - {newest} != {};
      var other := Newest(gens - {newest});
      assert forall g <- gens :: g == newest || g in gens - {newest};
      newest := if other > newest then other else newest;
    }
  }

  lemma NextExists(comps: map<nat, Comp>) returns (gen: nat)
    ensures IsNext(comps, gen)
  {
    if comps == map[] {
      gen := 1;
    } else {
      assert comps.Keys != {};
      var newest := Newest(comps.Keys);
      gen := newest + 1;
    }
  }

  /** A compile can always run to its end from a worker that is not in the middle of one. */
  lemma CompileExists(m: Memory, fp: Fingerprint) returns (m': Memory)
    requires m.worker.Idle? || m.worker.Returned? || m.worker.Failed?
    ensures Compiles(m, m', fp)
  {
    var p := MakePlan(m);
    var planned := m.(worker := Planned(p));
    var o := Compile(p, LoadAll(ToLoad(p), p.sigs, m.docs, p.compiler), fp);
    assert o.Built? ==> o.comp.state == Building;
    hide Compile, LoadAll, ToLoad, MakePlan, IsNext;
    var read: Memory;
    if o.Built? {
      var gen := NextExists(m.comps);
      read := planned.(worker := Creating(o.comp, gen));
      m' := PublishExists(read, fp);
    } else if o.UpToDate? {
      read := planned.(worker := Resolving(p.previousGen));
      m' := read.(pending := {}, worker := Returned(p.previousGen));
    } else {
      read := planned.(worker := Failed);
      m' := read;
    }
    assert Next(planned, Read, read, fp);
    assert Next(m, Begin, planned, fp);
    assert Publishes(read, m', fp);
    hide Next, Publishes;
  }

  lemma PublishExists(read: Memory, fp: Fingerprint) returns (m': Memory)
    requires read.worker.Creating? && read.worker.comp.state == Building
    ensures Publishes(read, m', fp)
  {
    var gen, comp := read.worker.gen, read.worker.comp;
    var created := read.(comps := read.comps[gen := comp], worker := Activating(gen));
    var active := created.(comps := RetireActive(created.comps)[gen := comp.(state := Active)],
      worker := Resolving(gen));
    m' := active.(pending := {}, worker := Returned(gen));
    assert Next(read, Create, created, fp) && Next(created, Activate, active, fp) && Next(active, Resolve, m', fp);
  }

  ghost function Last(states: seq<Memory>): Memory
    requires states != []
  {
    states[|states| - 1]
  }

  lemma RunThenStep(states: seq<Memory>, actions: seq<Action>, a: Action, m': Memory, fp: Fingerprint)
    requires Run(states, actions, fp) && Next(Last(states), a, m', fp)
    ensures Run(states + [m'], actions + [a], fp) && Last(states + [m']) == m'
  {
    hide Next;
  }

  /** A compile is a part of a run. */
  lemma RunThenCompile(states: seq<Memory>, actions: seq<Action>, m': Memory, fp: Fingerprint)
    returns (more: seq<Memory>, further: seq<Action>)
    requires Run(states, actions, fp) && Compiles(Last(states), m', fp)
    ensures Run(more, further, fp) && Last(more) == m'
  {
    hide Next;
    assert states != [];
    hide Run;
    var planned: Memory, read: Memory :|
      Next(Last(states), Begin, planned, fp) && Next(planned, Read, read, fp) && Publishes(read, m', fp);
    RunThenStep(states, actions, Begin, planned, fp);
    RunThenStep(states + [planned], actions + [Begin], Read, read, fp);
    more, further := states + [planned] + [read], actions + [Begin] + [Read];
    if read.worker.Creating? {
      var created: Memory, active: Memory :|
        Next(read, Create, created, fp) && Next(created, Activate, active, fp) && Next(active, Resolve, m', fp);
      RunThenStep(more, further, Create, created, fp);
      RunThenStep(more + [created], further + [Create], Activate, active, fp);
      RunThenStep(more + [created] + [active], further + [Create] + [Activate], Resolve, m', fp);
      more, further := more + [created] + [active] + [m'], further + [Create] + [Activate] + [Resolve];
    } else if read.worker.Resolving? {
      RunThenStep(more, further, Resolve, m', fp);
      more, further := more + [m'], further + [Resolve];
    }
  }

  /** Every ready document other than a directory has IR, or none of them has. */
  predicate AllOrNoneHaveIr(docs: map<Id, Doc>) {
    || (forall id <- docs :: docs[id].ready && !docs[id].directory ==> docs[id].nodes)
    || (forall id <- docs :: docs[id].ready && !docs[id].directory ==> !docs[id].nodes)
  }

  lemma CompilesKeepsInv(m: Memory, m': Memory, fp: Fingerprint)
    requires Inv(m, fp) && Compiles(m, m', fp)
    ensures Inv(m', fp)
  {
    hide Inv, Next;
    var planned: Memory, read: Memory :|
      Next(m, Begin, planned, fp) && Next(planned, Read, read, fp) && Publishes(read, m', fp);
    StepKeepsInv(m, Begin, planned, fp);
    StepKeepsInv(planned, Read, read, fp);
    if read.worker.Creating? {
      var created: Memory, active: Memory :|
        Next(read, Create, created, fp) && Next(created, Activate, active, fp) && Next(active, Resolve, m', fp);
      StepKeepsInv(read, Create, created, fp);
      StepKeepsInv(created, Activate, active, fp);
      StepKeepsInv(active, Resolve, m', fp);
    } else if read.worker.Resolving? {
      StepKeepsInv(read, Resolve, m', fp);
    }
  }

  /** Compiling again with nothing changed returns the same generation and stores
      nothing, if and only if every ready document has IR or none has. */
  lemma SecondCompileReturnsSame(states: seq<Memory>, actions: seq<Action>, fp: Fingerprint, k: nat, m': Memory,
                                 m'': Memory)
    requires Run(states, actions, fp) && k < |states| && Compiles(states[k], m', fp) && m'.worker.Returned?
    requires Compiles(m', m'', fp)
    ensures (m''.worker == m'.worker && m''.comps == m'.comps) <==> AllOrNoneHaveIr(states[k].docs)
  {
    hide Inv, Compiles, IsRebuild, Rebuild, Run, AllOrNoneHaveIr;
    RunKeepsInv(states, actions, fp, k);
    CompilesKeepsInv(states[k], m', fp);
    CompileRebuilds(states, actions, fp, k, m');
    SecondCompile(states[k].docs, m', m'', fp);
  }

  lemma SecondCompile(docs: map<Id, Doc>, m: Memory, m': Memory, fp: Fingerprint)
    requires m.worker.Returned? && IsActive(m, m.worker.gen) && m.pending == {} && m.docs == docs
    requires IsRebuild(m.comps[m.worker.gen], docs, m.compiler, fp)
    requires Inv(m, fp)
    requires Compiles(m, m', fp)
    ensures (m'.worker == m.worker && m'.comps == m.comps) <==>
      AllOrNoneHaveIr(docs)
  {
    hide Sound, Compile, LoadAll, ToLoad, IsRebuild, Rebuild;
    var planned: Memory, read: Memory :|
      Next(m, Begin, planned, fp) && Next(planned, Read, read, fp) && Publishes(read, m', fp);
    var p := MakePlan(m);
    SecondCompileIsNoop(p, docs, fp);
    if read.worker.Creating? {
      PublishedIsActive(read, m', fp);
    }
  }

  // -------------------------------------------------- both failures, from an empty base

  const WITH_IR := Doc(true, false, Signature(1, 1, "a"), true, false)
  const WITHOUT_IR := Doc(true, false, Signature(1, 1, "b"), false, false)
  const EMPTIED := Doc(true, false, Signature(2, 2, "a"), false, false)

  lemma FirstCompile(docs: map<Id, Doc>, states: seq<Memory>, actions: seq<Action>, fp: Fingerprint)
    returns (m': Memory)
    requires Run(states, actions, fp) && Last(states).worker == Idle && Last(states).docs == docs
    requires 1 in docs && docs[1] == WITH_IR
    ensures Compiles(Last(states), m', fp) && m'.worker.Returned? && IsActive(m', m'.worker.gen)
    ensures m'.docs == docs && m'.compiler == Last(states).compiler
    ensures m'.comps[m'.worker.gen].compiler == m'.compiler
  {
    m' := CompileExists(Last(states), fp);
    assert 1 in Rebuild(docs, Last(states).compiler);
    hide Run, Compiles, Rebuild;
    CompileRebuilds(states, actions, fp, |states| - 1, m');
  }

  /** One ready document with IR and one without: compiling twice makes two generations. */
  lemma SecondCompileMayDiffer(fp: Fingerprint)
    returns (states: seq<Memory>, actions: seq<Action>, m': Memory, m'': Memory)
    ensures Run(states, actions, fp) && Compiles(Last(states), m', fp) && Compiles(m', m'', fp)
    ensures m'.worker.Returned? && m''.worker.Returned? && (m''.worker != m'.worker || m''.comps != m'.comps)
  {
    var m0 := Memory(map[], {}, map[], 0, Idle);
    var m1 := m0.(docs := map[1 := WITH_IR]);
    var m2 := m0.(docs := map[1 := WITH_IR, 2 := WITHOUT_IR]);
    states, actions := [m0, m1, m2], [Put(1, WITH_IR), Put(2, WITHOUT_IR)];
    assert Next(m0, Put(1, WITH_IR), m1, fp) && Next(m1, Put(2, WITHOUT_IR), m2, fp);
    assert Run(states, actions, fp);
    m' := FirstCompile(m2.docs, states, actions, fp);
    m'' := CompileExists(m', fp);
    assert !AllOrNoneHaveIr(m2.docs);
    assert 1 in Rebuild(m2.docs, m'.compiler);
    hide Run, Compiles, Next, Rebuild, AllOrNoneHaveIr;
    SecondCompileReturnsSame(states, actions, fp, |states| - 1, m', m'');
    var more, further := RunThenCompile(states, actions, m', fp);
    CompileRebuilds(more, further, fp, |more| - 1, m'');
  }

  /** The only document loses its IR, the process restarts, and the compiler is upgraded. */
  lemma EmptyAndUpgrade(states: seq<Memory>, actions: seq<Action>, fp: Fingerprint)
    returns (more: seq<Memory>, further: seq<Action>)
    requires Run(states, actions, fp) && Last(states).docs == map[1 := WITH_IR]
    ensures Run(more, further, fp) && more != []
    ensures Last(more) ==
      Last(states).(docs := map[1 := EMPTIED], worker := Idle, compiler := Last(states).compiler + 1)
  {
    var m := Last(states);
    var m1 := m.(docs := m.docs[1 := EMPTIED]);
    var m2 := m1.(worker := Idle);
    var m3 := m2.(compiler := m.compiler + 1);
    assert m1.docs == map[1 := EMPTIED];
    assert Next(m, Put(1, EMPTIED), m1, fp) && Next(m1, Crash, m2, fp) && Next(m2, Upgrade(m.compiler + 1), m3, fp);
    hide Run, Next;
    RunThenStep(states, actions, Put(1, EMPTIED), m1, fp);
    RunThenStep(states + [m1], actions + [Put(1, EMPTIED)], Crash, m2, fp);
    RunThenStep(states + [m1] + [m2], actions + [Put(1, EMPTIED)] + [Crash], Upgrade(m.compiler + 1), m3, fp);
    more, further := states + [m1] + [m2] + [m3], actions + [Put(1, EMPTIED)] + [Crash] + [Upgrade(m.compiler + 1)];
  }

  lemma FirstRun(fp: Fingerprint) returns (states: seq<Memory>, actions: seq<Action>)
    ensures Run(states, actions, fp) && states != []
    ensures Last(states).docs == map[1 := WITH_IR] && Last(states).worker.Returned?
    ensures IsActive(Last(states), Last(states).worker.gen)
    ensures Last(states).comps[Last(states).worker.gen].compiler == Last(states).compiler
  {
    var m0 := Memory(map[], {}, map[], 0, Idle);
    var m1 := m0.(docs := map[1 := WITH_IR]);
    assert Next(m0, Put(1, WITH_IR), m1, fp);
    assert Run([m0, m1], [Put(1, WITH_IR)], fp);
    hide Run, Next, Compiles;
    var m2 := FirstCompile(m1.docs, [m0, m1], [Put(1, WITH_IR)], fp);
    states, actions := RunThenCompile([m0, m1], [Put(1, WITH_IR)], m2, fp);
  }

  /** Then compiling fails, and the compilation of the old compiler stays active. */
  lemma UpgradeMayFail(fp: Fingerprint)
    returns (states: seq<Memory>, actions: seq<Action>, m': Memory, gen: nat)
    ensures Run(states, actions, fp) && Compiles(Last(states), m', fp) && m'.worker.Failed?
    ensures IsActive(m', gen) && m'.comps[gen].compiler != m'.compiler
  {
    hide Run, Next, Compiles, Rebuild;
    states, actions := FirstRun(fp);
    gen := Last(states).worker.gen;
    states, actions := EmptyAndUpgrade(states, actions, fp);
    var m := Last(states);
    m' := CompileExists(m, fp);
    NoIrNoRebuild(m.compiler);
    assert IsActive(m, gen);
    RunKeepsInv(states, actions, fp, |states| - 1);
    CompileRebuilds(states, actions, fp, |states| - 1, m');
  }

  lemma NoIrNoRebuild(compiler: nat)
    ensures Rebuild(map[1 := EMPTIED], compiler) == map[]
  {
  }
}
