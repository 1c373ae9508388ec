/** Which raw files a crash can leave behind. The cleanup of one document reads
    the raw paths of its generations, deletes the generation rows, and only then
    deletes the files. A crash between the two forgets every path but the
    active one, which the document row still names. */
module RetainedRaw {
  import opened DeleteReplay
  import opened DeleteRuns
  import opened Wrappers

  /** Nothing in the scope has a raw file any more. */
  predicate NoFiles(c: Config, st: Store) {
    forall p <- st.files :: !InScope(c, st, p.doc)
  }

  predicate IsStray(c: Config, st: Store, p: Path) {
    p in st.files && InScope(c, st, p.doc) && st.rows[p.doc].raw != Some(p)
  }

  /** Every raw file of the scope is its document's active one. */
  predicate NoStray(c: Config, st: Store) {
    forall p <- st.files :: !IsStray(c, st, p)
  }

  /** A document of the scope gets a raw file in place of another one. */
  predicate Replaces(c: Config, st: Store, a: Action) {
    a.Publish? && InScope(c, st, a.id) && st.rows[a.id].raw.Some? && st.rows[a.id].raw != Some(a.path)
  }

  ghost predicate Calm(c: Config, states: seq<State>, actions: seq<Action>) {
    |states| == |actions| + 1 && forall i :: 0 <= i < |actions| ==> !Replaces(c, states[i].store, actions[i])
  }

  /** However workers crash and other operations interleave, imports into the scope
      included, success means no raw file is left, unless a document of the scope is
      imported over another raw file meanwhile. */
  ghost predicate LeakFree(c: Config, s: State) {
    forall states: seq<State>, actions: seq<Action>, w: Id ::
      Run(c, states, actions) && Calm(c, states, actions) && states[0] == s && Succeeded(Last(states), w) ==>
        NoFiles(c, Last(states).store)
  }

  // -------------------------------------------------------------- base delete

  /** Deleting a base removes its whole raw directory, so nothing can be left. */
  lemma BaseLeavesNothing(c: Config, states: seq<State>, actions: seq<Action>, i: nat, j: nat, w: Id)
    requires Run(c, states, actions) && Start(states[0]) && i <= j < |states| && c.kind == Base
    requires Succeeded(states[i], w)
    ensures NoFiles(c, states[j].store)
    ensures forall id <- states[j].store.rows :: InScope(c, states[j].store, id) ==>
      states[j].store.rows[id].chunks == {}
  {
    hide Run, Start, Fenced;
    SuccessIsClean(c, states, actions, i, j, w);
  }

  // ------------------------------------------- no stray file, nothing is left

  /** No document, raw file or generation appears, and active raw paths and the scope stay. */
  predicate SameNames(st: Store, st': Store) {
    && st'.rows.Keys == st.rows.Keys && st'.files <= st.files
    && forall id <- st.rows ::
         && st'.rows[id].raw == st.rows[id].raw && st'.rows[id].base == st.rows[id].base
         && st'.rows[id].ancestors == st.rows[id].ancestors
         && st'.rows[id].generations <= st.rows[id].generations
  }

  lemma SameNamesNoStray(c: Config, st: Store, st': Store)
    requires SameNames(st, st') && NoStray(c, st)
    ensures NoStray(c, st')
  {
    forall p | p in st'.files
      ensures !IsStray(c, st', p)
    {
      assert !IsStray(c, st, p);
    }
  }

  lemma WorkerKeepsNames(c: Config, st: Store, w: Worker, st': Store, w': Worker)
    requires SoundStore(st) && SoundWorker(c, st, w) && WorkerStep(c, st, w, st', w')
    ensures SameNames(st, st')
  {
    hide SoundStore, Fenced, InScope, CleanUpTo, AllClean;
    if w.pc.Clean? || w.pc.Drop? || w.pc.Raw? || w.pc.SweepChunks? || w.pc.SweepFiles? {
      CleaningRemoves(c, st, w, st', w');
      hide WorkerStep, SoundWorker;
    }
  }

  /** A new document has no file, since every file belongs to a document. */
  lemma InsertKeepsNoStray(c: Config, st: Store, id: Id, row: Row)
    requires SoundStore(st) && NoStray(c, st) && id !in st.rows
    ensures NoStray(c, SetRow(st, id, row))
  {
    forall p | p in st.files
      ensures !IsStray(c, SetRow(st, id, row), p)
    {
      assert SoundFile(st, p) && !IsStray(c, st, p);
    }
  }

  /** The first raw file of a document is its active one. */
  lemma PublishKeepsNoStray(c: Config, s: State, a: Action, s': State)
    requires Next(c, s, a, s') && a.Publish? && NoStray(c, s.store) && !Replaces(c, s.store, a)
    ensures NoStray(c, s'.store)
  {
    forall p | p in s'.store.files
      ensures !IsStray(c, s'.store, p)
    {
      assert p in s.store.files ==> !IsStray(c, s.store, p);
    }
  }

  lemma StepKeepsNoStray(c: Config, s: State, a: Action, s': State)
    requires Inv(c, s) && Next(c, s, a, s') && NoStray(c, s.store) && !Replaces(c, s.store, a)
    ensures NoStray(c, s'.store)
  {
    hide SoundStore, NoStray, WorkerStep, SoundWorker, Replaces;
    if a.Insert? {
      InsertKeepsNoStray(c, s.store, a.id, a.row);
    } else if a.Publish? {
      PublishKeepsNoStray(c, s, a, s');
    } else {
      if a.Work? {
        WorkerKeepsNames(c, s.store, s.workers[a.worker], s'.store, s'.workers[a.worker]);
      }
      SameNamesNoStray(c, s.store, s'.store);
    }
  }

  lemma {:induction false} RunKeepsNoStray(c: Config, states: seq<State>, actions: seq<Action>, k: nat)
    requires Run(c, states, actions) && Start(states[0]) && k < |states|
    requires NoStray(c, states[0].store) && Calm(c, states, actions)
    ensures NoStray(c, states[k].store)
  {
    hide SoundStore, SoundWorker, Fenced, Next, NoStray, Start, Replaces;
    if k > 0 {
      RunKeepsNoStray(c, states, actions, k - 1);
      RunKeepsInv(c, states, actions, k - 1);
      StepKeepsNoStray(c, states[k - 1], actions[k - 1], states[k]);
    }
  }

  lemma WithoutStrayNothingIsLeft(c: Config, states: seq<State>, actions: seq<Action>, w: Id)
    requires Run(c, states, actions) && Start(states[0]) && Succeeded(Last(states), w)
    requires NoStray(c, states[0].store) && Calm(c, states, actions)
    ensures NoFiles(c, Last(states).store)
  {
    hide Start, Fenced, Next, Calm;
    RunKeepsNoStray(c, states, actions, |actions|);
    SuccessIsClean(c, states, actions, |actions|, |actions|, w);
    CleanWithoutStray(c, Last(states).store);
  }

  lemma CleanWithoutStray(c: Config, st: Store)
    requires AllClean(c, st) && NoStray(c, st)
    ensures NoFiles(c, st)
  {
    forall p | p in st.files
      ensures !InScope(c, st, p.doc)
    {
      assert !IsStray(c, st, p);
    }
  }

  // ------------------------------------- a retained file can be left behind

  /** A stray file the database still names. */
  predicate Retained(c: Config, st: Store, p: Path) {
    IsStray(c, st, p) && p in st.rows[p.doc].generations
  }

  /** A stray file nothing names any more. */
  predicate Forgotten(c: Config, st: Store, p: Path) {
    IsStray(c, st, p) && p !in st.rows[p.doc].generations
  }

  predicate Holds(w: Worker, p: Path) {
    (w.pc.Drop? || w.pc.Raw?) && p in w.pc.paths
  }

  lemma StrayFileStays(c: Config, st: Store, w: Worker, st': Store, w': Worker, p: Path)
    requires SoundStore(st) && SoundWorker(c, st, w) && WorkerStep(c, st, w, st', w') && c.kind != Base
    requires IsStray(c, st, p) && !(w.pc.Raw? && p in w.pc.paths)
    ensures p in st'.files
  {
    hide Fenced, CleanUpTo, AllClean;
    if w.pc.Raw? {
      assert InScope(c, st, w.pc.page[w.pc.i].id);
      assert SoundRow(st, w.pc.page[w.pc.i].id);
      hide SoundStore, InScope;
    } else {
      hide SoundStore, InScope, OnPage;
    }
  }

  lemma StrayStays(c: Config, st: Store, w: Worker, st': Store, w': Worker, p: Path)
    requires SoundStore(st) && SoundWorker(c, st, w) && WorkerStep(c, st, w, st', w') && c.kind != Base
    requires IsStray(c, st, p) && !(w.pc.Raw? && p in w.pc.paths)
    ensures IsStray(c, st', p) && SameNames(st, st')
  {
    StrayFileStays(c, st, w, st', w', p);
    WorkerKeepsNames(c, st, w, st', w');
    hide SoundStore, SoundWorker, WorkerStep;
  }

  lemma RetainedIsNotHeld(c: Config, st: Store, w: Worker, p: Path)
    requires SoundWorker(c, st, w) && c.kind != Base && Retained(c, st, p) && w.pc.Raw?
    ensures p !in w.pc.paths
  {
    hide Fenced, CleanUpTo, AllClean, IsPage;
  }

  lemma RetainedStep(c: Config, st: Store, w: Worker, st': Store, w': Worker, p: Path)
    requires SoundStore(st) && SoundWorker(c, st, w) && WorkerStep(c, st, w, st', w')
    requires c.kind != Base && Retained(c, st, p)
    ensures Retained(c, st', p) || (Forgotten(c, st', p) && Fenced(c, st'))
  {
    if w.pc.Raw? {
      RetainedIsNotHeld(c, st, w, p);
    }
    StrayStays(c, st, w, st', w', p);
    if !Retained(c, st', p) {
      LosingIsCleaning(c, st, w, st', w', p.doc);
      CleaningRemoves(c, st, w, st', w');
      RemovalShrinks(c, st, st');
    }
    hide SoundStore, SoundWorker, WorkerStep, Fenced, OnlyRemoves;
  }

  /** Generation rows go only in cleaning steps. */
  lemma LosingIsCleaning(c: Config, st: Store, w: Worker, st': Store, w': Worker, id: Id)
    requires WorkerStep(c, st, w, st', w') && id in st.rows && id in st'.rows
    requires st'.rows[id].generations != st.rows[id].generations
    ensures w.pc.Clean? || w.pc.Drop?
  {
    hide InScope, Fenced;
  }

  lemma NotTakenUp(c: Config, st: Store, w: Worker, st': Store, w': Worker, p: Path)
    requires SoundStore(st) && WorkerStep(c, st, w, st', w') && Forgotten(c, st, p) && !Holds(w, p)
    ensures !Holds(w', p)
  {
    hide InScope, Fenced;
    if w.pc.Read? {
      assert SoundRow(st, w.pc.page[w.pc.i].id);
    }
    hide SoundStore;
  }

  lemma ForgottenStep(c: Config, st: Store, w: Worker, st': Store, w': Worker, p: Path)
    requires SoundStore(st) && SoundWorker(c, st, w) && WorkerStep(c, st, w, st', w')
    requires c.kind != Base && Forgotten(c, st, p) && !Holds(w, p)
    ensures Forgotten(c, st', p) && !Holds(w', p)
  {
    StrayStays(c, st, w, st', w', p);
    NotTakenUp(c, st, w, st', w', p);
    hide SoundStore, SoundWorker, WorkerStep;
  }

  /** Somewhere on a lone worker's way to success, a retained file is forgotten. */
  lemma {:induction false} ForgottenOnTheWay(c: Config, states: seq<State>, w: Id, p: Path, i: nat) returns (k: nat)
    requires Alone(c, states, w) && OnTrack(c, states[0], w) && Succeeded(Last(states), w)
    requires i < |states| && c.kind != Base && Retained(c, states[i].store, p)
    ensures k < |states| && Forgotten(c, states[k].store, p) && Fenced(c, states[k].store)
    decreases |states| - i
  {
    hide Retained, Forgotten, SoundStore, SoundWorker, Fenced;
    AloneStaysOnTrack(c, states, w, i);
    if i == |states| - 1 {
      CleanIsNotRetained(c, states[i], w, p);
    } else {
      assert Next(c, states[i], Work(w), states[i + 1]);
      RetainedStep(c, states[i].store, states[i].workers[w], states[i + 1].store, states[i + 1].workers[w], p);
      if Retained(c, states[i + 1].store, p) {
        k := ForgottenOnTheWay(c, states, w, p, i + 1);
      } else {
        k := i + 1;
      }
    }
  }

  lemma CleanIsNotRetained(c: Config, s: State, w: Id, p: Path)
    requires Inv(c, s) && Succeeded(s, w) && c.kind != Base
    ensures !Retained(c, s.store, p)
  {
    FinalIsClean(c, s, w);
  }

  /** A forgotten file survives every step of a worker that does not hold it. */
  lemma {:induction false} ForgottenForGood(c: Config, states: seq<State>, w: Id, p: Path, k: nat)
    requires Alone(c, states, w) && OnTrack(c, states[0], w) && k < |states| && c.kind != Base
    requires Forgotten(c, states[0].store, p) && !Holds(states[0].workers[w], p)
    ensures w in states[k].workers && Forgotten(c, states[k].store, p) && !Holds(states[k].workers[w], p)
  {
    hide Forgotten, SoundStore, SoundWorker, Fenced;
    if k > 0 {
      ForgottenForGood(c, states, w, p, k - 1);
      AloneStaysOnTrack(c, states, w, k - 1);
      assert Next(c, states[k - 1], Work(w), states[k]);
      ForgottenStep(c, states[k - 1].store, states[k - 1].workers[w], states[k].store, states[k].workers[w], p);
    }
  }

  /** Launched over an unresolved, active target or a fenced one, a worker is on track. */
  lemma LaunchIsOnTrack(c: Config, s: State, w: Id, attempt: nat)
    requires Inv(c, s) && (!Resolved(s.store.marker) || IsCommitted(s.store.marker))
    requires w in s.workers ==> !Running(s.workers[w].pc)
    requires TargetLife(c, s.store) == Some(Active) || Fenced(c, s.store)
    ensures Next(c, s, Launch(w, attempt), Launched(s, w, attempt)) && OnTrack(c, Launched(s, w, attempt), w)
  {
    hide SoundStore, Fenced;
    StepKeepsInv(c, s, Launch(w, attempt), Launched(s, w, attempt));
  }

  /** A scope that is not empty has its target, and a deleting target has a fenced scope. */
  lemma StrayHasTarget(c: Config, s: State, p: Path)
    requires SoundStore(s.store) && c.kind != Base && IsStray(c, s.store, p)
    ensures TargetLife(c, s.store) == Some(Active) || Fenced(c, s.store)
  {
    assert SoundRow(s.store, p.doc);
    if TargetLife(c, s.store) == Some(Deleting) {
      RecheckedIsFenced(c, s.store);
    }
  }

  lemma StartKeepsInv(c: Config, s: State)
    requires Start(s)
    ensures Inv(c, s)
  {
  }

  /** The first pass, cut off by a crash just after it has forgotten the file. */
  lemma FirstPass(c: Config, s: State, w: Id, attempt: nat, p: Path) returns (states: seq<State>, k: nat)
    requires Start(s) && !Resolved(s.store.marker) && c.kind != Base && Retained(c, s.store, p)
    ensures Run(c, states, [Launch(w, attempt)] + Works(w, k) + [Crash(w)]) && states[0] == s
    ensures Inv(c, Last(states)) && Fenced(c, Last(states).store) && Forgotten(c, Last(states).store, p)
    ensures w in Last(states).workers && Last(states).workers[w].pc == Idle
    ensures !Resolved(Last(states).store.marker) || IsCommitted(Last(states).store.marker)
  {
    StrayHasTarget(c, s, p);
    hide SoundStore, SoundWorker, Fenced, Forgotten, Retained, WorkerStep;
    var s' := Launched(s, w, attempt);
    LaunchIsOnTrack(c, s, w, attempt);
    LaunchKeepsRetained(c, s, w, attempt, p);
    var all := RunsToSuccess(c, s', w);
    k := ForgottenOnTheWay(c, all, w, p, 0);
    AloneStaysOnTrack(c, all, w, k);
    var crashed := all[k].(workers := all[k].workers[w := all[k].workers[w].(pc := Idle)]);
    assert Next(c, all[k], Crash(w), crashed);
    StepKeepsInv(c, all[k], Crash(w), crashed);
    assert Alone(c, all[..k + 1], w);
    AloneIsRun(c, all[..k + 1], w);
    RunThenRun(c, [s, s'], [Launch(w, attempt)], all[..k + 1], Works(w, k));
    states := [s, s'] + all[..k + 1][1..];
    RunThenRun(c, states, [Launch(w, attempt)] + Works(w, k), [all[k], crashed], [Crash(w)]);
    states := states + [all[k], crashed][1..];
  }

  lemma LaunchKeepsRetained(c: Config, s: State, w: Id, attempt: nat, p: Path)
    requires Retained(c, s.store, p)
    ensures Retained(c, Launched(s, w, attempt).store, p)
  {
  }

  /** A pass that starts after the file is forgotten succeeds without ever seeing it. */
  lemma BlindPass(c: Config, s: State, w: Id, attempt: nat, p: Path) returns (states: seq<State>, n: nat)
    requires Inv(c, s) && Forgotten(c, s.store, p) && c.kind != Base
    requires w in s.workers ==> !Running(s.workers[w].pc)
    requires !Resolved(s.store.marker) || IsCommitted(s.store.marker)
    ensures Run(c, states, [Launch(w, attempt)] + Works(w, n)) && states[0] == s
    ensures Succeeded(Last(states), w) && Forgotten(c, Last(states).store, p)
  {
    StrayHasTarget(c, s, p);
    hide SoundStore, SoundWorker, Fenced, Forgotten, WorkerStep;
    var s' := Launched(s, w, attempt);
    LaunchIsOnTrack(c, s, w, attempt);
    LaunchKeepsForgotten(c, s, w, attempt, p);
    var all := RunsToSuccess(c, s', w);
    ForgottenForGood(c, all, w, p, |all| - 1);
    n := |all| - 1;
    AloneIsRun(c, all, w);
    RunThenRun(c, [s, s'], [Launch(w, attempt)], all, Works(w, n));
    states := [s, s'] + all[1..];
  }

  lemma LaunchKeepsForgotten(c: Config, s: State, w: Id, attempt: nat, p: Path)
    requires Forgotten(c, s.store, p)
    ensures Forgotten(c, Launched(s, w, attempt).store, p) && !Holds(Launched(s, w, attempt).workers[w], p)
  {
  }

  lemma StrayIsLeft(c: Config, s: State, states: seq<State>, actions: seq<Action>, w: Id, p: Path)
    requires Run(c, states, actions) && states[0] == s && Succeeded(Last(states), w)
    requires forall a <- actions :: !a.Publish?
    requires IsStray(c, Last(states).store, p)
    ensures !LeakFree(c, s)
  {
    hide Next, InScope;
    assert Calm(c, states, actions);
    assert !NoFiles(c, Last(states).store);
  }

  /** A retained file is enough: one crash and one replay later it is orphaned. */
  lemma RetainedFileCanLeak(c: Config, s: State, p: Path)
    requires Start(s) && !Resolved(s.store.marker) && c.kind != Base && Retained(c, s.store, p)
    ensures !LeakFree(c, s)
  {
    hide Start, Inv, Fenced, Next, Resolved, LeakFree;
    var w, attempt := 0, 1;
    var states, k := FirstPass(c, s, w, attempt, p);
    var more, n := BlindPass(c, Last(states), w, attempt + 1, p);
    var first := [Launch(w, attempt)] + Works(w, k) + [Crash(w)];
    var second := [Launch(w, attempt + 1)] + Works(w, n);
    RunThenRun(c, states, first, more, second);
    StrayIsLeft(c, s, states + more[1..], first + second, w, p);
  }

  /** A file that was orphaned before stays where it is. */
  lemma ForgottenFileStays(c: Config, s: State, p: Path)
    requires Start(s) && !Resolved(s.store.marker) && c.kind != Base && Forgotten(c, s.store, p)
    ensures !LeakFree(c, s)
  {
    StartKeepsInv(c, s);
    hide Inv, Fenced, Next, Resolved, LeakFree;
    var states, n := BlindPass(c, s, 0, 1, p);
    StrayIsLeft(c, s, states, [Launch(0, 1)] + Works(0, n), 0, p);
  }

  /** What a start promises it still promises after a step that publishes nothing. */
  lemma LeakFreeLater(c: Config, s: State, a: Action, s': State)
    requires LeakFree(c, s) && Next(c, s, a, s') && !a.Publish?
    ensures LeakFree(c, s')
  {
    hide Next, NoFiles, Replaces;
    forall states: seq<State>, actions: seq<Action>, w: Id |
      Run(c, states, actions) && Calm(c, states, actions) && states[0] == s' && Succeeded(Last(states), w)
      ensures NoFiles(c, Last(states).store)
    {
      RunThenRun(c, [s, s'], [a], states, actions);
      var all, acts := [s, s'] + states[1..], [a] + actions;
      NotReplaced(c, s.store, a);
      assert Calm(c, all, acts) by {
        forall i | 0 <= i < |acts|
          ensures !Replaces(c, all[i].store, acts[i])
        {
          if i > 0 {
            assert all[i] == states[i - 1] && acts[i] == actions[i - 1];
          }
        }
      }
    }
  }

  lemma NotReplaced(c: Config, st: Store, a: Action)
    requires !a.Publish?
    ensures !Replaces(c, st, a)
  {
  }

  /** A skipped item can be marked anew, and then be worked on. */
  lemma Reopened(c: Config, s: State) returns (s': State, a: Action)
    requires Start(s) && Resolved(s.store.marker)
    ensures Next(c, s, a, s') && !a.Publish? && Start(s') && !Resolved(s'.store.marker)
    ensures forall p :: IsStray(c, s.store, p) ==> IsStray(c, s'.store, p)
  {
    a := OtherMark(Pending, s.store.marker.attempt);
    MarkingIsSound(c, s.store, Pending, s.store.marker.attempt);
    s' := s.(store := s.store.(marker := MarkItem(s.store.marker, Pending, s.store.marker.attempt)));
  }

  lemma StrayCanLeak(c: Config, s: State, p: Path)
    requires Start(s) && c.kind != Base && IsStray(c, s.store, p)
    ensures !LeakFree(c, s)
    decreases Resolved(s.store.marker)
  {
    hide Start, LeakFree, Next, Resolved, IsStray;
    if Resolved(s.store.marker) {
      var s', a := Reopened(c, s);
      StrayCanLeak(c, s', p);
      if LeakFree(c, s) {
        LeakFreeLater(c, s, a, s');
      }
    } else if Retained(c, s.store, p) {
      RetainedFileCanLeak(c, s, p);
    } else {
      ForgottenFileStays(c, s, p);
    }
  }

  /** From any start, a delete leaves no raw file behind under every crash, replay and
      interleaving if and only if it deletes a base, or no document of its scope has a raw
      file besides its active one when it starts. */
  lemma LeakFreeIffNothingRetained(c: Config, s: State)
    requires Start(s)
    ensures LeakFree(c, s) <==> c.kind == Base || NoStray(c, s.store)
  {
    hide Next, Fenced, Inv, Start, Calm;
    if c.kind == Base || NoStray(c, s.store) {
      forall states: seq<State>, actions: seq<Action>, w: Id |
        Run(c, states, actions) && Calm(c, states, actions) && states[0] == s && Succeeded(Last(states), w)
        ensures NoFiles(c, Last(states).store)
      {
        if c.kind == Base {
          BaseLeavesNothing(c, states, actions, |actions|, |actions|, w);
        } else {
          WithoutStrayNothingIsLeft(c, states, actions, w);
        }
      }
    } else {
      var p :| p in s.store.files && IsStray(c, s.store, p);
      StrayCanLeak(c, s, p);
    }
  }

  // ------------------------------------------------- a document, then updated

  const TARGET := Config(Document, 7)
  const OLD := Path(7, 0)
  const NEW := Path(7, 1)

  /** A base with one document, published a number of times. */
  function Example(chunks: set<nat>, paths: set<Path>, raw: Option<Path>): State {
    State(Store(map[1 := Active], map[7 := Row(1, {}, Active, chunks, paths, raw)], paths, Absent), map[])
  }

  lemma ExampleIsSound(chunks: set<nat>, paths: set<Path>, raw: Option<Path>)
    requires forall p <- paths :: p.doc == 7
    requires raw.Some? ==> raw.value.doc == 7
    ensures Start(Example(chunks, paths, raw))
  {
    var s := Example(chunks, paths, raw);
    assert SoundRow(s.store, 7);
    assert forall p <- s.store.files :: SoundFile(s.store, p);
  }

  const EMPTY := State(Store(map[1 := Active], map[], {}, Absent), map[])
  const IMPORTED := Example({0}, {OLD}, Some(OLD))
  const UPDATED := Example({0, 1}, {OLD, NEW}, Some(NEW))

  lemma ExampleRuns()
    ensures Run(TARGET, [EMPTY, Example({}, {}, None), IMPORTED, UPDATED],
                [Insert(7, Row(1, {}, Active, {}, {}, None)), Publish(7, 0, OLD), Publish(7, 1, NEW)])
  {
    var nothing: set<nat>, nowhere: set<Path> := {}, {};
    assert nowhere + {OLD} + nowhere == nowhere + {OLD} == {OLD} && nothing + {0} == {0};
    assert {OLD} + {NEW} + {OLD} == {OLD, NEW} && {0} + {1} == {0, 1};
    assert Next(TARGET, EMPTY, Insert(7, Row(1, {}, Active, {}, {}, None)), Example({}, {}, None));
    assert Next(TARGET, Example({}, {}, None), Publish(7, 0, OLD), IMPORTED);
    assert Next(TARGET, IMPORTED, Publish(7, 1, NEW), UPDATED);
  }

  /** Import a document, and its delete is free of leaks; import it once more, and a crash
      during its delete can orphan the first file. */
  lemma UpdatedDocumentLeaks()
    ensures Run(TARGET, [EMPTY, Example({}, {}, None), IMPORTED, UPDATED],
                [Insert(7, Row(1, {}, Active, {}, {}, None)), Publish(7, 0, OLD), Publish(7, 1, NEW)])
    ensures LeakFree(TARGET, IMPORTED) && !LeakFree(TARGET, UPDATED)
  {
    ExampleRuns();
    ExampleIsSound({0}, {OLD}, Some(OLD));
    ExampleIsSound({0, 1}, {OLD, NEW}, Some(NEW));
    assert NoStray(TARGET, IMPORTED.store);
    assert IsStray(TARGET, UPDATED.store, OLD);
    assert !NoStray(TARGET, UPDATED.store);
    hide Start, Run, LeakFree, NoStray, IsStray;
    LeakFreeIffNothingRetained(TARGET, IMPORTED);
    LeakFreeIffNothingRetained(TARGET, UPDATED);
  }
}
