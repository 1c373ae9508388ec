/** What a delete pass makes of the item marker, and how it ends: in every run, and in every pass that
    is left alone. */
module DeleteOutcomes {
  import opened DeleteReplay
  import opened DeleteRuns
  import opened Wrappers

  // --------------------------------------------------------------- the marker

  /** The item is marked by a later attempt than this one. */
  predicate IsNewer(m: Marker, attempt: nat) { m.Item? && m.attempt > attempt }

  /** A marker is never taken back, and its attempt never goes down. */
  predicate MovesOn(m: Marker, m': Marker) { m.Item? ==> m'.Item? && m'.attempt >= m.attempt }

  lemma StepMovesOn(c: Config, s: State, a: Action, s': State)
    requires Next(c, s, a, s')
    ensures MovesOn(s.store.marker, s'.store.marker)
  {
    hide InScope, Fenced, IsPage;
    if a.Work? {
      assert WorkerStep(c, s.store, s.workers[a.worker], s'.store, s'.workers[a.worker]);
    }
  }

  lemma {:induction false} AttemptsGoUp(c: Config, states: seq<State>, actions: seq<Action>, i: nat, j: nat)
    requires Run(c, states, actions) && i <= j < |states|
    ensures MovesOn(states[i].store.marker, states[j].store.marker)
  {
    hide Next;
    if i < j {
      AttemptsGoUp(c, states, actions, i, j - 1);
      StepMovesOn(c, states[j - 1], actions[j - 1], states[j]);
    }
  }

  /** No step of a worker changes a marker that is committed or of a later attempt, not even its failure. */
  lemma StaleWritesNothing(c: Config, s: State, a: Action, s': State)
    requires Next(c, s, a, s') && (a.Work? || a.Fail?)
    requires IsCommitted(s.store.marker) || IsNewer(s.store.marker, s.workers[a.worker].attempt)
    ensures s'.store.marker == s.store.marker
  {
    hide InScope, Fenced, IsPage;
    if a.Work? {
      assert WorkerStep(c, s.store, s.workers[a.worker], s'.store, s'.workers[a.worker]);
    }
  }

  /** A worker's step that deletes the target is the fencing one. */
  lemma FenceStepCommits(c: Config, s: State, w: Id, s': State)
    requires Next(c, s, Work(w), s')
    requires TargetLife(c, s.store) == Some(Active) && TargetLife(c, s'.store) == Some(Deleting)
    ensures s.workers[w].pc.Fence?
    ensures s.workers[w].first && !IsNewer(s.store.marker, s.workers[w].attempt) ==> IsCommitted(s'.store.marker)
  {
    assert WorkerStep(c, s.store, s.workers[w], s'.store, s'.workers[w]);
    hide InScope, Fenced, IsPage;
  }

  /** The pass of this worker that goes on at i had found the item unresolved at j. */
  ghost predicate FoundUnresolved(states: seq<State>, actions: seq<Action>, w: Id, j: nat, i: nat)
    requires |states| == |actions| + 1
  {
    && j < i <= |actions| && actions[j] == Work(w)
    && w in states[j].workers && states[j].workers[w].pc.Begin? && !Resolved(states[j].store.marker)
    && forall k :: j < k < i ==> !(actions[k].Launch? && actions[k].worker == w)
  }

  lemma PassGoesOn(c: Config, s: State, a: Action, s': State, w: Id)
    requires Next(c, s, a, s') && !(a.Launch? && a.worker == w)
    requires w in s.workers && s.workers[w].first && !s.workers[w].pc.Begin?
    ensures w in s'.workers && s'.workers[w].first && !s'.workers[w].pc.Begin?
    ensures s'.workers[w].attempt == s.workers[w].attempt
  {
    hide InScope, Fenced, IsPage, TargetLife;
    if a.Work? {
      assert WorkerStep(c, s.store, s.workers[a.worker], s'.store, s'.workers[a.worker]);
    }
  }

  lemma BeginIsFirst(c: Config, s: State, w: Id, s': State)
    requires Next(c, s, Work(w), s') && s.workers[w].pc.Begin? && !Resolved(s.store.marker)
    ensures w in s'.workers && s'.workers[w].first && !s'.workers[w].pc.Begin?
  {
    assert WorkerStep(c, s.store, s.workers[w], s'.store, s'.workers[w]);
  }

  lemma {:induction false} StaysFirst(c: Config, states: seq<State>, actions: seq<Action>, w: Id, j: nat, i: nat)
    requires Run(c, states, actions) && FoundUnresolved(states, actions, w, j, i)
    ensures w in states[i].workers && states[i].workers[w].first && !states[i].workers[w].pc.Begin?
  {
    hide Next;
    assert Next(c, states[i - 1], actions[i - 1], states[i]);
    if j < i - 1 {
      StaysFirst(c, states, actions, w, j, i - 1);
      PassGoesOn(c, states[i - 1], actions[i - 1], states[i], w);
    } else {
      assert j == i - 1;
      BeginIsFirst(c, states[i - 1], w, states[i]);
    }
  }

  /** In every run: when a worker deletes the target in a pass that found the item unresolved, and no
      later attempt has marked it, the marker is committed in that same step. */
  lemma FencingCommits(c: Config, states: seq<State>, actions: seq<Action>, w: Id, j: nat, i: nat)
    requires Run(c, states, actions) && i < |actions| && actions[i] == Work(w)
    requires FoundUnresolved(states, actions, w, j, i)
    requires TargetLife(c, states[i].store) == Some(Active) && TargetLife(c, states[i + 1].store) == Some(Deleting)
    requires w in states[i].workers && !IsNewer(states[i].store.marker, states[i].workers[w].attempt)
    ensures IsCommitted(states[i + 1].store.marker)
  {
    hide Next, TargetLife;
    assert Next(c, states[i], actions[i], states[i + 1]);
    StaysFirst(c, states, actions, w, j, i);
    FenceStepCommits(c, states[i], w, states[i + 1]);
  }

  // ------------------------------------------------------- how a lone pass ends

  /** How a pass ends that found the item unresolved and marked by no later attempt. It deletes an active
      target, and commits; it cleans one already being deleted, and commits unless it is a document; a
      missing directory is skipped, and a missing document or base is an error. */
  ghost predicate IsOutcome(c: Config, before: Store, attempt: nat, s: State, w: Id) {
    && w in s.workers
    && match TargetLife(c, before)
       case Some(Active) =>
         && s.workers[w].pc == Success(false) && Fenced(c, s.store) && AllClean(c, s.store)
         && s.store.marker == Item(Committed, true, attempt)
       case Some(Deleting) =>
         && s.workers[w].pc == Success(false) && Fenced(c, s.store) && AllClean(c, s.store)
         && s.store.marker == if c.kind == Document then before.marker else Item(Committed, true, attempt)
       case None =>
         if c.kind == Directory then
           s.workers[w].pc == Success(true) && s.store == before.(marker := Item(Skipped, false, attempt))
         else s.workers[w].pc == Error && s.store == before
  }

  predicate IsEarly(c: Config, life: Option<Life>, pc: Pc) {
    || pc.Load?
    || (pc.Fence? && (c.kind == Base || life == Some(Active)))
    || (pc.Recheck? && life != Some(Active))
    || (pc.Missing? && life == None)
  }

  predicate IsLate(pc: Pc) {
    pc.List? || pc.Clean? || pc.Read? || pc.Drop? || pc.Raw? || pc.SweepChunks? || pc.SweepFiles? || pc.Finish?
  }

  /** Where a lone pass may be: before its first write, past the fence, or at its end. */
  ghost predicate OnCourse(c: Config, before: Store, attempt: nat, st: Store, w: Worker) {
    var life := TargetLife(c, before);
    && w.attempt == attempt && (w.first || w.pc.Begin?)
    && (|| (st == before && (w.pc.Begin? || IsEarly(c, life, w.pc)))
        || (IsLate(w.pc) && life != None
            && st.marker == if life == Some(Active) then Item(Committed, true, attempt) else before.marker)
        || (w.pc == Success(false) && life != None
            && st.marker == if life == Some(Deleting) && c.kind == Document then before.marker
                            else Item(Committed, true, attempt))
        || (w.pc == Success(true) && life == None && c.kind == Directory
            && st == before.(marker := Item(Skipped, false, attempt)))
        || (w.pc == Error && life == None && c.kind != Directory && st == before))
  }

  lemma EarlyStepIsOnCourse(c: Config, before: Store, attempt: nat, w: Worker, st': Store, w': Worker)
    requires w.attempt == attempt && !Resolved(before.marker) && !IsNewer(before.marker, attempt)
    requires w.pc.Begin? || (w.first && IsEarly(c, TargetLife(c, before), w.pc))
    requires WorkerStep(c, before, w, st', w')
    ensures OnCourse(c, before, attempt, st', w')
  {
    var life := TargetLife(c, before);
    assert life.Some? ==> life.value.Active? || life.value.Deleting?;
    hide InScope, Fenced, IsPage;
  }

  lemma LateStepIsOnCourse(c: Config, before: Store, attempt: nat, st: Store, w: Worker, st': Store, w': Worker)
    requires !Resolved(before.marker) && !IsNewer(before.marker, attempt)
    requires OnCourse(c, before, attempt, st, w) && IsLate(w.pc) && WorkerStep(c, st, w, st', w')
    ensures OnCourse(c, before, attempt, st', w')
  {
    var life := TargetLife(c, before);
    assert life.Some? ==> life.value.Active? || life.value.Deleting?;
    hide InScope, Fenced, IsPage, TargetLife;
  }

  lemma {:induction false} StaysOnCourse(c: Config, before: Store, attempt: nat, states: seq<State>, w: Id, k: nat)
    requires Alone(c, states, w) && k < |states|
    requires Inv(c, states[0]) && states[0].store == before && w in states[0].workers
    requires states[0].workers[w] == Worker(attempt, true, Begin)
    requires !Resolved(before.marker) && !IsNewer(before.marker, attempt)
    ensures Inv(c, states[k]) && w in states[k].workers
    ensures OnCourse(c, before, attempt, states[k].store, states[k].workers[w])
  {
    hide Inv, OnCourse, TargetLife;
    if k == 0 {
      LaunchIsOnCourse(c, before, attempt);
    } else {
      StaysOnCourse(c, before, attempt, states, w, k - 1);
      var s, s' := states[k - 1], states[k];
      assert Next(c, s, Work(w), s');
      StepKeepsInv(c, s, Work(w), s');
      CourseStep(c, before, attempt, s, w, s');
    }
  }

  lemma LaunchIsOnCourse(c: Config, before: Store, attempt: nat)
    ensures OnCourse(c, before, attempt, before, Worker(attempt, true, Begin))
  {
  }

  lemma CourseStep(c: Config, before: Store, attempt: nat, s: State, w: Id, s': State)
    requires !Resolved(before.marker) && !IsNewer(before.marker, attempt)
    requires w in s.workers && OnCourse(c, before, attempt, s.store, s.workers[w]) && Next(c, s, Work(w), s')
    ensures w in s'.workers && OnCourse(c, before, attempt, s'.store, s'.workers[w])
  {
    var now, later := s.workers[w], s'.workers[w];
    assert WorkerStep(c, s.store, now, s'.store, later);
    if IsLate(now.pc) {
      hide WorkerStep, OnCourse;
      LateStepIsOnCourse(c, before, attempt, s.store, now, s'.store, later);
    } else {
      EndsDoNotStep(c, s.store, now, s'.store, later);
      hide WorkerStep;
      EarlyStepIsOnCourse(c, before, attempt, now, s'.store, later);
    }
  }

  lemma EndsDoNotStep(c: Config, st: Store, w: Worker, st': Store, w': Worker)
    requires WorkerStep(c, st, w, st', w')
    ensures Running(w.pc)
  {
  }

  /** A pass launched on any sound store, whatever it chooses on its way and wherever other passes have
      left the item unresolved, ends as said when it is left alone until it stops. */
  lemma LonePassEnds(c: Config, before: State, states: seq<State>, w: Id, attempt: nat)
    requires Inv(c, before) && (w in before.workers ==> !Running(before.workers[w].pc))
    requires !Resolved(before.store.marker) && !IsNewer(before.store.marker, attempt)
    requires Alone(c, states, w) && states[0] == Launched(before, w, attempt) && Stopped(c, Last(states), w)
    ensures IsOutcome(c, before.store, attempt, Last(states), w)
  {
    AloneIsNotEmpty(c, states, w);
    hide Inv, OnCourse, TargetLife, Stopped, Alone, Fenced, AllClean;
    assert Next(c, before, Launch(w, attempt), states[0]);
    StepKeepsInv(c, before, Launch(w, attempt), states[0]);
    StaysOnCourse(c, before.store, attempt, states, w, |states| - 1);
    StoppedHasEnded(c, Last(states), w);
    CourseEnds(c, before.store, attempt, Last(states), w);
  }

  lemma AloneIsNotEmpty(c: Config, states: seq<State>, w: Id)
    requires Alone(c, states, w)
    ensures states != []
  {
  }

  lemma StoppedHasEnded(c: Config, s: State, w: Id)
    requires Inv(c, s) && w in s.workers && Stopped(c, s, w)
    ensures !Running(s.workers[w].pc)
  {
    hide Inv, Next;
    if Running(s.workers[w].pc) {
      var s' := WorkStep(c, s, w);
      assert false;
    }
  }

  lemma CourseEnds(c: Config, before: Store, attempt: nat, s: State, w: Id)
    requires Inv(c, s) && w in s.workers && !Running(s.workers[w].pc)
    requires OnCourse(c, before, attempt, s.store, s.workers[w])
    ensures IsOutcome(c, before, attempt, s, w)
  {
    if Succeeded(s, w) {
      FinalIsClean(c, s, w);
    }
    hide Inv, TargetLife, Fenced, AllClean;
  }

  /** At its start, or at its end having done nothing. */
  predicate SkipsOnly(before: Store, s: State, w: Id) {
    s.store == before && w in s.workers && (s.workers[w].pc.Begin? || s.workers[w].pc == Success(true))
  }

  lemma SkipStep(c: Config, before: Store, s: State, w: Id, s': State)
    requires before.marker.Item? && before.marker.state == Skipped && SkipsOnly(before, s, w)
    requires Next(c, s, Work(w), s')
    ensures SkipsOnly(before, s', w)
  {
    assert WorkerStep(c, s.store, s.workers[w], s'.store, s'.workers[w]);
  }

  lemma {:induction false} OnlySkips(c: Config, before: Store, states: seq<State>, w: Id, k: nat)
    requires before.marker.Item? && before.marker.state == Skipped
    requires Alone(c, states, w) && k < |states| && SkipsOnly(before, states[0], w)
    ensures SkipsOnly(before, states[k], w)
  {
    hide Next;
    if k > 0 {
      OnlySkips(c, before, states, w, k - 1);
      SkipStep(c, before, states[k - 1], w, states[k]);
    }
  }

  /** And one that finds the item skipped reports just that. */
  lemma SkippedStaysSkipped(c: Config, before: State, states: seq<State>, w: Id, attempt: nat)
    requires before.store.marker.Item? && before.store.marker.state == Skipped
    requires Alone(c, states, w) && states[0] == Launched(before, w, attempt) && Stopped(c, Last(states), w)
    ensures w in Last(states).workers && Last(states).workers[w].pc == Success(true)
    ensures Last(states).store == before.store
  {
    AloneIsNotEmpty(c, states, w);
    OnlySkips(c, before.store, states, w, |states| - 1);
    if Last(states).workers[w].pc.Begin? {
      BeginSteps(c, Last(states), w);
    }
  }

  lemma BeginSteps(c: Config, s: State, w: Id)
    requires w in s.workers && s.workers[w].pc.Begin? && s.store.marker.Item? && s.store.marker.state == Skipped
    ensures !Stopped(c, s, w)
  {
    var w' := Worker(s.workers[w].attempt, false, Success(true));
    var s' := State(s.store, s.workers[w := w']);
    assert WorkerStep(c, s.store, s.workers[w], s'.store, s'.workers[w]);
    assert Next(c, s, Work(w), s');
  }
}
