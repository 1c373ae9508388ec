/** Background jobs as a step system: submitters, the goroutine that writes the
    pending row, workers, cancellation, status readers and process restarts, in
    any interleaving. A durable write after the first may be lost. */
module JobRuns {
  import opened Wrappers

  type Id = nat

  datatype Status = Pending | Running | Done | Failed | Cancelled

  datatype Job = Job(status: Status, progress: int, total: int, phase: string, file: string, completedBytes: int,
                     totalBytes: int)

  datatype Update = Update(percent: int, completed: int, total: int, phase: string, file: string,
                           completedBytes: int, totalBytes: int)

  /** The goroutine that persists the pending row. */
  datatype First = Unwritten | Written(ok: bool)

  datatype Pc =
    | Idle
    | Waiting(id: Id)
    | Checking(id: Id)
    | Saving(id: Id, snapshot: Job)
    | Executing(id: Id)
    | SavingFinal(id: Id, snapshot: Job)

  /** tasks is the in-memory registry, rows the jobs table; log records the durable
      writes of each job in order, and finishes every call of finishTask. */
  datatype State = State(tasks: map<Id, Job>, known: set<Id>, queued: set<Id>, cancelled: set<Id>,
                         first: map<Id, First>,
                         initial: map<Id, Job>, workers: map<nat, Pc>, rows: map<Id, Job>, log: map<Id, seq<Job>>,
                         finishes: multiset<Id>)

  datatype Action =
    | Register(id: Id, total: int, ioHeavy: bool) | Enqueue(id: Id) | Reject(id: Id)
    | PersistFirst(id: Id, ok: bool)
    | Take(worker: nat, id: Id) | Receive(worker: nat) | Check(worker: nat)
    | Save(worker: nat, ok: bool) | Report(worker: nat, update: Update) | Return(worker: nat, outcome: Status)
    | Cancel(id: Id) | Restart

  predicate Terminal(s: Status) { s == Done || s == Failed || s == Cancelled }

  // ------------------------------------------------------------------- progress

  /** Bytes as a percentage, truncated toward zero as the conversion does. */
  function Percentage(completed: int, total: int): int
    requires total > 0
  {
    if completed >= 0 then completed * 100 / total else -(-completed * 100 / total)
  }

  function Clamp(percent: int): int { if percent < 0 then 0 else if percent > 100 then 100 else percent }

  /** What a progress report makes of a job. */
  function Updated(job: Job, u: Update): Job {
    var percent := if u.totalBytes > 0 then Percentage(u.completedBytes, u.totalBytes)
                   else if u.completed > 0 then u.completed else u.percent;
    job.(status := Running,
         progress := if u.completed > 0 then u.completed else Clamp(percent),
         phase := if u.phase != "" then u.phase else job.phase,
         file := if u.file != "" then u.file else job.file,
         completedBytes := if u.totalBytes > 0 || u.completedBytes > 0 then u.completedBytes else job.completedBytes,
         totalBytes := if u.totalBytes > 0 then u.totalBytes else job.totalBytes,
         total := if u.total > 0 then u.total else job.total)
  }

  // ---------------------------------------------------------------------- steps

  function Logged(log: map<Id, seq<Job>>, id: Id): seq<Job> { if id in log then log[id] else [] }

  function Write(s: State, id: Id, job: Job): State {
    s.(rows := s.rows[id := job], log := s.log[id := Logged(s.log, id) + [job]])
  }

  function Finished(job: Job, outcome: Status): Job {
    job.(status := outcome, progress := if outcome == Done then job.total else job.progress)
  }

  /** The critical section of finishTask: the task leaves the registry in the same
      step that makes it terminal. */
  function Finish(s: State, w: nat, id: Id, outcome: Status): State
    requires id in s.tasks
  {
    s.(tasks := s.tasks - {id}, cancelled := s.cancelled + {id}, finishes := s.finishes + multiset{id},
       workers := s.workers[w := SavingFinal(id, Finished(s.tasks[id], outcome))])
  }

  predicate At(s: State, w: nat, pc: Pc) { w in s.workers && s.workers[w] == pc }

  function InitialJob(total: int, ioHeavy: bool): Job {
    Job(Pending, 0, total, if ioHeavy then "queued" else "", "", 0, 0)
  }

  predicate Next(s: State, a: Action, s': State) {
    match a
    case Register(id, total, ioHeavy) =>
      && id !in s.known && id !in s.rows
      && s' == s.(tasks := s.tasks[id := InitialJob(total, ioHeavy)], known := s.known + {id},
                  initial := s.initial[id := InitialJob(total, ioHeavy)])
    case Enqueue(id) =>
      && id in s.tasks && id !in s.first
      && s' == s.(queued := s.queued + {id}, first := s.first[id := Unwritten])
    case Reject(id) =>
      && id in s.tasks && id !in s.first
      && s' == s.(tasks := s.tasks - {id}, cancelled := s.cancelled + {id})
    case PersistFirst(id, ok) =>
      && id in s.first && s.first[id] == Unwritten && id in s.initial
      && s' == (if ok then Write(s, id, s.initial[id]) else s).(first := s.first[id := Written(ok)])
    case Take(w, id) =>
      && At(s, w, Idle) && id in s.queued
      && s' == s.(queued := s.queued - {id}, workers := s.workers[w := Waiting(id)])
    case Receive(w) =>
      && w in s.workers && s.workers[w].Waiting?
      && (var id := s.workers[w].id;
          && id in s.first && s.first[id].Written? && id in s.tasks
          && s' == if s.first[id].ok then s.(workers := s.workers[w := Checking(id)]) else Finish(s, w, id, Failed))
    case Check(w) =>
      && w in s.workers && s.workers[w].Checking?
      && (var id := s.workers[w].id;
          && id in s.tasks
          && var job := s.tasks[id].(status := Running,
                                     phase := if s.tasks[id].phase == "queued" then "" else s.tasks[id].phase);
             s' == if id in s.cancelled then Finish(s, w, id, Cancelled)
                   else s.(tasks := s.tasks[id := job], workers := s.workers[w := Saving(id, job)]))
    case Save(w, ok) =>
      && w in s.workers
      && (match s.workers[w]
          case Saving(id, job) => s' == (if ok then Write(s, id, job) else s).(workers := s.workers[w := Executing(id)])
          case SavingFinal(id, job) => s' == (if ok then Write(s, id, job) else s).(workers := s.workers[w := Idle])
          case _ => false)
    case Report(w, update) =>
      && w in s.workers && s.workers[w].Executing?
      && (var id := s.workers[w].id;
          && id in s.tasks
          && var job := Updated(s.tasks[id], update);
             s' == s.(tasks := s.tasks[id := job], workers := s.workers[w := Saving(id, job)]))
    case Return(w, outcome) =>
      && w in s.workers && s.workers[w].Executing? && Terminal(outcome)
      && (var id := s.workers[w].id; id in s.tasks && s' == Finish(s, w, id, outcome))
    case Cancel(id) => id in s.tasks && s' == s.(cancelled := s.cancelled + {id})
    case Restart => s' == Restarted(s)
  }

  /** A new process: memory is gone, and rows nobody works on any more are failed. */
  function Restarted(s: State): State {
    s.(tasks := map[], queued := {}, first := map[],
       workers := map w | w in s.workers :: Idle,
       rows := map id | id in s.rows ::
         if Terminal(s.rows[id].status) then s.rows[id] else s.rows[id].(status := Failed),
       log := map id | id in s.log ::
         if id in s.rows && !Terminal(s.rows[id].status)
         then s.log[id] + [s.rows[id].(status := Failed)] else s.log[id])
  }

  /** What a status reader sees. */
  function StatusOf(s: State, id: Id): Option<Job> {
    if id in s.tasks then Some(s.tasks[id]) else if id in s.rows then Some(s.rows[id]) else None
  }

  // ------------------------------------------------------------------ invariant

  predicate Holds(pc: Pc, id: Id) { !pc.Idle? && pc.id == id }

  predicate AllRunning(writes: seq<Job>) { forall k :: 0 <= k < |writes| ==> writes[k].status == Running }

  /** One pending write, then only running ones. */
  predicate InProgress(writes: seq<Job>) { writes != [] && writes[0].status == Pending && AllRunning(writes[1..]) }

  /** The shape of all durable writes of one job: nothing, a run in progress, a run
      with one terminal write at its end, or just a failure. */
  predicate WellWritten(writes: seq<Job>) {
    || writes == [] || InProgress(writes)
    || (InProgress(writes[..|writes| - 1]) && Terminal(writes[|writes| - 1].status))
    || (|writes| == 1 && writes[0].status == Failed)
  }

  /** Where a job in memory stands. */
  predicate SoundTask(s: State, id: Id)
    requires id in s.tasks
  {
    && id in s.known && s.finishes[id] == 0 && id in s.initial && s.initial[id].status == Pending
    && (id !in s.first ==> Logged(s.log, id) == [])
    && (id in s.first && s.first[id] == Written(true) ==> InProgress(Logged(s.log, id)))
    && (id in s.first && s.first[id] != Written(true) ==> Logged(s.log, id) == [])
    && (s.tasks[id].status == Pending || s.tasks[id].status == Running)
  }

  predicate SoundWorker(s: State, pc: Pc) {
    match pc
    case Idle => true
    case Waiting(id) => id in s.tasks && id in s.first && id !in s.queued
    case Checking(id) => id in s.tasks && id in s.first && s.first[id] == Written(true) && id !in s.queued
    case Saving(id, job) =>
      id in s.tasks && id in s.first && s.first[id] == Written(true) && id !in s.queued && job.status == Running
    case Executing(id) => id in s.tasks && id in s.first && s.first[id] == Written(true) && id !in s.queued
    case SavingFinal(id, job) =>
      && id !in s.tasks && id in s.known && id in s.first && id !in s.queued && s.first[id].Written?
      && Terminal(job.status)
      && (if s.first[id].ok then InProgress(Logged(s.log, id)) else Logged(s.log, id) == [] && job.status == Failed)
  }

  predicate SoundRow(s: State, id: Id) {
    && WellWritten(Logged(s.log, id))
    && (id in s.rows <==> Logged(s.log, id) != [])
    && (id in s.rows ==> s.rows[id] == Logged(s.log, id)[|Logged(s.log, id)| - 1] && id in s.known)
  }

  ghost predicate Inv(s: State) {
    && (forall id <- s.tasks :: SoundTask(s, id))
    && (forall w <- s.workers :: SoundWorker(s, s.workers[w]))
    && (forall v, w ::
          v in s.workers && w in s.workers && !s.workers[v].Idle? && Holds(s.workers[w], s.workers[v].id) ==> v == w)
    && (forall id :: SoundRow(s, id))
    && (forall id :: s.finishes[id] <= 1 && (id in s.finishes ==> id in s.known))
    && (forall id <- s.queued :: id in s.tasks && id in s.first)
    && (forall id <- s.first :: id in s.known && id in s.initial && s.initial[id].status == Pending
          && (s.first[id] == Unwritten ==> id in s.tasks))
  }

  // ------------------------------------------------------------ writes one by one

  lemma PendingStarts(job: Job)
    requires job.status == Pending
    ensures InProgress([job])
  {
  }

  lemma RunningGoesOn(writes: seq<Job>, job: Job)
    requires InProgress(writes) && job.status == Running
    ensures InProgress(writes + [job])
  {
    assert (writes + [job])[1..] == writes[1..] + [job];
  }

  lemma TerminalEnds(writes: seq<Job>, job: Job)
    requires Terminal(job.status) && (InProgress(writes) || (writes == [] && job.status == Failed))
    ensures WellWritten(writes + [job])
  {
    assert (writes + [job])[..|writes|] == writes;
  }

  lemma LastOfProgress(writes: seq<Job>)
    requires WellWritten(writes) && writes != []
    ensures InProgress(writes) <==> !Terminal(writes[|writes| - 1].status)
  {
    if InProgress(writes) && |writes| > 1 {
      assert writes[|writes| - 1] == writes[1..][|writes| - 2];
    }
    if |writes| > 1 && InProgress(writes[..|writes| - 1]) {
      assert writes[..|writes| - 1][0] == writes[0];
    }
  }

  lemma WriteKeepsRows(s: State, id: Id, job: Job)
    requires (forall i :: SoundRow(s, i)) && id in s.known && WellWritten(Logged(s.log, id) + [job])
    ensures forall i :: SoundRow(Write(s, id, job), i)
  {
    forall i
      ensures SoundRow(Write(s, id, job), i)
    {
      assert SoundRow(s, i);
    }
  }

  /** A step that writes nothing leaves the rows as they were. */
  lemma SameRows(s: State, s': State)
    requires forall i :: SoundRow(s, i)
    requires s'.log == s.log && s'.rows == s.rows && s.known <= s'.known
    ensures forall i :: SoundRow(s', i)
  {
    forall i
      ensures SoundRow(s', i)
    {
      assert SoundRow(s, i);
    }
  }

  lemma FinishKeepsInv(s: State, w: nat, id: Id, outcome: Status)
    requires Inv(s) && w in s.workers && !s.workers[w].Idle? && s.workers[w].id == id && !s.workers[w].SavingFinal?
    requires id in s.tasks && id in s.first && s.first[id].Written? && id !in s.queued && Terminal(outcome)
    requires !s.first[id].ok ==> outcome == Failed
    ensures Inv(Finish(s, w, id, outcome))
  {
    hide InProgress, WellWritten;
    var s' := Finish(s, w, id, outcome);
    assert SoundTask(s, id);
    SameRows(s, s');
    forall i | i in s'.tasks ensures SoundTask(s', i) { assert SoundTask(s, i); }
    forall v | v in s'.workers ensures SoundWorker(s', s'.workers[v]) { assert SoundWorker(s, s.workers[v]); }
  }

  lemma PendingRow(s: State, id: Id)
    requires Inv(s) && id in s.first && s.first[id] == Unwritten
    ensures Logged(s.log, id) == [] && id in s.tasks && InProgress([s.initial[id]])
    ensures forall i :: SoundRow(Write(s, id, s.initial[id]), i)
  {
    hide InProgress, WellWritten;
    assert SoundTask(s, id);
    PendingStarts(s.initial[id]);
    assert Logged(s.log, id) + [s.initial[id]] == [s.initial[id]];
    ProgressIsWell([s.initial[id]]);
    WriteKeepsRows(s, id, s.initial[id]);
  }

  lemma FirstWriteKeepsInv(s: State, id: Id, ok: bool, s': State)
    requires Inv(s) && Next(s, PersistFirst(id, ok), s')
    ensures Inv(s')
  {
    hide InProgress, WellWritten, SoundRow, InitialJob;
    if ok {
      FirstWriteSucceeds(s, id, s');
    } else {
      SameRows(s, s');
      forall i | i in s'.tasks ensures SoundTask(s', i) { assert SoundTask(s, i); }
      forall v | v in s'.workers ensures SoundWorker(s', s'.workers[v]) { assert SoundWorker(s, s.workers[v]); }
    }
  }

  lemma FirstWriteKeepsTasks(s: State, id: Id, s': State)
    requires Inv(s) && Next(s, PersistFirst(id, true), s')
    requires Logged(s.log, id) == [] && id in s.tasks && InProgress([s.initial[id]])
    ensures forall i <- s'.tasks :: SoundTask(s', i)
    ensures forall v <- s'.workers :: SoundWorker(s', s'.workers[v])
  {
    hide InProgress, WellWritten, SoundRow, InitialJob, Terminal;
    assert [] + [s.initial[id]] == [s.initial[id]];
    forall i | i in s'.tasks ensures SoundTask(s', i) { assert SoundTask(s, i); }
    forall v | v in s'.workers ensures SoundWorker(s', s'.workers[v]) { assert SoundWorker(s, s.workers[v]); }
  }

  lemma FirstWriteSucceeds(s: State, id: Id, s': State)
    requires Inv(s) && Next(s, PersistFirst(id, true), s')
    ensures Inv(s')
  {
    PendingRow(s, id);
    SameRows(Write(s, id, s.initial[id]), s');
    FirstWriteKeepsTasks(s, id, s');
    hide SoundTask, SoundWorker, SoundRow, InProgress, InitialJob;
  }

  lemma ProgressIsWell(writes: seq<Job>)
    requires InProgress(writes)
    ensures WellWritten(writes)
  {
  }

  lemma SaveRunningKeepsInv(s: State, w: nat, ok: bool, s': State)
    requires Inv(s) && Next(s, Save(w, ok), s') && s.workers[w].Saving?
    ensures Inv(s')
  {
    hide InProgress, WellWritten;
    var id, job := s.workers[w].id, s.workers[w].snapshot;
    assert SoundWorker(s, s.workers[w]) && SoundRow(s, id) && SoundTask(s, id);
    if ok {
      RunningGoesOn(Logged(s.log, id), job);
      ProgressIsWell(Logged(s.log, id) + [job]);
      WriteKeepsRows(s, id, job);
      SameRows(Write(s, id, job), s');
    } else {
      SameRows(s, s');
    }
    forall i | i in s'.tasks ensures SoundTask(s', i) { assert SoundTask(s, i); }
    forall v | v in s'.workers ensures SoundWorker(s', s'.workers[v]) { assert SoundWorker(s, s.workers[v]); }
  }

  lemma SaveFinalKeepsRows(s: State, w: nat, ok: bool, s': State)
    requires Inv(s) && Next(s, Save(w, ok), s') && s.workers[w].SavingFinal?
    ensures forall i :: SoundRow(s', i)
  {
    var id, job := s.workers[w].id, s.workers[w].snapshot;
    assert SoundWorker(s, s.workers[w]);
    assert forall i :: SoundRow(s, i);
    hide Inv, SoundRow, InProgress, WellWritten, Terminal;
    if ok {
      TerminalEnds(Logged(s.log, id), job);
      WriteKeepsRows(s, id, job);
      SameRows(Write(s, id, job), s');
    } else {
      SameRows(s, s');
    }
  }

  lemma SaveFinalKeepsTasks(s: State, w: nat, ok: bool, s': State)
    requires Inv(s) && Next(s, Save(w, ok), s') && s.workers[w].SavingFinal?
    ensures forall i <- s'.tasks :: SoundTask(s', i)
    ensures forall v <- s'.workers :: SoundWorker(s', s'.workers[v])
  {
    hide InProgress, WellWritten, SoundRow, Terminal;
    assert SoundWorker(s, s.workers[w]);
    forall i | i in s'.tasks ensures SoundTask(s', i) { assert SoundTask(s, i); }
    forall v | v in s'.workers ensures SoundWorker(s', s'.workers[v]) { assert SoundWorker(s, s.workers[v]); }
  }

  lemma SaveFinalKeepsInv(s: State, w: nat, ok: bool, s': State)
    requires Inv(s) && Next(s, Save(w, ok), s') && s.workers[w].SavingFinal?
    ensures Inv(s')
  {
    SaveFinalKeepsRows(s, w, ok, s');
    SaveFinalKeepsTasks(s, w, ok, s');
    hide SoundTask, SoundWorker, SoundRow;
  }

  lemma RestartKeepsInv(s: State)
    requires Inv(s)
    ensures Inv(Restarted(s))
  {
    hide InProgress, WellWritten;
    var s' := Restarted(s);
    forall i
      ensures SoundRow(s', i)
    {
      assert SoundRow(s, i);
      if i in s.rows && !Terminal(s.rows[i].status) {
        LastOfProgress(s.log[i]);
        TerminalEnds(s.log[i], s.rows[i].(status := Failed));
      }
    }
  }

  lemma RegisterKeepsTasks(s: State, id: Id, total: int, ioHeavy: bool, s': State)
    requires Inv(s) && Next(s, Register(id, total, ioHeavy), s')
    ensures forall i <- s'.tasks :: SoundTask(s', i)
    ensures forall v <- s'.workers :: SoundWorker(s', s'.workers[v])
  {
    hide InProgress, WellWritten, Terminal;
    assert SoundRow(s, id);
    hide SoundRow;
    forall i | i in s'.tasks ensures SoundTask(s', i) { assert i in s.tasks ==> SoundTask(s, i); }
    forall v | v in s'.workers ensures SoundWorker(s', s'.workers[v]) { assert SoundWorker(s, s.workers[v]); }
  }

  lemma RegisterKeepsInv(s: State, id: Id, total: int, ioHeavy: bool, s': State)
    requires Inv(s) && Next(s, Register(id, total, ioHeavy), s')
    ensures Inv(s')
  {
    SameRows(s, s');
    RegisterKeepsTasks(s, id, total, ioHeavy, s');
    hide SoundTask, SoundWorker, SoundRow;
  }

  lemma EnqueueKeepsInv(s: State, id: Id, s': State)
    requires Inv(s) && Next(s, Enqueue(id), s')
    ensures Inv(s')
  {
    hide InProgress, WellWritten, SoundRow, Terminal;
    SameRows(s, s');
    assert SoundTask(s, id);
    forall i | i in s'.tasks ensures SoundTask(s', i) { assert SoundTask(s, i); }
    forall v | v in s'.workers ensures SoundWorker(s', s'.workers[v]) { assert SoundWorker(s, s.workers[v]); }
  }

  lemma RejectKeepsInv(s: State, id: Id, s': State)
    requires Inv(s) && Next(s, Reject(id), s')
    ensures Inv(s')
  {
    hide InProgress, WellWritten, SoundRow, Terminal;
    SameRows(s, s');
    assert SoundTask(s, id);
    forall i | i in s'.tasks ensures SoundTask(s', i) { assert SoundTask(s, i); }
    forall v | v in s'.workers ensures SoundWorker(s', s'.workers[v]) { assert SoundWorker(s, s.workers[v]); }
  }

  /** The set of cancelled tasks plays no part in the invariant. */
  lemma CancelKeepsInv(s: State, id: Id, s': State)
    requires Inv(s) && Next(s, Cancel(id), s')
    ensures Inv(s')
  {
    hide InProgress, WellWritten, SoundRow, Terminal;
    SameRows(s, s');
    forall i | i in s'.tasks ensures SoundTask(s', i) { assert SoundTask(s, i); }
    forall v | v in s'.workers ensures SoundWorker(s', s'.workers[v]) { assert SoundWorker(s, s.workers[v]); }
  }

  /** A worker that moves on with its task. */
  lemma MoveKeepsInv(s: State, w: nat, id: Id, job: Job, pc: Pc, s': State)
    requires Inv(s) && w in s.workers && !s.workers[w].Idle? && s.workers[w].id == id && id in s.tasks
    requires s' == s.(tasks := s.tasks[id := job], workers := s.workers[w := pc])
    requires !pc.Idle? && pc.id == id && SoundWorker(s', pc) && (job.status == Running || job == s.tasks[id])
    ensures Inv(s')
  {
    hide InProgress, WellWritten;
    SameRows(s, s');
    forall i | i in s'.tasks ensures SoundTask(s', i) { assert SoundTask(s, i); }
    forall v | v in s'.workers ensures SoundWorker(s', s'.workers[v]) { assert SoundWorker(s, s.workers[v]); }
  }

  lemma TakeKeepsInv(s: State, w: nat, id: Id, s': State)
    requires Inv(s) && Next(s, Take(w, id), s')
    ensures Inv(s')
  {
    hide InProgress, WellWritten;
    SameRows(s, s');
    forall i | i in s'.tasks ensures SoundTask(s', i) { assert SoundTask(s, i); }
    forall v | v in s'.workers ensures SoundWorker(s', s'.workers[v]) { assert SoundWorker(s, s.workers[v]); }
  }

  lemma UpdatedIsRunning(job: Job, u: Update)
    ensures Updated(job, u).status == Running
  {
  }

  /** Every step keeps the invariant. */
  lemma StepKeepsInv(s: State, a: Action, s': State)
    requires Inv(s) && Next(s, a, s')
    ensures Inv(s')
  {
    hide InProgress, WellWritten, Updated, Finish;
    match a
    case Register(id, total, ioHeavy) => RegisterKeepsInv(s, id, total, ioHeavy, s');
    case PersistFirst(id, ok) => FirstWriteKeepsInv(s, id, ok, s');
    case Restart => RestartKeepsInv(s);
    case Take(w, id) => TakeKeepsInv(s, w, id, s');
    case Save(w, ok) =>
      if s.workers[w].Saving? {
        SaveRunningKeepsInv(s, w, ok, s');
      } else {
        SaveFinalKeepsInv(s, w, ok, s');
      }
    case Receive(w) => TaskStepKeepsInv(s, a, w, s');
    case Check(w) => TaskStepKeepsInv(s, a, w, s');
    case Report(w, update) => TaskStepKeepsInv(s, a, w, s');
    case Return(w, outcome) => TaskStepKeepsInv(s, a, w, s');
    case Enqueue(id) => EnqueueKeepsInv(s, id, s');
    case Reject(id) => RejectKeepsInv(s, id, s');
    case Cancel(id) => CancelKeepsInv(s, id, s');
  }

  lemma TaskStepKeepsInv(s: State, a: Action, w: nat, s': State)
    requires Inv(s) && Next(s, a, s')
    requires (a.Receive? || a.Check? || a.Report? || a.Return?) && a.worker == w
    ensures Inv(s')
  {
    hide InProgress, WellWritten, Updated, Finish, SoundRow;
    var id := s.workers[w].id;
    assert SoundWorker(s, s.workers[w]) && SoundTask(s, id);
    if a.Return? {
      FinishKeepsInv(s, w, id, a.outcome);
    } else if a.Receive? && !s.first[id].ok {
      FinishKeepsInv(s, w, id, Failed);
    } else if a.Check? && id in s.cancelled {
      FinishKeepsInv(s, w, id, Cancelled);
    } else {
      if a.Report? {
        UpdatedIsRunning(s.tasks[id], a.update);
      }
      assert a.Receive? ==> s.tasks[id := s.tasks[id]] == s.tasks;
      MoveKeepsInv(s, w, id, s'.tasks[id], s'.workers[w], s');
    }
  }

  // ----------------------------------------------------------------- whole runs

  ghost predicate Run(states: seq<State>, actions: seq<Action>) {
    && |states| == |actions| + 1 && Start(states[0])
    && forall i :: 0 <= i < |actions| ==> Next(states[i], actions[i], states[i + 1])
  }

  /** A process that starts with an empty table and idle workers. */
  ghost predicate Start(s: State) {
    && s == State(map[], {}, {}, {}, map[], map[], s.workers, map[], map[], multiset{})
    && forall w <- s.workers :: s.workers[w].Idle?
  }

  lemma {:induction false} RunKeepsInv(states: seq<State>, actions: seq<Action>, k: nat)
    requires Run(states, actions) && k < |states|
    ensures Inv(states[k])
  {
    hide Next;
    if k == 0 {
      forall id ensures SoundRow(states[0], id) { }
    } else {
      hide Inv;
      RunKeepsInv(states, actions, k - 1);
      StepKeepsInv(states[k - 1], actions[k - 1], states[k]);
    }
  }

  /** In every interleaving a job's durable writes are pending, running any number of
      times and one terminal state, or a part of that, or only a failure; and
      finishTask runs at most once. */
  lemma WritesAreOrdered(states: seq<State>, actions: seq<Action>, k: nat, id: Id)
    requires Run(states, actions) && k < |states|
    ensures WellWritten(Logged(states[k].log, id)) && states[k].finishes[id] <= 1
  {
    hide Run, WellWritten;
    RunKeepsInv(states, actions, k);
    assert SoundRow(states[k], id);
  }

  predicate IsTerminal(seen: Option<Job>) { seen.Some? && Terminal(seen.value.status) }

  /** A terminal job is out of memory and nothing writes it any more. */
  lemma TerminalIsAtRest(s: State, id: Id)
    requires Inv(s) && IsTerminal(StatusOf(s, id))
    ensures id !in s.tasks && id in s.rows && id in s.known
    ensures forall w <- s.workers :: !Holds(s.workers[w], id)
    ensures id in s.first ==> s.first[id] != Unwritten
  {
    hide Next;
    assert SoundRow(s, id);
    LastOfProgress(Logged(s.log, id));
    forall w | w in s.workers
      ensures !Holds(s.workers[w], id)
    {
      assert SoundWorker(s, s.workers[w]);
    }
  }

  /** A step about another job, or about none. */
  lemma OthersKeepTerminal(s: State, a: Action, s': State, id: Id)
    requires Next(s, a, s') && (a.Register? || a.Enqueue? || a.Reject? || a.PersistFirst? || a.Cancel? || a.Restart?)
    requires IsTerminal(StatusOf(s, id)) && id !in s.tasks && (id in s.first ==> s.first[id] != Unwritten)
    ensures StatusOf(s', id) == StatusOf(s, id)
  {
    hide InitialJob;
  }

  lemma WorkersKeepTerminal(s: State, a: Action, s': State, id: Id)
    requires Next(s, a, s') && (a.Take? || a.Receive? || a.Check? || a.Save? || a.Report? || a.Return?)
    requires IsTerminal(StatusOf(s, id)) && id !in s.tasks && forall w <- s.workers :: !Holds(s.workers[w], id)
    ensures StatusOf(s', id) == StatusOf(s, id)
  {
    hide Updated, Finished;
    assert !a.Take? ==> !Holds(s.workers[a.worker], id);
  }

  lemma StepKeepsTerminal(s: State, a: Action, s': State, id: Id)
    requires Inv(s) && Next(s, a, s') && IsTerminal(StatusOf(s, id))
    ensures StatusOf(s', id) == StatusOf(s, id)
  {
    TerminalIsAtRest(s, id);
    hide Inv, Next, IsTerminal, StatusOf, Holds;
    if a.Take? || a.Receive? || a.Check? || a.Save? || a.Report? || a.Return? {
      WorkersKeepTerminal(s, a, s', id);
    } else {
      OthersKeepTerminal(s, a, s', id);
    }
  }

  /** Once a reader has seen a terminal state, every later reader sees the very same job. */
  lemma {:induction false} TerminalIsFinal(states: seq<State>, actions: seq<Action>, i: nat, j: nat, id: Id)
    requires Run(states, actions) && i <= j < |states| && IsTerminal(StatusOf(states[i], id))
    ensures StatusOf(states[j], id) == StatusOf(states[i], id)
  {
    hide Inv, Next, StatusOf;
    if i < j {
      TerminalIsFinal(states, actions, i, j - 1, id);
      RunKeepsInv(states, actions, j - 1);
      StepKeepsTerminal(states[j - 1], actions[j - 1], states[j], id);
    }
  }
}
