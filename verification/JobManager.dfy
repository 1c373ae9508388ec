/** The job manager itself. Each method is one critical section or one durable
    write, and is proved to be a step of the system in JobRuns; RunTask strings
    them together as a worker does. */
module JobManager {
  import opened JobRuns
  import opened Text
  import opened Wrappers

  class Manager {
    var tasks: map<Id, Job>
    var known: set<Id>
    var queued: set<Id>
    var cancelled: set<Id>
    var first: map<Id, First>
    var initial: map<Id, Job>
    var workers: map<nat, Pc>
    var rows: map<Id, Job>
    ghost var log: map<Id, seq<Job>>
    ghost var finishes: multiset<Id>

    ghost function Snapshot(): State
      reads this
    {
      State(tasks, known, queued, cancelled, first, initial, workers, rows, log, finishes)
    }

    constructor (count: nat)
      ensures Start(Snapshot()) && forall w: nat :: w in workers <==> w < count
    {
      var pool: map<nat, Pc> := map[];
      for w := 0 to count
        invariant forall v: nat :: v in pool <==> v < w
        invariant forall v <- pool :: pool[v].Idle?
      {
        pool := pool[w := Idle];
      }
      tasks, known, queued, cancelled, first, initial := map[], {}, {}, {}, map[], map[];
      workers := pool;
      rows, log, finishes := map[], map[], multiset{};
    }

    method AddTask(id: Id, total: int, ioHeavy: bool)
      requires Inv(Snapshot()) && id !in known && id !in rows
      modifies this`tasks, this`known, this`initial
      ensures Inv(Snapshot()) && id in tasks && tasks[id] == InitialJob(total, ioHeavy) && id !in first
    {
      hide Inv, InitialJob;
      ghost var s := Snapshot();
      Unseen(s, id);
      tasks, known, initial := tasks[id := InitialJob(total, ioHeavy)], known + {id},
        initial[id := InitialJob(total, ioHeavy)];
      StepKeepsInv(s, Register(id, total, ioHeavy), Snapshot());
    }

    /** Admission: the task is visible at once, and gone again when the queue is full. */
    method Submit(id: Id, total: int, ioHeavy: bool, room: bool) returns (accepted: bool)
      requires Inv(Snapshot()) && id !in known && id !in rows
      modifies this
      ensures accepted == room && Inv(Snapshot())
      ensures accepted ==> id in queued
      ensures accepted ==>
        StatusOf(Snapshot(), id) == Some(Job(Pending, 0, total, if ioHeavy then "queued" else "", "", 0, 0))
      ensures !accepted ==> StatusOf(Snapshot(), id) == None
    {
      hide Inv;
      AddTask(id, total, ioHeavy);
      ghost var registered := Snapshot();
      if room {
        queued, first := queued + {id}, first[id := Unwritten];
        StepKeepsInv(registered, Enqueue(id), Snapshot());
      } else {
        tasks, cancelled := tasks - {id}, cancelled + {id};
        StepKeepsInv(registered, Reject(id), Snapshot());
      }
      accepted := room;
    }

    lemma Unseen(s: State, id: Id)
      requires Inv(s) && id !in s.known
      ensures id !in s.first
    {
    }

    /** What a reader is told: the registry if the task is there, the table otherwise. */
    method Status(id: Id) returns (seen: Option<Job>)
      ensures seen == StatusOf(Snapshot(), id)
    {
      if id in tasks {
        return Some(tasks[id]);
      }
      if id in rows {
        return Some(rows[id]);
      }
      return None;
    }

    /** Only a task that has not ended can be cancelled; nothing else changes. */
    method CancelTask(id: Id) returns (found: bool)
      requires Inv(Snapshot())
      modifies this`cancelled
      ensures Inv(Snapshot()) && StatusOf(Snapshot(), id) == old(StatusOf(Snapshot(), id))
      ensures found ==> !IsTerminal(StatusOf(Snapshot(), id)) && cancelled == old(cancelled) + {id}
      ensures IsTerminal(StatusOf(Snapshot(), id)) ==> !found
      ensures !found ==> Snapshot() == old(Snapshot())
    {
      hide Inv;
      ghost var s := Snapshot();
      found := id in tasks;
      if found {
        cancelled := cancelled + {id};
        StepKeepsInv(s, Cancel(id), Snapshot());
        NotEnded(s, id);
      }
    }

    lemma NotEnded(s: State, id: Id)
      requires Inv(s) && id in s.tasks
      ensures !Terminal(s.tasks[id].status)
    {
      assert SoundTask(s, id);
    }

    /** A durable write of one snapshot, which may fail. */
    method Persist(w: nat, ok: bool)
      requires w in workers && (workers[w].Saving? || workers[w].SavingFinal?)
      modifies this`rows, this`log, this`workers
      ensures Next(old(Snapshot()), Save(w, ok), Snapshot())
    {
      var id := workers[w].id;
      if ok {
        rows, log := rows[id := workers[w].snapshot], log[id := Logged(log, id) + [workers[w].snapshot]];
      }
      workers := workers[w := if workers[w].Saving? then Executing(id) else Idle];
    }

    /** What a report makes of a job, field by field. */
    static method Apply(before: Job, update: Update) returns (job: Job)
      ensures job == Updated(before, update)
      ensures job.status == Running
      ensures update.completed > 0 ==> job.progress == update.completed
      ensures update.completed <= 0 && update.totalBytes > 0 ==>
        if update.completedBytes <= 0 then job.progress == 0
        else job.progress == Min(100, update.completedBytes * 100 / update.totalBytes)
      ensures update.completed <= 0 && update.totalBytes <= 0 ==> job.progress == Max(0, Min(100, update.percent))
      ensures job.phase == (if update.phase == "" then before.phase else update.phase)
      ensures job.file == (if update.file == "" then before.file else update.file)
      ensures job.total == (if update.total <= 0 then before.total else update.total)
      ensures job.totalBytes == (if update.totalBytes <= 0 then before.totalBytes else update.totalBytes)
      ensures update.totalBytes > 0 || update.completedBytes > 0 ==> job.completedBytes == update.completedBytes
      ensures update.totalBytes <= 0 && update.completedBytes <= 0 ==> job.completedBytes == before.completedBytes
    {
      if update.totalBytes > 0 {
        PercentageSign(update.completedBytes, update.totalBytes);
      }
      hide Percentage;
      job := before;
      var percent := update.percent;
      if update.totalBytes > 0 {
        percent := Percentage(update.completedBytes, update.totalBytes);
      } else if update.completed > 0 {
        percent := update.completed;
      }
      if update.completed > 0 {
        job := job.(progress := update.completed);
      } else {
        if percent < 0 {
          percent := 0;
        }
        if percent > 100 {
          percent := 100;
        }
        job := job.(progress := percent);
      }
      if update.phase != "" {
        job := job.(phase := update.phase);
      }
      if update.file != "" {
        job := job.(file := update.file);
      }
      if update.totalBytes > 0 {
        job := job.(completedBytes := update.completedBytes, totalBytes := update.totalBytes);
      } else if update.completedBytes > 0 {
        job := job.(completedBytes := update.completedBytes);
      }
      if update.total > 0 {
        job := job.(total := update.total);
      }
      job := job.(status := Running);
    }

    static lemma PercentageSign(completed: int, total: int)
      requires total > 0
      ensures completed <= 0 ==> Percentage(completed, total) <= 0
      ensures completed > 0 ==> Percentage(completed, total) == completed * 100 / total >= 0
    {
    }

    /** The critical section of a progress report. */
    method ReportProgress(w: nat, update: Update)
      requires w in workers && workers[w].Executing? && workers[w].id in tasks
      modifies this`tasks, this`workers
      ensures Next(old(Snapshot()), Report(w, update), Snapshot())
    {
      hide Updated;
      var id := workers[w].id;
      var job := Apply(tasks[id], update);
      tasks, workers := tasks[id := job], workers[w := Saving(id, job)];
    }

    /** The critical section of finishTask. */
    method FinishTask(w: nat, outcome: Status)
      requires w in workers && !workers[w].Idle? && workers[w].id in tasks && Terminal(outcome)
      modifies this
      ensures Snapshot() == Finish(old(Snapshot()), w, old(workers[w].id), outcome)
    {
      var id := workers[w].id;
      var job := tasks[id].(status := outcome);
      if outcome == Done {
        job := job.(progress := job.total);
      }
      tasks, cancelled, finishes := tasks - {id}, cancelled + {id}, finishes + multiset{id};
      workers := workers[w := SavingFinal(id, job)];
    }

    /** The start of the work: the running row is written before anything runs. */
    method BeginWork(w: nat)
      requires Inv(Snapshot()) && w in workers && workers[w].Checking? && workers[w].id in tasks
        && workers[w].id !in cancelled
      modifies this
      ensures Inv(Snapshot()) && w in workers && workers[w] == Executing(old(workers[w].id))
        && old(workers[w].id) in tasks
      ensures var before := old(tasks[workers[w].id]);
        tasks[old(workers[w].id)] ==
          before.(status := Running, phase := if before.phase == "queued" then "" else before.phase)
    {
      hide Inv;
      var id := workers[w].id;
      ghost var s := Snapshot();
      var job := tasks[id].(status := Running);
      if job.phase == "queued" {
        job := job.(phase := "");
      }
      tasks, workers := tasks[id := job], workers[w := Saving(id, job)];
      StepKeepsInv(s, Check(w), Snapshot());
      s := Snapshot();
      Persist(w, true);
      StepKeepsInv(s, Save(w, true), Snapshot());
    }

    /** The reports of a running task, each written before the next. */
    method ReportAll(w: nat, reports: seq<Update>)
      requires Inv(Snapshot()) && w in workers && workers[w].Executing? && workers[w].id in tasks
      modifies this
      ensures Inv(Snapshot()) && w in workers && workers[w] == old(workers[w]) && workers[w].id in tasks
    {
      hide Inv, Updated, Finish;
      var id := workers[w].id;
      for i := 0 to |reports|
        invariant Inv(Snapshot()) && w in workers && workers[w] == Executing(id) && id in tasks
      {
        ghost var s := Snapshot();
        ReportProgress(w, reports[i]);
        StepKeepsInv(s, Report(w, reports[i]), Snapshot());
        s := Snapshot();
        Persist(w, true);
        StepKeepsInv(s, Save(w, true), Snapshot());
      }
    }

    /** One worker takes its task from the wait for the pending row to the terminal
        row: failed if that row could not be written, cancelled if it was cancelled
        before it began, and what the work came to otherwise. */
    method RunTask(w: nat, reports: seq<Update>, outcome: Status)
      requires Inv(Snapshot()) && w in workers && workers[w].Waiting? && Terminal(outcome)
      requires workers[w].id in first && first[workers[w].id].Written?
      modifies this
      ensures Inv(Snapshot()) && At(Snapshot(), w, Idle)
      ensures var id := old(workers[w].id);
        && id !in tasks && id in rows && finishes[id] == 1
        && (old(first[id]) == Written(false) ==> rows[id].status == Failed)
        && (old(first[id]) == Written(true) && id in old(cancelled) ==> rows[id].status == Cancelled)
        && (old(first[id]) == Written(true) && id !in old(cancelled) ==>
              rows[id].status == outcome && (outcome == Done ==> rows[id].progress == rows[id].total))
    {
      hide Inv, Updated, Finish;
      var id := workers[w].id;
      Held(Snapshot(), w);
      if first[id] == Written(false) {
        End(w, id, Receive(w), Failed);
        return;
      }
      ghost var s := Snapshot();
      workers := workers[w := Checking(id)];
      StepKeepsInv(s, Receive(w), Snapshot());
      if id in cancelled {
        End(w, id, Check(w), Cancelled);
        return;
      }
      BeginWork(w);
      ReportAll(w, reports);
      End(w, id, Return(w, outcome), outcome);
    }

    /** Finishing and writing the terminal row. */
    method End(w: nat, id: Id, ghost a: Action, outcome: Status)
      requires Inv(Snapshot()) && w in workers && Holds(workers[w], id) && id in tasks && Terminal(outcome)
      requires Next(Snapshot(), a, Finish(Snapshot(), w, id, outcome))
      modifies this
      ensures Inv(Snapshot()) && At(Snapshot(), w, Idle) && id !in tasks && id in rows && finishes[id] == 1
      ensures rows[id].status == outcome && (outcome == Done ==> rows[id].progress == rows[id].total)
    {
      hide Inv;
      ghost var s := Snapshot();
      NeverFinished(s, id);
      FinishTask(w, outcome);
      StepKeepsInv(s, a, Snapshot());
      s := Snapshot();
      Persist(w, true);
      StepKeepsInv(s, Save(w, true), Snapshot());
    }

    lemma NeverFinished(s: State, id: Id)
      requires Inv(s) && id in s.tasks
      ensures s.finishes[id] == 0
    {
      assert SoundTask(s, id);
    }

    lemma Held(s: State, w: nat)
      requires Inv(s) && w in s.workers && (s.workers[w].Waiting? || s.workers[w].Executing?)
      ensures s.workers[w].id in s.tasks
    {
      assert SoundWorker(s, s.workers[w]);
    }
  }
}
