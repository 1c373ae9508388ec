/** Whole runs of the delete step system: what no interleaving of workers,
    crashes, replays and other operations can undo, when a replay is sure to
    finish, and which raw files a crash can leave behind. */
module DeleteRuns {
  import opened DeleteReplay
  import opened Wrappers

  ghost predicate Run(c: Config, states: seq<State>, actions: seq<Action>) {
    && |states| == |actions| + 1
    && forall i :: 0 <= i < |actions| ==> Next(c, states[i], actions[i], states[i + 1])
  }

  ghost function Last(states: seq<State>): State
    requires states != []
  {
    states[|states| - 1]
  }

  /** A sound store before the operation has committed anything. */
  predicate Start(s: State) {
    SoundStore(s.store) && s.workers == map[] && !IsCommitted(s.store.marker)
  }

  predicate Succeeded(s: State, w: Id) {
    w in s.workers && s.workers[w].pc == Success(false)
  }

  // ------------------------------------------------------ safety of every run

  lemma {:induction false} RunKeepsInv(c: Config, states: seq<State>, actions: seq<Action>, k: nat)
    requires Run(c, states, actions) && Start(states[0]) && k < |states|
    ensures Inv(c, states[k])
  {
    hide SoundStore, SoundWorker, Fenced, Next;
    if k > 0 {
      RunKeepsInv(c, states, actions, k - 1);
      StepKeepsInv(c, states[k - 1], actions[k - 1], states[k]);
    }
  }

  lemma StepKeepsMarker(c: Config, s: State, a: Action, s': State)
    requires Next(c, s, a, s') && IsCommitted(s.store.marker)
    ensures s'.store.marker == s.store.marker
  {
    if a.Work? {
      var w := s.workers[a.worker];
      assert WorkerStep(c, s.store, w, s'.store, s'.workers[a.worker]);
    }
  }

  /** A committed marker is never rewritten, and its target stays deleted with everything under it. */
  lemma {:induction false} CommittedIsFinal(c: Config, states: seq<State>, actions: seq<Action>, i: nat, j: nat)
    requires Run(c, states, actions) && Start(states[0]) && i <= j < |states|
    requires IsCommitted(states[i].store.marker)
    ensures states[j].store.marker == states[i].store.marker && Fenced(c, states[j].store)
  {
    hide SoundStore, SoundWorker, Fenced, Next;
    if i < j {
      CommittedIsFinal(c, states, actions, i, j - 1);
      StepKeepsMarker(c, states[j - 1], actions[j - 1], states[j]);
    }
    RunKeepsInv(c, states, actions, j);
  }

  /** What may still happen to a deleted document: it stays deleted and only loses data. */
  predicate OnlyLoses(st: Store, st': Store, id: Id) {
    id in st.rows && st.rows[id].life == Deleting ==>
      && id in st'.rows && st'.rows[id].life == Deleting
      && st'.rows[id].chunks <= st.rows[id].chunks && st'.rows[id].generations <= st.rows[id].generations
      && forall p <- st'.files :: p.doc == id ==> p in st.files
  }

  lemma StepOnlyLoses(c: Config, s: State, a: Action, s': State, id: Id)
    requires Next(c, s, a, s')
    ensures OnlyLoses(s.store, s'.store, id)
  {
    if a.Work? {
      var w := s.workers[a.worker];
      assert WorkerStep(c, s.store, w, s'.store, s'.workers[a.worker]);
    }
  }

  /** No step of any operation revives a deleted document or gives it data, scope or not. */
  lemma {:induction false} DeletedStaysDeleted(c: Config, states: seq<State>, actions: seq<Action>, i: nat, j: nat,
                                               id: Id)
    requires Run(c, states, actions) && i <= j < |states|
    ensures OnlyLoses(states[i].store, states[j].store, id)
  {
    hide Next;
    if i < j {
      DeletedStaysDeleted(c, states, actions, i, j - 1, id);
      StepOnlyLoses(c, states[j - 1], actions[j - 1], states[j], id);
    }
  }

  /** Nor does any step bring back a base that is being deleted. */
  lemma {:induction false} DeletingBaseStays(c: Config, states: seq<State>, actions: seq<Action>, i: nat, j: nat,
                                             base: Id)
    requires Run(c, states, actions) && i <= j < |states|
    requires base in states[i].store.bases && states[i].store.bases[base] == Deleting
    ensures base in states[j].store.bases && states[j].store.bases[base] == Deleting
  {
    hide Next;
    if i < j {
      DeletingBaseStays(c, states, actions, i, j - 1, base);
      StepKeepsDeletingBase(c, states[j - 1], actions[j - 1], states[j], base);
    }
  }

  lemma StepKeepsDeletingBase(c: Config, s: State, a: Action, s': State, base: Id)
    requires Next(c, s, a, s') && base in s.store.bases && s.store.bases[base] == Deleting
    ensures base in s'.store.bases && s'.store.bases[base] == Deleting
  {
    if a.Work? {
      assert WorkerStep(c, s.store, s.workers[a.worker], s'.store, s'.workers[a.worker]);
    }
  }

  /** Once some worker has reported success, the scope is fenced and clean at every later point. */
  lemma {:induction false} SuccessIsClean(c: Config, states: seq<State>, actions: seq<Action>, i: nat, j: nat, w: Id)
    requires Run(c, states, actions) && Start(states[0]) && i <= j < |states|
    requires Succeeded(states[i], w)
    ensures Fenced(c, states[j].store) && AllClean(c, states[j].store)
  {
    hide SoundStore, Fenced, Next, AllClean, Shrinks;
    RunKeepsInv(c, states, actions, i);
    if i < j {
      SuccessIsClean(c, states, actions, i, j - 1, w);
      RunKeepsInv(c, states, actions, j - 1);
      StepKeepsStore(c, states[j - 1], actions[j - 1], states[j]);
      ShrinkingKeepsClean(c, states[j - 1].store, states[j].store);
      ShrinkingStaysFenced(c, states[j - 1].store, states[j].store);
    }
  }

  lemma ShrinkingStaysFenced(c: Config, st: Store, st': Store)
    requires Shrinks(c, st, st')
    ensures Fenced(c, st')
  {
    hide Fenced;
  }

  // ------------------------------------------------ an undisturbed worker ends

  function Level(pc: Pc): nat {
    match pc
    case Begin => 10
    case Resume => 9
    case Load => 8
    case Fence => 7
    case Recheck => 6
    case Missing => 5
    case SweepChunks => 3
    case SweepFiles => 2
    case Finish => 1
    case List(_) => 4
    case Clean(_, _, _) => 4
    case Read(_, _, _) => 4
    case Drop(_, _, _, _) => 4
    case Raw(_, _, _, _) => 4
    case _ => 0
  }

  ghost function Ahead(c: Config, st: Store, after: int): set<Id> {
    set id | id in st.rows && InScope(c, st, id) && id > after
  }

  ghost function Documents(c: Config, st: Store, pc: Pc): nat {
    match pc
    case List(after) => |Ahead(c, st, after)|
    case Clean(after, _, _) => |Ahead(c, st, after)|
    case Read(after, _, _) => |Ahead(c, st, after)|
    case Drop(after, _, _, _) => |Ahead(c, st, after)|
    case Raw(after, _, _, _) => |Ahead(c, st, after)|
    case _ => 0
  }

  function Entries(pc: Pc): nat {
    match pc
    case List(_) => PAGE_SIZE + 1
    case Clean(_, page, i) => if i < |page| then |page| - i else 0
    case Read(_, page, i) => if i < |page| then |page| - i else 0
    case Drop(_, page, i, _) => if i < |page| then |page| - i else 0
    case Raw(_, page, i, _) => if i < |page| then |page| - i else 0
    case _ => 0
  }

  function Phase(pc: Pc): nat {
    match pc
    case Clean(_, _, _) => 3
    case Read(_, _, _) => 2
    case Drop(_, _, _, _) => 1
    case _ => 0
  }

  function Items(st: Store, pc: Pc): nat {
    match pc
    case Clean(_, page, i) => if i < |page| && page[i].id in st.rows then |st.rows[page[i].id].chunks| else 0
    case Raw(_, _, _, paths) => |paths|
    case _ => 0
  }

  /** The work still ahead of a worker, compared lexicographically. */
  ghost predicate LessLeft(c: Config, st': Store, pc': Pc, st: Store, pc: Pc) {
    || Level(pc') < Level(pc)
    || (Level(pc') == Level(pc) &&
        (|| Documents(c, st', pc') < Documents(c, st, pc)
         || (Documents(c, st', pc') == Documents(c, st, pc) &&
             (|| Entries(pc') < Entries(pc)
              || (Entries(pc') == Entries(pc) &&
                  (|| Phase(pc') < Phase(pc)
                   || (Phase(pc') == Phase(pc) && Items(st', pc') < Items(st, pc))))))))
  }

  lemma SmallerSet<T>(a: set<T>, b: set<T>)
    requires a < b
    ensures |a| < |b|
  {
    assert |b| == |a| + |b - a| by {
      assert a + (b - a) == b;
    }
    assert b - a != {};
  }

  lemma SameAhead(c: Config, st: Store, st': Store, after: int)
    requires OnlyRemoves(st, st')
    ensures Ahead(c, st', after) == Ahead(c, st, after)
  {
  }

  /** Steps outside the pages go on to a later part of the operation. */
  lemma StageProgresses(c: Config, st: Store, w: Worker, st': Store, w': Worker)
    requires WorkerStep(c, st, w, st', w')
    requires !w.pc.List? && !w.pc.Clean? && !w.pc.Read? && !w.pc.Drop? && !w.pc.Raw?
    ensures Level(w'.pc) < Level(w.pc)
  {
    hide Fenced, InScope, TargetLife, FenceScope, MarkItem, Resolved;
  }

  lemma ListProgresses(c: Config, st: Store, w: Worker, st': Store, w': Worker)
    requires WorkerStep(c, st, w, st', w') && w.pc.List?
    ensures LessLeft(c, st', w'.pc, st, w.pc)
  {
    hide InScope, Ahead;
    var page :| IsPage(c, st, w.pc.after, page) && w'.pc == AfterListing(c, w.pc.after, page);
  }

  lemma CleanProgresses(c: Config, st: Store, w: Worker, st': Store, w': Worker)
    requires WorkerStep(c, st, w, st', w') && w.pc.Clean? && Ahead(c, st', w.pc.after) == Ahead(c, st, w.pc.after)
    ensures LessLeft(c, st', w'.pc, st, w.pc)
  {
    hide InScope, Ahead;
    var id := w.pc.page[w.pc.i].id;
    if w'.pc.Clean? {
      SmallerSet(st'.rows[id].chunks, st.rows[id].chunks);
    }
  }

  lemma RowProgresses(c: Config, st: Store, w: Worker, st': Store, w': Worker)
    requires WorkerStep(c, st, w, st', w') && (w.pc.Read? || w.pc.Drop?)
    requires Ahead(c, st', w.pc.after) == Ahead(c, st, w.pc.after)
    ensures LessLeft(c, st', w'.pc, st, w.pc)
  {
    hide InScope, Ahead;
  }

  /** Every step a worker takes leaves it strictly less to do. */
  lemma StepProgresses(c: Config, st: Store, w: Worker, st': Store, w': Worker)
    requires SoundStore(st) && SoundWorker(c, st, w) && WorkerStep(c, st, w, st', w')
    ensures LessLeft(c, st', w'.pc, st, w.pc)
  {
    if w.pc.Clean? || w.pc.Drop? || w.pc.Raw? {
      CleaningRemoves(c, st, w, st', w');
      SameAhead(c, st, st', w.pc.after);
    }
    match w.pc
    case List(_) => ListProgresses(c, st, w, st', w');
    case Clean(_, _, _) => CleanProgresses(c, st, w, st', w');
    case Read(_, _, _) => RowProgresses(c, st, w, st', w') by { assert st' == st; }
    case Drop(_, _, _, _) => RowProgresses(c, st, w, st', w');
    case Raw(_, _, _, _) => RawProgresses(c, st, w, st', w');
    case _ => StageProgresses(c, st, w, st', w');
  }

  lemma FileProgresses(c: Config, st: Store, w: Worker, st': Store, w': Worker)
    requires WorkerStep(c, st, w, st', w') && w.pc.Raw? && w.pc.paths != {}
    requires Ahead(c, st', w.pc.after) == Ahead(c, st, w.pc.after)
    ensures LessLeft(c, st', w'.pc, st, w.pc)
  {
    hide Ahead, InScope;
    var p :| p in w.pc.paths && w'.pc == Raw(w.pc.after, w.pc.page, w.pc.i, w.pc.paths - {p});
    SmallerSet(w.pc.paths - {p}, w.pc.paths);
  }

  /** The last document of a page is behind the next page. */
  lemma PageProgresses(c: Config, st: Store, st': Store, after: int, page: seq<Ref>)
    requires IsPage(c, st, after, page) && page != [] && OnlyRemoves(st, st')
    ensures |Ahead(c, st', page[|page| - 1].id)| < |Ahead(c, st, after)|
  {
    var last := page[|page| - 1].id;
    SameAhead(c, st, st', after);
    assert last in Ahead(c, st, after) && last !in Ahead(c, st', last);
    SmallerSet(Ahead(c, st', last), Ahead(c, st, after));
  }

  lemma RawProgresses(c: Config, st: Store, w: Worker, st': Store, w': Worker)
    requires SoundWorker(c, st, w) && WorkerStep(c, st, w, st', w') && w.pc.Raw?
    requires OnlyRemoves(st, st')
    ensures LessLeft(c, st', w'.pc, st, w.pc)
  {
    SameAhead(c, st, st', w.pc.after);
    if w.pc.paths != {} {
      FileProgresses(c, st, w, st', w');
    } else {
      hide Fenced, CleanUpTo, Cleaned, OnlyRemoves, Ahead, IsPage;
      PageProgresses(c, st, st', w.pc.after, w.pc.page);
    }
  }

  lemma {:induction false} FirstIds(ids: set<Id>, limit: nat) returns (page: seq<Id>)
    ensures |page| <= limit && (forall k :: 0 <= k < |page| ==> page[k] in ids)
    ensures forall j, k :: 0 <= j < k < |page| ==> page[j] < page[k]
    ensures forall id <- ids :: id in page || (|page| == limit && forall k :: 0 <= k < limit ==> page[k] < id)
    decreases ids
  {
    if ids == {} || limit == 0 {
      page := [];
    } else {
      var least := Least(ids);
      var rest := FirstIds(ids - {least}, limit - 1);
      page := [least] + rest;
    }
  }

  lemma {:induction false} Least(ids: set<Id>) returns (least: Id)
    requires ids != {}
    ensures least in ids && forall id <- ids :: least <= id
    decreases ids
  {
    least :| least in ids;
    if ids != {least} {
      assert ids - {least} != {};
      var other := Least(ids - {least});
      assert forall id <- ids :: id == least || id in ids - {least};
      least := if other < least then other else least;
    }
  }

  lemma PageExists(c: Config, st: Store, after: int) returns (page: seq<Ref>)
    ensures IsPage(c, st, after, page)
  {
    var ids := FirstIds(Ahead(c, st, after), PAGE_SIZE);
    page := seq(|ids|, k requires 0 <= k < |ids| =>
      if ids[k] in st.rows then Ref(ids[k], st.rows[ids[k]].raw) else Ref(ids[k], None));
    forall id | id in st.rows && InScope(c, st, id) && id > after && (|page| < PAGE_SIZE || id <= page[|page| - 1].id)
      ensures exists j :: 0 <= j < |page| && page[j].id == id
    {
      assert id in Ahead(c, st, after);
      assert id in ids;
      var j :| 0 <= j < |ids| && ids[j] == id;
      assert page[j].id == id;
    }
  }

  /** A running worker always has a next step. */
  lemma NeverStuck(c: Config, st: Store, w: Worker) returns (st': Store, w': Worker)
    requires SoundWorker(c, st, w) && Running(w.pc)
    requires w.pc.Begin? || w.pc.Resume? ==> SoundStore(st)
    ensures WorkerStep(c, st, w, st', w')
  {
    hide Fenced, CleanUpTo, Cleaned, AllClean, SoundStore;
    st', w' := st, w;
    match w.pc
    case Begin =>
      w' := Worker(w.attempt, !Resolved(st.marker),
        if !Resolved(st.marker) then Load else if st.marker.state == Skipped then Success(true) else Resume);
    case Resume => w' := w.(pc := if TargetLife(c, st) == Some(Deleting) then Load else Success(false));
    case Load => w' := w.(pc := if c.kind == Base || TargetLife(c, st) == Some(Active) then Fence else Recheck);
    case Fence =>
      if TargetLife(c, st) == Some(Active) {
        st' := FenceScope(c, st).(marker := if w.first then MarkItem(st.marker, Committed, w.attempt) else st.marker);
        w' := w.(pc := List(-1));
      } else {
        w' := w.(pc := if c.kind == Base then Recheck else Missing);
      }
    case Recheck => w' := w.(pc := if TargetLife(c, st) == Some(Deleting) then List(-1) else Missing);
    case Missing =>
      if c.kind == Directory && w.first {
        st' := st.(marker := MarkItem(st.marker, Skipped, w.attempt));
        w' := w.(pc := Success(true));
      } else {
        w' := w.(pc := Error);
      }
    case List(after) =>
      var page := PageExists(c, st, after);
      w' := w.(pc := AfterListing(c, after, page));
    case Clean(after, page, i) =>
      st' := SetRow(st, page[i].id, st.rows[page[i].id].(chunks := {}));
      w' := w.(pc := if c.kind == Base then Raw(after, page, i, {}) else Read(after, page, i));
    case Read(after, page, i) => w' := w.(pc := Drop(after, page, i, st.rows[page[i].id].generations));
    case Drop(after, page, i, paths) =>
      st' := SetRow(st, page[i].id, st.rows[page[i].id].(generations := {}));
      w' := w.(pc := Raw(after, page, i, paths));
    case Raw(after, page, i, paths) =>
      if paths != {} {
        var p :| p in paths;
        st' := st.(files := st.files - {p});
        w' := w.(pc := Raw(after, page, i, paths - {p}));
      } else {
        st' := st.(files := if page[i].raw.Some? then st.files - {page[i].raw.value} else st.files);
        w' := w.(pc := AfterRef(c, after, page, i));
      }
    case SweepChunks =>
      st' := st.(rows := map id | id in st.rows ::
           if InScope(c, st, id) then st.rows[id].(chunks := {}) else st.rows[id]);
      w' := w.(pc := SweepFiles);
    case SweepFiles =>
      st' := st.(files := set p | p in st.files && !InScope(c, st, p.doc));
      w' := w.(pc := Finish);
    case Finish =>
      st' := st.(marker :=
        if w.first && c.kind != Document then MarkItem(st.marker, Committed, w.attempt) else st.marker);
      w' := w.(pc := Success(false));
  }

  // --------------------------------------------------------- replays converge

  /** A worker that cannot miss its target: the scope is fenced, or it is about to fence it. */
  ghost predicate OnTrack(c: Config, s: State, w: Id) {
    && Inv(c, s) && w in s.workers
    && var pc := s.workers[w].pc;
    && (Running(pc) || pc == Success(false)) && !pc.Missing?
    && (!Resolved(s.store.marker) || IsCommitted(s.store.marker))
    && (pc.Fence? ==> c.kind == Base || TargetLife(c, s.store) == Some(Active))
    && (Fenced(c, s.store) ||
        (TargetLife(c, s.store) == Some(Active) && (pc.Begin? || pc.Load? || pc.Fence?)))
  }

  /** What a worker on track makes of one step. */
  predicate TracksOn(c: Config, st: Store, st': Store, pc': Pc) {
    && !pc'.Missing? && !pc'.Begin? && (Running(pc') || pc' == Success(false))
    && (!Resolved(st'.marker) || IsCommitted(st'.marker))
    && (pc'.Fence? ==> c.kind == Base || TargetLife(c, st') == Some(Active))
    && (Fenced(c, st) || Fenced(c, st') || (st' == st && (pc'.Load? || pc'.Fence?)))
  }

  lemma EarlyStepTracks(c: Config, st: Store, w: Worker, st': Store, w': Worker)
    requires WorkerStep(c, st, w, st', w') && (w.pc.Begin? || w.pc.Resume? || w.pc.Load? || w.pc.Recheck?)
    requires IsCommitted(st.marker) ==> Fenced(c, st)
    requires !Resolved(st.marker) || IsCommitted(st.marker)
    requires st.marker.Item? && st.marker.committed ==> st.marker.state == Committed
    requires Fenced(c, st) || (TargetLife(c, st) == Some(Active) && (w.pc.Begin? || w.pc.Load?))
    ensures TracksOn(c, st, st', w'.pc)
  {
    hide InScope;
    assert Fenced(c, st) ==> TargetLife(c, st) == Some(Deleting);
    hide Fenced, TargetLife;
  }

  lemma FenceStepTracks(c: Config, st: Store, w: Worker, st': Store, w': Worker)
    requires SoundStore(st) && WorkerStep(c, st, w, st', w') && w.pc.Fence?
    requires !Resolved(st.marker) || IsCommitted(st.marker)
    requires c.kind == Base || TargetLife(c, st) == Some(Active)
    requires Fenced(c, st) || TargetLife(c, st) == Some(Active)
    ensures TracksOn(c, st, st', w'.pc)
  {
    if TargetLife(c, st) == Some(Active) {
      FencingIsSound(c, st);
    }
    hide SoundStore, InScope;
  }

  lemma LateStepTracks(c: Config, st: Store, w: Worker, st': Store, w': Worker)
    requires WorkerStep(c, st, w, st', w') && Fenced(c, st)
    requires Level(w.pc) < 5
    requires !Resolved(st.marker) || IsCommitted(st.marker)
    ensures TracksOn(c, st, st', w'.pc)
  {
    hide Fenced, TargetLife, InScope;
  }

  lemma StepStaysOnTrack(c: Config, s: State, w: Id, s': State)
    requires OnTrack(c, s, w) && Next(c, s, Work(w), s')
    ensures OnTrack(c, s', w)
  {
    var st, pc := s.store, s.workers[w].pc;
    StepKeepsInv(c, s, Work(w), s');
    StepKeepsStore(c, s, Work(w), s');
    TrackedStep(c, s, w, s');
    if Fenced(c, st) {
      ShrinkingStaysFenced(c, st, s'.store);
    }
    hide SoundStore, SoundWorker, Fenced, TargetLife, WorkerStep, Shrinks;
  }

  lemma TrackedStep(c: Config, s: State, w: Id, s': State)
    requires OnTrack(c, s, w) && Next(c, s, Work(w), s')
    ensures TracksOn(c, s.store, s'.store, s'.workers[w].pc)
  {
    var st, st', now, later := s.store, s'.store, s.workers[w], s'.workers[w];
    assert WorkerStep(c, st, now, st', later);
    assert st.marker.Item? && st.marker.committed ==> st.marker.state == Committed;
    hide SoundStore, SoundWorker, Fenced, TargetLife, WorkerStep, TracksOn;
    if now.pc.Begin? || now.pc.Resume? || now.pc.Load? || now.pc.Recheck? {
      EarlyStepTracks(c, st, now, st', later);
    } else if now.pc.Fence? {
      FenceStepTracks(c, st, now, st', later);
    } else {
      LateStepTracks(c, st, now, st', later);
    }
  }

  ghost predicate Alone(c: Config, states: seq<State>, w: Id) {
    states != [] && forall i :: 0 <= i < |states| - 1 ==> Next(c, states[i], Work(w), states[i + 1])
  }

  lemma WorkStep(c: Config, s: State, w: Id) returns (s': State)
    requires Inv(c, s) && w in s.workers && Running(s.workers[w].pc)
    ensures Next(c, s, Work(w), s')
    ensures w in s'.workers && LessLeft(c, s'.store, s'.workers[w].pc, s.store, s.workers[w].pc)
  {
    hide SoundStore, SoundWorker, Fenced, WorkerStep, LessLeft;
    var st', w' := NeverStuck(c, s.store, s.workers[w]);
    StepProgresses(c, s.store, s.workers[w], st', w');
    s' := State(st', s.workers[w := w']);
  }

  /** Left alone, a worker on track runs to success; where it stops, the scope is clean. */
  lemma {:induction false} RunsToSuccess(c: Config, s: State, w: Id) returns (states: seq<State>)
    requires OnTrack(c, s, w)
    ensures Alone(c, states, w) && states[0] == s
    ensures Succeeded(Last(states), w) && Inv(c, Last(states))
    decreases Level(s.workers[w].pc), Documents(c, s.store, s.workers[w].pc), Entries(s.workers[w].pc),
              Phase(s.workers[w].pc), Items(s.store, s.workers[w].pc)
  {
    hide Inv, Next, Fenced, Level, Documents, Entries, Phase, Items;
    if s.workers[w].pc == Success(false) {
      states := [s];
    } else {
      var s' := WorkStep(c, s, w);
      StepStaysOnTrack(c, s, w, s');
      var rest := RunsToSuccess(c, s', w);
      states := [s] + rest;
    }
  }

  lemma {:induction false} AloneStaysOnTrack(c: Config, states: seq<State>, w: Id, k: nat)
    requires Alone(c, states, w) && OnTrack(c, states[0], w) && k < |states|
    ensures OnTrack(c, states[k], w)
  {
    hide OnTrack, Next;
    if k > 0 {
      AloneStaysOnTrack(c, states, w, k - 1);
      StepStaysOnTrack(c, states[k - 1], w, states[k]);
    }
  }

  /** The worker can take no further step. */
  ghost predicate Stopped(c: Config, s: State, w: Id) { forall s': State :: !Next(c, s, Work(w), s') }

  lemma FinalIsClean(c: Config, s: State, w: Id)
    requires Inv(c, s) && Succeeded(s, w)
    ensures Fenced(c, s.store) && AllClean(c, s.store)
  {
    hide SoundStore, Fenced, AllClean;
    assert SoundWorker(c, s.store, s.workers[w]);
  }

  /** Whatever batches, pages and orders it chooses, a worker on track that is left alone
      stops only in success, with the whole scope clean. */
  lemma LoneRunSucceeds(c: Config, states: seq<State>, w: Id)
    requires Alone(c, states, w) && OnTrack(c, states[0], w) && Stopped(c, Last(states), w)
    ensures Succeeded(Last(states), w) && Fenced(c, Last(states).store) && AllClean(c, Last(states).store)
  {
    AloneStaysOnTrack(c, states, w, |states| - 1);
    hide SoundStore, SoundWorker, Fenced, Next, AllClean;
    if Running(Last(states).workers[w].pc) {
      var s' := WorkStep(c, Last(states), w);
      assert false;
    }
    FinalIsClean(c, Last(states), w);
  }

  /** And it does stop: no worker steps on forever, on track or not. */
  lemma {:induction false} LoneRunEnds(c: Config, run: nat -> State, w: Id, i: nat)
    requires Inv(c, run(i))
    ensures exists n: nat :: i <= n && !Next(c, run(n), Work(w), run(n + 1))
    decreases Level(At(run(i), w)), Documents(c, run(i).store, At(run(i), w)), Entries(At(run(i), w)),
              Phase(At(run(i), w)), Items(run(i).store, At(run(i), w))
  {
    if Next(c, run(i), Work(w), run(i + 1)) {
      StepKeepsInv(c, run(i), Work(w), run(i + 1));
      StepProgresses(c, run(i).store, run(i).workers[w], run(i + 1).store, run(i + 1).workers[w]);
      hide Inv, Next, Level, Documents, Entries, Phase, Items;
      LoneRunEnds(c, run, w, i + 1);
    }
  }

  function At(s: State, w: Id): Pc { if w in s.workers then s.workers[w].pc else Idle }

  function Works(w: Id, n: nat): seq<Action> { seq(n, _ => Work(w)) }

  lemma AloneIsRun(c: Config, states: seq<State>, w: Id)
    requires Alone(c, states, w)
    ensures Run(c, states, Works(w, |states| - 1))
  {
    hide Next;
  }

  lemma RunThenRun(c: Config, states: seq<State>, actions: seq<Action>, more: seq<State>, further: seq<Action>)
    requires Run(c, states, actions) && Run(c, more, further) && Last(states) == more[0]
    ensures Run(c, states + more[1..], actions + further) && Last(states + more[1..]) == Last(more)
  {
    hide Next;
    var all, acts := states + more[1..], actions + further;
    forall i | 0 <= i < |acts|
      ensures Next(c, all[i], acts[i], all[i + 1])
    {
      if i < |actions| {
        assert Next(c, states[i], actions[i], states[i + 1]);
      } else {
        var j := i - |actions|;
        assert Next(c, more[j], further[j], more[j + 1]);
        assert all[i] == more[j];
      }
    }
  }

  function Launched(s: State, w: Id, attempt: nat): State {
    s.(workers := s.workers[w := Worker(attempt, true, Begin)])
  }

  /** From any reachable point after the commit, however many workers crashed on the
      way, every replay that is left alone until it stops succeeds, with the whole scope
      clean. That it stops is LoneRunEnds; that it may start is the first clause. */
  lemma ReplayConverges(c: Config, states: seq<State>, actions: seq<Action>, w: Id, attempt: nat, replay: seq<State>)
    requires Run(c, states, actions) && Start(states[0]) && IsCommitted(Last(states).store.marker)
    requires w in Last(states).workers ==> !Running(Last(states).workers[w].pc)
    requires Alone(c, replay, w) && replay[0] == Launched(Last(states), w, attempt)
    ensures Next(c, Last(states), Launch(w, attempt), replay[0]) && Inv(c, replay[0])
    ensures Stopped(c, Last(replay), w) ==>
      Succeeded(Last(replay), w) && Fenced(c, Last(replay).store) && AllClean(c, Last(replay).store)
  {
    RunKeepsInv(c, states, actions, |actions|);
    hide SoundStore, SoundWorker, Fenced, AllClean, Stopped;
    assert Next(c, Last(states), Launch(w, attempt), replay[0]);
    StepKeepsInv(c, Last(states), Launch(w, attempt), replay[0]);
    if Stopped(c, Last(replay), w) {
      LoneRunSucceeds(c, replay, w);
    }
  }
}
