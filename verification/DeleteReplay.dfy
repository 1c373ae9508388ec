/** Durable deletes as a step system: any number of workers of one delete
    operation, each of which may crash anywhere and be replayed, over a
    database, a raw file store and the operation's item marker. */
module DeleteReplay {
  import Keyset
  import opened Wrappers

  type Id = nat

  datatype Life = Active | Deleting

  /** A raw file belongs to one document. */
  datatype Path = Path(doc: Id, version: nat)

  /** ancestors are the directories above the document; generations are the raw
      paths its retained generations name; raw is the path of the active one. */
  datatype Row = Row(base: Id, ancestors: set<Id>, life: Life, chunks: set<nat>, generations: set<Path>,
                     raw: Option<Path>)

  datatype ItemState = Pending | Committed | Skipped | Failed | Cancelled
  datatype Marker = Absent | Item(state: ItemState, committed: bool, attempt: nat)

  datatype Store = Store(bases: map<Id, Life>, rows: map<Id, Row>, files: set<Path>, marker: Marker)

  datatype Kind = Document | Directory | Base
  datatype Config = Config(kind: Kind, target: Id)

  datatype Ref = Ref(id: Id, raw: Option<Path>)

  datatype Pc =
    | Idle | Begin | Resume | Load | Fence | Recheck | Missing
    | List(after: int)
    | Clean(after: int, page: seq<Ref>, i: nat)
    | Read(after: int, page: seq<Ref>, i: nat)
    | Drop(after: int, page: seq<Ref>, i: nat, paths: set<Path>)
    | Raw(after: int, page: seq<Ref>, i: nat, paths: set<Path>)
    | SweepChunks | SweepFiles | Finish
    | Success(skipped: bool) | Error

  /** first tells the pass that found the item unresolved from one that resumes. */
  datatype Worker = Worker(attempt: nat, first: bool, pc: Pc)

  datatype State = State(store: Store, workers: map<Id, Worker>)

  const PAGE_SIZE := 128

  // ------------------------------------------------------------- the marker

  /** The durable write of an item outcome: a committed item is never
      overwritten, and a stale attempt writes nothing. */
  function MarkItem(m: Marker, state: ItemState, attempt: nat): Marker {
    if m.Item? && (m.committed || m.attempt > attempt) then m
    else Item(state, state == Committed, attempt)
  }

  predicate IsCommitted(m: Marker) { m.Item? && m.committed }

  predicate Resolved(m: Marker) { m.Item? && (m.committed || m.state == Committed || m.state == Skipped) }

  // -------------------------------------------------------------- the scope

  predicate InScope(c: Config, st: Store, id: Id) {
    id in st.rows &&
    if c.kind == Base then st.rows[id].base == c.target
    else id == c.target || c.target in st.rows[id].ancestors
  }

  function TargetLife(c: Config, st: Store): Option<Life> {
    if c.kind == Base then (if c.target in st.bases then Some(st.bases[c.target]) else None)
    else (if c.target in st.rows then Some(st.rows[c.target].life) else None)
  }

  /** The target and everything under it is logically deleted. */
  predicate Fenced(c: Config, st: Store) {
    && TargetLife(c, st) == Some(Deleting)
    && forall id <- st.rows :: InScope(c, st, id) ==> st.rows[id].life == Deleting
  }

  function FenceScope(c: Config, st: Store): Store {
    st.(bases := if c.kind == Base then st.bases[c.target := Deleting] else st.bases,
        rows := map id | id in st.rows ::
          if InScope(c, st, id) then st.rows[id].(life := Deleting) else st.rows[id])
  }

  /** The next keyset page after an id: ascending, at most a page long, and
      complete up to its last id, or to the end when it is short. */
  ghost predicate IsPage(c: Config, st: Store, after: int, page: seq<Ref>) {
    && |page| <= PAGE_SIZE
    && (forall j :: 0 <= j < |page| ==>
          InScope(c, st, page[j].id) && page[j].id > after && page[j].raw == st.rows[page[j].id].raw)
    && (forall j, k :: 0 <= j < k < |page| ==> page[j].id < page[k].id)
    && (forall id <- st.rows ::
          InScope(c, st, id) && id > after && (|page| < PAGE_SIZE || id <= page[|page| - 1].id) ==>
          exists j :: 0 <= j < |page| && page[j].id == id)
  }

  function ScopeKeys(c: Config, st: Store): set<Keyset.Key> {
    set id | id in st.rows && InScope(c, st, id) :: Keyset.Key(0, id)
  }

  function KeysOf(page: seq<Ref>): seq<Keyset.Key> {
    seq(|page|, j requires 0 <= j < |page| => Keyset.Key(0, page[j].id))
  }

  function AfterKey(after: int): Option<Keyset.Key> { if after < 0 then None else Some(Keyset.Key(0, after)) }

  lemma KeyOnPage(page: seq<Ref>, id: Id)
    ensures Keyset.Key(0, id) in KeysOf(page) <==> exists j :: 0 <= j < |page| && page[j].id == id
  {
    forall j | 0 <= j < |page| && page[j].id == id
      ensures Keyset.Key(0, id) in KeysOf(page)
    {
      assert KeysOf(page)[j] == Keyset.Key(0, id);
    }
  }

  lemma KeyAhead(page: seq<Ref>, after: int, id: Id)
    ensures Keyset.IsAfter(Keyset.Key(0, id), AfterKey(after)) <==> id > after || after < 0
    ensures page != [] ==>
      (Keyset.Less(KeysOf(page)[|page| - 1], Keyset.Key(0, id)) <==> page[|page| - 1].id < id)
  {
  }

  lemma PageIsKeysetPage(c: Config, st: Store, after: int, page: seq<Ref>)
    requires IsPage(c, st, after, page)
    ensures Keyset.IsPage(ScopeKeys(c, st), AfterKey(after), KeysOf(page), PAGE_SIZE)
  {
    var keys := KeysOf(page);
    forall k | k in ScopeKeys(c, st) && Keyset.IsAfter(k, AfterKey(after))
      && (|page| < PAGE_SIZE || page == [] || !Keyset.Less(keys[|page| - 1], k))
      ensures k in keys
    {
      KeyOnPage(page, k.id);
      KeyAhead(page, after, k.id);
    }
  }

  lemma KeysetPageIsPage(c: Config, st: Store, after: int, page: seq<Ref>)
    requires Keyset.IsPage(ScopeKeys(c, st), AfterKey(after), KeysOf(page), PAGE_SIZE)
    requires forall j :: 0 <= j < |page| ==> page[j].id in st.rows && page[j].raw == st.rows[page[j].id].raw
    ensures IsPage(c, st, after, page)
  {
    var keys := KeysOf(page);
    forall j | 0 <= j < |page|
      ensures InScope(c, st, page[j].id) && page[j].id > after
    {
      assert keys[j] in ScopeKeys(c, st) && Keyset.IsAfter(keys[j], AfterKey(after));
    }
    forall j, k | 0 <= j < k < |page|
      ensures page[j].id < page[k].id
    {
      assert Keyset.Less(keys[j], keys[k]);
    }
    forall id | id in st.rows && InScope(c, st, id) && id > after && (|page| < PAGE_SIZE || id <= page[|page| - 1].id)
      ensures exists j :: 0 <= j < |page| && page[j].id == id
    {
      KeyOnPage(page, id);
      KeyAhead(page, after, id);
      assert Keyset.Key(0, id) in ScopeKeys(c, st);
    }
  }

  /** The paging is that of restores, over the ids of the scope. */
  lemma PagesAreKeysetPages(c: Config, st: Store, after: int, page: seq<Ref>)
    ensures IsPage(c, st, after, page) <==>
      && Keyset.IsPage(ScopeKeys(c, st), AfterKey(after), KeysOf(page), PAGE_SIZE)
      && forall j :: 0 <= j < |page| ==> page[j].id in st.rows && page[j].raw == st.rows[page[j].id].raw
  {
    if IsPage(c, st, after, page) {
      PageIsKeysetPage(c, st, after, page);
    }
    hide Keyset.IsPage, IsPage;
    if Keyset.IsPage(ScopeKeys(c, st), AfterKey(after), KeysOf(page), PAGE_SIZE)
      && forall j :: 0 <= j < |page| ==> page[j].id in st.rows && page[j].raw == st.rows[page[j].id].raw {
      KeysetPageIsPage(c, st, after, page);
    }
  }

  // ------------------------------------------------------------ worker steps

  /** Where a worker goes after cleaning page[i]. */
  function AfterRef(c: Config, after: int, page: seq<Ref>, i: nat): Pc
    requires i < |page|
  {
    if i + 1 < |page| then Clean(after, page, i + 1)
    else if |page| < PAGE_SIZE then AfterPages(c)
    else List(page[|page| - 1].id)
  }

  function AfterListing(c: Config, after: int, page: seq<Ref>): Pc {
    if page == [] then AfterPages(c) else Clean(after, page, 0)
  }

  function AfterPages(c: Config): Pc { if c.kind == Base then SweepChunks else Finish }

  function SetRow(st: Store, id: Id, row: Row): Store { st.(rows := st.rows[id := row]) }

  /** One atomic step of a running worker: what it reads or commits, and where it goes. */
  ghost predicate WorkerStep(c: Config, st: Store, w: Worker, st': Store, w': Worker) {
    w'.attempt == w.attempt && (w.pc != Begin ==> w'.first == w.first) &&
    match w.pc
    case Begin =>
      && st' == st && w'.first == !Resolved(st.marker)
      && w'.pc == (if !Resolved(st.marker) then Load
                   else if st.marker.state == Skipped then Success(true) else Resume)
    case Resume =>
      st' == st && w'.pc == (if TargetLife(c, st) == Some(Deleting) then Load else Success(false))
    case Load =>
      st' == st && w'.pc == (if c.kind == Base || TargetLife(c, st) == Some(Active) then Fence else Recheck)
    case Fence =>
      if TargetLife(c, st) == Some(Active) then
        && st' == FenceScope(c, st).(marker := if w.first then MarkItem(st.marker, Committed, w.attempt) else st.marker)
        && w'.pc == List(-1)
      else st' == st && w'.pc == (if c.kind == Base then Recheck else Missing)
    case Recheck =>
      st' == st && w'.pc == (if TargetLife(c, st) == Some(Deleting) then List(-1) else Missing)
    case Missing =>
      if c.kind == Directory && w.first then
        st' == st.(marker := MarkItem(st.marker, Skipped, w.attempt)) && w'.pc == Success(true)
      else st' == st && w'.pc == Error
    case List(after) =>
      st' == st && (exists page :: IsPage(c, st, after, page) && w'.pc == AfterListing(c, after, page))
    case Clean(after, page, i) =>
      && i < |page| && page[i].id in st.rows
      && (var row := st.rows[page[i].id];
          exists left: set<nat> ::
            && left <= row.chunks && (c.kind == Base || left == {} || left < row.chunks)
            && st' == SetRow(st, page[i].id, row.(chunks := left))
            && w'.pc == (if c.kind == Base then Raw(after, page, i, {})
                         else if left == {} then Read(after, page, i) else w.pc))
    case Read(after, page, i) =>
      && i < |page| && page[i].id in st.rows
      && st' == st && w'.pc == Drop(after, page, i, st.rows[page[i].id].generations)
    case Drop(after, page, i, paths) =>
      && i < |page| && page[i].id in st.rows
      && st' == SetRow(st, page[i].id, st.rows[page[i].id].(generations := {}))
      && w'.pc == Raw(after, page, i, paths)
    case Raw(after, page, i, paths) =>
      && i < |page|
      && if paths != {} then
           exists p <- paths :: st' == st.(files := st.files - {p}) && w'.pc == Raw(after, page, i, paths - {p})
         else
           && st' == st.(files := if page[i].raw.Some? then st.files - {page[i].raw.value} else st.files)
           && w'.pc == AfterRef(c, after, page, i)
    case SweepChunks =>
      && st' == st.(rows := map id | id in st.rows ::
           if InScope(c, st, id) then st.rows[id].(chunks := {}) else st.rows[id])
      && w'.pc == SweepFiles
    case SweepFiles =>
      st' == st.(files := set p | p in st.files && !InScope(c, st, p.doc)) && w'.pc == Finish
    case Finish =>
      && st' == st.(marker :=
           if w.first && c.kind != Document then MarkItem(st.marker, Committed, w.attempt) else st.marker)
      && w'.pc == Success(false)
    case _ => false
  }

  predicate Running(pc: Pc) { !pc.Idle? && !pc.Success? && !pc.Error? }

  // ------------------------------------------------------------- other steps

  datatype Action =
    | Launch(worker: Id, attempt: nat) | Work(worker: Id) | Crash(worker: Id) | Fail(worker: Id)
    | Insert(id: Id, row: Row) | Stage(id: Id, chunk: nat) | Publish(id: Id, chunk: nat, path: Path)
    | OtherFence(other: Config) | OtherCleanup | OtherMark(state: ItemState, attempt: nat)

  function RawOf(row: Row): set<Path> { if row.raw.Some? then {row.raw.value} else {} }

  /** Documents enter only under active directories of an active base. */
  predicate MayInsert(st: Store, id: Id, row: Row) {
    && id !in st.rows && row.base in st.bases && st.bases[row.base] == Active
    && row.life == Active && row.chunks == {} && row.generations == {} && row.raw == None
    && (forall a <- row.ancestors :: a in st.rows && st.rows[a].life == Active && st.rows[a].base == row.base
          && st.rows[a].ancestors <= row.ancestors)
  }

  /** Other operations' cleanup only removes data of deleted documents. */
  predicate OnlyRemoves(st: Store, st': Store) {
    && st'.bases == st.bases && st'.marker == st.marker && st'.rows.Keys == st.rows.Keys
    && st'.files <= st.files
    && (forall p <- st.files - st'.files :: p.doc in st.rows && st.rows[p.doc].life == Deleting)
    && forall id <- st.rows ::
         && st'.rows[id] == st.rows[id].(chunks := st'.rows[id].chunks, generations := st'.rows[id].generations)
         && st'.rows[id].chunks <= st.rows[id].chunks && st'.rows[id].generations <= st.rows[id].generations
         && (st.rows[id].life == Active ==> st'.rows[id] == st.rows[id])
  }

  ghost predicate Next(c: Config, s: State, a: Action, s': State) {
    match a
    case Launch(w, attempt) =>
      && (w in s.workers ==> !Running(s.workers[w].pc))
      && s' == s.(workers := s.workers[w := Worker(attempt, true, Begin)])
    case Work(w) =>
      && w in s.workers && w in s'.workers
      && WorkerStep(c, s.store, s.workers[w], s'.store, s'.workers[w])
      && s'.workers == s.workers[w := s'.workers[w]]
    case Crash(w) =>
      w in s.workers && s' == s.(workers := s.workers[w := s.workers[w].(pc := Idle)])
    case Fail(w) =>
      && w in s.workers && Running(s.workers[w].pc)
      && s'.workers == s.workers[w := s.workers[w].(pc := Error)]
      && (s'.store == s.store ||
          s'.store == s.store.(marker := MarkItem(s.store.marker, Failed, s.workers[w].attempt)))
    case Insert(id, row) =>
      MayInsert(s.store, id, row) && s' == s.(store := SetRow(s.store, id, row))
    case Stage(id, chunk) =>
      && id in s.store.rows && s.store.rows[id].life == Active
      && s' == s.(store := SetRow(s.store, id, s.store.rows[id].(chunks := s.store.rows[id].chunks + {chunk})))
    case Publish(id, chunk, path) =>
      && id in s.store.rows && s.store.rows[id].life == Active && path.doc == id
      && (var row := s.store.rows[id];
          s' == s.(store := SetRow(s.store, id,
              row.(chunks := row.chunks + {chunk}, generations := row.generations + {path} + RawOf(row),
                raw := Some(path)))
            .(files := s.store.files + {path})))
    case OtherFence(other) =>
      TargetLife(other, s.store) == Some(Active) && s' == s.(store := FenceScope(other, s.store))
    case OtherCleanup =>
      s'.workers == s.workers && OnlyRemoves(s.store, s'.store)
    case OtherMark(state, attempt) =>
      state != Committed && s' == s.(store := s.store.(marker := MarkItem(s.store.marker, state, attempt)))
  }

  // -------------------------------------------------------------- invariants

  /** The store's own consistency: deletion closes over bases and directories,
      paths belong to their document, and active documents have no stray file. */
  predicate SoundRow(st: Store, id: Id)
    requires id in st.rows
  {
    var row := st.rows[id];
    && row.base in st.bases && (st.bases[row.base] == Deleting ==> row.life == Deleting)
    && id !in row.ancestors
    && (forall a <- row.ancestors ::
          && a in st.rows && st.rows[a].ancestors <= row.ancestors && st.rows[a].base == row.base
          && (st.rows[a].life == Deleting ==> row.life == Deleting))
    && (forall p <- row.generations :: p.doc == id) && (row.raw.Some? ==> row.raw.value.doc == id)
  }

  predicate SoundFile(st: Store, p: Path) {
    && p.doc in st.rows
    && (st.rows[p.doc].life == Active ==> p in st.rows[p.doc].generations || st.rows[p.doc].raw == Some(p))
  }

  predicate SoundStore(st: Store) {
    && (forall id <- st.rows :: SoundRow(st, id))
    && (forall p <- st.files :: SoundFile(st, p))
    && (st.marker.Item? ==> (st.marker.committed <==> st.marker.state == Committed))
  }

  /** What cleaning one document leaves: no chunk, no generation row, no active raw file. */
  predicate Cleaned(st: Store, id: Id)
    requires id in st.rows
  {
    var row := st.rows[id];
    row.chunks == {} && row.generations == {} && (row.raw.Some? ==> row.raw.value !in st.files)
  }

  predicate CleanUpTo(c: Config, st: Store, after: int) {
    c.kind != Base ==> forall id <- st.rows :: InScope(c, st, id) && id <= after ==> Cleaned(st, id)
  }

  /** What success promises of the whole scope. */
  predicate AllClean(c: Config, st: Store) {
    forall id <- st.rows :: InScope(c, st, id) ==>
      if c.kind == Base then st.rows[id].chunks == {} && forall p <- st.files :: p.doc != id
      else Cleaned(st, id)
  }

  ghost predicate OnPage(c: Config, st: Store, after: int, page: seq<Ref>, i: nat) {
    && i < |page| && IsPage(c, st, after, page) && Fenced(c, st) && CleanUpTo(c, st, after)
    && (c.kind != Base ==> forall j :: 0 <= j < i ==> page[j].id in st.rows && Cleaned(st, page[j].id))
  }

  ghost predicate SoundWorker(c: Config, st: Store, w: Worker) {
    match w.pc
    case Resume => IsCommitted(st.marker)
    case List(after) => Fenced(c, st) && CleanUpTo(c, st, after)
    case Clean(after, page, i) => OnPage(c, st, after, page, i)
    case Read(after, page, i) =>
      OnPage(c, st, after, page, i) && st.rows[page[i].id].chunks == {}
    case Drop(after, page, i, paths) =>
      && OnPage(c, st, after, page, i) && st.rows[page[i].id].chunks == {}
      && (forall p <- paths :: p.doc == page[i].id)
    case Raw(after, page, i, paths) =>
      && OnPage(c, st, after, page, i) && (forall p <- paths :: p.doc == page[i].id)
      && (c.kind != Base ==> st.rows[page[i].id].chunks == {} && st.rows[page[i].id].generations == {})
    case SweepChunks => Fenced(c, st) && c.kind == Base
    case SweepFiles =>
      Fenced(c, st) && c.kind == Base && forall id <- st.rows :: InScope(c, st, id) ==> st.rows[id].chunks == {}
    case Finish => Fenced(c, st) && AllClean(c, st)
    case Success(skipped) => !skipped ==> Fenced(c, st) && AllClean(c, st)
    case _ => true
  }

  ghost predicate Inv(c: Config, s: State) {
    && SoundStore(s.store)
    && (IsCommitted(s.store.marker) ==> Fenced(c, s.store))
    && forall w <- s.workers :: SoundWorker(c, s.store, s.workers[w])
  }

  // --------------------------------------- once fenced, data can only shrink

  /** How the store of a fenced scope may change: the scope stays fenced and the
      same, its data shrinks, and a committed marker stays committed. */
  predicate Shrinks(c: Config, st: Store, st': Store) {
    && Fenced(c, st') && st.rows.Keys <= st'.rows.Keys
    && (IsCommitted(st.marker) ==> IsCommitted(st'.marker))
    && (forall id <- st'.rows :: InScope(c, st', id) <==> InScope(c, st, id))
    && forall id <- st.rows :: InScope(c, st, id) ==>
         && st'.rows[id].chunks <= st.rows[id].chunks
         && st'.rows[id].generations <= st.rows[id].generations
         && st'.rows[id].raw == st.rows[id].raw
         && forall p <- st'.files :: p.doc == id ==> p in st.files
  }

  lemma ShrinkingKeepsWorker(c: Config, st: Store, st': Store, w: Worker)
    requires SoundStore(st) && Shrinks(c, st, st') && SoundWorker(c, st, w)
    ensures SoundWorker(c, st', w)
  {
    ShrinkingKeepsClean(c, st, st');
    match w.pc
    case Clean(after, page, i) => ShrinkingKeepsPage(c, st, st', after, page, i);
    case Read(after, page, i) => ShrinkingKeepsPage(c, st, st', after, page, i);
    case Drop(after, page, i, paths) => ShrinkingKeepsPage(c, st, st', after, page, i);
    case Raw(after, page, i, paths) => ShrinkingKeepsPage(c, st, st', after, page, i);
    case _ =>
  }

  lemma ShrinkingKeepsClean(c: Config, st: Store, st': Store)
    requires SoundStore(st) && Shrinks(c, st, st')
    ensures forall id <- st.rows :: InScope(c, st, id) && Cleaned(st, id) ==> Cleaned(st', id)
    ensures forall after: int :: CleanUpTo(c, st, after) ==> CleanUpTo(c, st', after)
    ensures AllClean(c, st) ==> AllClean(c, st')
  {
    forall id | id in st.rows && InScope(c, st, id) && Cleaned(st, id)
      ensures Cleaned(st', id)
    {
      assert SoundRow(st, id);
    }
  }

  lemma ShrinkingKeepsPage(c: Config, st: Store, st': Store, after: int, page: seq<Ref>, i: nat)
    requires SoundStore(st) && Shrinks(c, st, st') && OnPage(c, st, after, page, i)
    ensures OnPage(c, st', after, page, i)
  {
    ShrinkingKeepsClean(c, st, st');
  }

  // ------------------------------------------------- every step keeps them

  lemma RemovalIsSound(st: Store, st': Store)
    requires SoundStore(st) && OnlyRemoves(st, st')
    ensures SoundStore(st')
  {
    forall id | id in st'.rows
      ensures SoundRow(st', id)
    {
      assert SoundRow(st, id);
    }
    forall p | p in st'.files
      ensures SoundFile(st', p)
    {
      assert SoundFile(st, p);
    }
  }

  lemma RemovalShrinks(c: Config, st: Store, st': Store)
    requires OnlyRemoves(st, st') && Fenced(c, st)
    ensures Shrinks(c, st, st')
  {
  }

  lemma FencingIsSound(c: Config, st: Store)
    requires SoundStore(st) && TargetLife(c, st) == Some(Active)
    ensures SoundStore(FenceScope(c, st)) && Fenced(c, FenceScope(c, st))
  {
    var st' := FenceScope(c, st);
    forall id | id in st'.rows
      ensures SoundRow(st', id)
    {
      assert SoundRow(st, id);
    }
    forall p | p in st'.files
      ensures SoundFile(st', p)
    {
      assert SoundFile(st, p);
    }
  }

  lemma OtherFencingShrinks(c: Config, other: Config, st: Store)
    requires Fenced(c, st) && TargetLife(other, st) == Some(Active)
    ensures Shrinks(c, st, FenceScope(other, st))
  {
  }

  lemma AdditionIsSound(c: Config, s: State, a: Action, s': State)
    requires SoundStore(s.store) && Next(c, s, a, s') && (a.Insert? || a.Stage? || a.Publish?)
    ensures SoundStore(s'.store)
  {
    hide SoundRow, SoundFile;
    forall id | id in s'.store.rows
      ensures SoundRow(s'.store, id)
    {
      AddedRowIsSound(c, s, a, s', id);
    }
    forall p | p in s'.store.files
      ensures SoundFile(s'.store, p)
    {
      AddedFileIsSound(c, s, a, s', p);
    }
  }

  lemma AddedRowIsSound(c: Config, s: State, a: Action, s': State, id: Id)
    requires SoundStore(s.store) && Next(c, s, a, s') && (a.Insert? || a.Stage? || a.Publish?) && id in s'.store.rows
    ensures SoundRow(s'.store, id)
  {
    if id in s.store.rows {
      assert SoundRow(s.store, id);
    }
    hide SoundStore;
  }

  lemma AddedFileIsSound(c: Config, s: State, a: Action, s': State, p: Path)
    requires SoundStore(s.store) && Next(c, s, a, s') && (a.Insert? || a.Stage? || a.Publish?) && p in s'.store.files
    ensures SoundFile(s'.store, p)
  {
    if p in s.store.files {
      assert SoundFile(s.store, p);
    }
    hide SoundStore;
  }

  lemma AdditionShrinks(c: Config, s: State, a: Action, s': State)
    requires SoundStore(s.store) && Next(c, s, a, s') && (a.Insert? || a.Stage? || a.Publish?)
    requires Fenced(c, s.store)
    ensures Shrinks(c, s.store, s'.store)
  {
    if a.Insert? {
      assert !InScope(c, s'.store, a.id);
    } else {
      assert !InScope(c, s.store, a.id);
    }
  }

  lemma MarkingIsSound(c: Config, st: Store, state: ItemState, attempt: nat)
    requires SoundStore(st)
    ensures var st' := st.(marker := MarkItem(st.marker, state, attempt));
      && SoundStore(st')
      && (Fenced(c, st) ==> Shrinks(c, st, st'))
      && (state != Committed && !IsCommitted(st.marker) ==> !IsCommitted(st'.marker))
  {
    var st' := st.(marker := MarkItem(st.marker, state, attempt));
    assert forall id <- st.rows :: SoundRow(st, id) ==> SoundRow(st', id);
    assert forall p <- st.files :: SoundFile(st, p) ==> SoundFile(st', p);
  }

  lemma ClearingRemoves(st: Store, id: Id, chunks: set<nat>, generations: set<Path>)
    requires id in st.rows && st.rows[id].life == Deleting
    requires chunks <= st.rows[id].chunks && generations <= st.rows[id].generations
    ensures OnlyRemoves(st, SetRow(st, id, st.rows[id].(chunks := chunks, generations := generations)))
  {
  }

  lemma DeletingFileRemoves(st: Store, p: Path)
    requires p.doc in st.rows && st.rows[p.doc].life == Deleting
    ensures OnlyRemoves(st, st.(files := st.files - {p}))
  {
  }

  lemma PageIsDeleting(c: Config, st: Store, after: int, page: seq<Ref>, i: nat)
    requires SoundStore(st) && OnPage(c, st, after, page, i)
    ensures page[i].id in st.rows && st.rows[page[i].id].life == Deleting
    ensures page[i].raw.Some? ==> page[i].raw.value.doc == page[i].id
  {
    assert InScope(c, st, page[i].id) && SoundRow(st, page[i].id);
  }

  lemma CleanRemoves(c: Config, st: Store, w: Worker, st': Store, w': Worker)
    requires SoundStore(st) && SoundWorker(c, st, w) && WorkerStep(c, st, w, st', w') && (w.pc.Clean? || w.pc.Drop?)
    ensures OnlyRemoves(st, st')
  {
    var id := w.pc.page[w.pc.i].id;
    PageIsDeleting(c, st, w.pc.after, w.pc.page, w.pc.i);
    assert st'.rows[id].chunks <= st.rows[id].chunks && st'.rows[id].generations <= st.rows[id].generations;
    ClearingRemoves(st, id, st'.rows[id].chunks, st'.rows[id].generations);
    hide SoundStore, OnPage, Fenced;
  }

  lemma RawRemoves(c: Config, st: Store, w: Worker, st': Store, w': Worker)
    requires SoundStore(st) && SoundWorker(c, st, w) && WorkerStep(c, st, w, st', w') && w.pc.Raw?
    ensures OnlyRemoves(st, st')
  {
    PageIsDeleting(c, st, w.pc.after, w.pc.page, w.pc.i);
    hide SoundStore, OnPage, Fenced, OnlyRemoves;
    if w.pc.paths != {} {
      var p :| p in w.pc.paths && st' == st.(files := st.files - {p});
      DeletingFileRemoves(st, p);
    } else if w.pc.page[w.pc.i].raw.Some? {
      DeletingFileRemoves(st, w.pc.page[w.pc.i].raw.value);
    } else {
      assert st' == st;
      NothingRemoved(st);
    }
  }

  lemma NothingRemoved(st: Store)
    ensures OnlyRemoves(st, st)
  {
  }

  lemma SweepRemoves(c: Config, st: Store, w: Worker, st': Store, w': Worker)
    requires SoundStore(st) && SoundWorker(c, st, w) && WorkerStep(c, st, w, st', w')
      && (w.pc.SweepChunks? || w.pc.SweepFiles?)
    ensures OnlyRemoves(st, st')
  {
    hide SoundStore;
  }

  /** Cleaning steps only remove data of deleted documents. */
  lemma CleaningRemoves(c: Config, st: Store, w: Worker, st': Store, w': Worker)
    requires SoundStore(st) && SoundWorker(c, st, w) && WorkerStep(c, st, w, st', w')
    requires w.pc.Clean? || w.pc.Drop? || w.pc.Raw? || w.pc.SweepChunks? || w.pc.SweepFiles?
    ensures OnlyRemoves(st, st') && Fenced(c, st)
  {
    hide SoundStore, WorkerStep, OnlyRemoves, Fenced;
    if w.pc.Clean? || w.pc.Drop? {
      CleanRemoves(c, st, w, st', w');
    } else if w.pc.Raw? {
      RawRemoves(c, st, w, st', w');
    } else {
      SweepRemoves(c, st, w, st', w');
    }
  }

  /** A worker's step keeps the store sound, shrinks a fenced scope, and commits
      the marker only over a fenced scope. */
  lemma WorkerStepKeepsStore(c: Config, st: Store, w: Worker, st': Store, w': Worker)
    requires SoundStore(st) && (IsCommitted(st.marker) ==> Fenced(c, st))
    requires SoundWorker(c, st, w) && WorkerStep(c, st, w, st', w')
    ensures SoundStore(st') && (Fenced(c, st) ==> Shrinks(c, st, st'))
    ensures IsCommitted(st'.marker) ==> Fenced(c, st')
  {
    if w.pc.Clean? || w.pc.Drop? || w.pc.Raw? || w.pc.SweepChunks? || w.pc.SweepFiles? {
      CleaningRemoves(c, st, w, st', w');
      RemovalIsSound(st, st');
      RemovalShrinks(c, st, st');
    } else if w.pc.Fence? && TargetLife(c, st) == Some(Active) {
      FencingIsSound(c, st);
      MarkingIsSound(c, FenceScope(c, st), Committed, w.attempt);
    } else if w.pc.Finish? || w.pc.Missing? {
      MarkingIsSound(c, st, if w.pc.Finish? then Committed else Skipped, w.attempt);
    }
  }

  /** Before any page is listed. */
  lemma EarlyStepKeepsWorker(c: Config, st: Store, w: Worker, st': Store, w': Worker)
    requires SoundStore(st) && (IsCommitted(st.marker) ==> Fenced(c, st)) && WorkerStep(c, st, w, st', w')
    requires w.pc.Begin? || w.pc.Resume? || w.pc.Load? || w.pc.Fence? || w.pc.Recheck? || w.pc.Missing?
    requires w.pc.Resume? ==> IsCommitted(st.marker)
    ensures SoundWorker(c, st', w')
  {
    if w.pc.Fence? && TargetLife(c, st) == Some(Active) {
      FencingIsSound(c, st);
      NothingBefore(c, st');
    } else if w.pc.Recheck? && TargetLife(c, st) == Some(Deleting) {
      RecheckedIsFenced(c, st);
    }
    assert Fenced(c, st) ==> TargetLife(c, st) == Some(Deleting);
    hide SoundStore, InScope, CleanUpTo, AllClean, OnPage;
  }

  lemma FinishIsSound(c: Config, st: Store, w: Worker, st': Store, w': Worker)
    requires SoundStore(st) && WorkerStep(c, st, w, st', w') && w.pc.Finish? && Fenced(c, st) && AllClean(c, st)
    ensures SoundWorker(c, st', w')
  {
    MarkingIsSound(c, st, Committed, w.attempt);
    ShrinkingKeepsClean(c, st, st.(marker := MarkItem(st.marker, Committed, w.attempt)));
    hide SoundStore, InScope, AllClean;
  }

  /** The step leaves the worker itself where its claims hold. */
  lemma WorkerStepKeepsWorker(c: Config, st: Store, w: Worker, st': Store, w': Worker)
    requires SoundStore(st) && (IsCommitted(st.marker) ==> Fenced(c, st))
    requires SoundWorker(c, st, w) && WorkerStep(c, st, w, st', w')
    ensures SoundWorker(c, st', w')
  {
    hide SoundStore, Fenced, InScope, AllClean, CleanUpTo, OnPage;
    if w.pc.SweepChunks? || w.pc.SweepFiles? {
      SweepingIsSound(c, st, w, st', w');
    } else if w.pc.List? {
      ListingIsSound(c, st, w, w', w.pc.after);
    } else if w.pc.Clean? || w.pc.Drop? || w.pc.Raw? {
      CleaningIsSound(c, st, w, st', w');
    } else if w.pc.Read? {
      ReadingIsSound(c, st, w, st', w');
    } else if w.pc.Finish? {
      FinishIsSound(c, st, w, st', w');
    } else {
      EarlyStepKeepsWorker(c, st, w, st', w');
    }
  }

  lemma ReadingIsSound(c: Config, st: Store, w: Worker, st': Store, w': Worker)
    requires SoundStore(st) && SoundWorker(c, st, w) && WorkerStep(c, st, w, st', w') && w.pc.Read?
    ensures SoundWorker(c, st', w')
  {
    assert InScope(c, st, w.pc.page[w.pc.i].id) && SoundRow(st, w.pc.page[w.pc.i].id);
    hide SoundStore, IsPage, Fenced, CleanUpTo;
  }

  lemma NothingBefore(c: Config, st: Store)
    ensures CleanUpTo(c, st, -1)
  {
  }

  /** Deletion is closed downward, so a deleted target means a fenced scope. */
  lemma RecheckedIsFenced(c: Config, st: Store)
    requires SoundStore(st) && TargetLife(c, st) == Some(Deleting)
    ensures Fenced(c, st) && CleanUpTo(c, st, -1)
  {
    forall id | id in st.rows && InScope(c, st, id)
      ensures st.rows[id].life == Deleting
    {
      assert SoundRow(st, id);
    }
  }

  lemma ListingIsSound(c: Config, st: Store, w: Worker, w': Worker, after: int)
    requires SoundStore(st) && w.pc == List(after) && SoundWorker(c, st, w) && WorkerStep(c, st, w, st, w')
    ensures SoundWorker(c, st, w')
  {
    var page :| IsPage(c, st, after, page) && w'.pc == AfterListing(c, after, page);
    if page == [] {
      EndIsClean(c, st, after, page);
    }
  }

  /** After a short page whose documents are clean, the whole scope is. */
  lemma EndIsClean(c: Config, st: Store, after: int, page: seq<Ref>)
    requires IsPage(c, st, after, page) && CleanUpTo(c, st, after) && |page| < PAGE_SIZE
    requires c.kind != Base ==> forall j :: 0 <= j < |page| ==> page[j].id in st.rows && Cleaned(st, page[j].id)
    ensures c.kind != Base ==> AllClean(c, st)
  {
    if c.kind != Base {
      forall id | id in st.rows && InScope(c, st, id)
        ensures Cleaned(st, id)
      {
        if id > after {
          var j :| 0 <= j < |page| && page[j].id == id;
        }
      }
    }
  }

  /** After a full page, everything up to its last id is clean. */
  lemma PageIsClean(c: Config, st: Store, after: int, page: seq<Ref>)
    requires IsPage(c, st, after, page) && CleanUpTo(c, st, after) && page != []
    requires c.kind != Base ==> forall j :: 0 <= j < |page| ==> page[j].id in st.rows && Cleaned(st, page[j].id)
    ensures CleanUpTo(c, st, page[|page| - 1].id)
  {
    if c.kind != Base {
      forall id | id in st.rows && InScope(c, st, id) && id <= page[|page| - 1].id
        ensures Cleaned(st, id)
      {
        if id > after {
          var j :| 0 <= j < |page| && page[j].id == id;
        }
      }
    }
  }

  lemma AdvanceIsSound(c: Config, st: Store, w: Worker, after: int, page: seq<Ref>, i: nat)
    requires OnPage(c, st, after, page, i) && w.pc == AfterRef(c, after, page, i)
    requires c.kind != Base ==> Cleaned(st, page[i].id)
    ensures SoundWorker(c, st, w)
  {
    if i + 1 < |page| {
    } else if |page| < PAGE_SIZE {
      EndIsClean(c, st, after, page);
    } else {
      PageIsClean(c, st, after, page);
    }
  }

  lemma CleaningIsSound(c: Config, st: Store, w: Worker, st': Store, w': Worker)
    requires SoundStore(st) && SoundWorker(c, st, w) && WorkerStep(c, st, w, st', w')
    requires w.pc.Clean? || w.pc.Drop? || w.pc.Raw?
    ensures SoundWorker(c, st', w')
  {
    CleaningRemoves(c, st, w, st', w');
    RemovalShrinks(c, st, st');
    ShrinkingKeepsPage(c, st, st', w.pc.after, w.pc.page, w.pc.i);
    assert InScope(c, st, w.pc.page[w.pc.i].id);
    if w.pc.Raw? && w.pc.paths == {} {
      AdvanceIsSound(c, st', w', w.pc.after, w.pc.page, w.pc.i);
    }
  }

  lemma SweepingIsSound(c: Config, st: Store, w: Worker, st': Store, w': Worker)
    requires SoundStore(st) && SoundWorker(c, st, w) && WorkerStep(c, st, w, st', w')
    requires w.pc.SweepChunks? || w.pc.SweepFiles?
    ensures SoundWorker(c, st', w')
  {
    CleaningRemoves(c, st, w, st', w');
    RemovalShrinks(c, st, st');
  }

  /** Workers that make a claim about the scope have seen it fenced. */
  lemma ClaimsAreFenced(c: Config, st: Store, st': Store, w: Worker)
    requires SoundStore(st) && (IsCommitted(st.marker) ==> Fenced(c, st)) && SoundWorker(c, st, w)
    requires Fenced(c, st) ==> Shrinks(c, st, st')
    ensures SoundWorker(c, st', w)
  {
    if Fenced(c, st) {
      ShrinkingKeepsWorker(c, st, st', w);
    }
  }

  lemma StepKeepsStore(c: Config, s: State, a: Action, s': State)
    requires Inv(c, s) && Next(c, s, a, s')
    ensures SoundStore(s'.store) && (Fenced(c, s.store) ==> Shrinks(c, s.store, s'.store))
    ensures IsCommitted(s'.store.marker) ==> Fenced(c, s'.store)
  {
    match a
    case Work(w) => WorkerStepKeepsStore(c, s.store, s.workers[w], s'.store, s'.workers[w]);
    case Fail(w) => MarkingIsSound(c, s.store, Failed, s.workers[w].attempt);
    case OtherFence(other) =>
      FencingIsSound(other, s.store);
      if Fenced(c, s.store) {
        OtherFencingShrinks(c, other, s.store);
      }
    case OtherCleanup =>
      RemovalIsSound(s.store, s'.store);
      if Fenced(c, s.store) {
        RemovalShrinks(c, s.store, s'.store);
      }
    case OtherMark(state, attempt) => MarkingIsSound(c, s.store, state, attempt);
    case Launch(_, _) =>
    case Crash(_) =>
    case _ =>
      AdditionIsSound(c, s, a, s');
      if Fenced(c, s.store) {
        AdditionShrinks(c, s, a, s');
      }
  }

  /** Every step of every worker, crash, replay and other operation keeps the invariant. */
  lemma StepKeepsInv(c: Config, s: State, a: Action, s': State)
    requires Inv(c, s) && Next(c, s, a, s')
    ensures Inv(c, s')
  {
    StepKeepsStore(c, s, a, s');
    forall w | w in s'.workers
      ensures SoundWorker(c, s'.store, s'.workers[w])
    {
      if a.Work? && a.worker == w {
        WorkerStepKeepsWorker(c, s.store, s.workers[w], s'.store, s'.workers[w]);
      } else if w in s.workers && s'.workers[w] == s.workers[w] {
        ClaimsAreFenced(c, s.store, s'.store, s.workers[w]);
      }
    }
  }
}
