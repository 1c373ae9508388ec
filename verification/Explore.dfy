/** Building the exploration graph: visibility, adjacency, the walk, and its
    output, together with its independence of input order. */
module Explore {
  import opened Text
  import opened Traversal

  /** visible is the version policy's verdict on the unit. */
  datatype Unit = Unit(id: Id, visible: bool)
  datatype Hit = Hit(unit: Id, score: real)

  datatype Options = Options(kinds: set<RelationType>, direction: Direction, bounds: Bounds, excludeConflicts: bool)

  datatype Node = Node(unit: Unit, hops: nat, isSeed: bool)
  datatype Edge = Edge(relation: Relation, exact: bool, conflict: bool)
  datatype Path = Path(seed: Id, unit: Id, hops: nat, edges: seq<Id>)
  datatype Graph = Graph(seeds: seq<Hit>, nodes: seq<Node>, edges: seq<Edge>, paths: seq<Path>, truncated: bool)

  // ------------------------------------------------------------ the request

  function ClampPositive(value: int, fallback: nat, ceiling: nat): (r: nat)
    requires 0 < fallback <= ceiling
    ensures 0 < r <= ceiling
  {
    if value <= 0 then fallback else if value > ceiling then ceiling else value
  }

  /** A word in a request: left out, one the service knows, or any other. */
  datatype Word<T> = Blank | Known(value: T) | Unknown
  datatype Request = Request(kinds: seq<Word<RelationType>>, direction: Word<Direction>,
                             maxHops: int, maxNodes: int, fanOut: int, excludeConflicts: bool)
  datatype Normalized = Accepted(opts: Options) | Refused

  function Normalize(r: Request): (n: Normalized)
    ensures n.Accepted? <==> !r.direction.Unknown? && forall k <- r.kinds :: k.Known?
    ensures n.Accepted? ==> 0 < n.opts.bounds.maxHops <= 4 && 0 < n.opts.bounds.maxNodes <= 256
    ensures n.Accepted? ==> 0 < n.opts.bounds.fanOut <= 64
  {
    if r.direction.Unknown? || exists k <- r.kinds :: !k.Known? then Refused
    else
      var bounds := Bounds(ClampPositive(r.maxHops, 1, 4), ClampPositive(r.maxNodes, 64, 256),
        ClampPositive(r.fanOut, 16, 64));
      var kinds := set k <- r.kinds | k.Known? :: k.value;
      Accepted(Options(kinds, if r.direction.Known? then r.direction.value else Out, bounds, r.excludeConflicts))
  }

  /** Every accepted request walks at least one hop and is bounded. */
  method NormalizeTraversal(r: Request) returns (n: Normalized)
    ensures n == Normalize(r)
  {
    var direction := Out;
    match r.direction {
      case Blank =>
      case Known(d) => direction := d;
      case Unknown => return Refused;
    }
    var kinds: set<RelationType> := {};
    for i := 0 to |r.kinds|
      invariant forall k <- r.kinds[..i] :: k.Known?
      invariant kinds == set k <- r.kinds[..i] | k.Known? :: k.value
    {
      assert r.kinds[..i + 1] == r.kinds[..i] + [r.kinds[i]];
      if !r.kinds[i].Known? {
        return Refused;
      }
      kinds := kinds + {r.kinds[i].value};
    }
    assert r.kinds[..|r.kinds|] == r.kinds;
    var bounds := Bounds(ClampPositive(r.maxHops, 1, 4), ClampPositive(r.maxNodes, 64, 256),
      ClampPositive(r.fanOut, 16, 64));
    n := Accepted(Options(kinds, direction, bounds, r.excludeConflicts));
  }

  // -------------------------------------------------------------- visibility

  function VisibleUnits(units: seq<Unit>): map<Id, Unit> {
    if units == [] then map[]
    else
      var earlier, last := VisibleUnits(units[..|units| - 1]), units[|units| - 1];
      if last.visible then earlier[last.id := last] else earlier
  }

  predicate DistinctUnits(units: seq<Unit>) {
    forall i, j :: 0 <= i < j < |units| ==> units[i].id != units[j].id
  }

  lemma {:induction false} VisibleUnitsAre(units: seq<Unit>)
    requires DistinctUnits(units)
    ensures forall u: Unit :: u in units && u.visible <==> u.id in VisibleUnits(units) && VisibleUnits(units)[u.id] == u
    ensures forall id <- VisibleUnits(units) :: VisibleUnits(units)[id].id == id && VisibleUnits(units)[id] in units
  {
    if units != [] {
      var front, last := units[..|units| - 1], units[|units| - 1];
      VisibleUnitsAre(front);
      assert units == front + [last];
      forall u | u in front
        ensures u.id != last.id
      {
      }
    }
  }

  /** Which units are visible does not depend on their order. */
  lemma VisibleUnitsOrderFree(units: seq<Unit>, units': seq<Unit>)
    requires DistinctUnits(units) && DistinctUnits(units') && multiset(units) == multiset(units')
    ensures VisibleUnits(units) == VisibleUnits(units')
  {
    VisibleUnitsAre(units);
    VisibleUnitsAre(units');
    assert forall u :: u in units <==> u in multiset(units);
    assert forall u :: u in units' <==> u in multiset(units');
  }

  // --------------------------------------------------------------- adjacency

  predicate Eligible(r: Relation, opts: Options) {
    && (r.status == Active || r.status == Conflicted)
    && (opts.kinds == {} || r.kind in opts.kinds)
    && !(opts.excludeConflicts && r.kind == Contradicts)
  }

  /** The steps out of u that one relation offers. */
  function StepsOf(r: Relation, u: Id, opts: Options): seq<Step> {
    if !Eligible(r, opts) then []
    else
      (if opts.direction != In && r.subjectUnit == u then [Step(r, r.objectUnit)] else []) +
      (if opts.direction != Out && r.objectUnit == u then [Step(r, r.subjectUnit)] else [])
  }

  /** The steps out of u in relation order. */
  function Unsorted(relations: seq<Relation>, u: Id, opts: Options): seq<Step> {
    if relations == [] then []
    else Unsorted(relations[..|relations| - 1], u, opts) + StepsOf(relations[|relations| - 1], u, opts)
  }

  predicate Sorted(steps: seq<Step>) {
    forall i, j :: 0 <= i <= j < |steps| ==> steps[i].relation.id <= steps[j].relation.id
  }

  function Insert(step: Step, steps: seq<Step>): seq<Step> {
    if steps == [] || step.relation.id <= steps[0].relation.id then [step] + steps
    else [steps[0]] + Insert(step, steps[1..])
  }

  /** The steps by relation id. */
  function Sort(steps: seq<Step>): seq<Step> {
    if steps == [] then [] else Insert(steps[0], Sort(steps[1..]))
  }

  lemma {:induction false} InsertKeepsSteps(step: Step, steps: seq<Step>)
    ensures multiset(Insert(step, steps)) == multiset{step} + multiset(steps)
  {
    if steps != [] {
      assert steps == [steps[0]] + steps[1..];
      if step.relation.id > steps[0].relation.id {
        InsertKeepsSteps(step, steps[1..]);
      }
    }
  }

  lemma {:induction false} InsertSorts(step: Step, steps: seq<Step>)
    requires Sorted(steps)
    ensures Sorted(Insert(step, steps))
  {
    if steps != [] && step.relation.id > steps[0].relation.id {
      var rest := Insert(step, steps[1..]);
      InsertSorts(step, steps[1..]);
      InsertKeepsSteps(step, steps[1..]);
      forall i | 0 <= i < |rest|
        ensures steps[0].relation.id <= rest[i].relation.id
      {
        assert rest[i] in multiset(rest);
        assert rest[i] == step || rest[i] in steps[1..];
      }
    }
  }

  lemma {:induction false} SortSorts(steps: seq<Step>)
    ensures Sorted(Sort(steps)) && multiset(Sort(steps)) == multiset(steps)
  {
    if steps != [] {
      SortSorts(steps[1..]);
      InsertSorts(steps[0], Sort(steps[1..]));
      InsertKeepsSteps(steps[0], Sort(steps[1..]));
      assert steps == [steps[0]] + steps[1..];
    }
  }

  /** Steps with one relation id are one step. */
  predicate IdsTellSteps(steps: seq<Step>) {
    forall s <- steps, t <- steps :: s.relation.id == t.relation.id ==> s == t
  }

  /** So there is one way to sort them, whatever sorting algorithm is used. */
  lemma {:induction false} SortedIsUnique(a: seq<Step>, b: seq<Step>)
    requires Sorted(a) && Sorted(b) && multiset(a) == multiset(b) && IdsTellSteps(a)
    ensures a == b
  {
    assert |a| == |multiset(a)| == |multiset(b)| == |b|;
    if a != [] {
      SameHead(a, b);
      SortedTail(a);
      SortedTail(b);
      hide Sorted, IdsTellSteps;
      SortedIsUnique(a[1..], b[1..]);
    }
  }

  lemma SortedTail(a: seq<Step>)
    requires Sorted(a) && a != []
    ensures Sorted(a[1..]) && multiset(a[1..]) == multiset(a) - multiset{a[0]}
    ensures IdsTellSteps(a) ==> IdsTellSteps(a[1..])
  {
    assert a == [a[0]] + a[1..];
    assert forall st <- a[1..] :: st in a;
  }

  lemma SameHead(a: seq<Step>, b: seq<Step>)
    requires Sorted(a) && Sorted(b) && multiset(a) == multiset(b) && IdsTellSteps(a)
    requires a != [] && b != []
    ensures a[0] == b[0]
  {
    assert a[0] in multiset(b) && b[0] in multiset(a);
    var i :| 0 <= i < |b| && b[i] == a[0];
    var j :| 0 <= j < |a| && a[j] == b[0];
    assert b[0].relation.id <= b[i].relation.id && a[0].relation.id <= a[j].relation.id;
  }

  predicate DistinctRelations(relations: seq<Relation>) {
    forall i, j :: 0 <= i < j < |relations| ==> relations[i].id != relations[j].id
  }

  lemma {:induction false} UnsortedSteps(relations: seq<Relation>, u: Id, opts: Options)
    ensures forall st: Step :: st in Unsorted(relations, u, opts) <==>
      st.relation in relations && st in StepsOf(st.relation, u, opts)
  {
    if relations != [] {
      var front, last := relations[..|relations| - 1], relations[|relations| - 1];
      UnsortedSteps(front, u, opts);
      assert relations == front + [last];
    }
  }

  lemma SameIdSameRelation(relations: seq<Relation>, r: Relation, q: Relation)
    requires DistinctRelations(relations) && r in relations && q in relations && r.id == q.id
    ensures r == q
  {
    var i :| 0 <= i < |relations| && relations[i] == r;
    var j :| 0 <= j < |relations| && relations[j] == q;
    assert !(i < j) && !(j < i);
  }

  lemma StepOfIsTold(u: Id, opts: Options, s: Step, t: Step)
    requires s.relation == t.relation && s in StepsOf(s.relation, u, opts) && t in StepsOf(t.relation, u, opts)
    ensures s == t
  {
    hide Eligible;
  }

  /** At one unit a relation offers one step, or the same self-loop twice. */
  lemma StepsAreTold(relations: seq<Relation>, u: Id, opts: Options)
    requires DistinctRelations(relations)
    ensures IdsTellSteps(Unsorted(relations, u, opts))
  {
    UnsortedSteps(relations, u, opts);
    hide Unsorted, StepsOf, DistinctRelations;
    var all := Unsorted(relations, u, opts);
    forall s, t | s in all && t in all && s.relation.id == t.relation.id
      ensures s == t
    {
      SameIdSameRelation(relations, s.relation, t.relation);
      StepOfIsTold(u, opts, s, t);
    }
  }

  lemma {:induction false} UnsortedOfSplit(a: seq<Relation>, r: Relation, b: seq<Relation>, u: Id, opts: Options)
    ensures multiset(Unsorted(a + [r] + b, u, opts)) ==
      multiset(Unsorted(a + b, u, opts)) + multiset(StepsOf(r, u, opts))
    decreases |b|
  {
    hide StepsOf;
    if b == [] {
      assert (a + [r] + b)[..|a|] == a && a + b == a && (a + [r] + b)[|a|] == r;
    } else {
      var front, last := b[..|b| - 1], b[|b| - 1];
      UnsortedOfSplit(a, r, front, u, opts);
      assert (a + [r] + b)[..|a| + |b|] == a + [r] + front;
      assert (a + b)[..|a| + |b| - 1] == a + front;
    }
  }

  lemma TakeOut(relations: seq<Relation>, r: Relation) returns (a: seq<Relation>, b: seq<Relation>)
    requires r in multiset(relations)
    ensures relations == a + [r] + b && multiset(a + b) == multiset(relations) - multiset{r}
  {
    var k :| 0 <= k < |relations| && relations[k] == r;
    a, b := relations[..k], relations[k + 1..];
    assert relations == a + [r] + b;
  }

  lemma {:induction false} UnsortedOrderFree(relations: seq<Relation>, relations': seq<Relation>, u: Id, opts: Options)
    requires multiset(relations) == multiset(relations')
    ensures multiset(Unsorted(relations, u, opts)) == multiset(Unsorted(relations', u, opts))
  {
    hide StepsOf;
    assert |relations| == |multiset(relations)| == |multiset(relations')| == |relations'|;
    if relations != [] {
      var front, last := relations[..|relations| - 1], relations[|relations| - 1];
      assert relations == front + [last];
      assert multiset(relations) == multiset(front) + multiset{last};
      var a, b := TakeOut(relations', last);
      UnsortedOrderFree(front, a + b, u, opts);
      UnsortedOfSplit(a, last, b, u, opts);
    }
  }

  /** The units that have steps out of them. */
  function Sources(relations: seq<Relation>, opts: Options): set<Id> {
    (set r <- relations | Eligible(r, opts) && opts.direction != In :: r.subjectUnit) +
    (set r <- relations | Eligible(r, opts) && opts.direction != Out :: r.objectUnit)
  }

  function Adjacency(relations: seq<Relation>, opts: Options): map<Id, seq<Step>> {
    map u | u in Sources(relations, opts) :: Sort(Unsorted(relations, u, opts))
  }

  lemma SortOrderFree(relations: seq<Relation>, relations': seq<Relation>, u: Id, opts: Options)
    requires DistinctRelations(relations) && multiset(relations) == multiset(relations')
    ensures Sort(Unsorted(relations, u, opts)) == Sort(Unsorted(relations', u, opts))
  {
    hide Sort, Unsorted, DistinctRelations;
    var a, b := Unsorted(relations, u, opts), Unsorted(relations', u, opts);
    UnsortedOrderFree(relations, relations', u, opts);
    StepsAreTold(relations, u, opts);
    SortSorts(a);
    SortSorts(b);
    assert forall st :: st in Sort(a) ==> st in multiset(Sort(a)) && st in multiset(a);
    SortedIsUnique(Sort(a), Sort(b));
  }

  lemma SourcesOrderFree(relations: seq<Relation>, relations': seq<Relation>, opts: Options)
    requires multiset(relations) == multiset(relations')
    ensures Sources(relations, opts) == Sources(relations', opts)
  {
    hide Eligible;
    assert forall r :: r in relations <==> r in multiset(relations);
    assert forall r :: r in relations' <==> r in multiset(relations');
  }

  lemma AdjacencyOrderFree(relations: seq<Relation>, relations': seq<Relation>, opts: Options)
    requires DistinctRelations(relations) && multiset(relations) == multiset(relations')
    ensures Adjacency(relations, opts) == Adjacency(relations', opts)
  {
    hide Sources, Sort, Unsorted, DistinctRelations;
    SourcesOrderFree(relations, relations', opts);
    forall u | u in Sources(relations, opts)
      ensures Sort(Unsorted(relations, u, opts)) == Sort(Unsorted(relations', u, opts))
    {
      SortOrderFree(relations, relations', u, opts);
    }
  }

  // ------------------------------------------------------------------ seeds

  /** The visible hits, in activation order, up to the node cap. */
  function PickSeeds(hits: seq<Hit>, visible: set<Id>, room: nat): (seq<Hit>, bool) {
    if hits == [] then ([], false)
    else if hits[0].unit !in visible then PickSeeds(hits[1..], visible, room)
    else if room == 0 then ([], true)
    else
      var (seeds, truncated) := PickSeeds(hits[1..], visible, room - 1);
      ([hits[0]] + seeds, truncated)
  }

  function Ids(hits: seq<Hit>): seq<Id> { seq(|hits|, i requires 0 <= i < |hits| => hits[i].unit) }

  lemma {:induction false} SeedsAreHits(hits: seq<Hit>, visible: set<Id>, room: nat)
    ensures var (seeds, truncated) := PickSeeds(hits, visible, room);
      && |seeds| <= room && (truncated ==> |seeds| == room)
      && (forall h: Hit :: h in seeds ==> h in hits && h.unit in visible)
      && (!truncated ==> forall h: Hit :: h in hits && h.unit in visible ==> h in seeds)
  {
    if hits != [] {
      assert hits == [hits[0]] + hits[1..];
      SeedsAreHits(hits[1..], visible, if hits[0].unit in visible && room > 0 then room - 1 else room);
    }
  }

  lemma {:induction false} IdsAre(hits: seq<Hit>)
    ensures forall u: Id :: u in SetOf(Ids(hits)) <==> exists h <- hits :: h.unit == u
    ensures |SetOf(Ids(hits))| <= |hits|
  {
    if hits == [] {
      assert SetOf(Ids(hits)) == {};
    } else {
      IdsAre(hits[1..]);
      assert hits == [hits[0]] + hits[1..];
      assert Ids(hits) == [hits[0].unit] + Ids(hits[1..]);
      assert SetOf(Ids(hits)) == {hits[0].unit} + SetOf(Ids(hits[1..]));
    }
  }

  /** The seeds are visible hits, all of them unless the node cap cut them. */
  lemma SeedsAreVisible(hits: seq<Hit>, visible: set<Id>, room: nat)
    ensures var (seeds, truncated) := PickSeeds(hits, visible, room);
      && SetOf(Ids(seeds)) <= visible && |SetOf(Ids(seeds))| <= room
      && (truncated ==> |seeds| == room)
      && (!truncated ==> forall h <- hits :: h.unit in visible ==> h.unit in SetOf(Ids(seeds)))
  {
    SeedsAreHits(hits, visible, room);
    IdsAre(PickSeeds(hits, visible, room).0);
    hide Ids, PickSeeds, SetOf;
  }

  // ----------------------------------------------------------------- output

  /** Nearer first; ids in order at one distance. */
  predicate Precedes(rank: map<Id, nat>, a: Id, b: Id)
    requires a in rank && b in rank
  {
    rank[a] < rank[b] || (rank[a] == rank[b] && a <= b)
  }

  lemma PrecedesIsTotal(rank: map<Id, nat>, a: Id, b: Id, s: set<Id>)
    requires a in rank && b in rank && s <= rank.Keys
    ensures Precedes(rank, a, a) && (Precedes(rank, a, b) || Precedes(rank, b, a))
    ensures Precedes(rank, a, b) ==> forall y <- s :: Precedes(rank, b, y) ==> Precedes(rank, a, y)
  {
  }

  lemma {:induction false} FirstExists(s: set<Id>, rank: map<Id, nat>)
    requires s != {} && s <= rank.Keys
    ensures exists x <- s :: forall y <- s :: Precedes(rank, x, y)
    decreases |s|
  {
    var x :| x in s;
    var rest := s - {x};
    assert s == rest + {x};
    var z := x;
    if rest != {} {
      FirstExists(rest, rank);
      z :| z in rest && forall y <- rest :: Precedes(rank, z, y);
    }
    PrecedesIsTotal(rank, x, z, rest);
    hide Precedes;
    var first := if Precedes(rank, x, z) then x else z;
    assert forall y <- s :: y == x || y in rest;
    assert first in s && forall y <- s :: Precedes(rank, first, y);
  }

  function First(s: set<Id>, rank: map<Id, nat>): (x: Id)
    requires s != {} && s <= rank.Keys
    ensures x in s && forall y <- s :: Precedes(rank, x, y)
  {
    FirstExists(s, rank);
    var x :| x in s && forall y <- s :: Precedes(rank, x, y);
    x
  }

  /** A set of ids as the source sorts them: each once, in order. */
  function OrderBy(s: set<Id>, rank: map<Id, nat>): (r: seq<Id>)
    requires s <= rank.Keys
    ensures SetOf(r) == s
    decreases |s|
  {
    if s == {} then []
    else
      var x := First(s, rank);
      var rest := OrderBy(s - {x}, rank);
      assert SetOf([x] + rest) == {x} + SetOf(rest);
      [x] + rest
  }

  /** Each id once, nearer ones first, ids ascending at one distance. */
  predicate InOrder(ids: seq<Id>, rank: map<Id, nat>) {
    && (forall i :: 0 <= i < |ids| ==> ids[i] in rank)
    && (forall i, j :: 0 <= i < j < |ids| ==> ids[i] != ids[j] && Precedes(rank, ids[i], ids[j]))
  }

  lemma {:induction false} OrderByOrders(s: set<Id>, rank: map<Id, nat>)
    requires s <= rank.Keys
    ensures InOrder(OrderBy(s, rank), rank)
    decreases |s|
  {
    if s != {} {
      var x := First(s, rank);
      var rest := OrderBy(s - {x}, rank);
      OrderByOrders(s - {x}, rank);
      forall y | y in rest
        ensures y in rank && y != x && Precedes(rank, x, y)
      {
        assert y in SetOf(rest);
        assert y in s;
      }
      ConsInOrder(x, rest, rank);
    }
  }

  lemma ConsInOrder(x: Id, rest: seq<Id>, rank: map<Id, nat>)
    requires x in rank && InOrder(rest, rank)
    requires forall y <- rest :: y in rank && y != x && Precedes(rank, x, y)
    ensures InOrder([x] + rest, rank)
  {
    var r := [x] + rest;
    forall i, j | 0 <= i < j < |r|
      ensures r[i] in rank && r[j] in rank && r[i] != r[j] && Precedes(rank, r[i], r[j])
    {
      assert r[j] == rest[j - 1] && rest[j - 1] in rest;
      if i > 0 {
        assert r[i] == rest[i - 1];
      }
    }
  }

  function NodesOf(walk: Walk, visible: map<Id, Unit>): seq<Node>
    requires walk.hops.Keys <= visible.Keys
  {
    var ids := OrderBy(walk.hops.Keys, walk.hops);
    seq(|ids|, i requires 0 <= i < |ids| =>
      assert ids[i] in SetOf(ids);
      Node(visible[ids[i]], walk.hops[ids[i]], walk.hops[ids[i]] == 0))
  }

  function EdgesOf(walk: Walk): seq<Edge> {
    var ids := OrderBy(walk.edges.Keys, map e | e in walk.edges :: 0);
    seq(|ids|, i requires 0 <= i < |ids| =>
      assert ids[i] in SetOf(ids);
      var relation := walk.edges[ids[i]];
      Edge(relation, relation.sources != [], relation.kind == Contradicts))
  }

  function PathsFrom(w: World, b: Bounds, walk: Walk, seeds: set<Id>, ids: seq<Id>): seq<Path>
    requires Rooted(w, b, walk, seeds) && forall id <- ids :: id in walk.hops
  {
    if ids == [] then []
    else if walk.hops[ids[0]] == 0 then PathsFrom(w, b, walk, seeds, ids[1..])
    else
      var (root, chain) := Chain(w, b, walk, seeds, ids[0]);
      [Path(root, ids[0], walk.hops[ids[0]], chain)] + PathsFrom(w, b, walk, seeds, ids[1..])
  }

  function Built(units: seq<Unit>, relations: seq<Relation>, hits: seq<Hit>, opts: Options): Graph {
    var visible := VisibleUnits(units);
    var (seeds, cut) := PickSeeds(hits, visible.Keys, opts.bounds.maxNodes);
    if seeds == [] then Graph([], [], [], [], cut)
    else
      var w, b := World(visible.Keys, Adjacency(relations, opts)), opts.bounds;
      var walk := Explored(w, b, Ids(seeds), cut);
      SeedsAreVisible(hits, visible.Keys, b.maxNodes);
      ExploredIsRooted(w, b, Ids(seeds), cut);
      var order := OrderBy(walk.hops.Keys, walk.hops);
      assert forall id <- order :: id in SetOf(order);
      Graph(seeds, NodesOf(walk, visible), EdgesOf(walk),
            PathsFrom(w, b, walk, SetOf(Ids(seeds)), order), walk.truncated)
  }

  // ------------------------------------------------------------ the methods

  method SelectSeeds(hits: seq<Hit>, visible: set<Id>, maxNodes: nat) returns (seeds: seq<Hit>, truncated: bool)
    ensures seeds == PickSeeds(hits, visible, maxNodes).0 && truncated == PickSeeds(hits, visible, maxNodes).1
  {
    seeds, truncated := [], false;
    for i := 0 to |hits|
      invariant |seeds| <= maxNodes
      invariant seeds + PickSeeds(hits[i..], visible, maxNodes - |seeds|).0 == PickSeeds(hits, visible, maxNodes).0
      invariant PickSeeds(hits[i..], visible, maxNodes - |seeds|).1 == PickSeeds(hits, visible, maxNodes).1
    {
      assert hits[i..][0] == hits[i] && hits[i..][1..] == hits[i + 1..];
      if hits[i].unit !in visible {
        continue;
      }
      if |seeds| >= maxNodes {
        truncated := true;
        return;
      }
      seeds := seeds + [hits[i]];
    }
  }

  function StepsAt(adjacency: map<Id, seq<Step>>, u: Id): seq<Step> { if u in adjacency then adjacency[u] else [] }

  function AddStep(adjacency: map<Id, seq<Step>>, u: Id, step: Step): map<Id, seq<Step>> {
    adjacency[u := StepsAt(adjacency, u) + [step]]
  }

  function AddRelation(adjacency: map<Id, seq<Step>>, r: Relation, opts: Options): map<Id, seq<Step>> {
    if !Eligible(r, opts) then adjacency
    else
      var out := if opts.direction != In then AddStep(adjacency, r.subjectUnit, Step(r, r.objectUnit)) else adjacency;
      if opts.direction != Out then AddStep(out, r.objectUnit, Step(r, r.subjectUnit)) else out
  }

  /** The map holds exactly the unsorted steps of the given relations. */
  predicate Holds(adjacency: map<Id, seq<Step>>, relations: seq<Relation>, opts: Options) {
    && adjacency.Keys == Sources(relations, opts)
    && forall u <- adjacency :: adjacency[u] == Unsorted(relations, u, opts)
  }

  lemma AddRelationAdds(adjacency: map<Id, seq<Step>>, r: Relation, opts: Options, u: Id)
    ensures StepsAt(AddRelation(adjacency, r, opts), u) == StepsAt(adjacency, u) + StepsOf(r, u, opts)
  {
    hide Eligible;
  }

  lemma NoSourceNoSteps(relations: seq<Relation>, u: Id, opts: Options)
    requires u !in Sources(relations, opts)
    ensures Unsorted(relations, u, opts) == []
  {
    UnsortedSteps(relations, u, opts);
  }

  lemma SourcesAppend(front: seq<Relation>, r: Relation, opts: Options)
    ensures Sources(front + [r], opts) == Sources(front, opts) +
      (if Eligible(r, opts) && opts.direction != In then {r.subjectUnit} else {}) +
      (if Eligible(r, opts) && opts.direction != Out then {r.objectUnit} else {})
  {
    var all := front + [r];
    assert forall x :: x in all <==> x in front || x == r;
  }

  lemma AddRelationKeys(adjacency: map<Id, seq<Step>>, front: seq<Relation>, r: Relation, opts: Options)
    requires adjacency.Keys == Sources(front, opts)
    ensures AddRelation(adjacency, r, opts).Keys == Sources(front + [r], opts)
  {
    SourcesAppend(front, r, opts);
    hide Sources, Eligible;
  }

  lemma AddRelationHolds(adjacency: map<Id, seq<Step>>, front: seq<Relation>, r: Relation, opts: Options)
    requires Holds(adjacency, front, opts)
    ensures Holds(AddRelation(adjacency, r, opts), front + [r], opts)
  {
    hide Sources, AddRelation, StepsOf;
    AddRelationKeys(adjacency, front, r, opts);
    assert (front + [r])[..|front|] == front;
    var after := AddRelation(adjacency, r, opts);
    forall u | u in after
      ensures after[u] == Unsorted(front + [r], u, opts)
    {
      AddRelationAdds(adjacency, r, opts, u);
      if u !in adjacency {
        NoSourceNoSteps(front, u, opts);
      }
    }
  }

  method BuildAdjacency(relations: seq<Relation>, opts: Options) returns (adjacency: map<Id, seq<Step>>)
    ensures adjacency == Adjacency(relations, opts)
  {
    var steps: map<Id, seq<Step>> := map[];
    assert Holds(steps, [], opts);
    hide Holds, Eligible, Sort, AddStep;
    for i := 0 to |relations|
      invariant Holds(steps, relations[..i], opts)
    {
      var r := relations[i];
      assert relations[..i + 1] == relations[..i] + [r];
      AddRelationHolds(steps, relations[..i], r, opts);
      if !Eligible(r, opts) {
        continue;
      }
      if opts.direction != In {
        steps := AddStep(steps, r.subjectUnit, Step(r, r.objectUnit));
      }
      if opts.direction != Out {
        steps := AddStep(steps, r.objectUnit, Step(r, r.subjectUnit));
      }
    }
    assert relations[..|relations|] == relations;
    HeldIsAdjacency(steps, relations, opts);
    adjacency := map u | u in steps :: Sort(steps[u]);
  }

  lemma HeldIsAdjacency(steps: map<Id, seq<Step>>, relations: seq<Relation>, opts: Options)
    requires Holds(steps, relations, opts)
    ensures (map u | u in steps :: Sort(steps[u])) == Adjacency(relations, opts)
  {
  }

  /** The candidate loop of one unit. */
  method ScanUnit(w: World, b: Bounds, current: Id, hop: nat, before: Walk) returns (walk: Walk)
    ensures walk == VisitSteps(w, b, w.Steps(current), 0, current, hop, before)
  {
    hide Record, Discover;
    walk := before;
    var candidates := w.Steps(current);
    var discovered := 0;
    for i := 0 to |candidates|
      invariant VisitSteps(w, b, candidates[i..], discovered, current, hop, walk)
                == VisitSteps(w, b, candidates, 0, current, hop, before)
    {
      var candidate := candidates[i];
      assert candidates[i..][0] == candidate && candidates[i..][1..] == candidates[i + 1..];
      if discovered >= b.fanOut {
        walk := walk.(truncated := true);
        return;
      }
      var neighbor := candidate.to;
      if neighbor !in w.visible {
        continue;
      }
      var visited := neighbor in walk.hops;
      var full := |walk.hops| >= b.maxNodes;
      walk := Record(walk, candidate.relation);
      if visited {
        continue;
      }
      if full {
        walk := walk.(truncated := true);
        return;
      }
      walk := Discover(walk, current, candidate, hop);
      discovered := discovered + 1;
    }
  }

  /** The level loop: hop by hop, unit by unit, stopping a level at the node cap. */
  method WalkGraph(w: World, b: Bounds, seeds: seq<Id>, truncated: bool) returns (walk: Walk)
    ensures walk == Explored(w, b, seeds, truncated)
  {
    hide VisitSteps;
    walk := Start(seeds, truncated);
    var frontier, hop := seeds, 1;
    while hop <= b.maxHops && |frontier| > 0
      invariant VisitLevels(w, b, hop, frontier, walk) == Explored(w, b, seeds, truncated)
      decreases b.maxHops + 1 - hop
    {
      ghost var expected := VisitFrontier(w, b, frontier, hop, walk.(next := []));
      walk := walk.(next := []);
      var i := 0;
      while i < |frontier|
        invariant 0 <= i <= |frontier|
        invariant VisitFrontier(w, b, frontier[i..], hop, walk) == expected
      {
        assert frontier[i..][0] == frontier[i] && frontier[i..][1..] == frontier[i + 1..];
        walk := ScanUnit(w, b, frontier[i], hop, walk);
        i := i + 1;
        if |walk.hops| >= b.maxNodes {
          break;
        }
      }
      frontier := walk.next;
      hop := hop + 1;
    }
  }

  /** Follows the parents up and reverses the chain. */
  method PathTo(w: World, b: Bounds, walk: Walk, ghost seeds: set<Id>, id: Id) returns (root: Id, chain: seq<Id>)
    requires Rooted(w, b, walk, seeds) && id in walk.hops
    ensures root == Chain(w, b, walk, seeds, id).0 && chain == Chain(w, b, walk, seeds, id).1
  {
    chain := [];
    var cursor := id;
    while walk.hops[cursor] > 0
      invariant cursor in walk.hops
      invariant Chain(w, b, walk, seeds, id).0 == Chain(w, b, walk, seeds, cursor).0
      invariant Chain(w, b, walk, seeds, id).1 == Chain(w, b, walk, seeds, cursor).1 + Reversed(chain)
      decreases walk.hops[cursor]
    {
      ReversedAppend(chain, walk.parentEdge[cursor]);
      chain := chain + [walk.parentEdge[cursor]];
      cursor := walk.parentUnit[cursor];
    }
    root := cursor;
    chain := Reverse(chain);
  }

  method CollectPaths(w: World, b: Bounds, walk: Walk, ghost seeds: set<Id>, ids: seq<Id>) returns (paths: seq<Path>)
    requires Rooted(w, b, walk, seeds) && forall id <- ids :: id in walk.hops
    ensures paths == PathsFrom(w, b, walk, seeds, ids)
  {
    hide Rooted, Chain;
    paths := [];
    for i := 0 to |ids|
      invariant paths + PathsFrom(w, b, walk, seeds, ids[i..]) == PathsFrom(w, b, walk, seeds, ids)
    {
      assert ids[i..][0] == ids[i] && ids[i..][1..] == ids[i + 1..];
      if walk.hops[ids[i]] == 0 {
        continue;
      }
      var root, chain := PathTo(w, b, walk, seeds, ids[i]);
      paths := paths + [Path(root, ids[i], walk.hops[ids[i]], chain)];
    }
  }

  method LoadVisible(units: seq<Unit>) returns (visible: map<Id, Unit>)
    ensures visible == VisibleUnits(units)
  {
    visible := map[];
    for i := 0 to |units|
      invariant visible == VisibleUnits(units[..i])
    {
      assert units[..i + 1][..i] == units[..i];
      if units[i].visible {
        visible := visible[units[i].id := units[i]];
      }
    }
    assert units[..|units|] == units;
  }

  method BuildGraph(units: seq<Unit>, relations: seq<Relation>, hits: seq<Hit>, opts: Options) returns (graph: Graph)
    ensures graph == Built(units, relations, hits, opts)
  {
    hide Explored, Adjacency, PickSeeds, VisibleUnits, PathsFrom, OrderBy, EdgesOf, NodesOf, Rooted;
    var visible := LoadVisible(units);
    var seeds, cut := SelectSeeds(hits, visible.Keys, opts.bounds.maxNodes);
    if seeds == [] {
      return Graph([], [], [], [], cut);
    }
    var adjacency := BuildAdjacency(relations, opts);
    var w, b := World(visible.Keys, adjacency), opts.bounds;
    var walk := WalkGraph(w, b, Ids(seeds), cut);
    SeedsAreVisible(hits, visible.Keys, b.maxNodes);
    ExploredIsRooted(w, b, Ids(seeds), cut);
    RootedNodesAreVisible(w, b, walk, SetOf(Ids(seeds)));
    var order := OrderBy(walk.hops.Keys, walk.hops);
    assert forall id <- order :: id in SetOf(order);
    var paths := CollectPaths(w, b, walk, SetOf(Ids(seeds)), order);
    graph := Graph(seeds, NodesOf(walk, visible), EdgesOf(walk), paths, walk.truncated);
  }

  lemma RootedNodesAreVisible(w: World, b: Bounds, walk: Walk, seeds: set<Id>)
    requires Rooted(w, b, walk, seeds)
    ensures walk.hops.Keys <= w.visible && |walk.hops| <= b.maxNodes
  {
  }
}
