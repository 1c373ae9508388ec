/** What a graph shows, said of the units, relations and hits alone: which hits are its seeds, which
    relations are its edges, and why anything within reach is missing from it. */
module GraphLaws {
  import opened Text
  import opened Traversal
  import opened Exactness
  import opened FanOut
  import opened Explore
  import opened ExploreLaws

  // ------------------------------------------------------------------- the seeds

  predicate IsVisible(units: seq<Unit>, id: Id) { exists u <- units :: u.id == id && u.visible }

  lemma {:induction false} VisibleIsListed(units: seq<Unit>, id: Id)
    ensures id in VisibleUnits(units) <==> IsVisible(units, id)
  {
    if units != [] {
      var front, last := units[..|units| - 1], units[|units| - 1];
      VisibleIsListed(front, id);
      assert units == front + [last];
      assert forall u :: u in units <==> u in front || u == last;
    }
  }

  /** How many of the first k hits are visible. */
  function Rank(units: seq<Unit>, hits: seq<Hit>, k: nat): nat
    requires k <= |hits|
  {
    if k == 0 then 0 else Rank(units, hits, k - 1) + if IsVisible(units, hits[k - 1].unit) then 1 else 0
  }

  lemma {:induction false} RankOfRest(units: seq<Unit>, hits: seq<Hit>, k: nat)
    requires 0 < k <= |hits|
    ensures Rank(units, hits, k) == (if IsVisible(units, hits[0].unit) then 1 else 0) + Rank(units, hits[1..], k - 1)
  {
    hide IsVisible;
    if k > 1 {
      RankOfRest(units, hits, k - 1);
    }
  }

  /** The seeds picked from these hits into that much room. */
  ghost predicate ArePicked(seeds: seq<Hit>, cut: bool, units: seq<Unit>, hits: seq<Hit>, room: nat) {
    && |seeds| == Min(room, Rank(units, hits, |hits|))
    && (cut <==> Rank(units, hits, |hits|) > room)
    && forall k :: 0 <= k < |hits| && IsVisible(units, hits[k].unit) && Rank(units, hits, k) < room ==>
         Rank(units, hits, k) < |seeds| && seeds[Rank(units, hits, k)] == hits[k]
  }

  lemma {:induction false} PickedAre(units: seq<Unit>, hits: seq<Hit>, room: nat)
    ensures var (seeds, cut) := PickSeeds(hits, VisibleUnits(units).Keys, room);
      ArePicked(seeds, cut, units, hits, room)
  {
    hide VisibleUnits, IsVisible;
    var visible := VisibleUnits(units).Keys;
    if hits != [] {
      var rest := hits[1..];
      VisibleIsListed(units, hits[0].unit);
      forall k | 0 < k <= |hits|
        ensures Rank(units, hits, k) ==
          (if IsVisible(units, hits[0].unit) then 1 else 0) + Rank(units, rest, k - 1)
      {
        RankOfRest(units, hits, k);
      }
      var less := if hits[0].unit in visible && room > 0 then room - 1 else room;
      PickedAre(units, rest, less);
      var (seeds, cut) := PickSeeds(hits, visible, room);
      var (later, cutLater) := PickSeeds(rest, visible, less);
      forall k | 0 <= k < |hits| && IsVisible(units, hits[k].unit) && Rank(units, hits, k) < room
        ensures Rank(units, hits, k) < |seeds| && seeds[Rank(units, hits, k)] == hits[k]
      {
        if k > 0 {
          assert rest[k - 1] == hits[k];
        }
      }
    }
  }

  lemma {:induction false} RankGrows(units: seq<Unit>, hits: seq<Hit>, j: nat, k: nat)
    requires j <= k <= |hits|
    ensures Rank(units, hits, j) <= Rank(units, hits, k)
    ensures j < k && IsVisible(units, hits[j].unit) ==> Rank(units, hits, j) < Rank(units, hits, k)
    decreases k
  {
    hide IsVisible;
    if j < k {
      RankGrows(units, hits, j, k - 1);
    }
  }

  lemma {:induction false} PlaceOf(units: seq<Unit>, hits: seq<Hit>, n: nat, i: nat) returns (k: nat)
    requires n <= |hits| && i < Rank(units, hits, n)
    ensures k < n && IsVisible(units, hits[k].unit) && Rank(units, hits, k) == i
  {
    hide IsVisible;
    if i < Rank(units, hits, n - 1) {
      k := PlaceOf(units, hits, n - 1, i);
    } else {
      k := n - 1;
    }
  }

  /** The places among the hits of the first so many visible ones. */
  ghost predicate ArePlaces(at: seq<nat>, units: seq<Unit>, hits: seq<Hit>) {
    && (forall i :: 0 <= i < |at| ==>
          at[i] < |hits| && IsVisible(units, hits[at[i]].unit) && Rank(units, hits, at[i]) == i)
    && (forall i, j :: 0 <= i < j < |at| ==> at[i] < at[j])
  }

  lemma {:induction false} Places(units: seq<Unit>, hits: seq<Hit>, n: nat) returns (at: seq<nat>)
    requires n <= Rank(units, hits, |hits|)
    ensures |at| == n && ArePlaces(at, units, hits)
  {
    hide IsVisible;
    if n == 0 {
      at := [];
    } else {
      var front := Places(units, hits, n - 1);
      var k := PlaceOf(units, hits, |hits|, n - 1);
      at := front + [k];
      forall i | 0 <= i < n - 1
        ensures front[i] < k
      {
        if front[i] >= k {
          RankGrows(units, hits, k, front[i]);
        }
      }
    }
  }

  lemma SeedsArePicked(units: seq<Unit>, relations: seq<Relation>, hits: seq<Hit>, opts: Options)
    ensures var g := Built(units, relations, hits, opts);
      var (seeds, cut) := PickSeeds(hits, VisibleUnits(units).Keys, opts.bounds.maxNodes);
      g.seeds == seeds && (cut ==> g.truncated)
  {
    var w, b := WorldOf(units, relations, opts), opts.bounds;
    var (seeds, cut) := PickSeeds(hits, w.visible, b.maxNodes);
    LevelsExtend(w, b, 1, Ids(seeds), Start(Ids(seeds), cut));
    hide VisibleUnits, PickSeeds, Adjacency, NodesOf, EdgesOf, PathsFrom, OrderBy, VisitLevels;
  }

  /** The seeds of every graph are the first maxNodes of the visible hits, in the order of the hits and with
      their scores; when there are more of them, the graph says that it is cut. */
  lemma SeedsAreTheFirstVisible(units: seq<Unit>, relations: seq<Relation>, hits: seq<Hit>, opts: Options)
    returns (at: seq<nat>)
    ensures var g, all := Built(units, relations, hits, opts), Rank(units, hits, |hits|);
      && |g.seeds| == |at| == Min(opts.bounds.maxNodes, all)
      && ArePlaces(at, units, hits)
      && (forall i :: 0 <= i < |at| ==> at[i] < |hits| && g.seeds[i] == hits[at[i]])
      && (all > opts.bounds.maxNodes ==> g.truncated)
  {
    PickedAre(units, hits, opts.bounds.maxNodes);
    SeedsArePicked(units, relations, hits, opts);
    hide Built, VisibleUnits, PickSeeds, IsVisible, Rank;
    at := Places(units, hits, Min(opts.bounds.maxNodes, Rank(units, hits, |hits|)));
  }

  /** And the units of the seeds are exactly the nodes marked as seeds. */
  lemma SeedsAreTheSeedNodes(units: seq<Unit>, relations: seq<Relation>, hits: seq<Hit>, opts: Options, id: Id)
    requires DistinctUnits(units)
    ensures var g := Built(units, relations, hits, opts);
      (exists h <- g.seeds :: h.unit == id) <==> exists n <- g.nodes :: n.unit.id == id && n.isSeed
  {
    hide SoundNodes, SoundEdges, SoundPaths, Built, PickSeeds, VisibleUnits, Ids;
    var g := Built(units, relations, hits, opts);
    BuiltIsSound(units, relations, hits, opts);
    SeedsArePicked(units, relations, hits, opts);
    IdsAre(g.seeds);
    MarkedAreSeeds(g, units, SetOf(Ids(g.seeds)), opts.bounds, id);
  }

  lemma MarkedAreSeeds(g: Graph, units: seq<Unit>, seeds: set<Id>, b: Bounds, id: Id)
    requires SoundNodes(g, units, seeds, b)
    ensures id in seeds <==> exists n <- g.nodes :: n.unit.id == id && n.isSeed
  {
    hide NodesAscend;
    if id in seeds {
      assert HasNode(g.nodes, id, 0);
      var n :| n in g.nodes && n.unit.id == id && n.hops == 0;
    }
  }

  // ------------------------------------------------------------------- the edges

  /** A relation the request asks for: of a kind it names, if it names any, neither superseded nor deleted,
      and no contradiction when these are to be left out. */
  predicate IsAskedFor(r: Relation, opts: Options) {
    && r.status != Superseded && r.status != Deleted
    && (opts.kinds != {} ==> r.kind in opts.kinds)
    && (opts.excludeConflicts ==> r.kind != Contradicts)
  }

  /** It leads from one unit to another in a direction the request follows. */
  predicate LeadsFrom(r: Relation, u: Id, v: Id, opts: Options) {
    || (opts.direction != In && r.subjectUnit == u && r.objectUnit == v)
    || (opts.direction != Out && r.objectUnit == u && r.subjectUnit == v)
  }

  lemma StepsAreAskedFor(r: Relation, u: Id, v: Id, opts: Options)
    ensures Step(r, v) in StepsOf(r, u, opts) <==> IsAskedFor(r, opts) && LeadsFrom(r, u, v, opts)
    ensures forall st <- StepsOf(r, u, opts) :: st.relation == r
  {
  }

  lemma {:induction false} StepsAtUnit(units: seq<Unit>, relations: seq<Relation>, opts: Options, u: Id, st: Step)
    ensures var steps := WorldOf(units, relations, opts).Steps(u);
      && Sorted(steps)
      && (st in steps <==> st.relation in relations && IsAskedFor(st.relation, opts)
                           && LeadsFrom(st.relation, u, st.to, opts))
  {
    var unsorted := Unsorted(relations, u, opts);
    UnsortedSteps(relations, u, opts);
    SortSorts(unsorted);
    StepsAreAskedFor(st.relation, u, st.to, opts);
    hide Sort, Unsorted, IsAskedFor, LeadsFrom;
    assert st in Sort(unsorted) <==> st in multiset(Sort(unsorted));
    assert st in unsorted <==> st in multiset(unsorted);
    if u !in Sources(relations, opts) {
      NoSourceNoSteps(relations, u, opts);
    }
    hide Sources, StepsOf;
  }

  /** Every edge of every graph is a relation the request asks for, shown with its evidence and as a
      contradiction when it is one, that leads from a node to a visible unit. */
  lemma EdgesAreAskedFor(units: seq<Unit>, relations: seq<Relation>, hits: seq<Hit>, opts: Options, x: Edge)
    requires DistinctUnits(units) && x in Built(units, relations, hits, opts).edges
    ensures x.relation in relations && IsAskedFor(x.relation, opts)
    ensures (x.exact <==> x.relation.sources != []) && (x.conflict <==> x.relation.kind == Contradicts)
    ensures exists n <- Built(units, relations, hits, opts).nodes, v: Id ::
      LeadsFrom(x.relation, n.unit.id, v, opts) && IsVisible(units, v)
  {
    var g := Built(units, relations, hits, opts);
    BuiltIsSound(units, relations, hits, opts);
    hide Built, SoundNodes, SoundPaths, StepsOf, LeadsFrom, IsAskedFor, IsVisible, VisibleUnits, EdgesAscend;
    assert RealEdge(g, units, relations, opts, x);
    var u: Id, h: nat, st: Step :| HasNode(g.nodes, u, h) && st in StepsOf(x.relation, u, opts)
      && st.to in VisibleUnits(units);
    StepsAreAskedFor(x.relation, u, st.to, opts);
    VisibleIsListed(units, st.to);
    var n :| n in g.nodes && n.unit.id == u;
    assert LeadsFrom(x.relation, n.unit.id, st.to, opts);
  }

  /** Below the cap an unflagged graph lists all of them that leave a node nearer than maxHops. */
  lemma AllAskedForAreListed(units: seq<Unit>, relations: seq<Relation>, hits: seq<Hit>, request: Request,
                             opts: Options, r: Relation, n: Node, v: Id)
    requires DistinctUnits(units) && Normalize(request) == Accepted(opts)
    requires !Built(units, relations, hits, opts).truncated
    requires |InReach(units, relations, hits, opts)| < opts.bounds.maxNodes
    requires r in relations && IsAskedFor(r, opts) && LeadsFrom(r, n.unit.id, v, opts) && IsVisible(units, v)
    requires n in Built(units, relations, hits, opts).nodes && n.hops < opts.bounds.maxHops
    ensures HasEdge(Built(units, relations, hits, opts).edges, r.id)
  {
    var g, w, u := Built(units, relations, hits, opts), WorldOf(units, relations, opts), n.unit.id;
    var seeds, last := SetOf(SeedIds(units, hits, opts)), opts.bounds.maxHops - 1;
    hide *;
    VisibleIsInWorld(units, relations, opts, v);
    BuiltIsComplete(units, relations, hits, request, opts);
    NodeIsThere(g.nodes, n);
    RingIsWithin(w, seeds, u, n.hops, last);
    StepsAtUnit(units, relations, opts, u, Step(r, v));
    StepLeaves(w, Within(w, seeds, last), u, Step(r, v));
  }

  lemma VisibleIsInWorld(units: seq<Unit>, relations: seq<Relation>, opts: Options, v: Id)
    ensures v in WorldOf(units, relations, opts).visible <==> IsVisible(units, v)
  {
    VisibleIsListed(units, v);
  }

  lemma NodeIsThere(nodes: seq<Node>, n: Node)
    requires n in nodes
    ensures HasNode(nodes, n.unit.id, n.hops)
  {
  }

  lemma StepLeaves(w: World, units: set<Id>, u: Id, st: Step)
    requires u in units && st in w.Steps(u) && st.to in w.visible
    ensures w.Leaves(units, st.relation.id)
  {
  }

  lemma RingIsWithin(w: World, seeds: set<Id>, u: Id, h: nat, k: nat)
    requires u in Ring(w, seeds, h) && h <= k
    ensures u in Within(w, seeds, k)
  {
    WithinGrows(w, seeds, h, k);
  }

  // ----------------------------------------------------------------- the request

  /** What an accepted request sets: the numbers as given when they are in range, else the default or
      the greatest; the direction as given, outwards unless told; the kinds it names. */
  lemma RequestIsTakenOver(r: Request)
    requires Normalize(r).Accepted?
    ensures var opts := Normalize(r).opts;
      && opts.bounds.maxHops == (if r.maxHops <= 0 then 1 else if r.maxHops >= 4 then 4 else r.maxHops)
      && opts.bounds.maxNodes == (if r.maxNodes <= 0 then 64 else if r.maxNodes >= 256 then 256 else r.maxNodes)
      && opts.bounds.fanOut == (if r.fanOut <= 0 then 16 else if r.fanOut >= 64 then 64 else r.fanOut)
      && (r.direction == Blank ==> opts.direction == Out)
      && (r.direction.Known? ==> opts.direction == r.direction.value)
      && (forall k: RelationType :: k in opts.kinds <==> Known(k) in r.kinds)
      && opts.excludeConflicts == r.excludeConflicts
  {
    assert forall k <- r.kinds :: k.Known?;
  }

  // ------------------------------------------------------- why anything is missing

  /** The first k steps have been looked at: those to visible units are recorded and their targets are nodes. */
  predicate LookedAt(w: World, walk: Walk, steps: seq<Step>, k: nat)
    requires k <= |steps|
  {
    forall i :: 0 <= i < k && steps[i].to in w.visible ==>
      steps[i].to in walk.hops && steps[i].relation.id in walk.edges
  }

  /** All steps of the unit have been looked at, or the first of them until it had discovered its fill. */
  predicate Served(w: World, b: Bounds, walk: Walk, u: Id) {
    exists k: nat | k <= |w.Steps(u)| ::
      LookedAt(w, walk, w.Steps(u), k) && (k == |w.Steps(u)| || |Children(walk, u)| >= b.fanOut)
  }

  /** Later walks keep the parents of all nodes they had. */
  predicate KeepsParents(a: Walk, z: Walk) {
    && Extends(a, z)
    && (forall v <- a.parentUnit :: v in z.parentUnit && z.parentUnit[v] == a.parentUnit[v])
    && (forall v <- z.parentUnit :: v in z.hops)
  }

  lemma ServedStays(w: World, b: Bounds, a: Walk, z: Walk, u: Id)
    requires KeepsParents(a, z) && Served(w, b, a, u)
    ensures Served(w, b, z, u)
  {
    var k: nat :| k <= |w.Steps(u)| && LookedAt(w, a, w.Steps(u), k)
      && (k == |w.Steps(u)| || |Children(a, u)| >= b.fanOut);
    SubsetCardinality(Children(a, u), Children(z, u));
    assert LookedAt(w, z, w.Steps(u), k);
  }

  predicate HasParents(walk: Walk) { forall v <- walk.parentUnit :: v in walk.hops }

  lemma NothingLookedAt(w: World, walk: Walk, r: Walk, steps: seq<Step>, u: Id)
    requires HasParents(walk) && (r == walk || r == walk.(truncated := true))
    ensures LookedAt(w, r, steps, 0) && KeepsParents(walk, r) && Children(r, u) == Children(walk, u)
  {
  }

  lemma SeenKeeps(walk: Walk, step: Step, u: Id)
    requires HasParents(walk)
    ensures var seen := Record(walk, step.relation);
      HasParents(seen) && KeepsParents(walk, seen) && Children(seen, u) == Children(walk, u)
  {
  }

  lemma FoundKeeps(walk: Walk, current: Id, step: Step, hop: nat)
    requires HasParents(walk) && step.to !in walk.hops
    ensures var found := Discover(Record(walk, step.relation), current, step, hop);
      HasParents(found) && KeepsParents(walk, found) && |Children(found, current)| == |Children(walk, current)| + 1
  {
    OneChildMore(walk, current, step, hop);
    hide Children;
  }

  lemma OneChildMore(walk: Walk, current: Id, step: Step, hop: nat)
    requires HasParents(walk) && step.to !in walk.hops
    ensures var found := Discover(Record(walk, step.relation), current, step, hop);
      |Children(found, current)| == |Children(walk, current)| + 1
  {
    var found := Discover(Record(walk, step.relation), current, step, hop);
    assert Children(found, current) == Children(walk, current) + {step.to};
  }

  lemma KeepsInTurn(a: Walk, m: Walk, z: Walk)
    requires KeepsParents(a, m) && KeepsParents(m, z)
    ensures KeepsParents(a, z)
  {
  }

  lemma OneMoreLookedAt(w: World, walk: Walk, r: Walk, step: Step, rest: seq<Step>, k: nat)
    requires KeepsParents(walk, r) && k <= |rest| && LookedAt(w, r, rest, k)
    requires step.to in w.visible ==> step.to in walk.hops && step.relation.id in walk.edges
    ensures LookedAt(w, r, [step] + rest, k + 1)
  {
  }

  /** Below the node cap a unit's steps are looked at in order, all of them or until it has its fill. */
  lemma {:induction false} StepsServe(w: World, b: Bounds, steps: seq<Step>, discovered: nat, current: Id, hop: nat,
                                      walk: Walk) returns (k: nat)
    requires HasParents(walk) && |Children(walk, current)| >= discovered
    requires |VisitSteps(w, b, steps, discovered, current, hop, walk).hops| < b.maxNodes
    ensures var r := VisitSteps(w, b, steps, discovered, current, hop, walk);
      && k <= |steps| && LookedAt(w, r, steps, k) && (k == |steps| || |Children(r, current)| >= b.fanOut)
      && KeepsParents(walk, r)
    decreases |steps|
  {
    var r := VisitSteps(w, b, steps, discovered, current, hop, walk);
    hide LookedAt, KeepsParents, Children, HasParents;
    if steps == [] || discovered >= b.fanOut {
      k := 0;
      NothingLookedAt(w, walk, r, steps, current);
    } else {
      var step, rest := steps[0], steps[1..];
      assert steps == [step] + rest;
      var next := walk;
      if step.to !in w.visible {
        k := StepsServe(w, b, rest, discovered, current, hop, walk);
      } else if step.to in walk.hops {
        next := Record(walk, step.relation);
        SeenKeeps(walk, step, current);
        k := StepsServe(w, b, rest, discovered, current, hop, next);
        KeepsInTurn(walk, next, r);
      } else {
        next := Discover(Record(walk, step.relation), current, step, hop);
        FoundKeeps(walk, current, step, hop);
        k := StepsServe(w, b, rest, discovered + 1, current, hop, next);
        KeepsInTurn(walk, next, r);
      }
      OneMoreLookedAt(w, next, r, step, rest, k);
      k := k + 1;
    }
  }

  predicate AllServed(w: World, b: Bounds, walk: Walk, units: set<Id>) { forall u <- units :: Served(w, b, walk, u) }

  lemma AllServedStay(w: World, b: Bounds, a: Walk, z: Walk, units: set<Id>)
    requires KeepsParents(a, z) && AllServed(w, b, a, units)
    ensures AllServed(w, b, z, units)
  {
    hide Served, KeepsParents;
    forall u | u in units
      ensures Served(w, b, z, u)
    {
      ServedStays(w, b, a, z, u);
    }
  }

  lemma {:induction false} FrontierServes(w: World, b: Bounds, frontier: seq<Id>, hop: nat, walk: Walk)
    requires HasParents(walk) && |VisitFrontier(w, b, frontier, hop, walk).hops| < b.maxNodes
    ensures var r := VisitFrontier(w, b, frontier, hop, walk);
      AllServed(w, b, r, SetOf(frontier)) && KeepsParents(walk, r)
    decreases |frontier|
  {
    hide LookedAt, Children, VisitSteps, Extends, Served;
    var r := VisitFrontier(w, b, frontier, hop, walk);
    if frontier != [] {
      var current, rest := frontier[0], frontier[1..];
      var after := VisitSteps(w, b, w.Steps(current), 0, current, hop, walk);
      StepsCount(w, b, frontier, hop, walk);
      var k := StepsServe(w, b, w.Steps(current), 0, current, hop, walk);
      FrontierServes(w, b, rest, hop, after);
      ServedNow(w, b, after, current, k);
      ServedStays(w, b, after, r, current);
      KeepsInTurn(walk, after, r);
      assert SetOf(frontier) == {current} + SetOf(rest);
    } else {
      NothingLookedAt(w, walk, r, [], 0);
    }
  }

  lemma StepsCount(w: World, b: Bounds, frontier: seq<Id>, hop: nat, walk: Walk)
    requires frontier != [] && |VisitFrontier(w, b, frontier, hop, walk).hops| < b.maxNodes
    ensures var after := VisitSteps(w, b, w.Steps(frontier[0]), 0, frontier[0], hop, walk);
      && |after.hops| < b.maxNodes
      && VisitFrontier(w, b, frontier, hop, walk) == VisitFrontier(w, b, frontier[1..], hop, after)
  {
  }

  lemma ServedNow(w: World, b: Bounds, walk: Walk, u: Id, k: nat)
    requires k <= |w.Steps(u)| && LookedAt(w, walk, w.Steps(u), k)
    requires k == |w.Steps(u)| || |Children(walk, u)| >= b.fanOut
    ensures Served(w, b, walk, u)
  {
  }

  /** What one level adds is at its distance and queued for the next. */
  predicate AddsAt(a: Walk, z: Walk, hop: nat) {
    && Extends(a, z)
    && (forall v <- z.hops :: v in a.hops || z.hops[v] == hop)
    && (forall v: Id <- z.next :: v in a.next || (v in z.hops && v !in a.hops))
    && (forall v <- z.hops :: v !in a.hops ==> v in z.next)
    && (forall v <- a.next :: v in z.next)
  }

  lemma AddsInTwo(a: Walk, m: Walk, z: Walk, hop: nat)
    requires AddsAt(a, m, hop) && AddsAt(m, z, hop)
    ensures AddsAt(a, z, hop)
  {
  }

  lemma OneStepAdds(walk: Walk, current: Id, step: Step, hop: nat)
    ensures AddsAt(walk, walk, hop) && AddsAt(walk, walk.(truncated := true), hop)
    ensures AddsAt(walk, Record(walk, step.relation), hop)
    ensures AddsAt(walk, Record(walk, step.relation).(truncated := true), hop)
    ensures step.to !in walk.hops ==> AddsAt(walk, Discover(Record(walk, step.relation), current, step, hop), hop)
  {
  }

  lemma {:induction false} StepsAddAt(w: World, b: Bounds, steps: seq<Step>, discovered: nat, current: Id, hop: nat,
                                      walk: Walk)
    ensures AddsAt(walk, VisitSteps(w, b, steps, discovered, current, hop, walk), hop)
    decreases |steps|
  {
    hide AddsAt, Record, Discover;
    var r := VisitSteps(w, b, steps, discovered, current, hop, walk);
    if steps == [] || discovered >= b.fanOut {
      OneStepAdds(walk, current, Step(Relation(0, PartOf, 0, 0, Active, []), 0), hop);
    } else {
      var step, rest := steps[0], steps[1..];
      OneStepAdds(walk, current, step, hop);
      if step.to !in w.visible {
        StepsAddAt(w, b, rest, discovered, current, hop, walk);
      } else if step.to in walk.hops {
        var seen := Record(walk, step.relation);
        StepsAddAt(w, b, rest, discovered, current, hop, seen);
        AddsInTwo(walk, seen, r, hop);
      } else if |walk.hops| < b.maxNodes {
        var found := Discover(Record(walk, step.relation), current, step, hop);
        StepsAddAt(w, b, rest, discovered + 1, current, hop, found);
        AddsInTwo(walk, found, r, hop);
      }
    }
  }

  lemma {:induction false} FrontierAddsAt(w: World, b: Bounds, frontier: seq<Id>, hop: nat, walk: Walk)
    ensures AddsAt(walk, VisitFrontier(w, b, frontier, hop, walk), hop)
    decreases |frontier|
  {
    hide AddsAt, VisitSteps;
    var r := VisitFrontier(w, b, frontier, hop, walk);
    if frontier == [] {
      OneStepAdds(walk, 0, Step(Relation(0, PartOf, 0, 0, Active, []), 0), hop);
    } else {
      var after := VisitSteps(w, b, w.Steps(frontier[0]), 0, frontier[0], hop, walk);
      StepsAddAt(w, b, w.Steps(frontier[0]), 0, frontier[0], hop, walk);
      if |after.hops| < b.maxNodes {
        FrontierAddsAt(w, b, frontier[1..], hop, after);
        AddsInTwo(walk, after, r, hop);
      }
    }
  }

  /** The frontier is the nodes at one distance, and none is farther. */
  predicate IsFrontier(walk: Walk, frontier: seq<Id>, h: nat) {
    && (forall v <- walk.hops :: walk.hops[v] <= h && (walk.hops[v] == h <==> v in frontier))
  }

  predicate NearServed(w: World, b: Bounds, walk: Walk, h: nat) {
    forall u <- walk.hops :: walk.hops[u] < h ==> Served(w, b, walk, u)
  }

  lemma NextFrontier(w: World, b: Bounds, walk: Walk, after: Walk, frontier: seq<Id>, hop: nat)
    requires hop > 0 && IsFrontier(walk, frontier, hop - 1) && NearServed(w, b, walk, hop - 1)
    requires AddsAt(walk.(next := []), after, hop) && KeepsParents(walk.(next := []), after)
    requires AllServed(w, b, after, SetOf(frontier))
    ensures IsFrontier(after, after.next, hop) && NearServed(w, b, after, hop)
  {
    var cleared := walk.(next := []);
    forall u | u in walk.hops && walk.hops[u] < hop - 1
      ensures Served(w, b, after, u)
    {
      ServedByClearing(w, b, walk, u);
      ServedStays(w, b, cleared, after, u);
    }
    hide Served, KeepsParents;
    forall u | u in after.hops && after.hops[u] < hop
      ensures Served(w, b, after, u)
    {
      assert u in walk.hops && after.hops[u] == walk.hops[u];
      if walk.hops[u] == hop - 1 {
        assert u in SetOf(frontier);
      }
    }
  }

  lemma ServedByClearing(w: World, b: Bounds, walk: Walk, u: Id)
    requires Served(w, b, walk, u)
    ensures Served(w, b, walk.(next := []), u)
  {
    var cleared := walk.(next := []);
    assert Children(cleared, u) == Children(walk, u);
    var k: nat :| k <= |w.Steps(u)| && LookedAt(w, walk, w.Steps(u), k)
      && (k == |w.Steps(u)| || |Children(walk, u)| >= b.fanOut);
    assert LookedAt(w, cleared, w.Steps(u), k);
  }

  lemma {:induction false} LevelsServe(w: World, b: Bounds, hop: nat, frontier: seq<Id>, walk: Walk)
    requires 0 < hop <= b.maxHops + 1 && HasParents(walk)
    requires IsFrontier(walk, frontier, hop - 1) && NearServed(w, b, walk, hop - 1)
    requires |VisitLevels(w, b, hop, frontier, walk).hops| < b.maxNodes
    ensures NearServed(w, b, VisitLevels(w, b, hop, frontier, walk), b.maxHops)
    decreases b.maxHops + 1 - hop
  {
    hide VisitFrontier, Served, AddsAt;
    if hop <= b.maxHops && frontier != [] {
      var after := VisitFrontier(w, b, frontier, hop, walk.(next := []));
      LevelsExtend(w, b, hop + 1, after.next, after);
      SubsetCardinality(after.hops.Keys, VisitLevels(w, b, hop, frontier, walk).hops.Keys);
      FrontierServes(w, b, frontier, hop, walk.(next := []));
      FrontierAddsAt(w, b, frontier, hop, walk.(next := []));
      NextFrontier(w, b, walk, after, frontier, hop);
      LevelsServe(w, b, hop + 1, after.next, after);
    }
  }

  /** Below the node cap, every node nearer than maxHops has had all its steps looked at, in order of
      their relations, or the first of them until it had discovered fanOut units: nothing else is
      ever left out, flagged or not. */
  lemma NothingElseIsLeftOut(w: World, b: Bounds, seeds: seq<Id>, truncated: bool)
    requires |Explored(w, b, seeds, truncated).hops| < b.maxNodes
    ensures var r := Explored(w, b, seeds, truncated);
      forall u <- r.hops :: r.hops[u] < b.maxHops ==> Served(w, b, r, u)
  {
    hide Served;
    LevelsServe(w, b, 1, seeds, Start(seeds, truncated));
  }

  /** In every graph below the node cap: what a node nearer than maxHops leads to is there, by a listed
      relation, unless the node has discovered its fill of fanOut units. */
  lemma GraphLeavesNothingElseOut(units: seq<Unit>, relations: seq<Relation>, hits: seq<Hit>, opts: Options,
                                  n: Node, r: Relation, v: Id)
    requires DistinctUnits(units)
    requires |Built(units, relations, hits, opts).nodes| < opts.bounds.maxNodes
    requires n in Built(units, relations, hits, opts).nodes && n.hops < opts.bounds.maxHops
    requires r in relations && IsAskedFor(r, opts) && LeadsFrom(r, n.unit.id, v, opts) && IsVisible(units, v)
    ensures var g := Built(units, relations, hits, opts);
      || (HasEdge(g.edges, r.id) && exists h: nat :: HasNode(g.nodes, v, h))
      || |Children(WalkOf(units, relations, hits, opts), n.unit.id)| >= opts.bounds.fanOut
  {
    var g, w, walk := Built(units, relations, hits, opts), WorldOf(units, relations, opts),
      WalkOf(units, relations, hits, opts);
    var u, cut := n.unit.id, PickSeeds(hits, w.visible, opts.bounds.maxNodes).1;
    hide *;
    WalkIsExplored(units, relations, hits, opts);
    BuiltShowsWalk(units, relations, hits, opts);
    VisibleIsInWorld(units, relations, opts, v);
    StepsAtUnit(units, relations, opts, u, Step(r, v));
    NodeIsThere(g.nodes, n);
    NothingElseIsLeftOut(w, opts.bounds, SeedIds(units, hits, opts), cut);
    ServedStep(w, opts.bounds, walk, u, n.hops, Step(r, v));
  }

  lemma ServedStep(w: World, b: Bounds, walk: Walk, u: Id, h: nat, st: Step)
    requires walk.IsAt(u, h) && h < b.maxHops && (u in walk.hops && walk.hops[u] < b.maxHops ==> Served(w, b, walk, u))
    requires st in w.Steps(u) && st.to in w.visible
    ensures (st.relation.id in walk.edges && exists k: nat :: walk.IsAt(st.to, k)) || |Children(walk, u)| >= b.fanOut
  {
    var k: nat :| k <= |w.Steps(u)| && LookedAt(w, walk, w.Steps(u), k)
      && (k == |w.Steps(u)| || |Children(walk, u)| >= b.fanOut);
    if k == |w.Steps(u)| {
      var i :| 0 <= i < k && w.Steps(u)[i] == st;
      assert walk.IsAt(st.to, walk.hops[st.to]);
    }
  }
}
