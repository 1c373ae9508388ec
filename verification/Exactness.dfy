/** When a walk is exact: what the truncation flag does and does not promise, with
    the exact condition. */
module Exactness {
  import opened Traversal

  // ------------------------------------------------------------- hop counts

  predicate HopsUpTo(walk: Walk, h: nat) { forall v <- walk.hops :: walk.hops[v] <= h }

  lemma {:induction false} StepsKeepHops(w: World, b: Bounds, steps: seq<Step>, discovered: nat, current: Id,
                                         hop: nat, walk: Walk)
    requires HopsUpTo(walk, hop)
    ensures HopsUpTo(VisitSteps(w, b, steps, discovered, current, hop, walk), hop)
    decreases |steps|
  {
    if steps != [] && discovered < b.fanOut {
      var step, rest := steps[0], steps[1..];
      var seen := Record(walk, step.relation);
      if step.to !in w.visible {
        StepsKeepHops(w, b, rest, discovered, current, hop, walk);
      } else if step.to in walk.hops {
        StepsKeepHops(w, b, rest, discovered, current, hop, seen);
      } else if |walk.hops| < b.maxNodes {
        StepsKeepHops(w, b, rest, discovered + 1, current, hop, Discover(seen, current, step, hop));
      }
    }
  }

  lemma {:induction false} FrontierKeepsHops(w: World, b: Bounds, frontier: seq<Id>, hop: nat, walk: Walk)
    requires HopsUpTo(walk, hop)
    ensures HopsUpTo(VisitFrontier(w, b, frontier, hop, walk), hop)
    decreases |frontier|
  {
    hide VisitSteps, HopsUpTo;
    if frontier != [] {
      StepsKeepHops(w, b, w.Steps(frontier[0]), 0, frontier[0], hop, walk);
      FrontierKeepsHops(w, b, frontier[1..], hop, VisitSteps(w, b, w.Steps(frontier[0]), 0, frontier[0], hop, walk));
    }
  }

  lemma HopsGrow(walk: Walk, h: nat, k: nat)
    requires HopsUpTo(walk, h) && h <= k
    ensures HopsUpTo(walk, k) && HopsUpTo(walk.(next := []), k)
  {
  }

  lemma {:induction false} LevelsKeepHops(w: World, b: Bounds, hop: nat, frontier: seq<Id>, walk: Walk)
    requires 0 < hop <= b.maxHops + 1 && HopsUpTo(walk, hop - 1)
    ensures HopsUpTo(VisitLevels(w, b, hop, frontier, walk), b.maxHops)
    decreases b.maxHops + 1 - hop
  {
    hide VisitFrontier, HopsUpTo;
    HopsGrow(walk, hop - 1, b.maxHops);
    if hop <= b.maxHops && frontier != [] {
      HopsGrow(walk, hop - 1, hop);
      FrontierKeepsHops(w, b, frontier, hop, walk.(next := []));
      var after := VisitFrontier(w, b, frontier, hop, walk.(next := []));
      LevelsKeepHops(w, b, hop + 1, after.next, after);
    }
  }

  /** For every walk, cut or not: no node lies farther than maxHops. */
  lemma ExploredKeepsHops(w: World, b: Bounds, seeds: seq<Id>, truncated: bool)
    ensures HopsUpTo(Explored(w, b, seeds, truncated), b.maxHops)
  {
    LevelsKeepHops(w, b, 1, seeds, Start(seeds, truncated));
  }

  lemma ParentLeads(w: World, b: Bounds, walk: Walk, seeds: set<Id>, v: Id)
    requires Rooted(w, b, walk, seeds) && v in walk.hops
    ensures v in w.visible && (walk.hops[v] == 0 ==> v in seeds)
    ensures walk.hops[v] > 0 ==>
      var parent := walk.parentUnit[v];
      parent in walk.hops && walk.hops[v] == walk.hops[parent] + 1 && w.Leads(parent, v)
  {
    if walk.hops[v] > 0 {
      assert w.HasStep(walk.parentUnit[v], walk.parentEdge[v], v);
    }
  }

  lemma OneStepFarther(w: World, seeds: set<Id>, k: nat, u: Id, v: Id)
    requires u in Within(w, seeds, k) && w.Leads(u, v) && v in w.visible
    ensures v in Within(w, seeds, k + 1)
  {
  }

  /** A node's hop count is the length of some walk to it. */
  lemma {:induction false} RootedIsWithin(w: World, b: Bounds, walk: Walk, seeds: set<Id>, v: Id)
    requires Rooted(w, b, walk, seeds) && v in walk.hops
    ensures v in Within(w, seeds, walk.hops[v])
    decreases walk.hops[v]
  {
    ParentLeads(w, b, walk, seeds, v);
    hide Rooted;
    if walk.hops[v] > 0 {
      RootedIsWithin(w, b, walk, seeds, walk.parentUnit[v]);
      hide Within;
      OneStepFarther(w, seeds, walk.hops[v] - 1, walk.parentUnit[v], v);
    }
  }

  // ------------------------------------------------- unflagged walks are true

  /** Every node is at its true distance. */
  ghost predicate TrueDistances(w: World, walk: Walk, seeds: set<Id>) {
    forall v <- walk.hops, k: nat :: v in Within(w, seeds, k) <==> walk.hops[v] <= k
  }

  /** A full walk discovers nothing more. */
  lemma {:induction false} FullStepsAddNothing(w: World, b: Bounds, steps: seq<Step>, discovered: nat, current: Id,
                                               hop: nat, walk: Walk)
    requires |walk.hops| >= b.maxNodes
    ensures VisitSteps(w, b, steps, discovered, current, hop, walk).hops == walk.hops
    decreases |steps|
  {
    if steps != [] && discovered < b.fanOut {
      var step, rest := steps[0], steps[1..];
      if step.to !in w.visible {
        FullStepsAddNothing(w, b, rest, discovered, current, hop, walk);
      } else if step.to in walk.hops {
        FullStepsAddNothing(w, b, rest, discovered, current, hop, Record(walk, step.relation));
      }
    }
  }

  lemma FullFrontierAddsNothing(w: World, b: Bounds, frontier: seq<Id>, hop: nat, walk: Walk)
    requires |walk.hops| >= b.maxNodes
    ensures VisitFrontier(w, b, frontier, hop, walk).hops == walk.hops
  {
    if frontier != [] {
      FullStepsAddNothing(w, b, w.Steps(frontier[0]), 0, frontier[0], hop, walk);
    }
  }

  lemma {:induction false} FullLevelsAddNothing(w: World, b: Bounds, hop: nat, frontier: seq<Id>, walk: Walk)
    requires |walk.hops| >= b.maxNodes
    ensures VisitLevels(w, b, hop, frontier, walk).hops == walk.hops
    decreases b.maxHops + 1 - hop
  {
    hide VisitFrontier;
    if hop <= b.maxHops && frontier != [] {
      FullFrontierAddsNothing(w, b, frontier, hop, walk.(next := []));
      var after := VisitFrontier(w, b, frontier, hop, walk.(next := []));
      FullLevelsAddNothing(w, b, hop + 1, after.next, after);
    }
  }

  /** Nodes found at one level are one hop farther than all nodes before it. */
  lemma {:induction false} StepsFindAt(w: World, b: Bounds, steps: seq<Step>, discovered: nat, current: Id, hop: nat,
                                       walk: Walk)
    ensures forall v <- VisitSteps(w, b, steps, discovered, current, hop, walk).hops ::
              v in walk.hops || VisitSteps(w, b, steps, discovered, current, hop, walk).hops[v] == hop
    decreases |steps|
  {
    if steps != [] && discovered < b.fanOut {
      var step, rest := steps[0], steps[1..];
      var seen := Record(walk, step.relation);
      if step.to !in w.visible {
        StepsFindAt(w, b, rest, discovered, current, hop, walk);
      } else if step.to in walk.hops {
        StepsFindAt(w, b, rest, discovered, current, hop, seen);
      } else if |walk.hops| < b.maxNodes {
        var found := Discover(seen, current, step, hop);
        StepsFindAt(w, b, rest, discovered + 1, current, hop, found);
        StepsExtend(w, b, rest, discovered + 1, current, hop, found);
      }
    }
  }

  predicate FoundAt(before: Walk, after: Walk, hop: nat) {
    forall v <- after.hops :: v in before.hops || after.hops[v] == hop
  }

  lemma {:induction false} FrontierFindsAt(w: World, b: Bounds, frontier: seq<Id>, hop: nat, walk: Walk)
    ensures FoundAt(walk, VisitFrontier(w, b, frontier, hop, walk), hop)
    decreases |frontier|
  {
    if frontier != [] {
      var after := VisitSteps(w, b, w.Steps(frontier[0]), 0, frontier[0], hop, walk);
      StepsFindAt(w, b, w.Steps(frontier[0]), 0, frontier[0], hop, walk);
      hide VisitSteps;
      FrontierFindsAt(w, b, frontier[1..], hop, after);
      FrontierExtends(w, b, frontier[1..], hop, after);
    }
  }

  lemma TrueBeyond(w: World, seeds: set<Id>, v: Id, h: nat, hop: nat, k: nat)
    requires v in Within(w, seeds, h) && h <= hop && (h < hop || hop == 0 || v !in Within(w, seeds, hop - 1))
    requires forall j: nat :: j < hop ==> (v in Within(w, seeds, j) <==> h <= j)
    ensures v in Within(w, seeds, k) <==> h <= k
  {
    hide Within;
    if h <= k {
      WithinGrows(w, seeds, h, k);
    }
  }

  /** Where a node that some level found, or that was there before it, really is. */
  lemma DistanceBefore(w: World, before: Walk, seeds: set<Id>, hop: nat, v: Id)
    requires hop > 0 && ExactTo(w, before, seeds, hop - 1)
    ensures v in before.hops ==> before.hops[v] < hop
    ensures v in before.hops ==> forall j: nat :: j < hop ==> (v in Within(w, seeds, j) <==> before.hops[v] <= j)
    ensures v !in before.hops ==> forall j: nat :: j < hop ==> v !in Within(w, seeds, j)
  {
    hide Within;
    if v in before.hops {
      assert v in Within(w, seeds, hop - 1) <==> before.hops[v] <= hop - 1;
    }
    forall j: nat | j < hop
      ensures Within(w, seeds, j) <= Within(w, seeds, hop - 1)
    {
      WithinGrows(w, seeds, j, hop - 1);
    }
  }

  /** The level at which the cap was reached: what it added is at its true distance too. */
  lemma LastLevelIsTrue(w: World, b: Bounds, before: Walk, after: Walk, seeds: set<Id>, hop: nat)
    requires hop > 0 && ExactTo(w, before, seeds, hop - 1)
    requires Extends(before, after) && FoundAt(before, after, hop) && Rooted(w, b, after, seeds)
    ensures TrueDistances(w, after, seeds)
  {
    hide Within, ExactTo, Rooted;
    forall v, k: nat | v in after.hops
      ensures v in Within(w, seeds, k) <==> after.hops[v] <= k
    {
      RootedIsWithin(w, b, after, seeds, v);
      DistanceBefore(w, before, seeds, hop, v);
      TrueBeyond(w, seeds, v, after.hops[v], hop, k);
    }
  }

  /** A level that fills the walk is the last one to find anything. */
  lemma FullLevelIsTrue(w: World, b: Bounds, hop: nat, frontier: seq<Id>, walk: Walk, seeds: set<Id>)
    requires 0 < hop <= b.maxHops && frontier != [] && ExactTo(w, walk, seeds, hop - 1)
    requires Rooted(w, b, VisitLevels(w, b, hop, frontier, walk), seeds)
    requires |VisitFrontier(w, b, frontier, hop, walk.(next := [])).hops| >= b.maxNodes
    ensures TrueDistances(w, VisitLevels(w, b, hop, frontier, walk), seeds)
  {
    hide ExactTo, Rooted, VisitFrontier, TrueDistances;
    var cleared := walk.(next := []);
    var after := VisitFrontier(w, b, frontier, hop, cleared);
    FrontierFindsAt(w, b, frontier, hop, cleared);
    FullLevelsAddNothing(w, b, hop + 1, after.next, after);
    LevelsExtend(w, b, hop, frontier, walk);
    LastLevelIsTrue(w, b, walk, VisitLevels(w, b, hop, frontier, walk), seeds, hop);
  }

  lemma RoomyLevelIsUncut(w: World, b: Bounds, hop: nat, frontier: seq<Id>, walk: Walk)
    requires hop <= b.maxHops && frontier != []
    requires |VisitFrontier(w, b, frontier, hop, walk.(next := [])).hops| < b.maxNodes
    requires !VisitLevels(w, b, hop, frontier, walk).truncated
    ensures Uncut(b, VisitFrontier(w, b, frontier, hop, walk.(next := [])))
  {
    hide VisitFrontier;
    var after := VisitFrontier(w, b, frontier, hop, walk.(next := []));
    LevelsExtend(w, b, hop + 1, after.next, after);
  }

  /** A level that leaves room and is not cut is exact, and the next frontier is its ring. */
  lemma RoomyLevelIsExact(w: World, b: Bounds, hop: nat, frontier: seq<Id>, walk: Walk, seeds: set<Id>)
    requires 0 < hop <= b.maxHops && frontier != []
    requires ExactTo(w, walk, seeds, hop - 1) && SetOf(frontier) == Ring(w, seeds, hop - 1)
    requires |VisitFrontier(w, b, frontier, hop, walk.(next := [])).hops| < b.maxNodes
    requires !VisitLevels(w, b, hop, frontier, walk).truncated
    ensures var after := VisitFrontier(w, b, frontier, hop, walk.(next := []));
      ExactTo(w, after, seeds, hop) && SetOf(after.next) == Ring(w, seeds, hop)
  {
    hide *;
    RoomyLevelIsUncut(w, b, hop, frontier, walk);
    UncutFrontierAddsAll(w, b, frontier, hop, walk.(next := []));
    NextLevelIsExact(w, walk, VisitFrontier(w, b, frontier, hop, walk.(next := [])), seeds, hop - 1, frontier);
  }

  lemma SettledIsTrue(w: World, b: Bounds, walk: Walk, seeds: set<Id>, h: nat)
    requires ExactTo(w, walk, seeds, h) && Rooted(w, b, walk, seeds)
    ensures TrueDistances(w, walk, seeds)
  {
    LastLevelIsTrue(w, b, walk, walk, seeds, h + 1) by {
      assert Extends(walk, walk) && FoundAt(walk, walk, h + 1);
    }
  }

  lemma {:induction false} UnflaggedLevels(w: World, b: Bounds, hop: nat, frontier: seq<Id>, walk: Walk, seeds: set<Id>)
    requires 0 < hop <= b.maxHops + 1
    requires ExactTo(w, walk, seeds, hop - 1) && SetOf(frontier) == Ring(w, seeds, hop - 1)
    requires Rooted(w, b, VisitLevels(w, b, hop, frontier, walk), seeds)
    requires !VisitLevels(w, b, hop, frontier, walk).truncated
    ensures TrueDistances(w, VisitLevels(w, b, hop, frontier, walk), seeds)
    decreases b.maxHops + 1 - hop
  {
    hide ExactTo, Ring, Rooted, Adds, VisitFrontier, TrueDistances;
    if hop > b.maxHops || frontier == [] {
      SettledIsTrue(w, b, walk, seeds, hop - 1);
    } else {
      var after := VisitFrontier(w, b, frontier, hop, walk.(next := []));
      if |after.hops| >= b.maxNodes {
        FullLevelIsTrue(w, b, hop, frontier, walk, seeds);
      } else {
        RoomyLevelIsExact(w, b, hop, frontier, walk, seeds);
        UnflaggedLevels(w, b, hop + 1, after.next, after, seeds);
      }
    }
  }

  lemma StartIsExact(w: World, seeds: seq<Id>, truncated: bool)
    ensures ExactTo(w, Start(seeds, truncated), SetOf(seeds), 0) && Ring(w, SetOf(seeds), 0) == SetOf(seeds)
  {
    assert Start(seeds, truncated).hops.Keys == SetOf(seeds);
  }

  /** An unflagged walk may miss units, but every unit it returns is at its true
      distance, within reach, and no farther than maxHops. */
  lemma UnflaggedIsTrue(w: World, b: Bounds, seeds: seq<Id>, truncated: bool)
    requires SetOf(seeds) <= w.visible && |SetOf(seeds)| <= b.maxNodes
    requires !Explored(w, b, seeds, truncated).truncated
    ensures TrueDistances(w, Explored(w, b, seeds, truncated), SetOf(seeds))
  {
    hide ExactTo, Ring, Rooted, TrueDistances;
    ExploredIsRooted(w, b, seeds, truncated);
    StartIsExact(w, seeds, truncated);
    UnflaggedLevels(w, b, 1, seeds, Start(seeds, truncated), SetOf(seeds));
  }

  // ------------------------------------------------------ the exact condition

  lemma ReturnedIsWithin(w: World, b: Bounds, seeds: seq<Id>, truncated: bool)
    requires SetOf(seeds) <= w.visible && |SetOf(seeds)| <= b.maxNodes
    ensures Explored(w, b, seeds, truncated).hops.Keys <= Within(w, SetOf(seeds), b.maxHops)
  {
    var r := Explored(w, b, seeds, truncated);
    ExploredIsRooted(w, b, seeds, truncated);
    ExploredKeepsHops(w, b, seeds, truncated);
    hide Explored, Rooted;
    forall v | v in r.hops
      ensures v in Within(w, SetOf(seeds), b.maxHops)
    {
      RootedIsWithin(w, b, r, SetOf(seeds), v);
      WithinGrows(w, SetOf(seeds), r.hops[v], b.maxHops);
    }
  }

  lemma SameSizeSubset<T>(a: set<T>, z: set<T>)
    requires a <= z && |z| <= |a|
    ensures a == z
  {
    if a != z {
      var x :| x in z && x !in a;
      SubsetCardinality(a + {x}, z);
    }
  }

  /** An unflagged walk returns every unit within maxHops of the seeds if and only if
      there are no more of them than maxNodes. */
  lemma UnflaggedIsCompleteIff(w: World, b: Bounds, seeds: seq<Id>, truncated: bool)
    requires SetOf(seeds) <= w.visible && |SetOf(seeds)| <= b.maxNodes
    requires !Explored(w, b, seeds, truncated).truncated
    ensures Explored(w, b, seeds, truncated).hops.Keys == Within(w, SetOf(seeds), b.maxHops) <==>
      |Within(w, SetOf(seeds), b.maxHops)| <= b.maxNodes
  {
    var r, all := Explored(w, b, seeds, truncated), Within(w, SetOf(seeds), b.maxHops);
    ExploredIsRooted(w, b, seeds, truncated);
    ReturnedIsWithin(w, b, seeds, truncated);
    if |all| <= b.maxNodes {
      if b.maxHops == 0 {
        assert r.hops.Keys == SetOf(seeds);
      } else if |r.hops| < b.maxNodes {
        UncutIsComplete(w, b, seeds, truncated);
      } else {
        SameSizeSubset(r.hops.Keys, all);
      }
    }
  }

  /** Below the node cap the edges are exact as well: what a caller can check before
      the walk, the number of units within reach, decides. */
  lemma RoomyIsExact(w: World, b: Bounds, seeds: seq<Id>, truncated: bool)
    requires SetOf(seeds) <= w.visible && b.maxHops > 0
    requires |Within(w, SetOf(seeds), b.maxHops)| < b.maxNodes && !Explored(w, b, seeds, truncated).truncated
    ensures var r := Explored(w, b, seeds, truncated);
      && r.hops.Keys == Within(w, SetOf(seeds), b.maxHops) && TrueDistances(w, r, SetOf(seeds))
      && forall e :: e in r.edges <==> w.Leaves(Within(w, SetOf(seeds), b.maxHops - 1), e)
  {
    var r := Explored(w, b, seeds, truncated);
    WithinGrows(w, SetOf(seeds), 0, b.maxHops);
    SubsetCardinality(SetOf(seeds), Within(w, SetOf(seeds), b.maxHops));
    ReturnedIsWithin(w, b, seeds, truncated);
    SubsetCardinality(r.hops.Keys, Within(w, SetOf(seeds), b.maxHops));
    hide Explored, Within, TrueDistances;
    UnflaggedIsTrue(w, b, seeds, truncated);
    UncutIsComplete(w, b, seeds, truncated);
  }

  // ------------------------------------------------- when the flag stays clear

  /** The walk is unflagged and has found and queued only units of one set. */
  predicate Tame(walk: Walk, all: set<Id>) {
    !walk.truncated && walk.hops.Keys <= all && SetOf(walk.next) <= all
  }

  lemma FoundStaysTame(walk: Walk, all: set<Id>, current: Id, step: Step, hop: nat)
    requires Tame(walk, all) && step.to in all
    ensures Tame(Record(walk, step.relation), all)
      && Tame(Discover(Record(walk, step.relation), current, step, hop), all)
  {
    assert SetOf(walk.next + [step.to]) == SetOf(walk.next) + {step.to};
  }

  lemma RoomForOneMore(walk: Walk, all: set<Id>, v: Id)
    requires Tame(walk, all) && v in all && v !in walk.hops
    ensures |walk.hops| < |all|
  {
    SubsetCardinality(walk.hops.Keys + {v}, all);
  }

  lemma {:induction false} StepsStayTame(w: World, b: Bounds, steps: seq<Step>, discovered: nat, current: Id,
                                         hop: nat, walk: Walk, all: set<Id>)
    requires Tame(walk, all) && |all| <= b.maxNodes && discovered + |steps| <= b.fanOut
    requires forall st <- steps :: st.to in w.visible ==> st.to in all
    ensures Tame(VisitSteps(w, b, steps, discovered, current, hop, walk), all)
    decreases |steps|
  {
    hide Tame;
    if steps != [] {
      var step, rest := steps[0], steps[1..];
      if step.to !in w.visible {
        StepsStayTame(w, b, rest, discovered, current, hop, walk, all);
      } else {
        var seen := Record(walk, step.relation);
        FoundStaysTame(walk, all, current, step, hop);
        if step.to in walk.hops {
          StepsStayTame(w, b, rest, discovered, current, hop, seen, all);
        } else {
          RoomForOneMore(walk, all, step.to);
          StepsStayTame(w, b, rest, discovered + 1, current, hop, Discover(seen, current, step, hop), all);
        }
      }
    }
  }

  /** No unit within k steps has more than fanOut steps. */
  ghost predicate NarrowWithin(w: World, b: Bounds, seeds: set<Id>, k: nat) {
    forall u <- Within(w, seeds, k) :: |w.Steps(u)| <= b.fanOut
  }

  lemma StepsLeadWithin(w: World, seeds: set<Id>, k: nat, u: Id)
    requires u in Within(w, seeds, k)
    ensures forall st <- w.Steps(u) :: st.to in w.visible ==> st.to in Within(w, seeds, k + 1)
  {
    forall st | st in w.Steps(u) && st.to in w.visible
      ensures st.to in Within(w, seeds, k + 1)
    {
      assert w.Leads(u, st.to);
      OneStepFarther(w, seeds, k, u, st.to);
    }
  }

  lemma {:induction false} FrontierStaysTame(w: World, b: Bounds, frontier: seq<Id>, hop: nat, walk: Walk,
                                             seeds: set<Id>)
    requires hop > 0 && NarrowWithin(w, b, seeds, hop - 1) && SetOf(frontier) <= Within(w, seeds, hop - 1)
    requires Tame(walk, Within(w, seeds, hop)) && |Within(w, seeds, hop)| <= b.maxNodes
    ensures Tame(VisitFrontier(w, b, frontier, hop, walk), Within(w, seeds, hop))
    decreases |frontier|
  {
    hide VisitSteps, Within, Tame;
    if frontier != [] {
      assert frontier[0] in SetOf(frontier) && SetOf(frontier[1..]) <= SetOf(frontier);
      StepsLeadWithin(w, seeds, hop - 1, frontier[0]);
      StepsStayTame(w, b, w.Steps(frontier[0]), 0, frontier[0], hop, walk, Within(w, seeds, hop));
      var after := VisitSteps(w, b, w.Steps(frontier[0]), 0, frontier[0], hop, walk);
      FrontierStaysTame(w, b, frontier[1..], hop, after, seeds);
    }
  }

  /** What holds up to maxHops holds at every level before. */
  lemma LevelHasRoom(w: World, b: Bounds, seeds: set<Id>, hop: nat)
    requires 0 < hop <= b.maxHops && NarrowWithin(w, b, seeds, b.maxHops - 1)
      && |Within(w, seeds, b.maxHops)| <= b.maxNodes
    ensures NarrowWithin(w, b, seeds, hop - 1) && |Within(w, seeds, hop)| <= b.maxNodes
  {
    hide Within;
    WithinGrows(w, seeds, hop - 1, b.maxHops - 1);
    WithinGrows(w, seeds, hop, b.maxHops);
    SubsetCardinality(Within(w, seeds, hop), Within(w, seeds, b.maxHops));
  }

  lemma ClearedStaysTame(w: World, walk: Walk, seeds: set<Id>, h: nat)
    requires Tame(walk, Within(w, seeds, h))
    ensures Tame(walk.(next := []), Within(w, seeds, h + 1))
  {
    hide Within;
    WithinGrows(w, seeds, h, h + 1);
  }

  lemma {:induction false} LevelsStayTame(w: World, b: Bounds, hop: nat, frontier: seq<Id>, walk: Walk, seeds: set<Id>)
    requires 0 < hop && SetOf(frontier) <= Within(w, seeds, hop - 1) && Tame(walk, Within(w, seeds, hop - 1))
    requires b.maxHops > 0 && NarrowWithin(w, b, seeds, b.maxHops - 1)
    requires |Within(w, seeds, b.maxHops)| <= b.maxNodes
    ensures !VisitLevels(w, b, hop, frontier, walk).truncated
    decreases b.maxHops + 1 - hop
  {
    hide VisitFrontier, Within, NarrowWithin;
    if hop <= b.maxHops && frontier != [] {
      var after := VisitFrontier(w, b, frontier, hop, walk.(next := []));
      LevelHasRoom(w, b, seeds, hop);
      ClearedStaysTame(w, walk, seeds, hop - 1);
      FrontierStaysTame(w, b, frontier, hop, walk.(next := []), seeds);
      LevelsStayTame(w, b, hop + 1, after.next, after, seeds);
    }
  }

  /** The flag stays clear when no unit nearer than maxHops has more than fanOut steps
      and there is room for every unit within reach. Both can be checked beforehand. */
  lemma NarrowIsUnflagged(w: World, b: Bounds, seeds: seq<Id>)
    requires b.maxHops > 0 && NarrowWithin(w, b, SetOf(seeds), b.maxHops - 1)
    requires |Within(w, SetOf(seeds), b.maxHops)| <= b.maxNodes
    ensures !Explored(w, b, seeds, false).truncated
  {
    assert Start(seeds, false).hops.Keys == SetOf(seeds);
    LevelsStayTame(w, b, 1, seeds, Start(seeds, false), SetOf(seeds));
  }
}
