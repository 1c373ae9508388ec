/** How many nodes a walk may discover from one unit. */
module FanOut {
  import opened Traversal

  function Children(walk: Walk, u: Id): set<Id> { set v <- walk.parentUnit | walk.parentUnit[v] == u }

  /** Parents and children are nodes, and no unit has more children than the fan-out. */
  ghost predicate Fanned(b: Bounds, walk: Walk) {
    && (forall v <- walk.parentUnit :: v in walk.hops && walk.parentUnit[v] in walk.hops)
    && (forall u: Id :: |Children(walk, u)| <= b.fanOut)
  }

  predicate Distinct(s: seq<Id>) { forall i, j :: 0 <= i < j < |s| ==> s[i] != s[j] }

  /** What is queued for the next level was found on this one, each unit once. */
  predicate NextIsNew(before: Walk, walk: Walk) {
    Distinct(walk.next) && forall v <- walk.next :: v in walk.hops && v !in before.hops
  }

  predicate SameElsewhere(a: Walk, z: Walk, units: set<Id>) {
    forall v <- a.parentUnit.Keys + z.parentUnit.Keys ::
      && (v in a.parentUnit && a.parentUnit[v] !in units ==> v in z.parentUnit && z.parentUnit[v] == a.parentUnit[v])
      && (v in z.parentUnit && z.parentUnit[v] !in units ==> v in a.parentUnit && z.parentUnit[v] == a.parentUnit[v])
  }

  lemma SameChildren(a: Walk, z: Walk, units: set<Id>, u: Id)
    requires SameElsewhere(a, z, units) && u !in units
    ensures Children(a, u) == Children(z, u)
  {
  }

  lemma OneMoreChild(b: Bounds, before: Walk, walk: Walk, current: Id, step: Step, hop: nat)
    requires Fanned(b, walk) && |Children(walk, current)| < b.fanOut
    requires current in walk.hops && step.to !in walk.hops
    requires NextIsNew(before, walk) && before.hops.Keys <= walk.hops.Keys
    ensures var found := Discover(Record(walk, step.relation), current, step, hop);
      && Fanned(b, found) && NextIsNew(before, found) && SameElsewhere(walk, found, {current})
      && |Children(found, current)| == |Children(walk, current)| + 1
  {
    var found := Discover(Record(walk, step.relation), current, step, hop);
    assert Children(found, current) == Children(walk, current) + {step.to};
    forall u: Id | u != current
      ensures |Children(found, u)| <= b.fanOut
    {
      SameChildren(walk, found, {current}, u);
    }
  }

  lemma SameInTurn(a: Walk, m: Walk, z: Walk, units: set<Id>, more: set<Id>)
    requires SameElsewhere(a, m, units) && SameElsewhere(m, z, more) && units <= more
    ensures SameElsewhere(a, z, more)
  {
  }

  /** Recorded edges and the flag play no part. */
  lemma SameFamily(b: Bounds, before: Walk, walk: Walk, z: Walk)
    requires Fanned(b, walk) && NextIsNew(before, walk)
    requires z.hops == walk.hops && z.parentUnit == walk.parentUnit && z.next == walk.next
    ensures Fanned(b, z) && NextIsNew(before, z) && SameElsewhere(walk, z, {})
    ensures forall u: Id :: Children(z, u) == Children(walk, u)
  {
    forall u: Id
      ensures Children(z, u) == Children(walk, u)
    {
    }
  }

  lemma {:induction false} StepsKeepFanOut(w: World, b: Bounds, steps: seq<Step>, discovered: nat, current: Id,
                                           hop: nat,
                                           before: Walk, walk: Walk)
    requires Fanned(b, walk) && NextIsNew(before, walk) && before.hops.Keys <= walk.hops.Keys
    requires current in walk.hops && |Children(walk, current)| == discovered
    ensures var r := VisitSteps(w, b, steps, discovered, current, hop, walk);
      && Fanned(b, r) && NextIsNew(before, r) && SameElsewhere(walk, r, {current})
    decreases |steps|
  {
    var r := VisitSteps(w, b, steps, discovered, current, hop, walk);
    hide Fanned, NextIsNew, SameElsewhere, Children;
    if steps == [] || discovered >= b.fanOut {
      SameFamily(b, before, walk, r);
      SameInTurn(walk, r, r, {}, {current}) by { Unchanged(r, {current}); }
    } else {
      var step, rest := steps[0], steps[1..];
      var seen := Record(walk, step.relation);
      SameFamily(b, before, walk, seen);
      if step.to !in w.visible {
        StepsKeepFanOut(w, b, rest, discovered, current, hop, before, walk);
      } else if step.to in walk.hops {
        StepsKeepFanOut(w, b, rest, discovered, current, hop, before, seen);
        SameInTurn(walk, seen, r, {}, {current});
      } else if |walk.hops| >= b.maxNodes {
        SameFamily(b, before, walk, r);
        SameInTurn(walk, r, r, {}, {current}) by { Unchanged(r, {current}); }
      } else {
        var found := Discover(seen, current, step, hop);
        OneMoreChild(b, before, walk, current, step, hop);
        StepsKeepFanOut(w, b, rest, discovered + 1, current, hop, before, found);
        SameInTurn(walk, found, r, {current}, {current});
      }
    }
  }

  lemma Unchanged(walk: Walk, units: set<Id>)
    ensures SameElsewhere(walk, walk, units)
  {
  }

  /** The units still to be scanned have no children yet. */
  predicate Childless(walk: Walk, units: set<Id>) {
    forall v <- walk.parentUnit :: walk.parentUnit[v] !in units
  }

  lemma StaysChildless(a: Walk, z: Walk, current: Id, rest: seq<Id>)
    requires Distinct([current] + rest) && Childless(a, SetOf([current] + rest)) && SameElsewhere(a, z, {current})
    ensures Childless(z, SetOf(rest)) && Distinct(rest)
  {
    var all := [current] + rest;
    forall i | 0 <= i < |rest|
      ensures rest[i] != current && rest[i] in SetOf(all)
    {
      assert all[0] == current && rest[i] == all[i + 1];
    }
    forall i, j | 0 <= i < j < |rest|
      ensures rest[i] != rest[j]
    {
      assert rest[i] == all[i + 1] && rest[j] == all[j + 1];
    }
  }

  lemma NoChildren(walk: Walk, units: set<Id>, u: Id)
    requires Childless(walk, units) && u in units
    ensures Children(walk, u) == {}
  {
  }

  lemma {:induction false} FrontierKeepsFanOut(w: World, b: Bounds, frontier: seq<Id>, hop: nat, before: Walk,
                                               walk: Walk)
    requires Fanned(b, walk) && NextIsNew(before, walk) && before.hops.Keys <= walk.hops.Keys
    requires Distinct(frontier) && SetOf(frontier) <= before.hops.Keys && Childless(walk, SetOf(frontier))
    ensures var r := VisitFrontier(w, b, frontier, hop, walk);
      && Fanned(b, r) && NextIsNew(before, r) && SameElsewhere(walk, r, SetOf(frontier))
    decreases |frontier|
  {
    var r := VisitFrontier(w, b, frontier, hop, walk);
    hide Fanned, NextIsNew, SameElsewhere, Childless, Distinct, Children, VisitSteps;
    if frontier == [] {
      Unchanged(walk, SetOf(frontier));
    } else {
      var current, rest := frontier[0], frontier[1..];
      assert frontier == [current] + rest && current in SetOf(frontier) && SetOf(rest) <= SetOf(frontier);
      var after := VisitSteps(w, b, w.Steps(current), 0, current, hop, walk);
      NoChildren(walk, SetOf(frontier), current);
      StepsKeepFanOut(w, b, w.Steps(current), 0, current, hop, before, walk);
      StepsExtend(w, b, w.Steps(current), 0, current, hop, walk);
      StaysChildless(walk, after, current, rest);
      if |after.hops| >= b.maxNodes {
        Unchanged(after, SetOf(frontier));
      } else {
        FrontierKeepsFanOut(w, b, rest, hop, before, after);
        Unchanged(r, SetOf(frontier));
        SameInTurn(after, r, r, SetOf(rest), SetOf(frontier));
      }
      SameInTurn(walk, after, r, {current}, SetOf(frontier));
    }
  }

  /** What one level found has no children yet. */
  lemma NextIsChildless(before: Walk, after: Walk, frontier: set<Id>)
    requires NextIsNew(before, after) && frontier <= before.hops.Keys && SameElsewhere(before, after, frontier)
    requires forall v <- before.parentUnit :: before.parentUnit[v] in before.hops
    ensures Distinct(after.next) && SetOf(after.next) <= after.hops.Keys && Childless(after, SetOf(after.next))
  {
  }

  lemma ClearedIsFanned(b: Bounds, walk: Walk, frontier: set<Id>)
    requires Fanned(b, walk) && Childless(walk, frontier)
    ensures var cleared := walk.(next := []);
      Fanned(b, cleared) && NextIsNew(cleared, cleared) && Childless(cleared, frontier)
  {
    assert forall u: Id :: Children(walk.(next := []), u) == Children(walk, u);
  }

  predicate Ready(frontier: seq<Id>, walk: Walk) {
    Distinct(frontier) && SetOf(frontier) <= walk.hops.Keys && Childless(walk, SetOf(frontier))
  }

  lemma LevelKeepsFanOut(w: World, b: Bounds, hop: nat, frontier: seq<Id>, walk: Walk)
    requires Fanned(b, walk) && Ready(frontier, walk)
    ensures var after := VisitFrontier(w, b, frontier, hop, walk.(next := []));
      Fanned(b, after) && Ready(after.next, after)
  {
    var cleared := walk.(next := []);
    ClearedIsFanned(b, walk, SetOf(frontier));
    assert forall v <- walk.parentUnit :: walk.parentUnit[v] in walk.hops;
    hide Distinct, Children, VisitFrontier, NextIsNew, SameElsewhere, Fanned, Childless;
    FrontierKeepsFanOut(w, b, frontier, hop, cleared, cleared);
    NextIsChildless(cleared, VisitFrontier(w, b, frontier, hop, cleared), SetOf(frontier));
  }

  lemma {:induction false} LevelsKeepFanOut(w: World, b: Bounds, hop: nat, frontier: seq<Id>, walk: Walk)
    requires Fanned(b, walk) && Ready(frontier, walk)
    ensures Fanned(b, VisitLevels(w, b, hop, frontier, walk))
    decreases b.maxHops + 1 - hop
  {
    hide VisitFrontier, Fanned, Ready;
    if hop <= b.maxHops && frontier != [] {
      var after := VisitFrontier(w, b, frontier, hop, walk.(next := []));
      LevelKeepsFanOut(w, b, hop, frontier, walk);
      LevelsKeepFanOut(w, b, hop + 1, after.next, after);
    }
  }

  /** For every walk from distinct seeds, cut or not: at most fanOut nodes are
      discovered from any one unit. */
  lemma ExploredKeepsFanOut(w: World, b: Bounds, seeds: seq<Id>, truncated: bool)
    requires Distinct(seeds)
    ensures forall u: Id :: |Children(Explored(w, b, seeds, truncated), u)| <= b.fanOut
  {
    var start := Start(seeds, truncated);
    assert start.hops.Keys == SetOf(seeds);
    assert forall u: Id :: Children(start, u) == {};
    LevelsKeepFanOut(w, b, 1, seeds, start);
  }
}
