/** The bounded breadth-first walk over one compilation's relations: a
    specification by recursion, and what holds of it for every input. */
module Traversal {
  /** Identifiers are compared only for equality and order. */
  type Id = nat

  datatype RelationType = DerivedFrom | PartOf | Mentions | RelatedTo | Supports | Contradicts | Supersedes | SameTopic
  datatype Status = Active | Superseded | Conflicted | Deleted
  datatype Direction = Out | In | Both
  datatype Relation = Relation(id: Id, kind: RelationType, subjectUnit: Id, objectUnit: Id, status: Status,
                               sources: seq<nat>)

  /** One way to leave a unit: along a relation, to its other end. */
  datatype Step = Step(relation: Relation, to: Id)

  datatype Bounds = Bounds(maxHops: nat, maxNodes: nat, fanOut: nat)

  /** What the walk sees: the visible units and the sorted steps out of each unit. */
  datatype World = World(visible: set<Id>, adjacency: map<Id, seq<Step>>) {
    function Steps(u: Id): seq<Step> { if u in adjacency then adjacency[u] else [] }

    predicate Leads(u: Id, v: Id) { exists st <- Steps(u) :: st.to == v }

    /** There is a step along relation e from u to v. */
    predicate HasStep(u: Id, e: Id, v: Id) { exists st <- Steps(u) :: st.relation.id == e && st.to == v }

    /** Relation e leaves one of the given units for a visible unit. */
    ghost predicate Leaves(units: set<Id>, e: Id) {
      exists u <- units, st <- Steps(u) :: st.relation.id == e && st.to in visible
    }
  }

  datatype Walk = Walk(hops: map<Id, nat>, parentUnit: map<Id, Id>, parentEdge: map<Id, Id>,
                       edges: map<Id, Relation>, next: seq<Id>, truncated: bool) {
    predicate IsAt(u: Id, h: nat) { u in hops && hops[u] == h }
  }

  // ---------------------------------------------------------- specification

  function Discover(walk: Walk, current: Id, step: Step, hop: nat): Walk {
    walk.(hops := walk.hops[step.to := hop],
          parentUnit := walk.parentUnit[step.to := current],
          parentEdge := walk.parentEdge[step.to := step.relation.id],
          next := walk.next + [step.to])
  }

  function Record(walk: Walk, relation: Relation): Walk {
    walk.(edges := walk.edges[relation.id := relation])
  }

  /** The candidates of one unit, after so many discoveries from it. */
  function VisitSteps(w: World, b: Bounds, steps: seq<Step>, discovered: nat, current: Id, hop: nat, walk: Walk): Walk
    decreases |steps|
  {
    if steps == [] then walk
    else if discovered >= b.fanOut then walk.(truncated := true)
    else
      var step, rest := steps[0], steps[1..];
      if step.to !in w.visible then VisitSteps(w, b, rest, discovered, current, hop, walk)
      else
        var seen := Record(walk, step.relation);
        if step.to in walk.hops then VisitSteps(w, b, rest, discovered, current, hop, seen)
        else if |walk.hops| >= b.maxNodes then seen.(truncated := true)
        else VisitSteps(w, b, rest, discovered + 1, current, hop, Discover(seen, current, step, hop))
  }

  /** One level: once the node cap is reached the rest of the frontier is skipped. */
  function VisitFrontier(w: World, b: Bounds, frontier: seq<Id>, hop: nat, walk: Walk): Walk
    decreases |frontier|
  {
    if frontier == [] then walk
    else
      var after := VisitSteps(w, b, w.Steps(frontier[0]), 0, frontier[0], hop, walk);
      if |after.hops| >= b.maxNodes then after else VisitFrontier(w, b, frontier[1..], hop, after)
  }

  function VisitLevels(w: World, b: Bounds, hop: nat, frontier: seq<Id>, walk: Walk): Walk
    decreases b.maxHops + 1 - hop
  {
    if hop > b.maxHops || frontier == [] then walk
    else
      var after := VisitFrontier(w, b, frontier, hop, walk.(next := []));
      VisitLevels(w, b, hop + 1, after.next, after)
  }

  function Start(seeds: seq<Id>, truncated: bool): Walk {
    Walk(map s | s in seeds :: 0, map[], map[], map[], [], truncated)
  }

  function Explored(w: World, b: Bounds, seeds: seq<Id>, truncated: bool): Walk {
    VisitLevels(w, b, 1, seeds, Start(seeds, truncated))
  }

  // ------------------------------------------------------------ monotonicity

  /** A later walk keeps every node, distance, parent and edge id of an earlier one. */
  predicate Extends(a: Walk, z: Walk) {
    && a.hops.Keys <= z.hops.Keys && (forall v <- a.hops :: z.hops[v] == a.hops[v])
    && a.edges.Keys <= z.edges.Keys
    && (a.truncated ==> z.truncated)
  }

  lemma SubsetCardinality<T>(a: set<T>, b: set<T>)
    requires a <= b
    ensures |a| <= |b|
  {
    assert b == a + (b - a);
  }

  lemma {:induction false} StepsExtend(w: World, b: Bounds, steps: seq<Step>, discovered: nat, current: Id, hop: nat,
                                       walk: Walk)
    ensures Extends(walk, VisitSteps(w, b, steps, discovered, current, hop, walk))
    decreases |steps|
  {
    if steps != [] && discovered < b.fanOut {
      var step, rest := steps[0], steps[1..];
      var seen := Record(walk, step.relation);
      if step.to !in w.visible {
        StepsExtend(w, b, rest, discovered, current, hop, walk);
      } else if step.to in walk.hops {
        StepsExtend(w, b, rest, discovered, current, hop, seen);
      } else if |walk.hops| < b.maxNodes {
        StepsExtend(w, b, rest, discovered + 1, current, hop, Discover(seen, current, step, hop));
      }
    }
  }

  lemma {:induction false} FrontierExtends(w: World, b: Bounds, frontier: seq<Id>, hop: nat, walk: Walk)
    ensures Extends(walk, VisitFrontier(w, b, frontier, hop, walk))
    decreases |frontier|
  {
    if frontier != [] {
      StepsExtend(w, b, w.Steps(frontier[0]), 0, frontier[0], hop, walk);
      var after := VisitSteps(w, b, w.Steps(frontier[0]), 0, frontier[0], hop, walk);
      if |after.hops| < b.maxNodes {
        FrontierExtends(w, b, frontier[1..], hop, after);
      }
    }
  }

  lemma {:induction false} LevelsExtend(w: World, b: Bounds, hop: nat, frontier: seq<Id>, walk: Walk)
    ensures Extends(walk, VisitLevels(w, b, hop, frontier, walk))
    decreases b.maxHops + 1 - hop
  {
    if hop <= b.maxHops && frontier != [] {
      FrontierExtends(w, b, frontier, hop, walk.(next := []));
      var after := VisitFrontier(w, b, frontier, hop, walk.(next := []));
      LevelsExtend(w, b, hop + 1, after.next, after);
    }
  }

  // --------------------------------------------------------------- the tree

  /** The parent pointers form a forest of real steps rooted at the seeds. */
  predicate Rooted(w: World, b: Bounds, walk: Walk, seeds: set<Id>) {
    && seeds <= walk.hops.Keys <= w.visible
    && |walk.hops| <= b.maxNodes
    && (forall v <- walk.hops :: walk.hops[v] == 0 <==> v in seeds)
    && (forall v <- walk.hops :: v !in seeds ==>
          && v in walk.parentUnit && v in walk.parentEdge
          && walk.parentUnit[v] in walk.hops
          && walk.hops[v] == walk.hops[walk.parentUnit[v]] + 1
          && walk.parentEdge[v] in walk.edges
          && w.HasStep(walk.parentUnit[v], walk.parentEdge[v], v))
  }

  /** Every recorded edge is a step between a node and a visible unit. */
  predicate Recorded(w: World, walk: Walk) {
    forall e <- walk.edges :: walk.edges[e].id == e &&
      exists u <- walk.hops :: exists st <- w.Steps(u) :: st.relation == walk.edges[e] && st.to in w.visible
  }

  lemma RecordKeeps(w: World, b: Bounds, walk: Walk, seeds: set<Id>, current: Id, step: Step)
    requires Rooted(w, b, walk, seeds) && Recorded(w, walk)
    requires current in walk.hops && step in w.Steps(current) && step.to in w.visible
    ensures Rooted(w, b, Record(walk, step.relation), seeds) && Recorded(w, Record(walk, step.relation))
  {
  }

  lemma DiscoverKeepsRooted(w: World, b: Bounds, walk: Walk, seeds: set<Id>, current: Id, step: Step, hop: nat)
    requires Rooted(w, b, walk, seeds)
    requires current in walk.hops && walk.hops[current] + 1 == hop && step in w.Steps(current)
    requires step.to in w.visible && step.to !in walk.hops && |walk.hops| < b.maxNodes
    requires step.relation.id in walk.edges
    ensures Rooted(w, b, Discover(walk, current, step, hop), seeds)
  {
    var after := Discover(walk, current, step, hop);
    assert after.hops.Keys == walk.hops.Keys + {step.to};
    assert w.HasStep(current, step.relation.id, step.to);
  }

  lemma DiscoverKeepsRecorded(w: World, walk: Walk, current: Id, step: Step, hop: nat)
    requires Recorded(w, walk)
    ensures Recorded(w, Discover(walk, current, step, hop))
  {
    var after := Discover(walk, current, step, hop);
    forall e | e in after.edges
      ensures after.edges[e].id == e &&
        exists u <- after.hops :: exists st <- w.Steps(u) :: st.relation == after.edges[e] && st.to in w.visible
    {
      var u :| u in walk.hops && exists st <- w.Steps(u) :: st.relation == walk.edges[e] && st.to in w.visible;
      assert u in after.hops;
    }
  }

  lemma {:induction false} StepsKeepRooted(w: World, b: Bounds, steps: seq<Step>, discovered: nat, current: Id,
                                           hop: nat, walk: Walk, seeds: set<Id>)
    requires Rooted(w, b, walk, seeds) && Recorded(w, walk)
    requires current in walk.hops && walk.hops[current] + 1 == hop
    requires forall st <- steps :: st in w.Steps(current)
    ensures var r := VisitSteps(w, b, steps, discovered, current, hop, walk); Rooted(w, b, r, seeds) && Recorded(w, r)
    decreases |steps|
  {
    hide Rooted, Recorded;
    if steps != [] && discovered < b.fanOut {
      var step, rest := steps[0], steps[1..];
      if step.to !in w.visible {
        StepsKeepRooted(w, b, rest, discovered, current, hop, walk, seeds);
      } else {
        var seen := Record(walk, step.relation);
        RecordKeeps(w, b, walk, seeds, current, step);
        if step.to in walk.hops {
          StepsKeepRooted(w, b, rest, discovered, current, hop, seen, seeds);
        } else if |walk.hops| < b.maxNodes {
          DiscoverKeepsRooted(w, b, seen, seeds, current, step, hop);
          DiscoverKeepsRecorded(w, seen, current, step, hop);
          StepsKeepRooted(w, b, rest, discovered + 1, current, hop, Discover(seen, current, step, hop), seeds);
        } else {
          TruncationKeeps(w, b, seen, seeds);
        }
      }
    } else {
      TruncationKeeps(w, b, walk, seeds);
    }
  }

  lemma TruncationKeeps(w: World, b: Bounds, walk: Walk, seeds: set<Id>)
    requires Rooted(w, b, walk, seeds) && Recorded(w, walk)
    ensures Rooted(w, b, walk.(truncated := true), seeds) && Recorded(w, walk.(truncated := true))
  {
  }

  predicate NextAt(walk: Walk, hop: nat) { forall v <- walk.next :: v in walk.hops && walk.hops[v] == hop }

  lemma {:induction false} StepsNext(w: World, b: Bounds, steps: seq<Step>, discovered: nat, current: Id, hop: nat,
                                     walk: Walk)
    requires NextAt(walk, hop)
    ensures NextAt(VisitSteps(w, b, steps, discovered, current, hop, walk), hop)
    decreases |steps|
  {
    if steps != [] && discovered < b.fanOut {
      var step, rest := steps[0], steps[1..];
      var seen := Record(walk, step.relation);
      if step.to !in w.visible {
        StepsNext(w, b, rest, discovered, current, hop, walk);
      } else if step.to in walk.hops {
        StepsNext(w, b, rest, discovered, current, hop, seen);
      } else if |walk.hops| < b.maxNodes {
        var found := Discover(seen, current, step, hop);
        assert NextAt(found, hop);
        StepsNext(w, b, rest, discovered + 1, current, hop, found);
      } else {
        assert NextAt(seen.(truncated := true), hop);
      }
    } else {
      assert NextAt(walk.(truncated := true), hop);
    }
  }

  lemma {:induction false} FrontierKeepsRooted(w: World, b: Bounds, frontier: seq<Id>, hop: nat, walk: Walk,
                                               seeds: set<Id>)
    requires Rooted(w, b, walk, seeds) && Recorded(w, walk) && hop > 0
    requires forall v <- frontier :: v in walk.hops && walk.hops[v] == hop - 1
    requires NextAt(walk, hop)
    ensures var r := VisitFrontier(w, b, frontier, hop, walk);
      Rooted(w, b, r, seeds) && Recorded(w, r) && NextAt(r, hop)
    decreases |frontier|
  {
    hide Rooted, Recorded;
    if frontier != [] {
      var current := frontier[0];
      var after := VisitSteps(w, b, w.Steps(current), 0, current, hop, walk);
      StepsKeepRooted(w, b, w.Steps(current), 0, current, hop, walk, seeds);
      StepsNext(w, b, w.Steps(current), 0, current, hop, walk);
      StepsExtend(w, b, w.Steps(current), 0, current, hop, walk);
      if |after.hops| < b.maxNodes {
        FrontierKeepsRooted(w, b, frontier[1..], hop, after, seeds);
      }
    }
  }

  lemma {:induction false} LevelsKeepRooted(w: World, b: Bounds, hop: nat, frontier: seq<Id>, walk: Walk,
                                            seeds: set<Id>)
    requires Rooted(w, b, walk, seeds) && Recorded(w, walk) && hop > 0
    requires forall v <- frontier :: v in walk.hops && walk.hops[v] == hop - 1
    ensures var r := VisitLevels(w, b, hop, frontier, walk); Rooted(w, b, r, seeds) && Recorded(w, r)
    decreases b.maxHops + 1 - hop
  {
    if hop <= b.maxHops && frontier != [] {
      var cleared := walk.(next := []);
      assert Rooted(w, b, cleared, seeds) && Recorded(w, cleared);
      hide Rooted, Recorded;
      FrontierKeepsRooted(w, b, frontier, hop, cleared, seeds);
      var after := VisitFrontier(w, b, frontier, hop, cleared);
      LevelsKeepRooted(w, b, hop + 1, after.next, after, seeds);
    }
  }

  function SetOf(s: seq<Id>): set<Id> { set x | x in s }

  /** For every input, cut or not: at most maxNodes nodes, a forest of real
      steps rooted at the seeds, and only real edges. */
  lemma ExploredIsRooted(w: World, b: Bounds, seeds: seq<Id>, truncated: bool)
    requires SetOf(seeds) <= w.visible && |SetOf(seeds)| <= b.maxNodes
    ensures var r := Explored(w, b, seeds, truncated); Rooted(w, b, r, SetOf(seeds)) && Recorded(w, r)
  {
    var start := Start(seeds, truncated);
    assert start.hops.Keys == SetOf(seeds);
    LevelsKeepRooted(w, b, 1, seeds, start, SetOf(seeds));
  }

  // ------------------------------------------------------------------ paths

  /** The edge chain from the root down to v, following parents. */
  function Chain(w: World, b: Bounds, walk: Walk, seeds: set<Id>, v: Id): (Id, seq<Id>)
    requires Rooted(w, b, walk, seeds) && v in walk.hops
    decreases walk.hops[v]
  {
    if walk.hops[v] == 0 then (v, [])
    else
      var (root, chain) := Chain(w, b, walk, seeds, walk.parentUnit[v]);
      (root, chain + [walk.parentEdge[v]])
  }

  /** The relations lead from one unit to another through visible units. */
  ghost predicate ChainLeads(w: World, from: Id, chain: seq<Id>, to: Id)
    decreases |chain|
  {
    if chain == [] then from == to
    else
      exists mid <- w.visible ::
        w.HasStep(mid, chain[|chain| - 1], to) && ChainLeads(w, from, chain[..|chain| - 1], mid)
  }

  /** Every node's path starts at a seed, has exactly its hop count of recorded
      edges, and is a real chain of steps through visible units. */
  lemma {:induction false} ChainIsReal(w: World, b: Bounds, walk: Walk, seeds: set<Id>, v: Id)
    requires Rooted(w, b, walk, seeds) && v in walk.hops
    ensures var (root, chain) := Chain(w, b, walk, seeds, v);
      && root in seeds && |chain| == walk.hops[v]
      && (forall e <- chain :: e in walk.edges)
      && ChainLeads(w, root, chain, v)
    decreases walk.hops[v]
  {
    if walk.hops[v] > 0 {
      var parent := walk.parentUnit[v];
      ChainIsReal(w, b, walk, seeds, parent);
      var (root, chain) := Chain(w, b, walk, seeds, parent);
      assert (chain + [walk.parentEdge[v]])[..|chain|] == chain;
      assert parent in w.visible && w.HasStep(parent, walk.parentEdge[v], v);
    }
  }

  // ----------------------------------------------------------- completeness

  /** The visible units reachable from the seeds in at most k steps. */
  ghost function Within(w: World, seeds: set<Id>, k: nat): set<Id> {
    if k == 0 then seeds
    else Within(w, seeds, k - 1) + (set v | v in w.visible && exists u <- Within(w, seeds, k - 1) :: w.Leads(u, v))
  }

  /** A walk through visible units, each step of which the adjacency offers. */
  ghost predicate IsWalk(w: World, path: seq<Id>) {
    && path != []
    && (forall i :: 0 < i < |path| ==> path[i] in w.visible && w.Leads(path[i - 1], path[i]))
  }

  /** Within is reachability: v is within k steps iff a walk of at most k steps
      leads to it from a seed. */
  lemma {:induction false} WithinIsReachable(w: World, seeds: set<Id>, k: nat, v: Id)
    ensures v in Within(w, seeds, k) <==>
      exists path: seq<Id> :: IsWalk(w, path) && path[0] in seeds && path[|path| - 1] == v && |path| <= k + 1
  {
    if v in Within(w, seeds, k) {
      var path := WalkTo(w, seeds, k, v);
    }
    forall path: seq<Id> | IsWalk(w, path) && path[0] in seeds && path[|path| - 1] == v && |path| <= k + 1
      ensures v in Within(w, seeds, k)
    {
      WalkStaysWithin(w, seeds, path);
      WithinGrows(w, seeds, |path| - 1, k);
    }
  }

  lemma WalkGrows(w: World, path: seq<Id>, v: Id)
    requires IsWalk(w, path) && v in w.visible && w.Leads(path[|path| - 1], v)
    ensures IsWalk(w, path + [v])
  {
    hide World.Leads;
  }

  lemma {:induction false} WalkTo(w: World, seeds: set<Id>, k: nat, v: Id) returns (path: seq<Id>)
    requires v in Within(w, seeds, k)
    ensures IsWalk(w, path) && path[0] in seeds && path[|path| - 1] == v && |path| <= k + 1
  {
    if k == 0 {
      path := [v];
    } else if v in Within(w, seeds, k - 1) {
      path := WalkTo(w, seeds, k - 1, v);
    } else {
      var u :| u in Within(w, seeds, k - 1) && w.Leads(u, v);
      path := WalkTo(w, seeds, k - 1, u);
      hide Within;
      WalkGrows(w, path, v);
      path := path + [v];
    }
  }

  lemma {:induction false} WalkStaysWithin(w: World, seeds: set<Id>, path: seq<Id>)
    requires IsWalk(w, path) && path[0] in seeds
    ensures path[|path| - 1] in Within(w, seeds, |path| - 1)
    decreases |path|
  {
    if |path| > 1 {
      WalkStaysWithin(w, seeds, path[..|path| - 1]);
      assert w.Leads(path[|path| - 2], path[|path| - 1]);
    }
  }

  lemma {:induction false} WithinGrows(w: World, seeds: set<Id>, j: nat, k: nat)
    requires j <= k
    ensures Within(w, seeds, j) <= Within(w, seeds, k)
    decreases k
  {
    if j < k {
      WithinGrows(w, seeds, j, k - 1);
    }
  }

  function Targets(w: World, steps: seq<Step>): set<Id> { set st <- steps | st.to in w.visible :: st.to }

  function EdgeIds(w: World, steps: seq<Step>): set<Id> { set st <- steps | st.to in w.visible :: st.relation.id }

  predicate Uncut(b: Bounds, walk: Walk) { !walk.truncated && |walk.hops| < b.maxNodes }

  /** Exactly the given units and edges were added, at the given distance. */
  predicate Adds(a: Walk, z: Walk, targets: set<Id>, edges: set<Id>, hop: nat) {
    && z.hops.Keys == a.hops.Keys + targets
    && z.edges.Keys == a.edges.Keys + edges
    && (forall v <- z.hops :: z.hops[v] == if v in a.hops then a.hops[v] else hop)
    && SetOf(z.next) == SetOf(a.next) + (targets - a.hops.Keys)
  }

  lemma EarlierIsUncut(b: Bounds, a: Walk, z: Walk)
    requires Extends(a, z) && Uncut(b, z)
    ensures Uncut(b, a)
  {
    SubsetCardinality(a.hops.Keys, z.hops.Keys);
  }

  lemma AddsNothing(walk: Walk, hop: nat)
    ensures Adds(walk, walk, {}, {}, hop)
  {
  }

  lemma AddsInTurn(a: Walk, m: Walk, z: Walk, t1: set<Id>, e1: set<Id>, t2: set<Id>, e2: set<Id>, hop: nat)
    requires Adds(a, m, t1, e1, hop) && Adds(m, z, t2, e2, hop)
    ensures Adds(a, z, t1 + t2, e1 + e2, hop)
  {
  }

  lemma FirstStepAdds(w: World, walk: Walk, current: Id, step: Step, hop: nat)
    ensures var seen := Record(walk, step.relation);
      if step.to in walk.hops then Adds(walk, seen, {step.to}, {step.relation.id}, hop)
      else Adds(walk, Discover(seen, current, step, hop), {step.to}, {step.relation.id}, hop)
  {
  }

  lemma TargetsOfSteps(w: World, step: Step, rest: seq<Step>)
    ensures Targets(w, [step] + rest) == (if step.to in w.visible then {step.to} else {}) + Targets(w, rest)
    ensures EdgeIds(w, [step] + rest) == (if step.to in w.visible then {step.relation.id} else {}) + EdgeIds(w, rest)
  {
    var steps := [step] + rest;
    assert forall st <- steps :: st == step || st in rest;
    assert step in steps && forall st <- rest :: st in steps;
  }

  /** What the first of several steps does to a walk that ends uncut. */
  lemma UncutFirstStep(w: World, b: Bounds, step: Step, rest: seq<Step>, discovered: nat, current: Id, hop: nat,
                       walk: Walk)
    requires Uncut(b, VisitSteps(w, b, [step] + rest, discovered, current, hop, walk))
    ensures var seen := Record(walk, step.relation);
      VisitSteps(w, b, [step] + rest, discovered, current, hop, walk) ==
        if step.to !in w.visible then VisitSteps(w, b, rest, discovered, current, hop, walk)
        else if step.to in walk.hops then VisitSteps(w, b, rest, discovered, current, hop, seen)
        else VisitSteps(w, b, rest, discovered + 1, current, hop, Discover(seen, current, step, hop))
  {
    assert ([step] + rest)[1..] == rest;
    hide Discover;
  }

  lemma {:induction false} UncutStepsAddAll(w: World, b: Bounds, steps: seq<Step>, discovered: nat, current: Id,
                                            hop: nat, walk: Walk)
    requires Uncut(b, VisitSteps(w, b, steps, discovered, current, hop, walk))
    ensures Adds(walk, VisitSteps(w, b, steps, discovered, current, hop, walk), Targets(w, steps), EdgeIds(w, steps),
      hop)
    decreases |steps|
  {
    hide Adds, Discover, Targets, EdgeIds, Extends, Record, Uncut;
    if steps == [] {
      NoStepsNoTargets(w);
      AddsNothing(walk, hop);
    } else {
      var step, rest := steps[0], steps[1..];
      assert steps == [step] + rest;
      UncutFirstStep(w, b, step, rest, discovered, current, hop, walk);
      hide VisitSteps;
      TargetsOfSteps(w, step, rest);
      FirstStepAdds(w, walk, current, step, hop);
      var r, seen := VisitSteps(w, b, steps, discovered, current, hop, walk), Record(walk, step.relation);
      var ts, es := Targets(w, rest), EdgeIds(w, rest);
      if step.to !in w.visible {
        UncutStepsAddAll(w, b, rest, discovered, current, hop, walk);
        assert {} + ts == ts && {} + es == es;
      } else if step.to in walk.hops {
        UncutStepsAddAll(w, b, rest, discovered, current, hop, seen);
        AddsInTurn(walk, seen, r, {step.to}, {step.relation.id}, ts, es, hop);
      } else {
        var found := Discover(seen, current, step, hop);
        UncutStepsAddAll(w, b, rest, discovered + 1, current, hop, found);
        AddsInTurn(walk, found, r, {step.to}, {step.relation.id}, ts, es, hop);
      }
    }
  }

  lemma NoStepsNoTargets(w: World)
    ensures Targets(w, []) == {} && EdgeIds(w, []) == {}
  {
  }

  ghost function AllTargets(w: World, units: set<Id>): set<Id> {
    set v | v in w.visible && exists u <- units :: w.Leads(u, v)
  }

  function AllEdgeIds(w: World, frontier: seq<Id>): set<Id> {
    if frontier == [] then {} else EdgeIds(w, w.Steps(frontier[0])) + AllEdgeIds(w, frontier[1..])
  }

  lemma {:induction false} UncutFrontierAddsAll(w: World, b: Bounds, frontier: seq<Id>, hop: nat, walk: Walk)
    requires Uncut(b, VisitFrontier(w, b, frontier, hop, walk))
    ensures Adds(walk, VisitFrontier(w, b, frontier, hop, walk), AllTargets(w, SetOf(frontier)),
      AllEdgeIds(w, frontier), hop)
    decreases |frontier|
  {
    hide Adds, Targets, EdgeIds, Extends, SetOf, VisitSteps;
    if frontier == [] {
      NoFrontierNoTargets(w);
      AddsNothing(walk, hop);
    } else {
      var current, rest := frontier[0], frontier[1..];
      assert frontier == [current] + rest;
      var after := VisitSteps(w, b, w.Steps(current), 0, current, hop, walk);
      var r := VisitFrontier(w, b, frontier, hop, walk);
      if |after.hops| < b.maxNodes {
        FrontierExtends(w, b, rest, hop, after);
        EarlierIsUncut(b, after, r);
      }
      UncutStepsAddAll(w, b, w.Steps(current), 0, current, hop, walk);
      UncutFrontierAddsAll(w, b, rest, hop, after);
      AddsInTurn(walk, after, r, Targets(w, w.Steps(current)), EdgeIds(w, w.Steps(current)),
        AllTargets(w, SetOf(rest)), AllEdgeIds(w, rest), hop);
      TargetsOfCons(w, current, rest);
    }
  }

  lemma NoFrontierNoTargets(w: World)
    ensures AllTargets(w, SetOf([])) == {}
  {
  }

  lemma TargetsOfCons(w: World, current: Id, rest: seq<Id>)
    ensures AllTargets(w, SetOf([current] + rest)) == Targets(w, w.Steps(current)) + AllTargets(w, SetOf(rest))
  {
    assert SetOf([current] + rest) == {current} + SetOf(rest);
    forall v | v in w.visible
      ensures w.Leads(current, v) <==> v in Targets(w, w.Steps(current))
    {
    }
  }

  lemma {:induction false} EdgesOfFrontier(w: World, frontier: seq<Id>, e: Id)
    ensures e in AllEdgeIds(w, frontier) <==> w.Leaves(SetOf(frontier), e)
  {
    if frontier != [] {
      EdgesOfFrontier(w, frontier[1..], e);
      assert SetOf(frontier) == {frontier[0]} + SetOf(frontier[1..]);
    }
  }

  /** After level h: the nodes are those within h steps, at their true
      distances; the edges leave the nodes nearer than h. */
  ghost predicate ExactTo(w: World, walk: Walk, seeds: set<Id>, h: nat) {
    && walk.hops.Keys == Within(w, seeds, h)
    && (forall v <- walk.hops, k: nat :: k <= h ==> (v in Within(w, seeds, k) <==> walk.hops[v] <= k))
    && (forall e :: e in walk.edges <==> h > 0 && w.Leaves(Within(w, seeds, h - 1), e))
  }

  /** The outermost ring of a walk exact to h. */
  ghost function Ring(w: World, seeds: set<Id>, h: nat): set<Id> {
    if h == 0 then seeds else Within(w, seeds, h) - Within(w, seeds, h - 1)
  }

  lemma NextLevelNodes(w: World, seeds: set<Id>, h: nat)
    ensures Within(w, seeds, h + 1) == Within(w, seeds, h) + AllTargets(w, Ring(w, seeds, h))
    ensures forall e :: w.Leaves(Within(w, seeds, h), e) <==>
              (h > 0 && w.Leaves(Within(w, seeds, h - 1), e)) || w.Leaves(Ring(w, seeds, h), e)
  {
    if h > 0 {
      WithinGrows(w, seeds, h - 1, h);
      assert Within(w, seeds, h) == Within(w, seeds, h - 1) + Ring(w, seeds, h);
    }
  }

  lemma NextLevelIsExact(w: World, walk: Walk, after: Walk, seeds: set<Id>, h: nat, frontier: seq<Id>)
    requires ExactTo(w, walk, seeds, h) && SetOf(frontier) == Ring(w, seeds, h)
    requires Adds(walk.(next := []), after, AllTargets(w, SetOf(frontier)), AllEdgeIds(w, frontier), h + 1)
    ensures ExactTo(w, after, seeds, h + 1) && SetOf(after.next) == Ring(w, seeds, h + 1)
  {
    NextLevelNodes(w, seeds, h);
    forall e: Id
      ensures e in AllEdgeIds(w, frontier) <==> w.Leaves(SetOf(frontier), e)
    {
      EdgesOfFrontier(w, frontier, e);
    }
    forall k: nat | k <= h
      ensures Within(w, seeds, k) <= Within(w, seeds, h)
    {
      WithinGrows(w, seeds, k, h);
    }
  }

  lemma {:induction false} EmptyRingIsFinal(w: World, seeds: set<Id>, h: nat, k: nat)
    requires Ring(w, seeds, h) == {} && h <= k
    ensures Within(w, seeds, k) == Within(w, seeds, h)
    decreases k
  {
    if h < k {
      EmptyRingIsFinal(w, seeds, h, k - 1);
      NextLevelNodes(w, seeds, h);
      WithinUnfolds(w, seeds, h);
      WithinUnfolds(w, seeds, k - 1);
      hide Within, Ring, AllTargets;
      NoTargets(w);
    }
  }

  lemma WithinUnfolds(w: World, seeds: set<Id>, h: nat)
    ensures Within(w, seeds, h + 1) == Within(w, seeds, h) + AllTargets(w, Within(w, seeds, h))
  {
  }

  lemma NoTargets(w: World)
    ensures AllTargets(w, {}) == {}
  {
  }

  lemma SettledIsExact(w: World, walk: Walk, seeds: set<Id>, h: nat, k: nat)
    requires ExactTo(w, walk, seeds, h) && Ring(w, seeds, h) == {} && h <= k
    ensures ExactTo(w, walk, seeds, k)
  {
    forall j: nat | h <= j
      ensures Within(w, seeds, j) == Within(w, seeds, h)
    {
      EmptyRingIsFinal(w, seeds, h, j);
    }
    if h < k {
      NextLevelNodes(w, seeds, h);
      assert forall e :: !w.Leaves(Ring(w, seeds, h), e);
      assert forall v <- walk.hops :: walk.hops[v] <= h;
    }
  }

  lemma {:induction false} UncutLevelsAreExact(w: World, b: Bounds, hop: nat, frontier: seq<Id>, walk: Walk,
                                               seeds: set<Id>)
    requires 0 < hop <= b.maxHops + 1
    requires ExactTo(w, walk, seeds, hop - 1) && SetOf(frontier) == Ring(w, seeds, hop - 1)
    requires Uncut(b, VisitLevels(w, b, hop, frontier, walk))
    ensures ExactTo(w, VisitLevels(w, b, hop, frontier, walk), seeds, b.maxHops)
    decreases b.maxHops + 1 - hop
  {
    hide ExactTo, Within, Ring, Adds, Extends, VisitFrontier, AllTargets, AllEdgeIds, Uncut;
    if hop <= b.maxHops {
      if frontier == [] {
        SettledIsExact(w, walk, seeds, hop - 1, b.maxHops);
      } else {
        var after := VisitFrontier(w, b, frontier, hop, walk.(next := []));
        LevelsExtend(w, b, hop + 1, after.next, after);
        EarlierIsUncut(b, after, VisitLevels(w, b, hop + 1, after.next, after));
        UncutFrontierAddsAll(w, b, frontier, hop, walk.(next := []));
        NextLevelIsExact(w, walk, after, seeds, hop - 1, frontier);
        UncutLevelsAreExact(w, b, hop + 1, after.next, after, seeds);
      }
    }
  }

  /** When nothing was cut and fewer than maxNodes nodes came back, the nodes
      are exactly the visible units reachable in at most maxHops steps, every
      hop count is the true distance, and the edges are exactly the relations
      that leave nodes at distance below maxHops for visible units. */
  lemma UncutIsComplete(w: World, b: Bounds, seeds: seq<Id>, truncated: bool)
    requires b.maxHops > 0
    requires Uncut(b, Explored(w, b, seeds, truncated))
    ensures var r := Explored(w, b, seeds, truncated);
      && r.hops.Keys == Within(w, SetOf(seeds), b.maxHops)
      && (forall v <- r.hops, k: nat :: k <= b.maxHops ==> (v in Within(w, SetOf(seeds), k) <==> r.hops[v] <= k))
      && (forall e :: e in r.edges <==> w.Leaves(Within(w, SetOf(seeds), b.maxHops - 1), e))
  {
    var start := Start(seeds, truncated);
    assert start.hops.Keys == SetOf(seeds);
    assert ExactTo(w, start, SetOf(seeds), 0);
    UncutLevelsAreExact(w, b, 1, seeds, start, SetOf(seeds));
  }
}
