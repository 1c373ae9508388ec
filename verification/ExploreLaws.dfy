/** What holds of every graph the exploration builds. */
module ExploreLaws {
  import opened Traversal
  import opened Exactness
  import opened FanOut
  import opened Explore

  lemma {:induction false} OrderByLength(s: set<Id>, rank: map<Id, nat>)
    requires s <= rank.Keys
    ensures |OrderBy(s, rank)| == |s|
    decreases |s|
  {
    if s != {} {
      OrderByLength(s - {First(s, rank)}, rank);
    }
  }

  /** What the request makes of its inputs: the world, the seeds, and the walk. */
  function WorldOf(units: seq<Unit>, relations: seq<Relation>, opts: Options): World {
    World(VisibleUnits(units).Keys, Adjacency(relations, opts))
  }

  function SeedIds(units: seq<Unit>, hits: seq<Hit>, opts: Options): seq<Id> {
    Ids(PickSeeds(hits, VisibleUnits(units).Keys, opts.bounds.maxNodes).0)
  }

  predicate HasNode(nodes: seq<Node>, u: Id, hops: nat) { exists n <- nodes :: n.unit.id == u && n.hops == hops }

  predicate HasEdge(edges: seq<Edge>, e: Id) { exists x <- edges :: x.relation.id == e }

  lemma NodesOfWalk(walk: Walk, units: seq<Unit>, u: Id, h: nat)
    requires DistinctUnits(units) && walk.hops.Keys <= VisibleUnits(units).Keys
    ensures var nodes := NodesOf(walk, VisibleUnits(units));
      && |nodes| == |walk.hops|
      && (HasNode(nodes, u, h) <==> walk.IsAt(u, h))
  {
    VisibleUnitsAre(units);
    hide VisibleUnits, DistinctUnits;
    var ids, nodes := OrderBy(walk.hops.Keys, walk.hops), NodesOf(walk, VisibleUnits(units));
    OrderByLength(walk.hops.Keys, walk.hops);
    forall n | n in nodes
      ensures n.unit.id in walk.hops && n.hops == walk.hops[n.unit.id]
    {
      var i :| 0 <= i < |nodes| && nodes[i] == n;
      assert ids[i] in SetOf(ids);
    }
    if u in walk.hops {
      assert u in SetOf(ids);
      var i :| 0 <= i < |ids| && ids[i] == u;
      assert nodes[i].unit.id == u && nodes[i] in nodes;
    }
  }

  lemma EdgeAt(walk: Walk, i: nat)
    requires i < |EdgesOf(walk)|
    ensures var e := OrderBy(walk.edges.Keys, map k | k in walk.edges :: 0)[i];
      && e in walk.edges && EdgesOf(walk)[i].relation == walk.edges[e]
      && (EdgesOf(walk)[i].exact <==> walk.edges[e].sources != [])
      && (EdgesOf(walk)[i].conflict <==> walk.edges[e].kind == Contradicts)
  {
    var ids := OrderBy(walk.edges.Keys, map k | k in walk.edges :: 0);
    assert ids[i] in SetOf(ids);
  }

  lemma EdgesOfWalk(w: World, walk: Walk, e: Id)
    requires Recorded(w, walk)
    ensures HasEdge(EdgesOf(walk), e) <==> e in walk.edges
  {
    assert forall k <- walk.edges :: walk.edges[k].id == k;
    hide Recorded;
    var ids, edges := OrderBy(walk.edges.Keys, map k | k in walk.edges :: 0), EdgesOf(walk);
    forall x | x in edges
      ensures x.relation.id in walk.edges
    {
      var i :| 0 <= i < |edges| && edges[i] == x;
      EdgeAt(walk, i);
    }
    if e in walk.edges {
      assert e in SetOf(ids);
      var i :| 0 <= i < |ids| && ids[i] == e;
      EdgeAt(walk, i);
      assert edges[i].relation.id == e && edges[i] in edges;
    }
  }

  function WalkOf(units: seq<Unit>, relations: seq<Relation>, hits: seq<Hit>, opts: Options): Walk {
    var w := WorldOf(units, relations, opts);
    Explored(w, opts.bounds, SeedIds(units, hits, opts), PickSeeds(hits, w.visible, opts.bounds.maxNodes).1)
  }

  lemma WalkIsExplored(units: seq<Unit>, relations: seq<Relation>, hits: seq<Hit>, opts: Options)
    ensures var w := WorldOf(units, relations, opts);
      WalkOf(units, relations, hits, opts) ==
        Explored(w, opts.bounds, SeedIds(units, hits, opts), PickSeeds(hits, w.visible, opts.bounds.maxNodes).1)
  {
  }

  lemma WalkIsRooted(units: seq<Unit>, relations: seq<Relation>, hits: seq<Hit>, opts: Options)
    ensures var w, seeds, walk := WorldOf(units, relations, opts), SetOf(SeedIds(units, hits, opts)),
      WalkOf(units, relations, hits, opts);
      && seeds <= w.visible && |seeds| <= opts.bounds.maxNodes
      && Rooted(w, opts.bounds, walk, seeds) && Recorded(w, walk) && walk.hops.Keys <= VisibleUnits(units).Keys
      && forall id <- OrderBy(walk.hops.Keys, walk.hops) :: id in walk.hops
  {
    var w, seeds, walk := WorldOf(units, relations, opts), SeedIds(units, hits, opts),
      WalkOf(units, relations, hits, opts);
    SeedsAreVisible(hits, w.visible, opts.bounds.maxNodes);
    hide Explored, Rooted, Recorded, PickSeeds, OrderBy, VisibleUnits, Adjacency;
    ExploredIsRooted(w, opts.bounds, seeds, PickSeeds(hits, w.visible, opts.bounds.maxNodes).1);
    RootedNodesAreVisible(w, opts.bounds, walk, SetOf(seeds));
    var order := OrderBy(walk.hops.Keys, walk.hops);
    assert forall id <- order :: id in SetOf(order);
  }

  /** A graph is its walk's nodes, edges and paths, also when there is no seed. */
  lemma BuiltFromWalk(units: seq<Unit>, relations: seq<Relation>, hits: seq<Hit>, opts: Options)
    ensures var g, w, seeds := Built(units, relations, hits, opts), WorldOf(units, relations, opts),
      SetOf(SeedIds(units, hits, opts));
      var walk := WalkOf(units, relations, hits, opts);
      && Rooted(w, opts.bounds, walk, seeds) && walk.hops.Keys <= VisibleUnits(units).Keys
      && (forall id <- OrderBy(walk.hops.Keys, walk.hops) :: id in walk.hops)
      && g.truncated == walk.truncated && g.nodes == NodesOf(walk, VisibleUnits(units)) && g.edges == EdgesOf(walk)
      && g.paths == PathsFrom(w, opts.bounds, walk, seeds, OrderBy(walk.hops.Keys, walk.hops))
  {
    WalkIsRooted(units, relations, hits, opts);
    if SeedIds(units, hits, opts) == [] {
      var walk := WalkOf(units, relations, hits, opts);
      assert walk.hops == map[] && walk.edges == map[];
      hide Rooted, PickSeeds, Adjacency, VisibleUnits;
    } else {
      hide Rooted, PickSeeds, PathsFrom, NodesOf, EdgesOf, VisibleUnits, Adjacency, OrderBy, Explored;
    }
  }

  /** A graph shows exactly its walk. */
  lemma BuiltShowsWalk(units: seq<Unit>, relations: seq<Relation>, hits: seq<Hit>, opts: Options)
    requires DistinctUnits(units)
    ensures var g, walk := Built(units, relations, hits, opts), WalkOf(units, relations, hits, opts);
      && g.truncated == walk.truncated && |g.nodes| == |walk.hops|
      && (forall u: Id, h: nat :: HasNode(g.nodes, u, h) <==> walk.IsAt(u, h))
      && (forall e: Id :: HasEdge(g.edges, e) <==> e in walk.edges)
  {
    var g, walk := Built(units, relations, hits, opts), WalkOf(units, relations, hits, opts);
    WalkIsRooted(units, relations, hits, opts);
    BuiltFromWalk(units, relations, hits, opts);
    hide Built, WalkOf, Rooted, Recorded, PathsFrom, NodesOf, EdgesOf, VisibleUnits, OrderBy, HasNode, HasEdge, WorldOf;
    forall u: Id, h: nat
      ensures |g.nodes| == |walk.hops|
      ensures HasNode(g.nodes, u, h) <==> walk.IsAt(u, h)
    {
      NodesOfWalk(walk, units, u, h);
    }
    forall e: Id
      ensures HasEdge(g.edges, e) <==> e in walk.edges
    {
      EdgesOfWalk(WorldOf(units, relations, opts), walk, e);
    }
    NodesOfWalk(walk, units, 0, 0);
  }

  /** The path's edges are recorded and lead, in exactly its hop count, from its seed to its unit. */
  ghost predicate RealPath(w: World, walk: Walk, seeds: set<Id>, p: Path) {
    && walk.IsAt(p.unit, p.hops) && p.seed in seeds
    && |p.edges| == p.hops > 0 && ChainLeads(w, p.seed, p.edges, p.unit)
    && forall e <- p.edges :: e in walk.edges
  }

  lemma {:induction false} PathsAreOfNodes(w: World, b: Bounds, walk: Walk, seeds: set<Id>, ids: seq<Id>)
    requires Rooted(w, b, walk, seeds) && forall id <- ids :: id in walk.hops
    ensures forall p <- PathsFrom(w, b, walk, seeds, ids) :: RealPath(w, walk, seeds, p)
    ensures forall id <- ids :: walk.hops[id] > 0 ==>
      exists p <- PathsFrom(w, b, walk, seeds, ids) :: p.unit == id
  {
    if ids != [] {
      PathsAreOfNodes(w, b, walk, seeds, ids[1..]);
      ChainIsReal(w, b, walk, seeds, ids[0]);
      hide Rooted, ChainLeads, Chain;
      var all, rest := PathsFrom(w, b, walk, seeds, ids), PathsFrom(w, b, walk, seeds, ids[1..]);
      if walk.hops[ids[0]] > 0 {
        assert RealPath(w, walk, seeds, all[0]);
        assert all == [all[0]] + rest;
        assert all[0] in all && forall p <- rest :: p in all;
      }
    }
  }

  lemma {:induction false} PathsComeInOrder(w: World, b: Bounds, walk: Walk, seeds: set<Id>, ids: seq<Id>)
    requires Rooted(w, b, walk, seeds) && InOrder(ids, walk.hops)
    ensures PathsAscend(PathsFrom(w, b, walk, seeds, ids))
    ensures forall p <- PathsFrom(w, b, walk, seeds, ids) :: p.unit in ids && walk.IsAt(p.unit, p.hops)
  {
    hide Rooted, Chain;
    if ids != [] {
      var rest := PathsFrom(w, b, walk, seeds, ids[1..]);
      assert forall id <- ids :: id in walk.hops;
      PathsComeInOrder(w, b, walk, seeds, ids[1..]);
      assert forall p <- rest :: p.unit in ids[1..] && ids[0] != p.unit && Precedes(walk.hops, ids[0], p.unit);
    }
  }

  // ------------------------------------------------------------------ order

  predicate NodesAscend(nodes: seq<Node>) {
    forall i, j :: 0 <= i < j < |nodes| ==>
      nodes[i].hops < nodes[j].hops || (nodes[i].hops == nodes[j].hops && nodes[i].unit.id < nodes[j].unit.id)
  }

  predicate EdgesAscend(edges: seq<Edge>) {
    forall i, j :: 0 <= i < j < |edges| ==> edges[i].relation.id < edges[j].relation.id
  }

  predicate PathsAscend(paths: seq<Path>) {
    forall i, j :: 0 <= i < j < |paths| ==>
      paths[i].hops < paths[j].hops || (paths[i].hops == paths[j].hops && paths[i].unit < paths[j].unit)
  }

  lemma NodesComeInOrder(walk: Walk, units: seq<Unit>)
    requires DistinctUnits(units) && walk.hops.Keys <= VisibleUnits(units).Keys
    ensures var nodes := NodesOf(walk, VisibleUnits(units));
      && NodesAscend(nodes)
      && forall n <- nodes :: n.unit in units && n.unit.visible && (n.isSeed <==> n.hops == 0)
  {
    VisibleUnitsAre(units);
    hide VisibleUnits, DistinctUnits;
    var ids, nodes := OrderBy(walk.hops.Keys, walk.hops), NodesOf(walk, VisibleUnits(units));
    OrderByOrders(walk.hops.Keys, walk.hops);
    forall i | 0 <= i < |nodes|
      ensures ids[i] in VisibleUnits(units) && nodes[i].unit == VisibleUnits(units)[ids[i]]
        && nodes[i].hops == walk.hops[ids[i]]
    {
      assert ids[i] in SetOf(ids);
    }
  }

  lemma EdgesComeInOrder(walk: Walk)
    requires forall e <- walk.edges :: walk.edges[e].id == e
    ensures EdgesAscend(EdgesOf(walk))
  {
    var rank := map k | k in walk.edges :: 0;
    var ids, edges := OrderBy(walk.edges.Keys, rank), EdgesOf(walk);
    OrderByOrders(walk.edges.Keys, rank);
    forall i, j | 0 <= i < j < |edges|
      ensures edges[i].relation.id < edges[j].relation.id
    {
      EdgeAt(walk, i);
      EdgeAt(walk, j);
      hide OrderBy, EdgesOf;
      assert ids[i] != ids[j] && Precedes(rank, ids[i], ids[j]);
    }
  }

  lemma StepsAreInputs(units: seq<Unit>, relations: seq<Relation>, opts: Options, u: Id, st: Step)
    requires st in WorldOf(units, relations, opts).Steps(u)
    ensures st.relation in relations && Eligible(st.relation, opts) && st in StepsOf(st.relation, u, opts)
  {
    var unsorted := Unsorted(relations, u, opts);
    UnsortedSteps(relations, u, opts);
    SortSorts(unsorted);
    hide Sort, Unsorted;
    assert st in multiset(Sort(unsorted)) && st in multiset(unsorted);
  }

  /** Every listed edge is an eligible relation of the input, shown with its evidence
      status, and joins a node to a visible unit in a direction the request allows. */
  ghost predicate RealEdge(g: Graph, units: seq<Unit>, relations: seq<Relation>, opts: Options, x: Edge) {
    && x.relation in relations && Eligible(x.relation, opts)
    && (x.exact <==> x.relation.sources != []) && (x.conflict <==> x.relation.kind == Contradicts)
    && exists u: Id, h: nat, st: Step :: HasNode(g.nodes, u, h) && st in StepsOf(x.relation, u, opts)
                                      && st.to in VisibleUnits(units)
  }

  lemma RecordedIsReal(g: Graph, units: seq<Unit>, relations: seq<Relation>, opts: Options, walk: Walk, x: Edge)
    requires Recorded(WorldOf(units, relations, opts), walk) && x in EdgesOf(walk)
    requires forall u: Id, h: nat :: HasNode(g.nodes, u, h) <==> walk.IsAt(u, h)
    ensures RealEdge(g, units, relations, opts, x)
  {
    var w := WorldOf(units, relations, opts);
    var i :| 0 <= i < |EdgesOf(walk)| && EdgesOf(walk)[i] == x;
    EdgeAt(walk, i);
    var e := x.relation.id;
    var u :| u in walk.hops && exists st <- w.Steps(u) :: st.relation == walk.edges[e] && st.to in w.visible;
    var st :| st in w.Steps(u) && st.relation == walk.edges[e] && st.to in w.visible;
    hide Recorded, EdgesOf, HasNode, StepsOf, Eligible, VisibleUnits;
    StepsAreInputs(units, relations, opts, u, st);
    assert walk.IsAt(u, walk.hops[u]);
    assert HasNode(g.nodes, u, walk.hops[u]);
  }

  // -------------------------------------------------------------- soundness

  /** At most maxNodes visible units of the input, nearest first and by id at one
      distance, none twice and none farther than maxHops; the seeds are those at distance 0. */
  predicate SoundNodes(g: Graph, units: seq<Unit>, seeds: set<Id>, b: Bounds) {
    && |g.nodes| <= b.maxNodes && NodesAscend(g.nodes)
    && (forall n <- g.nodes ::
          && n.unit in units && n.unit.visible && n.hops <= b.maxHops
          && (n.isSeed <==> n.hops == 0) && (n.isSeed <==> n.unit.id in seeds))
    && (forall s <- seeds :: HasNode(g.nodes, s, 0))
  }

  ghost predicate SoundEdges(g: Graph, units: seq<Unit>, relations: seq<Relation>, opts: Options) {
    EdgesAscend(g.edges) && forall x <- g.edges :: RealEdge(g, units, relations, opts, x)
  }

  /** A real chain of listed edges from a seed to a node, of exactly the node's hop
      count, through visible units. */
  ghost predicate SoundPath(g: Graph, w: World, seeds: set<Id>, p: Path) {
    && p.seed in seeds && HasNode(g.nodes, p.unit, p.hops)
    && |p.edges| == p.hops > 0 && ChainLeads(w, p.seed, p.edges, p.unit)
    && forall e <- p.edges :: HasEdge(g.edges, e)
  }

  /** One sound path for every node that is no seed, in node order. */
  ghost predicate SoundPaths(g: Graph, w: World, seeds: set<Id>) {
    && PathsAscend(g.paths)
    && (forall p <- g.paths :: SoundPath(g, w, seeds, p))
    && (forall u: Id, h: nat :: HasNode(g.nodes, u, h) && h > 0 ==> exists p <- g.paths :: p.unit == u)
  }

  lemma NodesAreSound(g: Graph, units: seq<Unit>, w: World, walk: Walk, seeds: set<Id>, b: Bounds)
    requires DistinctUnits(units) && Rooted(w, b, walk, seeds) && HopsUpTo(walk, b.maxHops)
    requires walk.hops.Keys <= VisibleUnits(units).Keys && g.nodes == NodesOf(walk, VisibleUnits(units))
    requires |g.nodes| == |walk.hops| && forall u: Id, h: nat :: HasNode(g.nodes, u, h) <==> walk.IsAt(u, h)
    ensures SoundNodes(g, units, seeds, b)
  {
    NodesComeInOrder(walk, units);
    hide NodesAscend, NodesOf, VisibleUnits, DistinctUnits;
    forall n | n in g.nodes
      ensures walk.IsAt(n.unit.id, n.hops)
    {
      assert HasNode(g.nodes, n.unit.id, n.hops);
    }
  }

  lemma EdgesAreSound(g: Graph, units: seq<Unit>, relations: seq<Relation>, opts: Options, walk: Walk)
    requires Recorded(WorldOf(units, relations, opts), walk) && g.edges == EdgesOf(walk)
    requires forall u: Id, h: nat :: HasNode(g.nodes, u, h) <==> walk.IsAt(u, h)
    ensures SoundEdges(g, units, relations, opts)
  {
    EdgesComeInOrder(walk);
    hide EdgesAscend, EdgesOf, RealEdge, Recorded, HasNode;
    forall x | x in g.edges
      ensures RealEdge(g, units, relations, opts, x)
    {
      RecordedIsReal(g, units, relations, opts, walk, x);
    }
  }

  lemma RealIsSound(g: Graph, w: World, walk: Walk, seeds: set<Id>, p: Path)
    requires RealPath(w, walk, seeds, p)
    requires forall u: Id, h: nat :: HasNode(g.nodes, u, h) <==> walk.IsAt(u, h)
    requires forall e: Id :: HasEdge(g.edges, e) <==> e in walk.edges
    ensures SoundPath(g, w, seeds, p)
  {
    hide HasNode, HasEdge, ChainLeads;
  }

  lemma PathsAreSound(g: Graph, w: World, walk: Walk, seeds: set<Id>, b: Bounds, order: seq<Id>)
    requires Rooted(w, b, walk, seeds) && order == OrderBy(walk.hops.Keys, walk.hops)
    requires forall id <- order :: id in walk.hops
    requires g.paths == PathsFrom(w, b, walk, seeds, order)
    requires forall u: Id, h: nat :: HasNode(g.nodes, u, h) <==> walk.IsAt(u, h)
    requires forall e: Id :: HasEdge(g.edges, e) <==> e in walk.edges
    ensures SoundPaths(g, w, seeds)
  {
    OrderByOrders(walk.hops.Keys, walk.hops);
    assert forall id <- walk.hops :: id in SetOf(order);
    PathsAreOfNodes(w, b, walk, seeds, order);
    PathsComeInOrder(w, b, walk, seeds, order);
    hide Rooted, OrderBy, PathsFrom, HasNode, HasEdge, PathsAscend, InOrder, SoundPath;
    forall p | p in g.paths
      ensures SoundPath(g, w, seeds, p)
    {
      RealIsSound(g, w, walk, seeds, p);
    }
    hide RealPath;
  }

  /** Every graph, cut or not, has sound nodes, edges and paths. */
  lemma BuiltIsSound(units: seq<Unit>, relations: seq<Relation>, hits: seq<Hit>, opts: Options)
    requires DistinctUnits(units)
    ensures var g, seeds := Built(units, relations, hits, opts), SetOf(SeedIds(units, hits, opts));
      && SoundNodes(g, units, seeds, opts.bounds)
      && SoundEdges(g, units, relations, opts)
      && SoundPaths(g, WorldOf(units, relations, opts), seeds)
  {
    var w, seeds, b := WorldOf(units, relations, opts), SeedIds(units, hits, opts), opts.bounds;
    var g, walk := Built(units, relations, hits, opts), WalkOf(units, relations, hits, opts);
    WalkIsRooted(units, relations, hits, opts);
    BuiltFromWalk(units, relations, hits, opts);
    BuiltShowsWalk(units, relations, hits, opts);
    ExploredKeepsHops(w, b, seeds, PickSeeds(hits, w.visible, b.maxNodes).1);
    hide *;
    NodesAreSound(g, units, w, walk, SetOf(seeds), b);
    EdgesAreSound(g, units, relations, opts, walk);
    PathsAreSound(g, w, walk, SetOf(seeds), b, OrderBy(walk.hops.Keys, walk.hops));
  }

  /** The whole result is the same for every order of units and relations. */
  lemma BuiltIsOrderFree(units: seq<Unit>, units': seq<Unit>, relations: seq<Relation>, relations': seq<Relation>,
                         hits: seq<Hit>, opts: Options)
    requires DistinctUnits(units) && DistinctUnits(units') && multiset(units) == multiset(units')
    requires DistinctRelations(relations) && multiset(relations) == multiset(relations')
    ensures Built(units, relations, hits, opts) == Built(units', relations', hits, opts)
  {
    VisibleUnitsOrderFree(units, units');
    AdjacencyOrderFree(relations, relations', opts);
  }

  // ---------------------------------------------------------------- fan-out

  /** At every unit a relation id tells one step. */
  ghost predicate StepsTold(w: World) { forall u: Id :: IdsTellSteps(w.Steps(u)) }

  lemma WorldTellsSteps(units: seq<Unit>, relations: seq<Relation>, opts: Options)
    requires DistinctRelations(relations)
    ensures StepsTold(WorldOf(units, relations, opts))
  {
    hide Sort, Unsorted, DistinctRelations, IdsTellSteps;
    forall u: Id
      ensures IdsTellSteps(WorldOf(units, relations, opts).Steps(u))
    {
      StepsAreTold(relations, u, opts);
      SortKeepsTold(Unsorted(relations, u, opts));
      NoStepsTold();
    }
  }

  lemma SortKeepsTold(steps: seq<Step>)
    requires IdsTellSteps(steps)
    ensures IdsTellSteps(Sort(steps))
  {
    SortSorts(steps);
    hide Sort;
    assert forall st :: st in Sort(steps) ==> st in multiset(Sort(steps)) && st in multiset(steps);
  }

  lemma NoStepsTold()
    ensures IdsTellSteps([])
  {
  }

  /** A node's seed and chain of edges tell which node it is. */
  lemma {:induction false} ChainTellsUnit(w: World, b: Bounds, walk: Walk, seeds: set<Id>, u: Id, v: Id)
    requires Rooted(w, b, walk, seeds) && StepsTold(w) && u in walk.hops && v in walk.hops
    requires Chain(w, b, walk, seeds, u) == Chain(w, b, walk, seeds, v)
    ensures u == v
    decreases walk.hops[u]
  {
    if walk.hops[u] > 0 && walk.hops[v] > 0 {
      var p, q := walk.parentUnit[u], walk.parentUnit[v];
      var (pr, pc) := Chain(w, b, walk, seeds, p);
      var (qr, qc) := Chain(w, b, walk, seeds, q);
      LastIsSame(pc, walk.parentEdge[u], qc, walk.parentEdge[v]);
      ChainTellsUnit(w, b, walk, seeds, p, q);
      SameStepSameUnit(w, p, walk.parentEdge[u], u, v);
    }
  }

  lemma LastIsSame(a: seq<Id>, x: Id, z: seq<Id>, y: Id)
    requires a + [x] == z + [y]
    ensures a == z && x == y
  {
    assert a == (a + [x])[..|a + [x]| - 1] && z == (z + [y])[..|z + [y]| - 1];
    assert x == (a + [x])[|a + [x]| - 1] && y == (z + [y])[|z + [y]| - 1];
  }

  lemma SameStepSameUnit(w: World, p: Id, e: Id, u: Id, v: Id)
    requires StepsTold(w) && w.HasStep(p, e, u) && w.HasStep(p, e, v)
    ensures u == v
  {
    assert IdsTellSteps(w.Steps(p));
  }

  lemma {:induction false} PathsAreChains(w: World, b: Bounds, walk: Walk, seeds: set<Id>, ids: seq<Id>)
    requires Rooted(w, b, walk, seeds) && forall id <- ids :: id in walk.hops
    ensures forall p <- PathsFrom(w, b, walk, seeds, ids) ::
      p.unit in walk.hops && walk.hops[p.unit] > 0 && Chain(w, b, walk, seeds, p.unit) == (p.seed, p.edges)
  {
    hide Rooted, Chain;
    if ids != [] {
      PathsAreChains(w, b, walk, seeds, ids[1..]);
    }
  }

  /** The units whose paths differ in their last edge only: those discovered from one unit. */
  function Siblings(g: Graph, seed: Id, chain: seq<Id>): set<Id> {
    set p <- g.paths | p.seed == seed && p.edges != [] && p.edges[..|p.edges| - 1] == chain :: p.unit
  }

  lemma ParentHasChain(w: World, b: Bounds, walk: Walk, seeds: set<Id>, u: Id, seed: Id, edges: seq<Id>)
    requires Rooted(w, b, walk, seeds) && u in walk.hops && walk.hops[u] > 0
    requires Chain(w, b, walk, seeds, u) == (seed, edges)
    ensures u in walk.parentUnit && walk.parentUnit[u] in walk.hops && edges != []
    ensures Chain(w, b, walk, seeds, walk.parentUnit[u]) == (seed, edges[..|edges| - 1])
  {
    var (root, chain) := Chain(w, b, walk, seeds, walk.parentUnit[u]);
    assert edges == chain + [walk.parentEdge[u]];
  }

  lemma SiblingsAreChildren(g: Graph, w: World, b: Bounds, walk: Walk, seeds: set<Id>, seed: Id, chain: seq<Id>)
    requires Rooted(w, b, walk, seeds) && StepsTold(w)
    requires forall p <- g.paths ::
      p.unit in walk.hops && walk.hops[p.unit] > 0 && Chain(w, b, walk, seeds, p.unit) == (p.seed, p.edges)
    ensures exists u: Id :: Siblings(g, seed, chain) <= Children(walk, u)
  {
    if Siblings(g, seed, chain) == {} {
      assert Siblings(g, seed, chain) <= Children(walk, 0);
    } else {
      var v :| v in Siblings(g, seed, chain);
      var p :| p in g.paths && p.unit == v && p.seed == seed && p.edges != [] && p.edges[..|p.edges| - 1] == chain;
      ParentHasChain(w, b, walk, seeds, v, seed, p.edges);
      hide Chain, Rooted, StepsTold;
      var u := walk.parentUnit[v];
      forall q | q in g.paths && q.seed == seed && q.edges != [] && q.edges[..|q.edges| - 1] == chain
        ensures q.unit in Children(walk, u)
      {
        ParentHasChain(w, b, walk, seeds, q.unit, seed, q.edges);
        ChainTellsUnit(w, b, walk, seeds, walk.parentUnit[q.unit], u);
      }
      assert Siblings(g, seed, chain) <= Children(walk, u);
    }
  }

  predicate DistinctHits(hits: seq<Hit>) { forall i, j :: 0 <= i < j < |hits| ==> hits[i].unit != hits[j].unit }

  lemma {:induction false} SeedsAreDistinct(hits: seq<Hit>, visible: set<Id>, room: nat)
    requires DistinctHits(hits)
    ensures DistinctHits(PickSeeds(hits, visible, room).0)
  {
    if hits != [] {
      var less := if hits[0].unit in visible && room > 0 then room - 1 else room;
      SeedsAreDistinct(hits[1..], visible, less);
      SeedsAreHits(hits[1..], visible, less);
      var rest := PickSeeds(hits[1..], visible, less).0;
      hide PickSeeds;
      forall i | 0 <= i < |rest|
        ensures hits[0].unit != rest[i].unit
      {
        assert rest[i] in rest && rest[i] in hits[1..];
      }
    }
  }

  /** In every graph from distinct hits, cut or not, at most fanOut units were discovered
      from any one unit: no more paths than that differ in their last edge only. */
  lemma BuiltKeepsFanOut(units: seq<Unit>, relations: seq<Relation>, hits: seq<Hit>, opts: Options,
                         seed: Id, chain: seq<Id>)
    requires DistinctUnits(units) && DistinctRelations(relations) && DistinctHits(hits)
    ensures |Siblings(Built(units, relations, hits, opts), seed, chain)| <= opts.bounds.fanOut
  {
    var w, seeds, b := WorldOf(units, relations, opts), SeedIds(units, hits, opts), opts.bounds;
    var g, walk := Built(units, relations, hits, opts), WalkOf(units, relations, hits, opts);
    SeedsAreDistinct(hits, w.visible, b.maxNodes);
    assert Distinct(seeds);
    hide *;
    WalkIsExplored(units, relations, hits, opts);
    BuiltFromWalk(units, relations, hits, opts);
    WorldTellsSteps(units, relations, opts);
    PathsAreChains(w, b, walk, SetOf(seeds), OrderBy(walk.hops.Keys, walk.hops));
    SiblingsAreChildren(g, w, b, walk, SetOf(seeds), seed, chain);
    var u: Id :| Siblings(g, seed, chain) <= Children(walk, u);
    ExploredKeepsFanOut(w, b, seeds, PickSeeds(hits, w.visible, b.maxNodes).1);
    SubsetCardinality(Siblings(g, seed, chain), Children(walk, u));
  }

  // ------------------------------------------------------------ completeness

  lemma RoomyWalkIsExact(w: World, b: Bounds, seeds: seq<Id>, cut: bool)
    requires SetOf(seeds) <= w.visible && b.maxHops > 0
    requires |Within(w, SetOf(seeds), b.maxHops)| < b.maxNodes && !Explored(w, b, seeds, cut).truncated
    ensures var walk := Explored(w, b, seeds, cut);
      && (forall u: Id, h: nat :: walk.IsAt(u, h) <==> h <= b.maxHops && u in Ring(w, SetOf(seeds), h))
      && (forall e: Id :: e in walk.edges <==> w.Leaves(Within(w, SetOf(seeds), b.maxHops - 1), e))
  {
    var walk := Explored(w, b, seeds, cut);
    RoomyIsExact(w, b, seeds, cut);
    hide Explored, Ring, Within, World.Leaves;
    forall u: Id, h: nat
      ensures walk.IsAt(u, h) <==> h <= b.maxHops && u in Ring(w, SetOf(seeds), h)
    {
      ExactRing(w, b, walk, SetOf(seeds), u, h);
    }
  }

  lemma ExactRing(w: World, b: Bounds, walk: Walk, seeds: set<Id>, u: Id, h: nat)
    requires walk.hops.Keys == Within(w, seeds, b.maxHops)
    requires forall v <- walk.hops, k: nat :: k <= b.maxHops ==> (v in Within(w, seeds, k) <==> walk.hops[v] <= k)
    ensures walk.IsAt(u, h) <==> h <= b.maxHops && u in Ring(w, seeds, h)
  {
    if h <= b.maxHops {
      WithinGrows(w, seeds, h, b.maxHops);
      if u in walk.hops {
        assert u in Within(w, seeds, h) <==> walk.hops[u] <= h;
        if h > 0 {
          assert u in Within(w, seeds, h - 1) <==> walk.hops[u] <= h - 1;
        }
      }
    } else if u in walk.hops {
      assert u in Within(w, seeds, b.maxHops) <==> walk.hops[u] <= b.maxHops;
    }
  }

  /** The units that some walk of at most maxHops steps reaches from a seed. */
  ghost function InReach(units: seq<Unit>, relations: seq<Relation>, hits: seq<Hit>, opts: Options): set<Id> {
    Within(WorldOf(units, relations, opts), SetOf(SeedIds(units, hits, opts)), opts.bounds.maxHops)
  }

  function NodeIds(g: Graph): set<Id> { set n <- g.nodes :: n.unit.id }

  lemma NodeIdsAreTheWalk(g: Graph, walk: Walk)
    requires forall u: Id, h: nat :: HasNode(g.nodes, u, h) <==> walk.IsAt(u, h)
    ensures NodeIds(g) == walk.hops.Keys
    ensures forall n <- g.nodes :: walk.IsAt(n.unit.id, n.hops)
  {
    forall n | n in g.nodes
      ensures walk.IsAt(n.unit.id, n.hops)
    {
      assert HasNode(g.nodes, n.unit.id, n.hops);
    }
    forall u | u in walk.hops
      ensures u in NodeIds(g)
    {
      assert walk.IsAt(u, walk.hops[u]);
      assert HasNode(g.nodes, u, walk.hops[u]);
    }
  }

  /** An unflagged graph shows every node at its true distance, and it shows every unit
      within maxHops of the seeds if and only if they are no more than maxNodes. */
  lemma BuiltIsCompleteIff(units: seq<Unit>, relations: seq<Relation>, hits: seq<Hit>, opts: Options)
    requires DistinctUnits(units) && !Built(units, relations, hits, opts).truncated
    ensures var g, w, seeds := Built(units, relations, hits, opts), WorldOf(units, relations, opts),
      SetOf(SeedIds(units, hits, opts));
      && (forall n <- g.nodes, k: nat :: n.unit.id in Within(w, seeds, k) <==> n.hops <= k)
      && (NodeIds(g) == InReach(units, relations, hits, opts) <==>
            |InReach(units, relations, hits, opts)| <= opts.bounds.maxNodes)
  {
    var g, w, b, seeds := Built(units, relations, hits, opts), WorldOf(units, relations, opts), opts.bounds,
      SeedIds(units, hits, opts);
    var cut := PickSeeds(hits, w.visible, b.maxNodes).1;
    WalkIsRooted(units, relations, hits, opts);
    BuiltShowsWalk(units, relations, hits, opts);
    NodeIdsAreTheWalk(g, WalkOf(units, relations, hits, opts));
    hide Built, Explored, Within, NodeIds, PickSeeds, Rooted, WorldOf;
    UnflaggedIsTrue(w, b, seeds, cut);
    UnflaggedIsCompleteIff(w, b, seeds, cut);
  }

  /** Below the cap the whole unflagged graph is exact: its nodes are the units that some
      walk of at most maxHops steps reaches from a seed, at their true distance, and its
      edges are the eligible relations that leave nodes nearer than maxHops. */
  lemma BuiltIsComplete(units: seq<Unit>, relations: seq<Relation>, hits: seq<Hit>, request: Request, opts: Options)
    requires DistinctUnits(units) && Normalize(request) == Accepted(opts)
    requires !Built(units, relations, hits, opts).truncated
    requires |InReach(units, relations, hits, opts)| < opts.bounds.maxNodes
    ensures var g, w, seeds := Built(units, relations, hits, opts), WorldOf(units, relations, opts),
      SetOf(SeedIds(units, hits, opts));
      && (forall u: Id, h: nat :: HasNode(g.nodes, u, h) <==> h <= opts.bounds.maxHops && u in Ring(w, seeds, h))
      && (forall e: Id :: HasEdge(g.edges, e) <==> w.Leaves(Within(w, seeds, opts.bounds.maxHops - 1), e))
  {
    var w, b, seeds := WorldOf(units, relations, opts), opts.bounds, SeedIds(units, hits, opts);
    var walk, cut := WalkOf(units, relations, hits, opts), PickSeeds(hits, w.visible, b.maxNodes).1;
    assert InReach(units, relations, hits, opts) == Within(w, SetOf(seeds), b.maxHops);
    hide *;
    WalkIsExplored(units, relations, hits, opts);
    WalkIsRooted(units, relations, hits, opts);
    BuiltShowsWalk(units, relations, hits, opts);
    RoomyWalkIsExact(w, b, seeds, cut);
  }

  /** What a caller can check beforehand: when all visible hits are seeds, no unit nearer
      than maxHops has more than fanOut steps, and the units within reach are no more
      than maxNodes, nothing is cut. */
  lemma NarrowIsNotCut(units: seq<Unit>, relations: seq<Relation>, hits: seq<Hit>, request: Request, opts: Options)
    requires DistinctUnits(units) && Normalize(request) == Accepted(opts)
    requires !PickSeeds(hits, VisibleUnits(units).Keys, opts.bounds.maxNodes).1
    requires NarrowWithin(WorldOf(units, relations, opts), opts.bounds, SetOf(SeedIds(units, hits, opts)),
      opts.bounds.maxHops - 1)
    requires |InReach(units, relations, hits, opts)| <= opts.bounds.maxNodes
    ensures !Built(units, relations, hits, opts).truncated
  {
    BuiltShowsWalk(units, relations, hits, opts);
    hide Built, Explored, Within, PickSeeds, Rooted;
    NarrowIsUnflagged(WorldOf(units, relations, opts), opts.bounds, SeedIds(units, hits, opts));
  }

  // --------------------------------------------------- what the flag does not tell

  const FIRST := Relation(0, PartOf, 0, 2, Active, [])
  const UNITS := [Unit(0, true), Unit(1, true), Unit(2, true), Unit(3, true)]
  const HITS := [Hit(0, 1.0), Hit(1, 0.5)]
  const REQUEST := Request([], Blank, 1, 3, 16, false)
  const OPTIONS := Options({}, Out, Bounds(1, 3, 16), false)

  /** A second relation, from the second seed. */
  function Second(to: Id): Relation { Relation(1, PartOf, 1, to, Active, []) }

  lemma ExampleSteps(to: Id, u: Id)
    requires to > 1
    ensures Unsorted([FIRST, Second(to)], u, OPTIONS) ==
      if u == 0 then [Step(FIRST, 2)] else if u == 1 then [Step(Second(to), to)] else []
  {
    var relations := [FIRST, Second(to)];
    assert relations[..|relations| - 1] == [FIRST];
    assert [FIRST][..|[FIRST]| - 1] == [];
    assert Eligible(FIRST, OPTIONS) && Eligible(Second(to), OPTIONS);
    assert StepsOf(FIRST, u, OPTIONS) == if u == 0 then [Step(FIRST, 2)] else [];
    assert StepsOf(Second(to), u, OPTIONS) == if u == 1 then [Step(Second(to), to)] else [];
    assert Unsorted([FIRST], u, OPTIONS) == Unsorted([], u, OPTIONS) + StepsOf(FIRST, u, OPTIONS);
  }

  lemma SortOfOne(st: Step)
    ensures Sort([st]) == [st]
  {
    assert [st][1..] == [];
  }

  lemma ExampleVisible()
    ensures DistinctUnits(UNITS) && VisibleUnits(UNITS).Keys == {0, 1, 2, 3}
    ensures Normalize(REQUEST) == Accepted(OPTIONS) && OPTIONS.bounds == Bounds(1, 3, 16)
  {
    VisibleUnitsAre(UNITS);
    assert UNITS[0] in UNITS && UNITS[1] in UNITS && UNITS[2] in UNITS && UNITS[3] in UNITS;
  }

  lemma ExampleAdjacency(to: Id)
    requires to > 1
    ensures Adjacency([FIRST, Second(to)], OPTIONS) == map[0 := [Step(FIRST, 2)], 1 := [Step(Second(to), to)]]
  {
    var relations := [FIRST, Second(to)];
    assert Sources(relations, OPTIONS) == {0, 1} by {
      assert FIRST in relations && Second(to) in relations;
      assert Eligible(FIRST, OPTIONS) && Eligible(Second(to), OPTIONS);
      assert forall r <- relations :: r == FIRST || r == Second(to);
    }
    hide Sources, Sort, Unsorted;
    ExampleSteps(to, 0);
    ExampleSteps(to, 1);
    SortOfOne(Step(FIRST, 2));
    SortOfOne(Step(Second(to), to));
  }

  lemma ExampleSeeds(visible: set<Id>)
    requires {0, 1} <= visible
    ensures PickSeeds(HITS, visible, 3) == (HITS, false) && Ids(HITS) == [0, 1]
  {
    var one := [Hit(1, 0.5)];
    assert HITS[1..] == one && one[1..] == [];
    assert PickSeeds([], visible, 1) == ([], false);
    assert PickSeeds(one, visible, 2) == (one + [], false);
    assert one + [] == one && [HITS[0]] + one == HITS;
  }

  /** The first seed's step fills the graph, so the second seed's is never looked at. */
  lemma ExampleWalk(w: World, to: Id)
    requires w.visible == {0, 1, 2, 3} && to > 1
    requires w.adjacency == map[0 := [Step(FIRST, 2)], 1 := [Step(Second(to), to)]]
    ensures var walk := Explored(w, Bounds(1, 3, 16), [0, 1], false);
      walk.hops.Keys == {0, 1, 2} && 1 !in walk.edges && !walk.truncated
  {
    var b, start := Bounds(1, 3, 16), Start([0, 1], false);
    assert start.hops == map[0 := 0, 1 := 0];
    var seen := Record(start, FIRST);
    var found := Discover(seen, 0, Step(FIRST, 2), 1);
    assert VisitSteps(w, b, w.Steps(0), 0, 0, 1, start) == VisitSteps(w, b, [], 1, 0, 1, found) == found;
    assert |found.hops| == 3;
    assert VisitFrontier(w, b, [0, 1], 1, start) == found;
    assert start.(next := []) == start && VisitLevels(w, b, 2, found.next, found) == found;
  }

  lemma ExampleReach(w: World, to: Id)
    requires w.visible == {0, 1, 2, 3} && 1 < to < 4
    requires w.adjacency == map[0 := [Step(FIRST, 2)], 1 := [Step(Second(to), to)]]
    ensures Within(w, {0, 1}, 1) == {0, 1, 2, to} && w.Leaves({0, 1}, 1)
  {
    var seeds: set<Id> := {0, 1};
    assert Within(w, seeds, 0) == seeds;
    assert Step(FIRST, 2) in w.Steps(0) && Step(Second(to), to) in w.Steps(1);
    forall v: Id
      ensures v in Within(w, seeds, 1) <==> v in {0, 1, 2, to}
    {
      assert w.Leads(0, v) <==> v == 2;
      assert w.Leads(1, v) <==> v == to;
    }
  }

  lemma ExampleInput(to: Id) returns (w: World)
    requires to > 1
    ensures w == WorldOf(UNITS, [FIRST, Second(to)], OPTIONS)
    ensures w.visible == {0, 1, 2, 3} && w.adjacency == map[0 := [Step(FIRST, 2)], 1 := [Step(Second(to), to)]]
    ensures SeedIds(UNITS, HITS, OPTIONS) == [0, 1] && !PickSeeds(HITS, w.visible, OPTIONS.bounds.maxNodes).1
  {
    w := WorldOf(UNITS, [FIRST, Second(to)], OPTIONS);
    ExampleVisible();
    ExampleAdjacency(to);
    ExampleSeeds(w.visible);
    hide VisibleUnits, Adjacency, PickSeeds;
  }

  lemma ExampleGraph(to: Id) returns (w: World, g: Graph)
    requires 1 < to < 4
    ensures w == WorldOf(UNITS, [FIRST, Second(to)], OPTIONS) && g == Built(UNITS, [FIRST, Second(to)], HITS, OPTIONS)
    ensures SetOf(SeedIds(UNITS, HITS, OPTIONS)) == {0, 1} && w.Leaves({0, 1}, 1)
    ensures InReach(UNITS, [FIRST, Second(to)], HITS, OPTIONS) == {0, 1, 2, to}
    ensures !g.truncated && NodeIds(g) == {0, 1, 2} && !HasEdge(g.edges, 1)
  {
    assert SetOf([0, 1]) == {0, 1};
    assert InReach(UNITS, [FIRST, Second(to)], HITS, OPTIONS) ==
      Within(WorldOf(UNITS, [FIRST, Second(to)], OPTIONS), SetOf(SeedIds(UNITS, HITS, OPTIONS)),
             OPTIONS.bounds.maxHops);
    hide *;
    w := ExampleInput(to);
    ExampleReach(w, to);
    ExampleWalk(w, to);
    var relations := [FIRST, Second(to)];
    g := Built(UNITS, relations, HITS, OPTIONS);
    ExampleVisible();
    WalkIsExplored(UNITS, relations, HITS, OPTIONS);
    var walk := WalkOf(UNITS, relations, HITS, OPTIONS);
    assert !walk.truncated && walk.hops.Keys == {0, 1, 2} && 1 !in walk.edges;
    BuiltShowsWalk(UNITS, relations, HITS, OPTIONS);
    NodeIdsAreTheWalk(g, walk);
  }

  /** One unit more within reach than the cap: a unit next to a seed is neither
      returned nor reported. */
  lemma UnflaggedMayMissUnit()
    ensures var g, w := Built(UNITS, [FIRST, Second(3)], HITS, OPTIONS), WorldOf(UNITS, [FIRST, Second(3)], OPTIONS);
      && Normalize(REQUEST) == Accepted(OPTIONS) && DistinctUnits(UNITS) && !g.truncated
      && 3 in InReach(UNITS, [FIRST, Second(3)], HITS, OPTIONS) && 3 !in NodeIds(g)
  {
    ExampleVisible();
    hide *;
    var w, g := ExampleGraph(3);
  }

  /** As many units as the cap: all are returned, and a relation between two of them is not. */
  lemma UnflaggedMayMissEdge()
    ensures var g, w := Built(UNITS, [FIRST, Second(2)], HITS, OPTIONS), WorldOf(UNITS, [FIRST, Second(2)], OPTIONS);
      && Normalize(REQUEST) == Accepted(OPTIONS) && DistinctUnits(UNITS) && !g.truncated
      && |InReach(UNITS, [FIRST, Second(2)], HITS, OPTIONS)| == OPTIONS.bounds.maxNodes
      && w.Leaves(SetOf(SeedIds(UNITS, HITS, OPTIONS)), 1) && !HasEdge(g.edges, 1)
  {
    ExampleVisible();
    hide *;
    var w, g := ExampleGraph(2);
    assert {0, 1, 2, 2} == {0, 1, 2};
  }
}
