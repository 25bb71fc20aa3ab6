/** The topology builder: `AutoSG.build` and its five `build_*_graph`
    helpers, acting on a StateGraph in place. Each helper is proved to add
    exactly the labelled pair set module Topology defines for it, and
    `build` to add the labelled nodes, that topology, and then the sentinel
    patch. The random helper's `randint(0, n)` results are a parameter,
    consumed one per pair in loop order. */
module AutoSG {
  import opened Graphs
  import opened Engine
  import opened Topology
  import Decimal

  /** `build_random_graph`: for each pair `i < j` in row-major order, draw
      `randint(0, n)` and add `labeler(i) -> labeler(j)` when the draw is
      below the target. */
  method BuildRandomGraph(g: StateGraph, n: nat, target: int, L: int -> Node, draws: seq<int>)
    requires g.GraphValid() && |draws| >= PairCount(n)
    modifies g`nodes, g`edges
    ensures g.GraphValid()
    ensures g.edges == old(g.edges) + Labelled(L, RandomPairs(n, target, draws))
    ensures g.nodes == old(g.nodes) + Endpoints(Labelled(L, RandomPairs(n, target, draws)))
    ensures old(g.Valid()) ==> g.Valid()
  {
    var k := 0;
    for i := 0 to n
      invariant g.GraphValid()
      invariant k == RowStart(n, i)
      invariant g.edges == old(g.edges) + Labelled(L, RandomPairsBefore(n, target, draws, i, 0))
      invariant g.nodes == old(g.nodes) + Endpoints(Labelled(L, RandomPairsBefore(n, target, draws, i, 0)))
    {
      k := BuildRandomRow(g, n, target, L, draws, i, k, old(g.edges), old(g.nodes));
    }
    RandomDone(L, n, target, draws);
    if old(g.Valid()) {
      WalkFromMonotone(old(g.edges), g.edges, g.history);
    }
  }

  /** Row `i` of `build_random_graph`: the pairs `(i, j)` for `i < j < n`,
      reading the draws from position `k0`, the row's first. */
  method BuildRandomRow(g: StateGraph, n: nat, target: int, L: int -> Node, draws: seq<int>, i: nat, k0: nat,
                        ghost edges0: set<Edge>, ghost nodes0: set<Node>)
    returns (k: nat)
    requires g.GraphValid() && |draws| >= PairCount(n) && i < n && k0 == RowStart(n, i)
    requires g.edges == edges0 + Labelled(L, RandomPairsBefore(n, target, draws, i, 0))
    requires g.nodes == nodes0 + Endpoints(Labelled(L, RandomPairsBefore(n, target, draws, i, 0)))
    modifies g`nodes, g`edges
    ensures g.GraphValid()
    ensures k == RowStart(n, i + 1)
    ensures g.edges == edges0 + Labelled(L, RandomPairsBefore(n, target, draws, i + 1, 0))
    ensures g.nodes == nodes0 + Endpoints(Labelled(L, RandomPairsBefore(n, target, draws, i + 1, 0)))
  {
    ghost var added := Labelled(L, RandomPairsBefore(n, target, draws, i, 0));
    RandomRowEntry(L, n, target, draws, i);
    k := k0;
    for j := i + 1 to n
      invariant g.GraphValid()
      invariant k == RowStart(n, i) + (j - i - 1)
      invariant added == Labelled(L, RandomPairsBefore(n, target, draws, i, j))
      invariant g.edges == edges0 + added
      invariant g.nodes == nodes0 + Endpoints(added)
    {
      assert k == PairIndex(n, i, j);
      RandomStep(L, n, target, draws, i, j);
      if draws[k] < target {
        g.AddEdge(L(i), L(j));
        EndpointsAddEdge(added, L(i), L(j));
        added := added + {(L(i), L(j))};
      }
      k := k + 1;
    }
    RowStartNext(n, i);
    RandomRowExit(L, n, target, draws, i);
  }

  /** `build_cycle_graph`: `labeler(i) -> labeler((i + 1) % n)` for each `i`. */
  method BuildCycleGraph(g: StateGraph, n: nat, L: int -> Node)
    requires g.GraphValid()
    modifies g`nodes, g`edges
    ensures g.GraphValid()
    ensures g.edges == old(g.edges) + Labelled(L, CyclePairs(n))
    ensures g.nodes == old(g.nodes) + Endpoints(Labelled(L, CyclePairs(n)))
    ensures old(g.Valid()) ==> g.Valid()
  {
    ghost var added: set<Edge> := {};
    for i := 0 to n
      invariant g.GraphValid()
      invariant added == Labelled(L, CyclePairsBefore(n, i))
      invariant g.edges == old(g.edges) + added
      invariant g.nodes == old(g.nodes) + Endpoints(added)
    {
      g.AddEdge(L(i), L((i + 1) % n));
      CycleStep(L, n, i);
      EndpointsAddEdge(added, L(i), L((i + 1) % n));
      added := added + {(L(i), L((i + 1) % n))};
    }
    assert CyclePairsBefore(n, n) == CyclePairs(n);
    if old(g.Valid()) {
      WalkFromMonotone(old(g.edges), g.edges, g.history);
    }
  }

  /** `build_complete_graph`: `labeler(i) -> labeler(j)` for every `i < j`. */
  method BuildCompleteGraph(g: StateGraph, n: nat, L: int -> Node)
    requires g.GraphValid()
    modifies g`nodes, g`edges
    ensures g.GraphValid()
    ensures g.edges == old(g.edges) + Labelled(L, CompletePairs(n))
    ensures g.nodes == old(g.nodes) + Endpoints(Labelled(L, CompletePairs(n)))
    ensures old(g.Valid()) ==> g.Valid()
  {
    ghost var added: set<Edge> := {};
    for i := 0 to n
      invariant g.GraphValid()
      invariant added == Labelled(L, CompletePairsBefore(n, i, 0))
      invariant g.edges == old(g.edges) + added
      invariant g.nodes == old(g.nodes) + Endpoints(added)
    {
      CompleteRowEntry(L, n, i);
      for j := i + 1 to n
        invariant g.GraphValid()
        invariant added == Labelled(L, CompletePairsBefore(n, i, j))
        invariant g.edges == old(g.edges) + added
        invariant g.nodes == old(g.nodes) + Endpoints(added)
      {
        CompleteStep(L, n, i, j);
        g.AddEdge(L(i), L(j));
        EndpointsAddEdge(added, L(i), L(j));
        added := added + {(L(i), L(j))};
      }
      CompleteRowExit(L, n, i);
    }
    CompleteDone(L, n);
    if old(g.Valid()) {
      WalkFromMonotone(old(g.edges), g.edges, g.history);
    }
  }

  /** `build_grid_graph`: on the `side x side` block, `side` the integer
      square root of `n`, each cell points at its up, down, left and right
      neighbours that exist. */
  method BuildGridGraph(g: StateGraph, n: nat, L: int -> Node)
    requires g.GraphValid()
    modifies g`nodes, g`edges
    ensures g.GraphValid()
    ensures g.edges == old(g.edges) + GridEdges(L, FloorSqrt(n), GridCellPairs(FloorSqrt(n)))
    ensures g.nodes == old(g.nodes) + Endpoints(GridEdges(L, FloorSqrt(n), GridCellPairs(FloorSqrt(n))))
    ensures old(g.Valid()) ==> g.Valid()
  {
    var side := FloorSqrt(n);
    for i := 0 to side
      invariant g.GraphValid()
      invariant g.edges == old(g.edges) + GridEdges(L, side, GridCellPairsBefore(side, i, 0))
      invariant g.nodes == old(g.nodes) + Endpoints(GridEdges(L, side, GridCellPairsBefore(side, i, 0)))
    {
      BuildGridRow(g, side, L, i, old(g.edges), old(g.nodes));
    }
    GridComplete(side);
    if old(g.Valid()) {
      WalkFromMonotone(old(g.edges), g.edges, g.history);
    }
  }

  /** Row `i` of `build_grid_graph`: cells `(i, 0) .. (i, side - 1)`. */
  method BuildGridRow(g: StateGraph, side: nat, L: int -> Node, i: nat,
                      ghost edges0: set<Edge>, ghost nodes0: set<Node>)
    requires g.GraphValid() && i < side
    requires g.edges == edges0 + GridEdges(L, side, GridCellPairsBefore(side, i, 0))
    requires g.nodes == nodes0 + Endpoints(GridEdges(L, side, GridCellPairsBefore(side, i, 0)))
    modifies g`nodes, g`edges
    ensures g.GraphValid()
    ensures g.edges == edges0 + GridEdges(L, side, GridCellPairsBefore(side, i + 1, 0))
    ensures g.nodes == nodes0 + Endpoints(GridEdges(L, side, GridCellPairsBefore(side, i + 1, 0)))
  {
    ghost var added := GridEdges(L, side, GridCellPairsBefore(side, i, 0));
    for j := 0 to side
      invariant g.GraphValid()
      invariant added == GridEdges(L, side, GridCellPairsBefore(side, i, j))
      invariant g.edges == edges0 + added
      invariant g.nodes == nodes0 + Endpoints(added)
    {
      var cur := i * side + j;
      AddCellEdges(g, side, L, i, j, cur);
      GridStep(L, side, i, j, cur);
      CellEndpoints(L, side, i, j, cur);
      EndpointsUnion(added, CellEdges(L, side, i, j, cur));
      added := added + CellEdges(L, side, i, j, cur);
    }
    GridRowStep(side, i);
  }

  /** One cell of `build_grid_graph`, at index `cur`: the edges to the up,
      down, left and right neighbours that exist. */
  method AddCellEdges(g: StateGraph, side: nat, L: int -> Node, i: int, j: int, cur: int)
    requires g.GraphValid()
    modifies g`nodes, g`edges
    ensures g.GraphValid()
    ensures g.edges == old(g.edges) + CellEdges(L, side, i, j, cur)
    ensures g.nodes == old(g.nodes) + CellNodes(L, side, i, j, cur)
  {
    if i > 0 {
      g.AddEdge(L(cur), L(cur - side));
    }
    if i < side - 1 {
      g.AddEdge(L(cur), L(cur + side));
    }
    if j > 0 {
      g.AddEdge(L(cur), L(cur - 1));
    }
    if j < side - 1 {
      g.AddEdge(L(cur), L(cur + 1));
    }
  }

  /** `build_star_graph`: `labeler(0) -> labeler(i)` for `1 <= i < n`. */
  method BuildStarGraph(g: StateGraph, n: nat, L: int -> Node)
    requires g.GraphValid()
    modifies g`nodes, g`edges
    ensures g.GraphValid()
    ensures g.edges == old(g.edges) + Labelled(L, StarPairs(n))
    ensures g.nodes == old(g.nodes) + Endpoints(Labelled(L, StarPairs(n)))
    ensures old(g.Valid()) ==> g.Valid()
  {
    var center := L(0);
    ghost var added: set<Edge> := {};
    var i := 1;
    while i < n
      invariant 1 <= i && (n >= 1 ==> i <= n) && (n < 1 ==> i == 1)
      invariant g.GraphValid()
      invariant added == Labelled(L, StarPairsBefore(i))
      invariant g.edges == old(g.edges) + added
      invariant g.nodes == old(g.nodes) + Endpoints(added)
    {
      g.AddEdge(center, L(i));
      StarStep(L, i);
      EndpointsAddEdge(added, center, L(i));
      added := added + {(center, L(i))};
      i := i + 1;
    }
    StarDone(n, i);
    if old(g.Valid()) {
      WalkFromMonotone(old(g.edges), g.edges, g.history);
    }
  }

  /** The labelled nodes, then the topology the tag names; an unknown tag
      adds no edge. */
  method BuildTopology(g: StateGraph, n: nat, target: int, L: int -> Node, graphType: string, draws: seq<int>)
    requires g.GraphValid()
    requires graphType == "random" ==> |draws| >= PairCount(n)
    modifies g`nodes, g`edges
    ensures g.GraphValid()
    ensures g.edges == old(g.edges) + TopologyEdges(graphType, n, target, L, draws)
    ensures g.nodes == old(g.nodes) + Labels(L, n) + Endpoints(TopologyEdges(graphType, n, target, L, draws))
    ensures old(g.Valid()) ==> g.Valid()
  {
    for i := 0 to n
      invariant g.GraphValid()
      invariant g.edges == old(g.edges)
      invariant g.nodes == old(g.nodes) + Labels(L, i)
    {
      g.AddNode(L(i));
      assert Labels(L, i + 1) == Labels(L, i) + {L(i)};
    }
    if graphType == "random" {
      BuildRandomGraph(g, n, target, L, draws);
    } else if graphType == "cycle" {
      BuildCycleGraph(g, n, L);
    } else if graphType == "complete" {
      BuildCompleteGraph(g, n, L);
    } else if graphType == "grid" {
      BuildGridGraph(g, n, L);
    } else if graphType == "star" {
      BuildStarGraph(g, n, L);
    } else {
      assert TopologyEdges(graphType, n, target, L, draws) == {};
    }
  }

  /** `build`: nodes, topology, then the sentinel patch; returns the graph
      itself. Both sentinels end with degree at least 1. */
  method Build(g: StateGraph, n: nat, target: int, L: int -> Node, graphType: string, draws: seq<int>)
    returns (self: StateGraph)
    requires g.GraphValid()
    requires graphType == "random" ==> |draws| >= PairCount(n)
    modifies g`nodes, g`edges
    ensures self == g && g.GraphValid()
    ensures g.edges == Patched(old(g.edges) + TopologyEdges(graphType, n, target, L, draws), n, L)
    ensures g.nodes == old(g.nodes) + Labels(L, n) + Endpoints(g.edges)
    ensures old(g.Valid()) ==> g.Valid()
  {
    var first := L(0);
    var last := L(n - 1);
    BuildTopology(g, n, target, L, graphType, draws);
    EndpointsUnion(old(g.edges), TopologyEdges(graphType, n, target, L, draws));
    if Degree(g.edges, End) == 0 {
      g.AddEdge(last, End);
    }
    if Degree(g.edges, Start) == 0 {
      g.AddEdge(Start, first);
    }
    self := g;
  }

  /** The default arguments of `build`. */
  const DefaultN: nat := 10
  const DefaultTarget: int := 5
  const DefaultGraphType: string := "random"

  /** `AutoSG()` with `build`'s arguments: the base constructor adds the
      sentinels, `autobuild` runs `build`, and the history is reset to the
      start state. */
  method NewAutoSGWith(n: nat, target: int, L: int -> Node, graphType: string, draws: seq<int>)
    returns (g: StateGraph)
    requires graphType == "random" ==> |draws| >= PairCount(n)
    ensures fresh(g) && g.Valid()
    ensures g.history == [Start]
    ensures g.edges == Patched(TopologyEdges(graphType, n, target, L, draws), n, L)
    ensures g.nodes == {Start, End} + Labels(L, n) + Endpoints(g.edges)
  {
    g := new StateGraph();
    var self := Build(g, n, target, L, graphType, draws);
    g.Reset();
  }

  /** `AutoSG()` with the defaults: ten nodes labelled by `str`, a random
      topology with target 5. */
  method NewAutoSG(draws: seq<int>) returns (g: StateGraph)
    requires |draws| >= PairCount(DefaultN)
    ensures fresh(g) && g.Valid()
    ensures g.history == [Start]
    ensures g.edges == Patched(TopologyEdges(DefaultGraphType, DefaultN, DefaultTarget, Decimal.Str, draws), DefaultN, Decimal.Str)
    ensures g.nodes == {Start, End} + Labels(Decimal.Str, DefaultN) + Endpoints(g.edges)
  {
    g := NewAutoSGWith(DefaultN, DefaultTarget, Decimal.Str, DefaultGraphType, draws);
  }
}
