/** The older single-file revision: the hand-authored MSG machine and an
    AutoSG whose `build` installs the topology but never patches the
    sentinels. Its StateGraph (history, `step`, `walk`, `reset`) is the same
    code as the package's and is the class Engine.StateGraph. */
module Legacy {
  import opened Graphs
  import opened Outcomes
  import opened Engine
  import opened Topology
  import AutoSG
  import Decimal

  /** The edges `MSG.build` hands to `add_edges_from`, in order. */
  const MsgEdgeList: seq<Edge> := [
    (Start, "A"),
    ("A", "B"),
    ("A", "C"),
    ("A", "D"),
    ("B", "C"),
    ("B", "D"),
    ("C", "D"),
    ("C", "A"),
    ("D", End)
  ]

  /** The edges of a list, as a set. */
  function EdgeSet(s: seq<Edge>): set<Edge> {
    set e | e in s
  }

  /** The MSG graph's edges. */
  function MsgEdges(): set<Edge> {
    EdgeSet(MsgEdgeList)
  }

  /** `add_edges_from`: each edge of the list in turn, creating endpoints. */
  method AddEdgesFrom(g: StateGraph, s: seq<Edge>)
    requires g.GraphValid()
    modifies g`nodes, g`edges
    ensures g.GraphValid()
    ensures g.edges == old(g.edges) + EdgeSet(s)
    ensures g.nodes == old(g.nodes) + Endpoints(EdgeSet(s))
    ensures old(g.Valid()) ==> g.Valid()
  {
    for i := 0 to |s|
      invariant g.GraphValid()
      invariant g.edges == old(g.edges) + EdgeSet(s[..i])
      invariant g.nodes == old(g.nodes) + Endpoints(EdgeSet(s[..i]))
    {
      assert EdgeSet(s[..i + 1]) == EdgeSet(s[..i]) + {s[i]};
      EndpointsAddEdge(EdgeSet(s[..i]), s[i].0, s[i].1);
      g.AddEdge(s[i].0, s[i].1);
    }
    assert s[..|s|] == s;
    if old(g.Valid()) {
      WalkFromMonotone(old(g.edges), g.edges, g.history);
    }
  }

  /** `MSG.build`. */
  method MsgBuild(g: StateGraph)
    requires g.GraphValid()
    modifies g`nodes, g`edges
    ensures g.GraphValid()
    ensures g.edges == old(g.edges) + MsgEdges()
    ensures g.nodes == old(g.nodes) + {"A", "B", "C", "D"}
    ensures old(g.Valid()) ==> g.Valid()
  {
    MsgEndpoints();
    AddEdgesFrom(g, MsgEdgeList);
  }

  /** `MSG()`: the sentinels, the MSG edges, and a history reset to START. */
  method NewMsg() returns (g: StateGraph)
    ensures fresh(g) && g.Valid()
    ensures g.history == [Start]
    ensures g.edges == MsgEdges()
    ensures g.nodes == {Start, End, "A", "B", "C", "D"}
  {
    g := new StateGraph();
    MsgBuild(g);
    g.Reset();
  }

  /** The MSG edges touch exactly the sentinels and A, B, C, D. */
  lemma MsgEndpoints()
    ensures Endpoints(MsgEdges()) == {Start, End, "A", "B", "C", "D"}
  {
    var E := MsgEdges();
    assert (Start, "A") in E && ("B", "C") in E && ("C", "D") in E && ("D", End) in E;
    forall x | x in Endpoints(E) ensures x in {Start, End, "A", "B", "C", "D"} {
      var e :| e in E && (e.0 == x || e.1 == x);
      assert e in MsgEdgeList;
    }
  }

  /** From START the only legal step is to A, and END is entered only from D. */
  lemma MsgSentinelEdges()
    ensures Successors(MsgEdges(), Start) == {"A"}
    ensures forall u :: (u, End) in MsgEdges() <==> u == "D"
  {
    var E := MsgEdges();
    assert (Start, "A") in E;
    forall v | v in Successors(E, Start) ensures v == "A" {
      var e :| e in E && e.0 == Start && e.1 == v;
      assert e in MsgEdgeList;
    }
    forall u ensures (u, End) in E <==> u == "D" {
      if (u, End) in E {
        assert (u, End) in MsgEdgeList;
      }
      assert ("D", End) == MsgEdgeList[8];
    }
  }

  /** The tour of the MSG demo. */
  const MsgTour: seq<Node> := ["A", "B", "C", "A", "D", End]

  /** Every move of the tour from START is an MSG edge leaving a node other
      than END. */
  lemma MsgTourLegal()
    ensures Legal(MsgEdges(), [Start], MsgTour)
  {
    var E := MsgEdges();
    var w := [Start] + MsgTour;
    assert w == [Start, "A", "B", "C", "A", "D", End];
    assert MsgEdgeList[0] in E && MsgEdgeList[1] in E && MsgEdgeList[4] in E;
    assert MsgEdgeList[7] in E && MsgEdgeList[3] in E && MsgEdgeList[8] in E;
    forall i | 0 <= i < |w| - 1 ensures LegalAt(E, w, i) {
      if i == 0 { assert (w[i], w[i + 1]) == MsgEdgeList[0]; }
      else if i == 1 { assert (w[i], w[i + 1]) == MsgEdgeList[1]; }
      else if i == 2 { assert (w[i], w[i + 1]) == MsgEdgeList[4]; }
      else if i == 3 { assert (w[i], w[i + 1]) == MsgEdgeList[7]; }
      else if i == 4 { assert (w[i], w[i + 1]) == MsgEdgeList[3]; }
      else { assert (w[i], w[i + 1]) == MsgEdgeList[8]; }
    }
  }

  /** The tour A, B, C, A, D, END from a fresh MSG is legal and ends at END,
      so `walk` succeeds and reports the whole tour after START. */
  lemma MsgTourSucceeds(reset: bool)
    ensures WalkSpec(MsgEdges(), [Start], MsgTour, reset).result ==
      PathResult(true, None, [Start, "A", "B", "C", "A", "D", End])
  {
    MsgTourLegal();
    WalkSucceedsIff(MsgEdges(), [Start], MsgTour, reset);
    assert [Start] + MsgTour == [Start, "A", "B", "C", "A", "D", End];
  }

  /** Walking A, B, E from a fresh MSG: A and B are taken, E is no node, so
      `walk` fails on E and the history stops at B. */
  lemma MsgUnknownActionFails(reset: bool)
    ensures WalkSpec(MsgEdges(), [Start], ["A", "B", "E"], reset).result ==
      PathResult(false, Some("E"), [Start, "A", "B"])
  {
    var E := MsgEdges();
    assert MsgEdgeList[0] == (Start, "A") && MsgEdgeList[1] == ("A", "B");
    assert ("B", "E") !in E;
    assert Run(E, [Start], ["A", "B"]) == LoopState([Start, "A", "B"], None) by {
      assert ["A", "B"][..1] == ["A"];
      assert ["A"][..0] == [];
    }
    assert ["A", "B", "E"][..2] == ["A", "B"];
  }

  /** This revision's `build`: the labelled nodes and the topology, with no
      sentinel patch; returns the graph itself. */
  method LegacyBuild(g: StateGraph, n: nat, target: int, L: int -> Node, graphType: string, draws: seq<int>)
    returns (self: StateGraph)
    requires g.GraphValid()
    requires graphType == "random" ==> |draws| >= PairCount(n)
    modifies g`nodes, g`edges
    ensures self == g && g.GraphValid()
    ensures g.edges == old(g.edges) + TopologyEdges(graphType, n, target, L, draws)
    ensures g.nodes == old(g.nodes) + Labels(L, n) + Endpoints(TopologyEdges(graphType, n, target, L, draws))
    ensures old(g.Valid()) ==> g.Valid()
  {
    AutoSG.BuildTopology(g, n, target, L, graphType, draws);
    self := g;
  }

  /** This revision's `AutoSG()` with `build`'s arguments. */
  method NewLegacyAutoSGWith(n: nat, target: int, L: int -> Node, graphType: string, draws: seq<int>)
    returns (g: StateGraph)
    requires graphType == "random" ==> |draws| >= PairCount(n)
    ensures fresh(g) && g.Valid()
    ensures g.history == [Start]
    ensures g.edges == TopologyEdges(graphType, n, target, L, draws)
    ensures g.nodes == {Start, End} + Labels(L, n) + Endpoints(g.edges)
  {
    g := new StateGraph();
    var self := LegacyBuild(g, n, target, L, graphType, draws);
    g.Reset();
  }

  /** This revision's `AutoSG()` with the defaults. */
  method NewLegacyAutoSG(draws: seq<int>) returns (g: StateGraph)
    requires |draws| >= PairCount(AutoSG.DefaultN)
    ensures fresh(g) && g.Valid()
    ensures g.history == [Start]
    ensures g.edges == TopologyEdges(AutoSG.DefaultGraphType, AutoSG.DefaultN, AutoSG.DefaultTarget, Decimal.Str, draws)
  {
    g := NewLegacyAutoSGWith(AutoSG.DefaultN, AutoSG.DefaultTarget, Decimal.Str, AutoSG.DefaultGraphType, draws);
  }

  /** Without the patch no edge touches a sentinel, so START has no
      successor: every non-empty walk of a fresh machine fails on its last
      action and reports `[START]`. */
  lemma UnpatchedWalkFails(graphType: string, n: nat, target: int, L: int -> Node, draws: seq<int>,
                           path: seq<Node>, reset: bool)
    requires IsLabeler(L)
    requires graphType == "random" ==> |draws| >= PairCount(n)
    requires path != []
    ensures Successors(TopologyEdges(graphType, n, target, L, draws), Start) == {}
    ensures WalkSpec(TopologyEdges(graphType, n, target, L, draws), [Start], path, reset).result ==
      PathResult(false, Some(path[|path| - 1]), [Start])
  {
    var T := TopologyEdges(graphType, n, target, L, draws);
    UnpatchedKeepsSentinels({}, graphType, n, target, L, draws);
    assert {} + T == T;
    RunStuck(T, [Start], path);
  }
}
