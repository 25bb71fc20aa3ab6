/** The greedy walker: from a start node, repeatedly move to a heaviest
    successor not yet visited, and stop when every successor of the current
    node has been visited. */
module Greedy {
  import opened Outcomes
  import opened Graphs
  import opened Engine

  /** `G[start_node]` raises a key error for a node the graph lacks. */
  datatype GreedyError = NoSuchNode(node: Node)

  /** The nodes a sequence holds. */
  function Elems(s: seq<Node>): set<Node> {
    set x | x in s
  }

  /** No node occurs twice. */
  predicate Distinct(s: seq<Node>) {
    forall i, j :: 0 <= i < j < |s| ==> s[i] != s[j]
  }

  /** The successors of `p[i]` that the walker has not visited when it
      stands at `p[i]`: everything up to and including `p[i]` is visited. */
  function Open(E: set<Edge>, p: seq<Node>, i: nat): set<Node>
    requires i < |p|
  {
    Successors(E, p[i]) - Elems(p[..i + 1])
  }

  /** Move `i` of `p` picks an unvisited successor of maximum weight. */
  predicate GreedyChoice(E: set<Edge>, W: map<Edge, int>, p: seq<Node>, i: nat)
    requires i < |p| - 1
  {
    && p[i + 1] in Open(E, p, i)
    && forall v | v in Open(E, p, i) :: Weight(W, p[i], v) <= Weight(W, p[i], p[i + 1])
  }

  /** `p` is a path the greedy walker can return from `start`: it begins at
      `start`, every move is a greedy choice, and at its last node nothing
      unvisited is left to move to. Among equally heavy successors any may
      be chosen. */
  predicate IsGreedyPath(E: set<Edge>, W: map<Edge, int>, start: Node, p: seq<Node>) {
    && p != []
    && p[0] == start
    && (forall i :: 0 <= i < |p| - 1 ==> GreedyChoice(E, W, p, i))
    && Open(E, p, |p| - 1) == {}
  }

  /** A nonempty finite set of successors has one of maximum weight. */
  lemma {:induction false} MaxWeightExists(W: map<Edge, int>, u: Node, S: set<Node>)
    requires S != {}
    ensures exists m :: m in S && forall v | v in S :: Weight(W, u, v) <= Weight(W, u, m)
    decreases S
  {
    var x :| x in S;
    if S != {x} {
      MaxWeightExists(W, u, S - {x});
      var m :| m in S - {x} && forall v | v in S - {x} :: Weight(W, u, v) <= Weight(W, u, m);
      if Weight(W, u, x) > Weight(W, u, m) {
        assert forall v | v in S :: Weight(W, u, v) <= Weight(W, u, x);
      } else {
        assert forall v | v in S :: Weight(W, u, v) <= Weight(W, u, m);
      }
    } else {
      assert forall v | v in S :: v == x;
    }
  }

  /** Extending a path keeps its earlier moves as they were. */
  lemma ChoiceSnoc(E: set<Edge>, W: map<Edge, int>, p: seq<Node>, a: Node, i: nat)
    requires i < |p| - 1
    ensures Open(E, p + [a], i) == Open(E, p, i)
    ensures GreedyChoice(E, W, p + [a], i) == GreedyChoice(E, W, p, i)
  {
    assert (p + [a])[..i + 1] == p[..i + 1];
  }

  /** `greedy_path(G, start_node)`. */
  method GreedyPath(g: StateGraph, start: Node) returns (r: Result<seq<Node>, GreedyError>)
    requires g.GraphValid()
    ensures r.Err? <==> start !in g.nodes
    ensures r.Err? ==> r.error == NoSuchNode(start)
    ensures r.Ok? ==> IsGreedyPath(g.edges, g.weights, start, r.value)
    ensures r.Ok? ==> Elems(r.value) <= g.nodes && |r.value| <= |g.nodes|
  {
    if start !in g.nodes {
      return Err(NoSuchNode(start));
    }
    var visited: set<Node> := {};
    var path := [start];
    var current := start;
    while true
      invariant path != [] && path[0] == start && current == path[|path| - 1]
      invariant visited == Elems(path[..|path| - 1])
      invariant current !in visited
      invariant Elems(path) <= g.nodes
      invariant forall i :: 0 <= i < |path| - 1 ==> GreedyChoice(g.edges, g.weights, path, i)
      decreases g.nodes - visited
    {
      assert path[..|path|] == path;
      assert Elems(path) == visited + {current} by {
        assert path == path[..|path| - 1] + [current];
      }
      visited := visited + {current};
      var neighbors := Successors(g.edges, current) - visited;
      if neighbors == {} {
        break;
      }
      MaxWeightExists(g.weights, current, neighbors);
      var next :| next in neighbors && forall v | v in neighbors :: Weight(g.weights, current, v) <= Weight(g.weights, current, next);
      assert (current, next) in g.edges;
      forall i | 0 <= i < |path| - 1
        ensures GreedyChoice(g.edges, g.weights, path + [next], i)
      {
        ChoiceSnoc(g.edges, g.weights, path, next, i);
      }
      assert (path + [next])[..|path|] == path;
      path := path + [next];
      current := next;
    }
    assert path[..|path|] == path;
    GreedyPathIsDistinct(g.edges, g.weights, start, path);
    DistinctCard(path);
    SubsetCard(Elems(path), g.nodes);
    r := Ok(path);
  }

  /** A greedy path is a path of the graph whose nodes are pairwise distinct:
      each move goes along an edge to a node not visited before. */
  lemma GreedyPathIsDistinct(E: set<Edge>, W: map<Edge, int>, start: Node, p: seq<Node>)
    requires forall i :: 0 <= i < |p| - 1 ==> GreedyChoice(E, W, p, i)
    ensures IsPath(E, p)
    ensures Distinct(p)
  {
    forall i, j | 0 <= i < j < |p| ensures p[i] != p[j] {
      assert GreedyChoice(E, W, p, j - 1);
      assert p[i] in Elems(p[..j]);
    }
    forall i | 0 <= i < |p| - 1 ensures (p[i], p[i + 1]) in E {
      assert GreedyChoice(E, W, p, i);
    }
  }

  /** A sequence without repeats holds as many nodes as it is long. */
  lemma {:induction false} DistinctCard(s: seq<Node>)
    requires Distinct(s)
    ensures |Elems(s)| == |s|
  {
    if s != [] {
      var t := s[..|s| - 1];
      DistinctCard(t);
      assert s == t + [s[|s| - 1]];
      assert Elems(s) == Elems(t) + {s[|s| - 1]};
      assert s[|s| - 1] !in Elems(t);
    }
  }

  /** A greedy path visits each node at most once, so it is no longer than
      the graph has nodes. */
  lemma GreedyPathBound(E: set<Edge>, W: map<Edge, int>, start: Node, p: seq<Node>, nodes: set<Node>)
    requires IsGreedyPath(E, W, start, p)
    requires Elems(p) <= nodes
    ensures |p| <= |nodes|
  {
    GreedyPathIsDistinct(E, W, start, p);
    DistinctCard(p);
    SubsetCard(Elems(p), nodes);
  }

  /** On return every successor of the last node is already on the path; a
      start node with no successor other than itself yields `[start]`. */
  lemma GreedyPathEnds(E: set<Edge>, W: map<Edge, int>, start: Node, p: seq<Node>)
    requires IsGreedyPath(E, W, start, p)
    ensures Successors(E, p[|p| - 1]) <= Elems(p)
    ensures Successors(E, start) <= {start} ==> p == [start]
  {
    assert p[..|p|] == p;
    forall v | v in Successors(E, p[|p| - 1]) ensures v in Elems(p) {
      assert v !in Open(E, p, |p| - 1);
    }
    if |p| > 1 {
      assert p[..1] == [start];
      assert GreedyChoice(E, W, p, 0);
      assert p[1] in Successors(E, start) - {start};
    }
  }
}
