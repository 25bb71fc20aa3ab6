/** The directed-graph vocabulary the state machine, its builders and its
    walker rely on: the parts of a networkx `DiGraph` the program uses,
    over an edge set of ordered node pairs. */
module Graphs {

  type Node = string

  type Edge = (Node, Node)

  /** The direct successors of `u`: the keys of `G[u]`. */
  function Successors(E: set<Edge>, u: Node): set<Node> {
    set e | e in E && e.0 == u :: e.1
  }

  /** Every node some edge touches; `add_edge` creates these as nodes. */
  function Endpoints(E: set<Edge>): set<Node> {
    (set e | e in E :: e.0) + (set e | e in E :: e.1)
  }

  /** networkx's `degree` of a node of a directed graph: in-degree plus
      out-degree, so a self-loop counts twice. */
  function Degree(E: set<Edge>, v: Node): nat {
    |set e | e in E && e.1 == v| + |set e | e in E && e.0 == v|
  }

  /** The weight the greedy walker reads: the edge's `weight` attribute,
      or 1 when the edge has none. */
  function Weight(weights: map<Edge, int>, u: Node, v: Node): int {
    if (u, v) in weights then weights[(u, v)] else 1
  }

  /** Consecutive nodes of `w` are joined by edges. */
  predicate IsPath(E: set<Edge>, w: seq<Node>) {
    forall i :: 0 <= i < |w| - 1 ==> (w[i], w[i + 1]) in E
  }

  /** Adding one edge adds exactly its two endpoints to the touched nodes. */
  lemma EndpointsAddEdge(E: set<Edge>, u: Node, v: Node)
    ensures Endpoints(E + {(u, v)}) == Endpoints(E) + {u, v}
  {
    var lhs, rhs := Endpoints(E + {(u, v)}), Endpoints(E) + {u, v};
    forall x | x in rhs ensures x in lhs {
      if x !in Endpoints(E) {
        assert x == (u, v).0 || x == (u, v).1;
      }
    }
  }

  /** The nodes touched by a union of edge sets. */
  lemma EndpointsUnion(A: set<Edge>, B: set<Edge>)
    ensures Endpoints(A + B) == Endpoints(A) + Endpoints(B)
  {
  }

  /** A node has positive degree exactly when some edge touches it. */
  lemma DegreePositiveIff(E: set<Edge>, v: Node)
    ensures Degree(E, v) > 0 <==> exists e :: e in E && (e.0 == v || e.1 == v)
  {
    var ins := set e | e in E && e.1 == v;
    var outs := set e | e in E && e.0 == v;
    if e :| e in E && (e.0 == v || e.1 == v) {
      assert e in ins || e in outs;
    } else {
      assert ins == {};
      assert outs == {};
    }
  }

  /** Adding edges never lowers a degree. */
  lemma DegreeMonotone(E: set<Edge>, F: set<Edge>, v: Node)
    requires E <= F
    ensures Degree(E, v) <= Degree(F, v)
  {
    var insE, insF := set e | e in E && e.1 == v, set e | e in F && e.1 == v;
    var outsE, outsF := set e | e in E && e.0 == v, set e | e in F && e.0 == v;
    SubsetCard(insE, insF);
    SubsetCard(outsE, outsF);
  }

  lemma SubsetCard<T>(A: set<T>, B: set<T>)
    requires A <= B
    ensures |A| <= |B|
    decreases A
  {
    if A != {} {
      var x :| x in A;
      SubsetCard(A - {x}, B - {x});
    }
  }
}
