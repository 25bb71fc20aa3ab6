/** The StateGraph execution engine: a directed graph with the two sentinel
    nodes START and END and a history of visited nodes, which `step` extends
    one accepted action at a time, `reset` replaces with `[START]`, and
    `walk` drives over a whole list of actions.

    The engine's behaviour is first given as functions on values (Accepts,
    AfterStep, Run, WalkSpec); the class StateGraph then implements it on
    mutable fields and its methods are proved to agree with those functions.
    The lemmas below the class state what the source promises about them. */
module Engine {
  import opened Outcomes
  import opened Graphs

  /** The sentinel nodes every state graph holds. */
  const Start: Node := "_S_"
  const End: Node := "_E_"

  /** The machine is done when its current (last) node is END; having passed
      through END earlier does not count. */
  predicate IsDone(h: seq<Node>)
    requires h != []
  {
    h[|h| - 1] == End
  }

  /** `h` is a walk in the graph that starts at START. */
  predicate IsWalkFrom(E: set<Edge>, h: seq<Node>) {
    && h != []
    && h[0] == Start
    && forall i :: 0 <= i < |h| - 1 ==> (h[i], h[i + 1]) in E
  }

  /** `step(a)` accepts `a` exactly when the machine is not done and `a` is a
      successor of the current node. */
  predicate Accepts(E: set<Edge>, h: seq<Node>, a: Node)
    requires h != []
  {
    !IsDone(h) && (h[|h| - 1], a) in E
  }

  /** The history after `step(a)`: extended by `a` when accepted, else as it was. */
  function AfterStep(E: set<Edge>, h: seq<Node>, a: Node): seq<Node>
    requires h != []
  {
    if Accepts(E, h, a) then h + [a] else h
  }

  /** What the loop of `walk` has produced so far: the history, and the last
      action `step` rejected, if any. */
  datatype LoopState = LoopState(history: seq<Node>, failed: Option<Node>)

  /** The loop of `walk` over `path`, starting from history `h`: every action
      is offered to `step`; a rejected one is remembered and the loop goes on.
      The history only grows, by at most one node per action. */
  function Run(E: set<Edge>, h: seq<Node>, path: seq<Node>): (r: LoopState)
    requires h != []
    ensures h <= r.history
    ensures |r.history| <= |h| + |path|
    decreases |path|
  {
    if path == [] then LoopState(h, None)
    else
      var prev := Run(E, h, path[..|path| - 1]);
      var a := path[|path| - 1];
      if Accepts(E, prev.history, a) then LoopState(prev.history + [a], prev.failed)
      else LoopState(prev.history, Some(a))
  }

  /** The record `walk` returns. */
  datatype PathResult = PathResult(success: bool, failureState: Option<Node>, pathTaken: seq<Node>)

  /** The result of `walk` together with the history it leaves behind. */
  datatype WalkOutcome = WalkOutcome(result: PathResult, history: seq<Node>)

  /** The history the loop of `walk` starts from: a done machine is reset first. */
  function Entry(h: seq<Node>): (e: seq<Node>)
    requires h != []
    ensures e != [] && !IsDone(e)
  {
    if IsDone(h) then [Start] else h
  }

  /** `walk(path, reset)` from history `h`. A done machine either returns at
      once (no reset) or is reset and then walks `path` from START. The result
      holds the history list itself, so its `pathTaken` is the history as the
      loop left it, even when `reset` then installs a fresh `[START]`. */
  function WalkSpec(E: set<Edge>, h: seq<Node>, path: seq<Node>, reset: bool): WalkOutcome
    requires h != []
  {
    if IsDone(h) && !reset then WalkOutcome(PathResult(false, None, h), h)
    else
      var loop := Run(E, Entry(h), path);
      var result := PathResult(loop.failed.None? && IsDone(loop.history), loop.failed, loop.history);
      WalkOutcome(result, if reset then [Start] else loop.history)
  }

  /** A state graph: nodes, edges and edge weights as a networkx `DiGraph`
      holds them, plus the history of the running machine. */
  class StateGraph {
    var nodes: set<Node>
    var edges: set<Edge>
    var weights: map<Edge, int>
    var history: seq<Node>

    /** The graph part of the object invariant: both sentinels are nodes,
        every edge joins nodes, and weights sit on edges. */
    ghost predicate GraphValid()
      reads this
    {
      && Start in nodes
      && End in nodes
      && Endpoints(edges) <= nodes
      && weights.Keys <= edges
    }

    /** The object invariant: besides the graph's, the history is a walk in
        the graph from START. */
    ghost predicate Valid()
      reads this
    {
      GraphValid() && IsWalkFrom(edges, history)
    }

    /** `StateGraph(autobuild=False)`: the two sentinels, no edges, and the
        history reset to `[START]`. */
    constructor ()
      ensures Valid()
      ensures nodes == {Start, End} && edges == {} && weights == map[] && history == [Start]
    {
      nodes := {Start, End};
      edges := {};
      weights := map[];
      history := [Start];
    }

    /** `add_node`: idempotent. */
    method AddNode(v: Node)
      requires GraphValid()
      modifies this`nodes
      ensures GraphValid()
      ensures nodes == old(nodes) + {v}
      ensures old(Valid()) ==> Valid()
    {
      nodes := nodes + {v};
    }

    /** `add_edge(u, v)`: creates missing endpoints; an existing edge keeps
        its attributes. */
    method AddEdge(u: Node, v: Node)
      requires GraphValid()
      modifies this`nodes, this`edges
      ensures GraphValid()
      ensures nodes == old(nodes) + {u, v}
      ensures edges == old(edges) + {(u, v)}
      ensures old(Valid()) ==> Valid()
    {
      EndpointsAddEdge(edges, u, v);
      nodes := nodes + {u, v};
      edges := edges + {(u, v)};
    }

    /** `add_edge(u, v, weight=w)`: as AddEdge, and the edge's weight becomes `w`. */
    method AddWeightedEdge(u: Node, v: Node, w: int)
      requires GraphValid()
      modifies this`nodes, this`edges, this`weights
      ensures GraphValid()
      ensures nodes == old(nodes) + {u, v}
      ensures edges == old(edges) + {(u, v)}
      ensures weights == old(weights)[(u, v) := w]
      ensures old(Valid()) ==> Valid()
    {
      EndpointsAddEdge(edges, u, v);
      nodes := nodes + {u, v};
      edges := edges + {(u, v)};
      weights := weights[(u, v) := w];
    }

    /** `reset`: a fresh history holding START alone. */
    method Reset()
      requires GraphValid()
      modifies this`history
      ensures Valid()
      ensures history == [Start]
    {
      history := [Start];
    }

    /** `current_state`: the last node of the history, always a node of the graph. */
    function CurrentState(): (s: Node)
      reads this
      requires Valid()
      ensures s in nodes
    {
      var n := |history|;
      if n >= 2 then
        assert (history[n - 2], history[n - 1]) in edges;
        assert history[n - 1] in Endpoints(edges);
        history[n - 1]
      else
        history[n - 1]
    }

    /** `actions`: the successors of the current node. */
    function Actions(): (a: set<Node>)
      reads this
      requires Valid()
      ensures a <= nodes
      ensures forall v :: v in a <==> (CurrentState(), v) in edges
    {
      var s := Successors(edges, CurrentState());
      assert forall v | v in s :: (CurrentState(), v) in edges && v in Endpoints(edges);
      assert forall v | (CurrentState(), v) in edges :: (CurrentState(), v).1 in s;
      s
    }

    /** `done`: the current node is END. A done machine has left START. */
    predicate Done()
      reads this
      requires Valid()
      ensures Done() ==> |history| >= 2
    {
      IsDone(history)
    }

    /** `can_step(a)`: `a` is a successor of the current node. */
    predicate CanStep(action: Node)
      reads this
      requires Valid()
      ensures CanStep(action) <==> (CurrentState(), action) in edges
      ensures CanStep(action) ==> action in nodes
    {
      action in Actions()
    }

    /** `step(a)`: a done machine refuses every action; otherwise `a` is
        appended exactly when it is a successor of the current node. The
        answer is `true` where the source returns the graph, `false` where
        it returns `None`. */
    method Step(action: Node) returns (accepted: bool)
      requires Valid()
      modifies this`history
      ensures Valid()
      ensures accepted == Accepts(edges, old(history), action)
      ensures history == AfterStep(edges, old(history), action)
      ensures old(Done()) ==> !accepted && history == old(history)
      ensures !old(Done()) ==> (accepted <==> action in old(Actions()))
      ensures history == if accepted then old(history) + [action] else old(history)
    {
      if Done() {
        return false;
      }
      if CanStep(action) {
        history := history + [action];
        return true;
      }
      return false;
    }

    /** `walk(path, reset)`: agrees with WalkSpec. With `reset` the history is
        `[START]` on return; without it, a done machine returns
        `(False, None)` and its history untouched. */
    method Walk(path: seq<Node>, reset: bool) returns (r: PathResult)
      requires Valid()
      modifies this`history
      ensures Valid()
      ensures WalkSpec(edges, old(history), path, reset) == WalkOutcome(r, history)
      ensures reset ==> history == [Start]
      ensures old(Done()) && !reset ==> r == PathResult(false, None, old(history)) && history == old(history)
    {
      if Done() {
        if reset {
          Reset();
        } else {
          return PathResult(false, None, history);
        }
      }
      ghost var entry := history;
      var failed: Option<Node> := None;
      for i := 0 to |path|
        invariant Valid()
        invariant Run(edges, entry, path[..i]) == LoopState(history, failed)
      {
        assert path[..i + 1][..i] == path[..i];
        var accepted := Step(path[i]);
        if !accepted {
          failed := Some(path[i]);
        }
      }
      assert path[..|path|] == path;
      // The source's result holds the history list object itself; steps
      // append to that same list, so what it shows is the post-loop history.
      r := PathResult(failed.None? && Done(), failed, history);
      if reset {
        Reset();
      }
    }
  }

  /** Adding edges keeps every walk a walk. */
  lemma WalkFromMonotone(E: set<Edge>, F: set<Edge>, h: seq<Node>)
    requires E <= F && IsWalkFrom(E, h)
    ensures IsWalkFrom(F, h)
  {
  }

  /** The move from position `i` of `w` to position `i + 1` leaves a node
      other than END along an edge of the graph. */
  predicate LegalAt(E: set<Edge>, w: seq<Node>, i: int)
    requires 0 <= i < |w| - 1
  {
    w[i] != End && (w[i], w[i + 1]) in E
  }

  /** Every action of `path`, taken in turn from the end of `h`, leaves a
      node other than END along an edge of the graph. */
  predicate Legal(E: set<Edge>, h: seq<Node>, path: seq<Node>)
    requires h != []
  {
    forall i :: |h| - 1 <= i < |h + path| - 1 ==> LegalAt(E, h + path, i)
  }

  /** Step `k` of the loop over `path` is rejected. */
  predicate RejectedAt(E: set<Edge>, h: seq<Node>, path: seq<Node>, k: int)
    requires h != [] && 0 <= k < |path|
  {
    !Accepts(E, Run(E, h, path[..k]).history, path[k])
  }

  /** The loop keeps the history a walk from START. */
  lemma {:induction false} RunKeepsWalk(E: set<Edge>, h: seq<Node>, path: seq<Node>)
    requires IsWalkFrom(E, h)
    ensures IsWalkFrom(E, Run(E, h, path).history)
    decreases |path|
  {
    if path != [] {
      RunKeepsWalk(E, h, path[..|path| - 1]);
    }
  }

  /** Legality of a path extended by one action: the prefix is legal and the
      new action leaves the node the prefix reached, which is not END. */
  lemma LegalSnoc(E: set<Edge>, h: seq<Node>, p: seq<Node>, a: Node)
    requires h != []
    ensures Legal(E, h, p + [a]) <==>
      Legal(E, h, p) && (h + p)[|h + p| - 1] != End && ((h + p)[|h + p| - 1], a) in E
  {
    var w, w' := h + (p + [a]), h + p;
    assert w == w' + [a];
    forall i | |h| - 1 <= i < |w'| - 1
      ensures LegalAt(E, w, i) == LegalAt(E, w', i)
    {
      assert w[i] == w'[i] && w[i + 1] == w'[i + 1];
    }
    assert LegalAt(E, w, |w'| - 1) <==> w'[|w'| - 1] != End && (w'[|w'| - 1], a) in E;
  }

  /** No action is rejected exactly when the path is legal from `h`, and then
      the history is `h` followed by the whole path. */
  lemma {:induction false} RunAcceptsAllIff(E: set<Edge>, h: seq<Node>, path: seq<Node>)
    requires h != []
    ensures Run(E, h, path).failed.None? <==> Legal(E, h, path)
    ensures Run(E, h, path).failed.None? ==> Run(E, h, path).history == h + path
    decreases |path|
  {
    if path != [] {
      var n := |path|;
      var p', a := path[..n - 1], path[n - 1];
      assert path == p' + [a];
      RunAcceptsAllIff(E, h, p');
      LegalSnoc(E, h, p', a);
    }
  }

  /** Whether step `k` is rejected does not depend on the actions after it. */
  lemma RejectedAtPrefix(E: set<Edge>, h: seq<Node>, path: seq<Node>, k: int)
    requires h != [] && 0 <= k < |path| - 1
    ensures RejectedAt(E, h, path, k) == RejectedAt(E, h, path[..|path| - 1], k)
  {
    assert path[..k] == path[..|path| - 1][..k];
  }

  /** Step `k` is the last step of the loop that is rejected. */
  predicate LastRejectedAt(E: set<Edge>, h: seq<Node>, path: seq<Node>, k: int)
    requires h != [] && 0 <= k < |path|
  {
    RejectedAt(E, h, path, k) && forall j :: k < j < |path| ==> !RejectedAt(E, h, path, j)
  }

  /** `failure_state` is empty exactly when no step was rejected. */
  lemma {:induction false} RunFailedNoneIff(E: set<Edge>, h: seq<Node>, path: seq<Node>)
    requires h != []
    ensures Run(E, h, path).failed.None? <==> forall k :: 0 <= k < |path| ==> !RejectedAt(E, h, path, k)
    decreases |path|
  {
    if path != [] {
      var n := |path|;
      var p' := path[..n - 1];
      RunFailedNoneIff(E, h, p');
      forall k | 0 <= k < n - 1
        ensures RejectedAt(E, h, path, k) == RejectedAt(E, h, p', k)
      {
        RejectedAtPrefix(E, h, path, k);
      }
      assert path[..n - 1] == p';
      assert Run(E, h, path).failed.None? <==>
        Run(E, h, p').failed.None? && !RejectedAt(E, h, path, n - 1);
    }
  }

  /** `failure_state` is the LAST rejected action: the loop does not stop at
      a rejection. */
  lemma {:induction false} RunFailedIsLastRejected(E: set<Edge>, h: seq<Node>, path: seq<Node>)
    requires h != []
    ensures Run(E, h, path).failed.Some? ==>
      exists k :: 0 <= k < |path| && LastRejectedAt(E, h, path, k) && Run(E, h, path).failed.value == path[k]
    decreases |path|
  {
    if path != [] {
      var n := |path|;
      var p' := path[..n - 1];
      assert path[..n - 1] == p';
      if RejectedAt(E, h, path, n - 1) {
        assert LastRejectedAt(E, h, path, n - 1);
      } else if Run(E, h, p').failed.Some? {
        RunFailedIsLastRejected(E, h, p');
        var k :| 0 <= k < |p'| && LastRejectedAt(E, h, p', k) && Run(E, h, p').failed.value == p'[k];
        forall j | k <= j < n - 1
          ensures RejectedAt(E, h, path, j) == RejectedAt(E, h, p', j)
        {
          RejectedAtPrefix(E, h, path, j);
        }
        assert LastRejectedAt(E, h, path, k);
      }
    }
  }

  /** A machine that is done, or stuck at a node with no successors, refuses
      every action: the history stays put and the last action is the failure. */
  lemma {:induction false} RunStuck(E: set<Edge>, h: seq<Node>, path: seq<Node>)
    requires h != []
    requires IsDone(h) || Successors(E, h[|h| - 1]) == {}
    ensures Run(E, h, path) == LoopState(h, if path == [] then None else Some(path[|path| - 1]))
    decreases |path|
  {
    if path != [] {
      var a := path[|path| - 1];
      RunStuck(E, h, path[..|path| - 1]);
      if !IsDone(h) {
        var u := h[|h| - 1];
        assert (u, a) in E ==> a in Successors(E, u);
      }
    }
  }

  /** `walk` succeeds exactly when it got past the done-on-entry check and
      the whole path is legal from where the loop starts and ends at END;
      then `pathTaken` is that start followed by the whole path. */
  lemma WalkSucceedsIff(E: set<Edge>, h: seq<Node>, path: seq<Node>, reset: bool)
    requires h != []
    ensures WalkSpec(E, h, path, reset).result.success <==>
      (!IsDone(h) || reset) && Legal(E, Entry(h), path) && IsDone(Entry(h) + path)
    ensures WalkSpec(E, h, path, reset).result.success ==>
      WalkSpec(E, h, path, reset).result.pathTaken == Entry(h) + path
  {
    RunAcceptsAllIff(E, Entry(h), path);
  }

  /** When `walk` reaches its loop, `failure_state` is empty exactly when no
      step was rejected, and otherwise it is the last rejected action. */
  lemma WalkFailureIsLastRejected(E: set<Edge>, h: seq<Node>, path: seq<Node>, reset: bool)
    requires h != []
    requires !IsDone(h) || reset
    ensures var r := WalkSpec(E, h, path, reset).result;
      && (r.failureState.None? <==> forall k :: 0 <= k < |path| ==> !RejectedAt(E, Entry(h), path, k))
      && (r.failureState.Some? ==>
            exists k :: 0 <= k < |path| && LastRejectedAt(E, Entry(h), path, k) && r.failureState.value == path[k])
      && (r.failureState.Some? ==> !r.success)
  {
    RunFailedNoneIff(E, Entry(h), path);
    RunFailedIsLastRejected(E, Entry(h), path);
  }

  /** `walk` keeps the history invariant, and the path it reports is itself a
      walk from START. */
  lemma WalkKeepsWalk(E: set<Edge>, h: seq<Node>, path: seq<Node>, reset: bool)
    requires IsWalkFrom(E, h)
    ensures IsWalkFrom(E, WalkSpec(E, h, path, reset).history)
    ensures IsWalkFrom(E, WalkSpec(E, h, path, reset).result.pathTaken)
  {
    if !IsDone(h) || reset {
      RunKeepsWalk(E, Entry(h), path);
    }
  }

  /** A machine done on entry and walked with `reset` behaves exactly as a
      freshly reset one: it does not return early. */
  lemma WalkFromDoneRestarts(E: set<Edge>, h: seq<Node>, path: seq<Node>)
    requires h != [] && IsDone(h)
    ensures WalkSpec(E, h, path, true) == WalkSpec(E, [Start], path, true)
  {
  }

  /** Once END is reached, every later action is refused: walking from a done
      history without reset reports no failure; walking a longer path after
      END within one walk fails on its last action. */
  lemma WalkPastEndFails(E: set<Edge>, h: seq<Node>, path: seq<Node>, more: seq<Node>, reset: bool)
    requires h != [] && (!IsDone(h) || reset)
    requires Run(E, Entry(h), path).failed.None? && IsDone(Run(E, Entry(h), path).history)
    requires more != []
    ensures WalkSpec(E, h, path + more, reset).result ==
      PathResult(false, Some(more[|more| - 1]), Entry(h) + path)
  {
    var mid := Run(E, Entry(h), path);
    RunAcceptsAllIff(E, Entry(h), path);
    RunConcat(E, Entry(h), path, more);
    RunStuck(E, mid.history, more);
  }

  /** The loop over `p + q` is the loop over `q` from where `p` left off; a
      failure in `q` overrides one in `p`. */
  lemma {:induction false} RunConcat(E: set<Edge>, h: seq<Node>, p: seq<Node>, q: seq<Node>)
    requires h != []
    ensures Run(E, h, p + q).history == Run(E, Run(E, h, p).history, q).history
    ensures Run(E, h, p + q).failed ==
      if Run(E, Run(E, h, p).history, q).failed.Some? then Run(E, Run(E, h, p).history, q).failed
      else Run(E, h, p).failed
    decreases |q|
  {
    if q == [] {
      assert p + q == p;
    } else {
      var q' := q[..|q| - 1];
      RunConcat(E, h, p, q');
      assert (p + q)[..|p + q| - 1] == p + q';
    }
  }
}
