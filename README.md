# sand-fsm in Dafny

This project models the core of sand-fsm, a small finite-state-machine
toolkit built on networkx directed graphs:

- **The StateGraph engine** (`machinist/stategraph.py`). A graph always holds
  the sentinel nodes `_S_` (START) and `_E_` (END). A history list records the
  visited nodes, and its last element is the current state.
  - `step` extends the history by one accepted action.
  - `reset` replaces the history with `[_S_]`.
  - `walk` drives `step` over a list of actions and reports a
    `PathResult(success, failure_state, path_taken)`.
- **The AutoSG builder** (`machinist/builders/autosg.py`). It adds `n`
  labelled nodes and one of five topologies: random upper-triangular, ring,
  complete DAG, grid or star. It then patches each sentinel whose degree is 0.
- **The greedy walker** (`machinist/walkers/greedy.py`). It repeatedly moves
  to a heaviest successor that has not been visited.
- **The older single-file revision** (`state_machinist.py`). It holds the
  hand-written MSG machine, and an AutoSG whose `build` has no sentinel patch.
- **The string machines** (`machine.py`). `CharSub` rewrites its state with
  first-match character rules. `Rand` picks a rule.

Layout, one module per file:

- `outcomes.dfy`: `Option` and `Result`.
- `graphs.dfy`: the networkx vocabulary, namely successors, endpoints,
  degree (in-degree plus out-degree) and edge weight (default 1).
- `engine.dfy`: the engine as functions on values (`Run`, `WalkSpec`) and as
  the class `StateGraph`, whose methods are proved to agree with them.
- `decimal.dfy`: Python's `str` on integers, which is the default labeler.
- `topology.dfy`: each topology as an exact set of index pairs, the sentinel
  patch, and their properties.
- `autosg.dfy`: the builder loops, proved to install exactly those sets.
- `greedy.dfy`: the greedy walker.
- `legacy.dfy`: the older revision.
- `machines.dfy`: the string machines.

A labeler is any function from integers to nodes that is injective and never
yields a sentinel (`Topology.IsLabeler`); `Topology.StrIsLabeler` proves this
of `str`. Random draws are an input sequence. `randint(0, n)` for pair
`i < j` is `draws[PairIndex(n, i, j)]`, in the order the nested loops draw
them.

## Model

| member | source | states |
|---|---|---|
| Engine.StateGraph.constructor | machinist/stategraph.py:32-42 | A new graph holds exactly the two sentinels, no edges, and the history `[_S_]`. |
| Engine.StateGraph.Reset | machinist/stategraph.py:48-49 | After `reset` the history is `[_S_]` and the object invariant holds. Because `_S_` is not `_E_`, the machine is not done. |
| Engine.StateGraph.CurrentState | machinist/stategraph.py:55-57 | The current state is always a node of the graph. |
| Engine.StateGraph.Actions | machinist/stategraph.py:51-53 | The actions are exactly the successors of the current state, and all of them are nodes. |
| Engine.StateGraph.Done | machinist/stategraph.py:59-63 | A done machine has taken at least one step past `_S_`. |
| Engine.StateGraph.CanStep | machinist/stategraph.py:65-66 | `can_step(a)` holds iff the edge from the current state to `a` exists. |
| Engine.StateGraph.Step | machinist/stategraph.py:68-82 | A done machine refuses every action and keeps its history. Otherwise `a` is appended iff it is among the actions, and nothing else changes. The history stays a walk from `_S_`. |
| Engine.StateGraph.Walk | machinist/stategraph.py:93-111 | The result and the new history are those of `WalkSpec`. With `reset` the history is `[_S_]` on return. Without `reset`, a done machine returns `(False, None)` with its history unchanged. |
| Engine.StateGraph.AddEdge | machinist/stategraph.py:27 | `add_edge` adds the edge and creates both endpoints. It keeps the graph and history invariants. |
| Engine.StateGraph.AddNode | machinist/stategraph.py:34-35 | `add_node` adds exactly one node, idempotently. |
| Engine.Run | machinist/stategraph.py:100-103 | The loop of `walk` only ever extends the history, by at most one node per action. |
| Engine.RunKeepsWalk | machinist/stategraph.py:77-78 | A history that is a walk from `_S_` stays one through the loop. |
| Engine.RunAcceptsAllIff | machinist/stategraph.py:100-103 | No action is rejected iff the whole path is legal. The history is then the old one followed by the path. |
| Engine.RunFailedNoneIff | machinist/stategraph.py:100-106 | The loop records no failure iff no step was rejected. |
| Engine.RunFailedIsLastRejected | machinist/stategraph.py:101-103 | A recorded failure is the last rejected action, because the loop does not stop on a rejection. |
| Engine.RunStuck | machinist/stategraph.py:74-82 | From a done state, or from a state with no successors, every action is refused. The failure is the last action. |
| Engine.RunConcat | machinist/stategraph.py:101-103 | Walking `p + q` is walking `q` from where `p` ended. A failure in `q` overrides one in `p`. |
| Engine.LegalSnoc | machinist/stategraph.py:65-66 | A path extended by `a` is legal iff the prefix is legal, its end is not `_E_`, and the edge to `a` exists. |
| Engine.WalkSucceedsIff | machinist/stategraph.py:93-109 | `success` holds iff the machine got past the done check and the path is legal from the entry history and ends at `_E_`. `path_taken` is then that history followed by the path. |
| Engine.WalkFailureIsLastRejected | machinist/stategraph.py:100-106 | Once the loop runs, `failure_state` is None iff nothing was rejected. Otherwise it is the last rejected action, and `success` is false. |
| Engine.WalkKeepsWalk | machinist/stategraph.py:93-111 | After `walk`, both the history and `path_taken` are walks from `_S_`. |
| Engine.WalkFromDoneRestarts | machinist/stategraph.py:94-96 | A done machine walked with `reset` behaves exactly like a freshly reset one: it does not return early. |
| Engine.WalkPastEndFails | machinist/stategraph.py:74-103 | Actions offered after `_E_` within one walk are all refused. The walk fails on its last action and reports the path up to `_E_`. |
| Engine.WalkFromMonotone | machinist/stategraph.py:27 | Adding edges keeps every walk a walk. |
| Graphs.DegreePositiveIff | machinist/builders/autosg.py:33-37 | A node's networkx degree is positive iff some edge touches it. |
| Graphs.DegreeMonotone | machinist/builders/autosg.py:33-37 | Adding edges never lowers a degree. |
| Graphs.EndpointsAddEdge | machinist/builders/autosg.py:45 | `add_edge(u, v)` adds exactly `u` and `v` to the nodes the edges touch. |
| Decimal.ParseStr | machinist/builders/autosg.py:11 | Parsing `str(i)` gives back `i`, for negative `i` too. |
| Decimal.StrInjective | machinist/builders/autosg.py:11 | Distinct integers have distinct `str` labels. |
| Topology.StrIsLabeler | machinist/builders/autosg.py:11 | The default labeler `str` is injective and never yields `_S_` or `_E_`. |
| Topology.LabelledCard | machinist/builders/autosg.py:10-16 | An injective labeler keeps the number of edges: labelled pairs are as many as the pairs. |
| Topology.PairIndex | machinist/builders/autosg.py:42-44 | The draw index of pair `(i, j)` lies inside row `i`'s block of draws. |
| Topology.PairIndexInjective | machinist/builders/autosg.py:42-44 | Different pairs consume different draws. |
| Topology.PairCountFormula | machinist/builders/autosg.py:42-44 | The random builder draws exactly `n(n-1)/2` times. |
| Topology.RandomIsForward | machinist/builders/autosg.py:41-45 | Every random edge goes from `labeler(i)` to `labeler(j)` with `i < j`. The random topology is a subset of the complete one. |
| Topology.ForwardAcyclic | machinist/builders/autosg.py:41-45 | A labelled graph whose edges all go forward has no cycle: no path returns to its first node. |
| Topology.RandomExtremes | machinist/builders/autosg.py:44 | With draws in `[0, n]`, a target above `n` gives the complete DAG and a target of at most 0 gives no edge. |
| Topology.CompletePairsCard | machinist/builders/autosg.py:51-54 | The complete topology has exactly `n(n-1)/2` pairs. |
| Topology.CycleIsRing | machinist/builders/autosg.py:47-49 | The cycle has exactly `n` edges, and the only successor of `labeler(i)` is `labeler((i+1) mod n)`. |
| Topology.StarShape | machinist/builders/autosg.py:70-73 | The star has exactly `n-1` edges, all leaving `labeler(0)`. |
| Topology.FloorSqrt | machinist/builders/autosg.py:57 | `side` is the integer square root: `side² <= n < (side+1)²`. |
| Topology.FlatInjective | machinist/builders/autosg.py:60 | Distinct cells of the block have distinct indices `i*side + j`. |
| Topology.GridEdgeIff | machinist/builders/autosg.py:56-68 | Two cells of the block are joined iff they differ by one in exactly one coordinate. |
| Topology.GridSymmetric | machinist/builders/autosg.py:56-68 | The grid's edge set is symmetric. |
| Topology.GridWithinBlock | machinist/builders/autosg.py:56-68 | Labels with index `>= side²` get no grid edge. |
| Topology.TopologyWithinLabels | machinist/builders/autosg.py:15-27 | Every topology touches only the nodes `labeler(0..n-1)` that `build` adds first. |
| Topology.TopologyAvoidsSentinels | machinist/builders/autosg.py:18-29 | No topology edge touches a sentinel. An unknown tag adds no edge. |
| Topology.PatchedTouchesSentinels | machinist/builders/autosg.py:31-37 | The patch adds `labeler(n-1) -> _E_` only if `_E_` had degree 0, and `_S_ -> labeler(0)` only if `_S_` had degree 0. Afterwards both sentinels have degree at least 1. |
| Topology.RebuildSkipsPatch | machinist/builders/autosg.py:33-37 | Once both sentinels have an edge, adding more edges makes the patch add nothing. |
| Topology.RebuildAddsOnlyTopology | machinist/builders/autosg.py:11-37 | A second `build` on a patched graph adds its topology and no patch edge. |
| Topology.UnpatchedKeepsSentinels | state_machinist.py:187-204 | Adding a topology leaves the successors and the degrees of both sentinels as they were. |
| AutoSG.BuildRandomGraph | machinist/builders/autosg.py:41-45 | The nested loops add exactly the labelled pairs `i < j` whose draw is below the target, and create exactly their endpoints. |
| AutoSG.BuildCycleGraph | machinist/builders/autosg.py:47-49 | The loop adds exactly the labelled ring arcs `i -> (i+1) mod n`. |
| AutoSG.BuildCompleteGraph | machinist/builders/autosg.py:51-54 | The nested loops add exactly the labelled pairs `i < j`. |
| AutoSG.BuildGridGraph | machinist/builders/autosg.py:56-68 | The loops add exactly the labelled pairs of adjacent cells of the `side × side` block. |
| AutoSG.BuildStarGraph | machinist/builders/autosg.py:70-73 | The loop adds exactly the labelled edges `0 -> i` for `1 <= i < n`. |
| AutoSG.BuildTopology | machinist/builders/autosg.py:15-29 | `build` adds the nodes `labeler(0..n-1)`, then exactly the edges of the tagged topology. An unknown tag adds none. |
| AutoSG.Build | machinist/builders/autosg.py:11-39 | `build` returns the graph itself. Its edges are the topology plus the degree-0 patches, computed after the topology, and its nodes grow by the labels and every endpoint. |
| AutoSG.NewAutoSGWith | machinist/stategraph.py:32-42 | `AutoSG(...)` runs `build` during construction and then resets. The history is `[_S_]` and the edges are the patched topology. |
| AutoSG.NewAutoSG | machinist/builders/autosg.py:11 | `AutoSG()` builds ten `str`-labelled nodes with the random topology and target 5, then patches. |
| Greedy.GreedyPath | machinist/walkers/greedy.py:1-17 | A start node that is not in the graph is an error. Otherwise the result is a greedy path: it starts at `start_node`, each move goes to a maximum-weight unvisited successor (a missing weight counts as 1), and on return every successor of the last node has been visited. The path is no longer than the graph has nodes. |
| Greedy.MaxWeightExists | machinist/walkers/greedy.py:13 | A non-empty set of successors has a member of maximum weight, so `max` is defined. |
| Greedy.GreedyPathIsDistinct | machinist/walkers/greedy.py:7-15 | A greedy path is a path of the graph, and its nodes are pairwise distinct. |
| Greedy.GreedyPathBound | machinist/walkers/greedy.py:6-15 | A greedy path within the graph's nodes is at most as long as there are nodes. |
| Greedy.GreedyPathEnds | machinist/walkers/greedy.py:8-17 | Every successor of the last node is on the path. A start node with no successor other than itself yields `[start_node]`. |
| Legacy.AddEdgesFrom | state_machinist.py:165 | `add_edges_from` adds exactly the listed edges and their endpoints. |
| Legacy.MsgBuild | state_machinist.py:164-177 | MSG's `build` adds its nine edges and the nodes A, B, C and D. |
| Legacy.NewMsg | state_machinist.py:33-43 | `MSG()` has exactly the MSG edges, the nodes `_S_`, `_E_`, A, B, C and D, and the history `[_S_]`. |
| Legacy.MsgEndpoints | state_machinist.py:165-176 | The MSG edges touch exactly the sentinels and A, B, C and D. |
| Legacy.MsgSentinelEdges | state_machinist.py:165-176 | In MSG the only step from `_S_` is to A, and `_E_` is entered only from D. |
| Legacy.MsgTourLegal | state_machinist.py:165-176 | Every move of the tour A, B, C, A, D, `_E_` from `_S_` is an MSG edge leaving a node other than `_E_`. |
| Legacy.MsgTourSucceeds | state_machinist.py:94-112 | Walking A, B, C, A, D, `_E_` on a fresh MSG succeeds with `path_taken` `[_S_, A, B, C, A, D, _E_]`. |
| Legacy.MsgUnknownActionFails | state_machinist.py:101-104 | Walking A, B, E on a fresh MSG fails with `failure_state` E, and the history after the loop is `[_S_, A, B]`. |
| Legacy.LegacyBuild | state_machinist.py:187-204 | This revision's `build` adds the labels and exactly the topology, with no patch, and returns the graph. |
| Legacy.NewLegacyAutoSGWith | state_machinist.py:33-43 | This revision's `AutoSG(...)` has exactly the unpatched topology as its edges, and the history `[_S_]`. |
| Legacy.NewLegacyAutoSG | state_machinist.py:187 | With the defaults, the edges are the unpatched random topology on ten `str` labels. |
| Legacy.UnpatchedWalkFails | state_machinist.py:187-204 | Without the patch `_S_` has no successor, so every non-empty walk of a fresh machine fails on its last action and reports `[_S_]`. |
| Machines.MachineNext | machine.py:13-14 | The base machine's `next` always fails as not implemented. |
| Machines.RandNext | machine.py:17-19 | `Rand.next` fails iff there are no rules. Otherwise it yields one of the rules. |
| Machines.RandReachesEveryRule | machine.py:19 | Every rule is the pick for some draw. |
| Machines.ReplacementIsFirstMatch | machine.py:26-29 | A character is replaced by the text of the first rule keyed by it. |
| Machines.ReplacementUnmatched | machine.py:26-29 | A character keyed by no rule contributes nothing. |
| Machines.SubstituteAppend | machine.py:25-29 | Substitution works character by character: the result for `s + t` is the result for `s` followed by the result for `t`. |
| Machines.SubstituteUnmatched | machine.py:25-29 | A state in which no character is a key becomes empty. |
| Machines.SubstituteKeepsLength | machine.py:25-29 | With a rule for every character and one-character replacements, the output is as long as the input. |
| Machines.FirstMatchExists | machine.py:26-29 | If some rule is keyed by a character, there is a first such rule. |
| Machines.CharSub.constructor | machine.py:9-11 | A machine starts with the given state and rules. |
| Machines.CharSub.Next | machine.py:23-32 | `CharSub.next` returns the substitution of the old state, and that result becomes the new state, so a second call rewrites it. An empty state yields `""`. |

The StateGraph in `state_machinist.py` (lines 28-112) is the same code as the
one in `machinist/stategraph.py`. Its `step`, `walk` and `reset` are therefore
`Engine.StateGraph.Step`, `Engine.StateGraph.Walk` and
`Engine.StateGraph.Reset`.

## Left out

- `draw` and `animate` in both StateGraph files are left out: they are matplotlib rendering and GIF output.
- `cycle_detect` is left out: it wraps `networkx.find_cycle`.
- `machinist/demos.py` is left out: it is plotting and file output. Its MSG copy is the one modelled from `state_machinist.py`.
- `machinist/__main__.py` and `__main__.py` are left out: they are command-line and demo scripts.
- The `machine.py` main block and `StrSub`, an empty stub, are left out.
- `sparse_builder` is left out: it relies on float modulo by `1/connectivity`.
- The `verbose` printing in `step` is left out, and so is `GraphHistory.__str__`.
- networkx internals are not modelled. Only idempotent `add_node`, `add_edge` with auto-created endpoints, successor lookup, `degree` and the `weight` attribute are assumed.
- Randomness is not modelled. `randint` results are the `draws` parameter, and `Rand`'s index is the `draw` parameter.
- `Topology.RandomExtremes` is the only place that assumes draws lie in `[0, n]`. The builders accept any integers.
- The floating-point `n**0.5` of the grid is the integer square root. Float rounding for very large `n` is not modelled.
- `target_avg_degree` is an integer. A float target is not modelled.
- `n` is a natural number. With `n = 0` the patch uses `labeler(-1)`, as the source does. A negative `n` is not modelled.
- Engine.StateGraph.Step: returns `true` where the source returns the graph, and `false` where it returns `None`.
- Engine.StateGraph.Walk: after the call, `path_taken` is the history value as the loop left it. Later mutation through that alias, such as further steps after a walk with `reset=False`, is not modelled.
- Engine.StateGraph.constructor: the source's history is an empty list until `reset`. Here it is `[_S_]` from the start. `build` never reads the history, so nothing observable changes.
- Greedy.GreedyPath: when several unvisited successors share the maximum weight, any one may be chosen. The source takes the first in Python's set iteration order, which is not specified.
- Machines.CharSub.Next: a `None` state, which Python rejects with a `TypeError`, is not modelled. The state is a string.
- Rule keys longer than one character never match a character, as in the source. Rules are pairs of strings.
- The builders' helper methods (`AutoSG.BuildRandomRow`, `AutoSG.BuildGridRow` and `AutoSG.AddCellEdges`) and the single-step lemmas in `Topology` split the source's nested loops for the proofs. They are not separate operations of the source.
