/** The edge sets the topology builder installs, stated as sets of index
    pairs and then labelled by the builder's labeler: the five topology
    families, the sentinel patch, and what each family is promised to be
    (its size, its shape, that it is acyclic or symmetric). The builder
    methods in module AutoSG are proved to install exactly these sets. */
module Topology {
  import opened Graphs
  import opened Engine
  import Decimal

  /** A pair of node indices, labelled into an edge by the labeler. */
  type IndexPair = (int, int)

  /** What the builder needs of its labeler: distinct indices get distinct
      labels, and no label is a sentinel. */
  ghost predicate IsLabeler(L: int -> Node) {
    && (forall i, j :: L(i) == L(j) ==> i == j)
    && (forall i :: L(i) != Start && L(i) != End)
  }

  /** The labelled nodes `labeler(0) .. labeler(n - 1)`. */
  function Labels(L: int -> Node, n: nat): set<Node> {
    set i | 0 <= i < n :: L(i)
  }

  /** The edges `labeler(i) -> labeler(j)` for the index pairs `(i, j)` in `P`. */
  function Labelled(L: int -> Node, P: set<IndexPair>): set<Edge> {
    set p | p in P :: (L(p.0), L(p.1))
  }

  /** The default labeler `str` is a labeler. */
  lemma StrIsLabeler()
    ensures IsLabeler(Decimal.Str)
  {
    forall i, j ensures Decimal.Str(i) == Decimal.Str(j) ==> i == j {
      Decimal.StrInjective(i, j);
    }
    forall i ensures Decimal.Str(i) != Start && Decimal.Str(i) != End {
      assert Start[0] == '_' && End[0] == '_';
    }
  }

  /** A labelled edge set built by an injective labeler has one edge per
      index pair. */
  lemma {:induction false} LabelledCard(L: int -> Node, P: set<IndexPair>)
    requires IsLabeler(L)
    ensures |Labelled(L, P)| == |P|
    decreases P
  {
    if P != {} {
      var p :| p in P;
      var rest := P - {p};
      LabelledCard(L, rest);
      assert Labelled(L, P) == Labelled(L, rest) + {(L(p.0), L(p.1))};
      forall q | q in rest ensures (L(q.0), L(q.1)) != (L(p.0), L(p.1)) {
        if q.0 != p.0 {
          assert L(q.0) != L(p.0);
        } else {
          assert q != p && q == (q.0, q.1) && p == (p.0, p.1);
          assert q.1 != p.1;
          assert L(q.1) != L(p.1);
        }
      }
    }
  }

  /** Labelling one more pair adds its one edge. */
  lemma LabelledAdd(L: int -> Node, P: set<IndexPair>, p: IndexPair)
    ensures Labelled(L, P + {p}) == Labelled(L, P) + {(L(p.0), L(p.1))}
  {
  }

  // ----- random: one draw per pair i < j, in loop order -----

  /** How many draws the random builder makes before row `i`: row `i'` has
      one draw for each `j` with `i' < j < n`. */
  function RowStart(n: nat, i: nat): nat
    requires i <= n
  {
    if i == 0 then 0 else RowStart(n, i - 1) + (n - i)
  }

  /** Row `i` holds `n - i - 1` draws. */
  lemma RowStartNext(n: nat, i: nat)
    requires i < n
    ensures RowStart(n, i + 1) == RowStart(n, i) + (n - i - 1)
  {
  }

  /** How many draws the random builder makes in all: one per pair `i < j`. */
  function PairCount(n: nat): nat {
    RowStart(n, n)
  }

  lemma {:induction false} RowStartMonotone(n: nat, i: nat, j: nat)
    requires i <= j <= n
    ensures RowStart(n, i) <= RowStart(n, j)
    decreases j - i
  {
    if i < j {
      RowStartMonotone(n, i, j - 1);
    }
  }

  /** The position, among all draws, of the draw for pair `(i, j)`. */
  function PairIndex(n: nat, i: int, j: int): (k: nat)
    requires 0 <= i < j < n
    ensures RowStart(n, i) <= k < RowStart(n, i + 1) <= PairCount(n)
  {
    RowStartMonotone(n, i + 1, n);
    RowStart(n, i) + (j - i - 1)
  }

  /** Distinct pairs read distinct draws. */
  lemma PairIndexInjective(n: nat, i: int, j: int, i': int, j': int)
    requires 0 <= i < j < n && 0 <= i' < j' < n
    requires (i, j) != (i', j')
    ensures PairIndex(n, i, j) != PairIndex(n, i', j')
  {
    if i < i' {
      RowStartMonotone(n, i + 1, i');
    } else if i' < i {
      RowStartMonotone(n, i' + 1, i);
    }
  }

  lemma {:induction false} RowStartFormula(n: nat, i: nat)
    requires i <= n
    ensures 2 * RowStart(n, i) == i * (2 * n - i - 1)
  {
    if i > 0 {
      RowStartFormula(n, i - 1);
      calc {
        2 * RowStart(n, i);
        2 * RowStart(n, i - 1) + 2 * (n - i);
        (i - 1) * (2 * n - i) + 2 * (n - i);
        i * (2 * n - i - 1);
      }
    }
  }

  /** The random builder makes n(n-1)/2 draws. */
  lemma PairCountFormula(n: nat)
    ensures 2 * PairCount(n) == n * (n - 1)
  {
    RowStartFormula(n, n);
  }

  /** Every draw `randint(0, n)` returns lies in `[0, n]`. */
  ghost predicate DrawsInRange(n: nat, draws: seq<int>) {
    forall k :: 0 <= k < |draws| ==> 0 <= draws[k] <= n
  }

  /** The random topology: pair `i < j` becomes an edge exactly when its draw
      is below the target average degree. */
  function RandomPairs(n: nat, target: int, draws: seq<int>): set<IndexPair>
    requires |draws| >= PairCount(n)
  {
    set i, j | 0 <= i < j < n && draws[PairIndex(n, i, j)] < target :: (i, j)
  }

  /** The random pairs of the rows before `i` and of row `i` before column `j`. */
  function RandomPairsBefore(n: nat, target: int, draws: seq<int>, i: int, j: int): set<IndexPair>
    requires |draws| >= PairCount(n)
  {
    set a, b | 0 <= a < b < n && RowMajorBefore((a, b), i, j) && draws[PairIndex(n, a, b)] < target :: (a, b)
  }

  // ----- complete: every pair i < j -----

  /** The complete topology: every pair `i < j`. */
  function CompletePairs(n: nat): set<IndexPair> {
    set i, j | 0 <= i < j < n :: (i, j)
  }

  /** The complete pairs of the rows before `i` and of row `i` before column `j`. */
  function CompletePairsBefore(n: nat, i: int, j: int): set<IndexPair> {
    set a, b | 0 <= a < b < n && RowMajorBefore((a, b), i, j) :: (a, b)
  }

  /** Row `i` of the random loop starts at column `i + 1`: nothing of row
      `i` comes before it. */
  lemma RandomRowEntry(L: int -> Node, n: nat, target: int, draws: seq<int>, i: int)
    requires |draws| >= PairCount(n)
    ensures Labelled(L, RandomPairsBefore(n, target, draws, i, i + 1)) ==
            Labelled(L, RandomPairsBefore(n, target, draws, i, 0))
  {
    assert RandomPairsBefore(n, target, draws, i, i + 1) == RandomPairsBefore(n, target, draws, i, 0);
  }

  /** Finishing row `i` of the random loop is starting row `i + 1`. */
  lemma RandomRowExit(L: int -> Node, n: nat, target: int, draws: seq<int>, i: int)
    requires |draws| >= PairCount(n)
    ensures Labelled(L, RandomPairsBefore(n, target, draws, i, n)) ==
            Labelled(L, RandomPairsBefore(n, target, draws, i + 1, 0))
  {
    assert RandomPairsBefore(n, target, draws, i, n) == RandomPairsBefore(n, target, draws, i + 1, 0);
  }

  /** One step of the random loop: pair `(i, j)` joins when its draw is
      below the target. */
  lemma RandomStep(L: int -> Node, n: nat, target: int, draws: seq<int>, i: int, j: int)
    requires |draws| >= PairCount(n) && 0 <= i < j < n
    ensures Labelled(L, RandomPairsBefore(n, target, draws, i, j + 1)) ==
            Labelled(L, RandomPairsBefore(n, target, draws, i, j)) +
            (if draws[PairIndex(n, i, j)] < target then {(L(i), L(j))} else {})
  {
    var A := RandomPairsBefore(n, target, draws, i, j);
    if draws[PairIndex(n, i, j)] < target {
      assert RandomPairsBefore(n, target, draws, i, j + 1) == A + {(i, j)};
      LabelledAdd(L, A, (i, j));
    } else {
      assert RandomPairsBefore(n, target, draws, i, j + 1) == A;
    }
  }

  /** After its last row the random loop has visited every pair. */
  lemma RandomDone(L: int -> Node, n: nat, target: int, draws: seq<int>)
    requires |draws| >= PairCount(n)
    ensures Labelled(L, RandomPairsBefore(n, target, draws, n, 0)) == Labelled(L, RandomPairs(n, target, draws))
  {
    assert RandomPairsBefore(n, target, draws, n, 0) == RandomPairs(n, target, draws);
  }

  /** Row `i` of the complete loop starts at column `i + 1`. */
  lemma CompleteRowEntry(L: int -> Node, n: nat, i: int)
    ensures Labelled(L, CompletePairsBefore(n, i, i + 1)) == Labelled(L, CompletePairsBefore(n, i, 0))
  {
    assert CompletePairsBefore(n, i, i + 1) == CompletePairsBefore(n, i, 0);
  }

  /** Finishing row `i` of the complete loop is starting row `i + 1`. */
  lemma CompleteRowExit(L: int -> Node, n: nat, i: int)
    ensures Labelled(L, CompletePairsBefore(n, i, n)) == Labelled(L, CompletePairsBefore(n, i + 1, 0))
  {
    assert CompletePairsBefore(n, i, n) == CompletePairsBefore(n, i + 1, 0);
  }

  /** One step of the complete loop: pair `(i, j)` joins. */
  lemma CompleteStep(L: int -> Node, n: nat, i: int, j: int)
    requires 0 <= i < j < n
    ensures Labelled(L, CompletePairsBefore(n, i, j + 1)) ==
            Labelled(L, CompletePairsBefore(n, i, j)) + {(L(i), L(j))}
  {
    assert CompletePairsBefore(n, i, j + 1) == CompletePairsBefore(n, i, j) + {(i, j)};
    LabelledAdd(L, CompletePairsBefore(n, i, j), (i, j));
  }

  /** After its last row the complete loop has visited every pair. */
  lemma CompleteDone(L: int -> Node, n: nat)
    ensures Labelled(L, CompletePairsBefore(n, n, 0)) == Labelled(L, CompletePairs(n))
  {
    assert CompletePairsBefore(n, n, 0) == CompletePairs(n);
  }

  /** The pairs `(a, m)` for `a < k`: the pairs ending at `m`. */
  function Column(k: int, m: int): set<IndexPair> {
    set a | 0 <= a < k :: (a, m)
  }

  lemma {:induction false} ColumnCard(k: nat, m: int)
    ensures |Column(k, m)| == k
  {
    if k > 0 {
      ColumnCard(k - 1, m);
      assert Column(k, m) == Column(k - 1, m) + {(k - 1, m)};
    }
  }

  /** The pairs below `m + 1` are those below `m` and the column ending at `m`. */
  lemma CompletePairsSplit(m: nat)
    ensures CompletePairs(m + 1) == CompletePairs(m) + Column(m, m)
    ensures CompletePairs(m) !! Column(m, m)
  {
    forall p | p in CompletePairs(m + 1) ensures p in CompletePairs(m) + Column(m, m) {
      if p.1 == m {
        assert p == (p.0, m);
      }
    }
  }

  /** The complete topology has n(n-1)/2 pairs. */
  lemma {:induction false} CompletePairsCard(n: nat)
    ensures 2 * |CompletePairs(n)| == n * (n - 1)
  {
    if n > 0 {
      var m := n - 1;
      CompletePairsCard(m);
      CompletePairsSplit(m);
      ColumnCard(m, m);
      assert |CompletePairs(n)| == |CompletePairs(m)| + m;
      assert m * (m - 1) + 2 * m == n * (n - 1);
    }
  }

  /** With draws from `[0, n]`, a target above `n` accepts every pair, so the
      random topology is the complete one; a target of 0 or less accepts none. */
  lemma RandomExtremes(n: nat, target: int, draws: seq<int>)
    requires |draws| >= PairCount(n) && DrawsInRange(n, draws)
    ensures target > n ==> RandomPairs(n, target, draws) == CompletePairs(n)
    ensures target <= 0 ==> RandomPairs(n, target, draws) == {}
  {
    if target > n {
      forall p | p in CompletePairs(n) ensures p in RandomPairs(n, target, draws) {
        var k := PairIndex(n, p.0, p.1);
        assert draws[k] <= n;
      }
    }
    if target <= 0 {
      assert RandomPairs(n, target, draws) == {};
    }
  }

  // ----- acyclicity of forward pair sets -----

  /** Every pair goes from a lower index to a higher one. */
  predicate Forward(P: set<IndexPair>) {
    forall p | p in P :: p.0 < p.1
  }

  /** A walk along labelled forward pairs climbs in index. */
  lemma {:induction false} ForwardWalkClimbs(L: int -> Node, P: set<IndexPair>, w: seq<Node>)
    requires IsLabeler(L) && Forward(P)
    requires |w| >= 2 && IsPath(Labelled(L, P), w)
    ensures exists a, b :: a < b && w[0] == L(a) && w[|w| - 1] == L(b)
    decreases |w|
  {
    var E := Labelled(L, P);
    var n := |w|;
    assert (w[n - 2], w[n - 1]) in E;
    var q :| q in P && (w[n - 2], w[n - 1]) == (L(q.0), L(q.1));
    if n > 2 {
      var w' := w[..n - 1];
      assert IsPath(E, w') by {
        forall i | 0 <= i < |w'| - 1 ensures (w'[i], w'[i + 1]) in E {
          assert (w[i], w[i + 1]) in E;
        }
      }
      ForwardWalkClimbs(L, P, w');
      var a, b :| a < b && w[0] == L(a) && w[n - 2] == L(b);
      assert b == q.0;
    } else {
      assert w[0] == L(q.0) && w[1] == L(q.1);
    }
  }

  /** Labelled forward pairs form an acyclic graph: no walk of one or more
      edges returns to its first node. */
  lemma ForwardAcyclic(L: int -> Node, P: set<IndexPair>, w: seq<Node>)
    requires IsLabeler(L) && Forward(P)
    requires |w| >= 2 && IsPath(Labelled(L, P), w)
    ensures w[0] != w[|w| - 1]
  {
    ForwardWalkClimbs(L, P, w);
  }

  /** The random topology only adds forward pairs, among the complete ones. */
  lemma RandomIsForward(n: nat, target: int, draws: seq<int>)
    requires |draws| >= PairCount(n)
    ensures Forward(RandomPairs(n, target, draws))
    ensures RandomPairs(n, target, draws) <= CompletePairs(n)
  {
  }

  // ----- cycle: i -> (i + 1) mod n -----

  /** The arc `i -> (i + 1) mod n` of the ring of `n` indices. */
  function RingArc(n: nat, i: int): IndexPair
    requires n > 0
  {
    (i, (i + 1) % n)
  }

  /** The cycle topology: the arc out of every `i < n`. */
  function CyclePairs(n: nat): set<IndexPair> {
    set i | 0 <= i < n :: RingArc(n, i)
  }

  /** The cycle arcs out of the indices before `i`. */
  function CyclePairsBefore(n: nat, i: nat): set<IndexPair>
    requires i <= n
  {
    set k | 0 <= k < i :: RingArc(n, k)
  }

  lemma {:induction false} CyclePairsBeforeCard(n: nat, i: nat)
    requires i <= n
    ensures |CyclePairsBefore(n, i)| == i
  {
    if i > 0 {
      CyclePairsBeforeCard(n, i - 1);
      assert CyclePairsBefore(n, i) == CyclePairsBefore(n, i - 1) + {RingArc(n, i - 1)};
    }
  }

  /** One step of the cycle loop adds the arc out of `i`. */
  lemma CycleStep(L: int -> Node, n: nat, i: nat)
    requires i < n
    ensures Labelled(L, CyclePairsBefore(n, i + 1)) == Labelled(L, CyclePairsBefore(n, i)) + {(L(i), L((i + 1) % n))}
  {
    assert CyclePairsBefore(n, i + 1) == CyclePairsBefore(n, i) + {RingArc(n, i)};
    LabelledAdd(L, CyclePairsBefore(n, i), RingArc(n, i));
  }

  /** The cycle topology is one ring: `n` edges, and each labelled node's
      only successor is the next one round the ring. */
  lemma CycleIsRing(n: nat, L: int -> Node)
    requires IsLabeler(L)
    ensures |Labelled(L, CyclePairs(n))| == n
    ensures forall i :: 0 <= i < n ==> Successors(Labelled(L, CyclePairs(n)), L(i)) == {L((i + 1) % n)}
  {
    CyclePairsBeforeCard(n, n);
    assert CyclePairs(n) == CyclePairsBefore(n, n);
    LabelledCard(L, CyclePairs(n));
    var E := Labelled(L, CyclePairs(n));
    forall i | 0 <= i < n ensures Successors(E, L(i)) == {L((i + 1) % n)} {
      assert RingArc(n, i) in CyclePairs(n);
      assert (L(i), L((i + 1) % n)) in E;
      forall v | v in Successors(E, L(i)) ensures v == L((i + 1) % n) {
        var e :| e in E && e.0 == L(i) && e.1 == v;
        var k :| 0 <= k < n && e == (L(RingArc(n, k).0), L(RingArc(n, k).1));
        assert L(k) == L(i);
      }
    }
  }

  // ----- star: 0 -> i for 1 <= i < n -----

  /** The star topology: the hub `0` points at every other index. */
  function StarPairs(n: nat): set<IndexPair> {
    set i | 1 <= i < n :: (0, i)
  }

  /** The star pairs of the indices from 1 up to, not including, `i`. */
  function StarPairsBefore(i: int): set<IndexPair> {
    set k | 1 <= k < i :: (0, k)
  }

  lemma {:induction false} StarPairsBeforeCard(i: nat)
    requires i >= 1
    ensures |StarPairsBefore(i)| == i - 1
  {
    if i > 1 {
      StarPairsBeforeCard(i - 1);
      assert StarPairsBefore(i) == StarPairsBefore(i - 1) + {(0, i - 1)};
    }
  }

  /** One step of the star loop adds the spoke to `i`. */
  lemma StarStep(L: int -> Node, i: int)
    requires i >= 1
    ensures Labelled(L, StarPairsBefore(i + 1)) == Labelled(L, StarPairsBefore(i)) + {(L(0), L(i))}
  {
    assert StarPairsBefore(i + 1) == StarPairsBefore(i) + {(0, i)};
    LabelledAdd(L, StarPairsBefore(i), (0, i));
  }

  /** The star loop ends with every spoke. */
  lemma StarDone(n: nat, i: int)
    requires 1 <= i && (n >= 1 ==> i == n) && (n < 1 ==> i == 1)
    ensures StarPairsBefore(i) == StarPairs(n)
  {
  }

  /** The star topology has `n - 1` edges, all leaving `labeler(0)`. */
  lemma StarShape(n: nat, L: int -> Node)
    requires IsLabeler(L) && n >= 1
    ensures |Labelled(L, StarPairs(n))| == n - 1
    ensures forall e | e in Labelled(L, StarPairs(n)) :: e.0 == L(0)
  {
    StarPairsBeforeCard(n);
    assert StarPairs(n) == StarPairsBefore(n);
    LabelledCard(L, StarPairs(n));
  }

  // ----- grid: cells of a side x side block, row-major -----

  /** `int(n ** 0.5)`, as the integer square root. */
  function FloorSqrt(n: nat): (r: nat)
    ensures r * r <= n < (r + 1) * (r + 1)
  {
    FloorSqrtFrom(n, 0)
  }

  function FloorSqrtFrom(n: nat, r: nat): (s: nat)
    requires r * r <= n
    ensures s * s <= n < (s + 1) * (s + 1)
    decreases n - r
  {
    if (r + 1) * (r + 1) > n then r
    else
      assert r + 1 <= (r + 1) * (r + 1);
      FloorSqrtFrom(n, r + 1)
  }

  /** A cell of the grid: (row, column). */
  type Cell = (int, int)

  /** The cells of the `side x side` block. */
  function Block(side: nat): set<Cell> {
    set r, c | 0 <= r < side && 0 <= c < side :: (r, c)
  }

  lemma InBlock(side: nat, x: Cell)
    ensures x in Block(side) <==> 0 <= x.0 < side && 0 <= x.1 < side
  {
    if 0 <= x.0 < side && 0 <= x.1 < side {
      assert x == (x.0, x.1);
    }
  }

  /** Both cells lie in the `side x side` block and differ by one in exactly
      one of row and column. */
  predicate Adjacent(side: nat, c: Cell, d: Cell) {
    && 0 <= c.0 < side && 0 <= c.1 < side
    && 0 <= d.0 < side && 0 <= d.1 < side
    && ((c.0 == d.0 && (d.1 == c.1 + 1 || d.1 == c.1 - 1)) ||
        (c.1 == d.1 && (d.0 == c.0 + 1 || d.0 == c.0 - 1)))
  }

  /** The index of a cell in row-major order. */
  function Flat(side: nat, c: Cell): int {
    c.0 * side + c.1
  }

  /** The grid topology on cells: every ordered pair of adjacent cells. */
  function GridCellPairs(side: nat): set<(Cell, Cell)> {
    set c, d | c in Block(side) && d in Block(side) && Adjacent(side, c, d) :: (c, d)
  }

  /** Cell `c` comes before cell `(i, j)` in row-major order. */
  predicate RowMajorBefore(c: Cell, i: int, j: int) {
    c.0 < i || (c.0 == i && c.1 < j)
  }

  /** The adjacent pairs whose first cell comes before cell `(i, j)`. */
  function GridCellPairsBefore(side: nat, i: int, j: int): set<(Cell, Cell)> {
    set c, d | c in Block(side) && d in Block(side) && RowMajorBefore(c, i, j) && Adjacent(side, c, d) :: (c, d)
  }

  /** The adjacent pairs leaving cell `(i, j)`. */
  function PairsAt(side: nat, i: int, j: int): set<(Cell, Cell)> {
    set d | d in Block(side) && Adjacent(side, (i, j), d) :: ((i, j), d)
  }

  /** Labelled grid edges: each cell is labelled by its row-major index. */
  function GridEdges(L: int -> Node, side: nat, C: set<(Cell, Cell)>): set<Edge> {
    set p | p in C :: (L(Flat(side, p.0)), L(Flat(side, p.1)))
  }

  /** The (up to four) edges the grid builder adds at cell `(i, j)`, whose
      index is `cur`: up, down, left, right, each when that neighbour exists. */
  function CellEdges(L: int -> Node, side: nat, i: int, j: int, cur: int): set<Edge> {
    (if i > 0 then {(L(cur), L(cur - side))} else {}) +
    (if i < side - 1 then {(L(cur), L(cur + side))} else {}) +
    (if j > 0 then {(L(cur), L(cur - 1))} else {}) +
    (if j < side - 1 then {(L(cur), L(cur + 1))} else {})
  }

  /** The nodes the edges at a cell touch. */
  function CellNodes(L: int -> Node, side: nat, i: int, j: int, cur: int): set<Node> {
    (if i > 0 then {L(cur), L(cur - side)} else {}) +
    (if i < side - 1 then {L(cur), L(cur + side)} else {}) +
    (if j > 0 then {L(cur), L(cur - 1)} else {}) +
    (if j < side - 1 then {L(cur), L(cur + 1)} else {})
  }

  lemma CellEndpoints(L: int -> Node, side: nat, i: int, j: int, cur: int)
    ensures Endpoints(CellEdges(L, side, i, j, cur)) == CellNodes(L, side, i, j, cur)
  {
  }

  /** A cell in the block has a row-major index in `[0, side * side)`. */
  lemma FlatInBlock(side: nat, c: Cell)
    requires 0 <= c.0 < side && 0 <= c.1 < side
    ensures 0 <= Flat(side, c) < side * side
  {
    assert c.0 * side <= (side - 1) * side;
  }

  lemma MulMonotone(a: int, b: int, k: nat)
    requires a <= b
    ensures a * k <= b * k
  {
  }

  /** A cell in an earlier row has a smaller row-major index. */
  lemma FlatRowOrder(side: nat, c: Cell, d: Cell)
    requires 0 <= c.0 < d.0 && 0 <= c.1 < side && 0 <= d.1
    ensures Flat(side, c) < Flat(side, d)
  {
    MulMonotone(c.0 + 1, d.0, side);
  }

  /** Distinct cells of the block have distinct row-major indices. */
  lemma FlatInjective(side: nat, c: Cell, d: Cell)
    requires 0 <= c.0 < side && 0 <= c.1 < side
    requires 0 <= d.0 < side && 0 <= d.1 < side
    ensures c != d ==> Flat(side, c) != Flat(side, d)
  {
    if c.0 < d.0 {
      FlatRowOrder(side, c, d);
    } else if d.0 < c.0 {
      FlatRowOrder(side, d, c);
    }
  }

  /** Moving to the first cell of the next row. */
  lemma GridRowStep(side: nat, i: int)
    ensures GridCellPairsBefore(side, i, side) == GridCellPairsBefore(side, i + 1, 0)
  {
    var A, B := GridCellPairsBefore(side, i, side), GridCellPairsBefore(side, i + 1, 0);
    forall p | p in B ensures p in A {
      InBlock(side, p.0);
    }
  }

  /** Row-major order from cell `(i, j)` to cell `(i, j + 1)` passes cell
      `(i, j)` alone. */
  lemma GridCellStep(side: nat, i: int, j: int)
    requires 0 <= i < side && 0 <= j < side
    ensures GridCellPairsBefore(side, i, j + 1) == GridCellPairsBefore(side, i, j) + PairsAt(side, i, j)
  {
    var A, B, H := GridCellPairsBefore(side, i, j + 1), GridCellPairsBefore(side, i, j), PairsAt(side, i, j);
    forall p | p in A ensures p in B || p in H {
      if p.0 == (i, j) {
        assert p == ((i, j), p.1);
      }
    }
    forall p | p in H ensures p in A {
      InBlock(side, (i, j));
    }
    assert B <= A;
  }

  /** The cells adjacent to cell `(i, j)`, as the grid builder's four tests
      find them. */
  function Neighbours(side: nat, i: int, j: int): set<Cell> {
    (if i > 0 then {(i - 1, j)} else {}) + (if i < side - 1 then {(i + 1, j)} else {}) +
    (if j > 0 then {(i, j - 1)} else {}) + (if j < side - 1 then {(i, j + 1)} else {})
  }

  lemma NeighboursAdjacent(side: nat, i: int, j: int, d: Cell)
    requires 0 <= i < side && 0 <= j < side
    ensures d in Block(side) && Adjacent(side, (i, j), d) <==> d in Neighbours(side, i, j)
  {
    InBlock(side, d);
  }

  lemma FlatNeighbours(side: nat, i: int, j: int, cur: int)
    requires cur == i * side + j
    ensures Flat(side, (i, j)) == cur
    ensures Flat(side, (i - 1, j)) == cur - side
    ensures Flat(side, (i + 1, j)) == cur + side
    ensures Flat(side, (i, j - 1)) == cur - 1
    ensures Flat(side, (i, j + 1)) == cur + 1
  {
    assert (i - 1) * side == i * side - side;
    assert (i + 1) * side == i * side + side;
  }

  /** Every labelled pair at cell `(i, j)` is one of the builder's edges there. */
  lemma PairsAtInCellEdges(L: int -> Node, side: nat, i: int, j: int, cur: int)
    requires 0 <= i < side && 0 <= j < side && cur == i * side + j
    ensures GridEdges(L, side, PairsAt(side, i, j)) <= CellEdges(L, side, i, j, cur)
  {
    FlatNeighbours(side, i, j, cur);
    forall e | e in GridEdges(L, side, PairsAt(side, i, j)) ensures e in CellEdges(L, side, i, j, cur) {
      var p :| p in PairsAt(side, i, j) && e == (L(Flat(side, p.0)), L(Flat(side, p.1)));
      NeighboursAdjacent(side, i, j, p.1);
    }
  }

  /** Every edge the builder adds at cell `(i, j)` is a labelled pair there. */
  lemma CellEdgesInPairsAt(L: int -> Node, side: nat, i: int, j: int, cur: int)
    requires 0 <= i < side && 0 <= j < side && cur == i * side + j
    ensures CellEdges(L, side, i, j, cur) <= GridEdges(L, side, PairsAt(side, i, j))
  {
    FlatNeighbours(side, i, j, cur);
    forall e | e in CellEdges(L, side, i, j, cur) ensures e in GridEdges(L, side, PairsAt(side, i, j)) {
      var d: Cell :=
        if i > 0 && e == (L(cur), L(cur - side)) then (i - 1, j)
        else if i < side - 1 && e == (L(cur), L(cur + side)) then (i + 1, j)
        else if j > 0 && e == (L(cur), L(cur - 1)) then (i, j - 1)
        else (i, j + 1);
      NeighboursAdjacent(side, i, j, d);
      assert ((i, j), d) in PairsAt(side, i, j);
    }
  }

  lemma GridEdgesUnion(L: int -> Node, side: nat, A: set<(Cell, Cell)>, B: set<(Cell, Cell)>)
    ensures GridEdges(L, side, A + B) == GridEdges(L, side, A) + GridEdges(L, side, B)
  {
  }

  /** The grid builder's four additions at a cell are exactly that cell's
      adjacent pairs. */
  lemma GridStep(L: int -> Node, side: nat, i: int, j: int, cur: int)
    requires 0 <= i < side && 0 <= j < side && cur == i * side + j
    ensures GridEdges(L, side, GridCellPairsBefore(side, i, j + 1)) ==
            GridEdges(L, side, GridCellPairsBefore(side, i, j)) + CellEdges(L, side, i, j, cur)
  {
    GridCellStep(side, i, j);
    PairsAtInCellEdges(L, side, i, j, cur);
    CellEdgesInPairsAt(L, side, i, j, cur);
    GridEdgesUnion(L, side, GridCellPairsBefore(side, i, j), PairsAt(side, i, j));
  }

  /** The full grid is what the builder has added after its last cell. */
  lemma GridComplete(side: nat)
    ensures GridCellPairsBefore(side, side, 0) == GridCellPairs(side)
  {
    forall p | p in GridCellPairs(side) ensures p in GridCellPairsBefore(side, side, 0) {
      InBlock(side, p.0);
    }
  }

  /** The grid is symmetric: every edge comes with its reverse. */
  lemma GridSymmetric(L: int -> Node, side: nat)
    ensures forall e | e in GridEdges(L, side, GridCellPairs(side)) :: (e.1, e.0) in GridEdges(L, side, GridCellPairs(side))
  {
    var C := GridCellPairs(side);
    forall e | e in GridEdges(L, side, C) ensures (e.1, e.0) in GridEdges(L, side, C) {
      var p :| p in C && e == (L(Flat(side, p.0)), L(Flat(side, p.1)));
      assert (p.1, p.0) in C;
    }
  }

  /** Two cells of the block are joined exactly when they are adjacent. */
  lemma GridEdgeIff(L: int -> Node, side: nat, c: Cell, d: Cell)
    requires IsLabeler(L)
    requires 0 <= c.0 < side && 0 <= c.1 < side
    requires 0 <= d.0 < side && 0 <= d.1 < side
    ensures (L(Flat(side, c)), L(Flat(side, d))) in GridEdges(L, side, GridCellPairs(side)) <==> Adjacent(side, c, d)
  {
    var C := GridCellPairs(side);
    if (L(Flat(side, c)), L(Flat(side, d))) in GridEdges(L, side, C) {
      var p :| p in C && (L(Flat(side, c)), L(Flat(side, d))) == (L(Flat(side, p.0)), L(Flat(side, p.1)));
      FlatInjective(side, c, p.0);
      FlatInjective(side, d, p.1);
    }
    if Adjacent(side, c, d) {
      InBlock(side, c);
      InBlock(side, d);
      assert (c, d) in C;
    }
  }

  /** Only the cells of the `side x side` block get edges: a labelled node
      touched by a grid edge has an index below `side * side`. */
  lemma GridWithinBlock(L: int -> Node, side: nat, k: int)
    requires IsLabeler(L)
    requires L(k) in Endpoints(GridEdges(L, side, GridCellPairs(side)))
    ensures 0 <= k < side * side
  {
    var C := GridCellPairs(side);
    var e :| e in GridEdges(L, side, C) && (e.0 == L(k) || e.1 == L(k));
    var p :| p in C && e == (L(Flat(side, p.0)), L(Flat(side, p.1)));
    FlatInBlock(side, p.0);
    FlatInBlock(side, p.1);
  }

  // ----- the whole build -----

  /** The edges `build` adds for a topology tag; an unknown tag adds none. */
  function TopologyEdges(graphType: string, n: nat, target: int, L: int -> Node, draws: seq<int>): set<Edge>
    requires graphType == "random" ==> |draws| >= PairCount(n)
  {
    if graphType == "random" then Labelled(L, RandomPairs(n, target, draws))
    else if graphType == "cycle" then Labelled(L, CyclePairs(n))
    else if graphType == "complete" then Labelled(L, CompletePairs(n))
    else if graphType == "grid" then GridEdges(L, FloorSqrt(n), GridCellPairs(FloorSqrt(n)))
    else if graphType == "star" then Labelled(L, StarPairs(n))
    else {}
  }

  /** Labelled pairs of indices below `n` touch only labelled nodes. */
  lemma LabelledWithin(L: int -> Node, P: set<IndexPair>, n: nat)
    requires forall p | p in P :: 0 <= p.0 < n && 0 <= p.1 < n
    ensures Endpoints(Labelled(L, P)) <= Labels(L, n)
  {
    forall x | x in Endpoints(Labelled(L, P)) ensures x in Labels(L, n) {
      var e :| e in Labelled(L, P) && (e.0 == x || e.1 == x);
      var p :| p in P && e == (L(p.0), L(p.1));
      assert L(p.0) in Labels(L, n) && L(p.1) in Labels(L, n);
    }
  }

  /** Every topology touches only the nodes `labeler(0) .. labeler(n - 1)`
      that `build` adds first; for the grid, only those below `side * side`. */
  lemma TopologyWithinLabels(graphType: string, n: nat, target: int, L: int -> Node, draws: seq<int>)
    requires graphType == "random" ==> |draws| >= PairCount(n)
    ensures Endpoints(TopologyEdges(graphType, n, target, L, draws)) <= Labels(L, n)
  {
    if graphType == "random" {
      LabelledWithin(L, RandomPairs(n, target, draws), n);
    } else if graphType == "cycle" {
      LabelledWithin(L, CyclePairs(n), n);
    } else if graphType == "complete" {
      LabelledWithin(L, CompletePairs(n), n);
    } else if graphType == "grid" {
      var side := FloorSqrt(n);
      var G := GridEdges(L, side, GridCellPairs(side));
      forall x | x in Endpoints(G) ensures x in Labels(L, n) {
        var e :| e in G && (e.0 == x || e.1 == x);
        var p :| p in GridCellPairs(side) && e == (L(Flat(side, p.0)), L(Flat(side, p.1)));
        FlatInBlock(side, p.0);
        FlatInBlock(side, p.1);
        assert L(Flat(side, p.0)) in Labels(L, n) && L(Flat(side, p.1)) in Labels(L, n);
      }
    } else if graphType == "star" {
      LabelledWithin(L, StarPairs(n), n);
    }
  }

  /** The sentinel patch: `labeler(n - 1) -> END` when END has degree 0, then
      `START -> labeler(0)` when START has degree 0. */
  function Patched(E: set<Edge>, n: nat, L: int -> Node): set<Edge> {
    var withEnd := if Degree(E, End) == 0 then E + {(L(n - 1), End)} else E;
    if Degree(withEnd, Start) == 0 then withEnd + {(Start, L(0))} else withEnd
  }

  /** The labelled topology edges never touch a sentinel. */
  lemma TopologyAvoidsSentinels(graphType: string, n: nat, target: int, L: int -> Node, draws: seq<int>)
    requires IsLabeler(L)
    requires graphType == "random" ==> |draws| >= PairCount(n)
    ensures forall e | e in TopologyEdges(graphType, n, target, L, draws) ::
      e.0 != Start && e.0 != End && e.1 != Start && e.1 != End
  {
  }

  /** The patch adds exactly the edges whose sentinel had degree 0 and
      nothing else, and afterwards both sentinels have degree at least 1. */
  lemma PatchedTouchesSentinels(E: set<Edge>, n: nat, L: int -> Node)
    requires IsLabeler(L)
    ensures Patched(E, n, L) ==
      E + (if Degree(E, End) == 0 then {(L(n - 1), End)} else {})
        + (if Degree(E, Start) == 0 then {(Start, L(0))} else {})
    ensures Degree(Patched(E, n, L), Start) >= 1 && Degree(Patched(E, n, L), End) >= 1
  {
    var withEnd := if Degree(E, End) == 0 then E + {(L(n - 1), End)} else E;
    DegreePositiveIff(E, Start);
    DegreePositiveIff(withEnd, Start);
    DegreePositiveIff(E, End);
    DegreePositiveIff(withEnd, End);
    var P := Patched(E, n, L);
    DegreePositiveIff(P, Start);
    DegreePositiveIff(P, End);
    DegreeMonotone(withEnd, P, End);
    if Degree(E, End) == 0 {
      assert (L(n - 1), End) in withEnd;
    }
    if Degree(withEnd, Start) == 0 {
      assert (Start, L(0)) in P;
    }
  }

  /** Once both sentinels have an edge, building more on top skips the patch. */
  lemma RebuildSkipsPatch(E: set<Edge>, F: set<Edge>, n: nat, L: int -> Node)
    requires Degree(E, Start) >= 1 && Degree(E, End) >= 1
    requires E <= F
    ensures Patched(F, n, L) == F
  {
    DegreeMonotone(E, F, Start);
    DegreeMonotone(E, F, End);
  }

  /** Without the patch, topology edges leave the sentinels' edges as they
      were: in particular START gains no successor. */
  lemma UnpatchedKeepsSentinels(E: set<Edge>, graphType: string, n: nat, target: int, L: int -> Node, draws: seq<int>)
    requires IsLabeler(L)
    requires graphType == "random" ==> |draws| >= PairCount(n)
    ensures Successors(E + TopologyEdges(graphType, n, target, L, draws), Start) == Successors(E, Start)
    ensures Degree(E + TopologyEdges(graphType, n, target, L, draws), Start) == Degree(E, Start)
    ensures Degree(E + TopologyEdges(graphType, n, target, L, draws), End) == Degree(E, End)
  {
    var T := TopologyEdges(graphType, n, target, L, draws);
    TopologyAvoidsSentinels(graphType, n, target, L, draws);
    assert (set e | e in E + T && e.1 == Start) == (set e | e in E && e.1 == Start);
    assert (set e | e in E + T && e.0 == Start) == (set e | e in E && e.0 == Start);
    assert (set e | e in E + T && e.1 == End) == (set e | e in E && e.1 == End);
    assert (set e | e in E + T && e.0 == End) == (set e | e in E && e.0 == End);
  }

  /** A second `build` on a graph the first `build` patched adds its topology
      and nothing else: both sentinels already have an edge. */
  lemma RebuildAddsOnlyTopology(E: set<Edge>, n: nat, L: int -> Node, T: set<Edge>, n': nat, L': int -> Node)
    requires IsLabeler(L)
    ensures Patched(Patched(E, n, L) + T, n', L') == Patched(E, n, L) + T
  {
    PatchedTouchesSentinels(E, n, L);
    RebuildSkipsPatch(Patched(E, n, L), Patched(E, n, L) + T, n', L');
  }
}
