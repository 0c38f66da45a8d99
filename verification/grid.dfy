/**
 * `Grid.__init__` (grid.py:85-152): the whole lattice. A grid is a graph
 * whose nodes are the points of the box spanned by its extents and whose
 * edges are the unit steps along each axis and, when diagonals are enabled,
 * the steps in `{-1, 0, 1}^k` with at least two non-zero entries.
 */
module Grids {
  import opened Arith
  import opened Directions
  import opened Products
  import opened Graphs
  import opened Lattice
  import opened Axes
  import opened AxisWiring
  import opened Diagonals
  import opened DiagonalWiring

  /**
   * Every `connect_nodes` call `Grid.__init__` makes, in order: the axis
   * phase, then (with diagonals) the diagonal phase over `unique_directions`.
   */
  ghost function GridLog(dims: seq<int>, diagonal: bool): seq<Link>
    requires AllPositive(dims)
  {
    DiagonalLengths(dims);
    AxisLog(dims, |dims|) + if diagonal then DiagLog(dims, Coordinates(dims), FirstHalf(|dims|)) else []
  }

  /** The nodes of a finished grid: one per box point, keyed by its coordinates. */
  ghost function Built(dims: seq<int>, diagonal: bool): map<Name, Node>
    requires AllPositive(dims)
  {
    Wire(Unwired(Coordinates(dims)), GridLog(dims, diagonal))
  }

  /** The nodes of a grid with extents `dims`, edges exactly the grid edges. */
  ghost predicate IsLattice(dims: seq<int>, diagonal: bool, nodes: map<Name, Node>)
  {
    && (forall c :: c in nodes <==> InBox(dims, c))
    && (forall n :: n in nodes ==> nodes[n].name == n)
    && (forall n, e :: n in nodes ==> (e in nodes[n].connections <==> IsGridEdge(dims, diagonal, n, e)))
  }

  /** The diagonal calls join box points along diagonal steps. */
  lemma DiagonalPhaseLinks(dims: seq<int>)
    requires AllPositive(dims)
    ensures AllLength(Coordinates(dims), |dims|) && AllLength(FirstHalf(|dims|), |dims|)
    ensures DiagonalLinks(dims, DiagLog(dims, Coordinates(dims), FirstHalf(|dims|)))
  {
    DiagonalLengths(dims);
    var log := DiagLog(dims, Coordinates(dims), FirstHalf(|dims|));
    forall x | x in log ensures InBox(dims, x.from) && InBox(dims, x.to) && |Components(x.dir)| >= 2 {
      DiagLogMember(dims, Coordinates(dims), FirstHalf(|dims|), x);
      CoordinatesMember(dims, x.from);
    }
  }

  /** A call of a concatenated log gives an edge iff a call of one of the parts does. */
  lemma GivenByConcat(a: seq<Link>, b: seq<Link>, n: Name, e: Edge)
    ensures GivenBy(a + b, n, e) <==> GivenBy(a, n, e) || GivenBy(b, n, e)
  {
    if GivenBy(a + b, n, e) {
      var i :| 0 <= i < |a + b| && Gives((a + b)[i], n, e);
      if i < |a| {
        assert Gives(a[i], n, e);
      } else {
        assert Gives(b[i - |a|], n, e);
      }
    }
    if GivenBy(a, n, e) {
      var i :| 0 <= i < |a| && Gives(a[i], n, e);
      assert Gives((a + b)[i], n, e);
    }
    if GivenBy(b, n, e) {
      var i :| 0 <= i < |b| && Gives(b[i], n, e);
      assert Gives((a + b)[|a| + i], n, e);
    }
  }

  /** The calls of the whole construction give `n` exactly its grid edges. */
  lemma GridLogGives(dims: seq<int>, diagonal: bool, n: Name, e: Edge)
    requires AllPositive(dims) && InBox(dims, n)
    ensures GivenBy(GridLog(dims, diagonal), n, e) <==> IsGridEdge(dims, diagonal, n, e)
  {
    DiagonalLengths(dims);
    var axis := AxisLog(dims, |dims|);
    var diag := if diagonal then DiagLog(dims, Coordinates(dims), FirstHalf(|dims|)) else [];
    assert GridLog(dims, diagonal) == axis + diag;
    GivenByConcat(axis, diag, n, e);
    AxisEdges(dims, n, e);
    if diagonal {
      DiagonalEdges(dims, n, e);
    }
  }

  /**
   * The edges of one node of the finished grid: an in-box `n` is joined to
   * `m` along `w` exactly when `m == n + w` is in the box and `w` is a unit
   * step or, with diagonals, a diagonal step.
   */
  lemma LatticeEdgesAt(dims: seq<int>, diagonal: bool, n: Name, e: Edge)
    requires AllPositive(dims) && InBox(dims, n)
    ensures n in Built(dims, diagonal) && Built(dims, diagonal)[n].name == n
    ensures e in Built(dims, diagonal)[n].connections <==> IsGridEdge(dims, diagonal, n, e)
  {
    DiagonalLengths(dims);
    var diag := if diagonal then DiagLog(dims, Coordinates(dims), FirstHalf(|dims|)) else [];
    var start := Unwired(Coordinates(dims));
    UnwiredBox(dims, n);
    DiagonalPhaseLinks(dims);
    LogWithin(dims, diag);
    WireEdges(start, GridLog(dims, diagonal), n, e);
    GridLogGives(dims, diagonal, n, e);
  }

  /** The finished grid is exactly the lattice over the box. */
  lemma LatticeIsGrid(dims: seq<int>, diagonal: bool)
    requires AllPositive(dims)
    ensures IsLattice(dims, diagonal, Built(dims, diagonal))
  {
    var nodes := Built(dims, diagonal);
    assert nodes.Keys == Unwired(Coordinates(dims)).Keys;
    forall c ensures c in nodes <==> InBox(dims, c) {
      UnwiredBox(dims, c);
    }
    forall n | n in nodes ensures nodes[n].name == n {
      LatticeEdgesAt(dims, diagonal, n, Edge(n, n));
    }
    forall n, e | n in nodes ensures e in nodes[n].connections <==> IsGridEdge(dims, diagonal, n, e) {
      LatticeEdgesAt(dims, diagonal, n, e);
    }
  }

  /** The grid holds one node per box point: the product of the extents. */
  lemma LatticeSize(dims: seq<int>, diagonal: bool)
    requires AllPositive(dims)
    ensures |Built(dims, diagonal)| == Prod(dims)
  {
    CoordinatesDistinct(dims);
    UnwiredCount(Coordinates(dims));
    CoordinatesLength(dims);
  }

  /** Grid edges come in pairs: `m` is reached from `n` along `w` iff `n` from `m` along `-w`. */
  lemma GridEdgeSymmetric(dims: seq<int>, diagonal: bool, n: Name, e: Edge)
    requires InBox(dims, n) && IsGridEdge(dims, diagonal, n, e)
    ensures IsGridEdge(dims, diagonal, e.node, Edge(n, Reverse(e.dir)))
  {
    StepBackAndForth(n, e.dir, e.node);
    ReverseStep(|dims|, e.dir);
  }

  /**
   * Along each axis a node has the step up exactly when it is not on the
   * top face and the step down exactly when it is not on the bottom face.
   */
  lemma AxisNeighbours(dims: seq<int>, diagonal: bool, n: Name, d: nat)
    requires AllPositive(dims) && InBox(dims, n) && d < |dims|
    ensures n in Built(dims, diagonal)
    ensures var conns := Built(dims, diagonal)[n].connections;
      var up, down := Unit(|dims|, d), Reverse(Unit(|dims|, d));
      && (Edge(Add(n, up), up) in conns <==> n[d] + 1 < dims[d])
      && (Edge(Add(n, down), down) in conns <==> n[d] >= 1)
  {
    var up, down := Unit(|dims|, d), Reverse(Unit(|dims|, d));
    LatticeEdgesAt(dims, diagonal, n, Edge(Add(n, up), up));
    LatticeEdgesAt(dims, diagonal, n, Edge(Add(n, down), down));
    assert IsAxisStep(|dims|, up) && IsAxisStep(|dims|, down);
    assert Add(n, up)[d] == n[d] + 1;
    assert Add(n, down)[d] == n[d] - 1;
  }

  /** On the two-by-two box, the axis steps out of the corner `(0, 0)` that stay inside. */
  lemma CornerAxisSteps(w: Direction)
    requires |w| == 2 && 0 <= w[0] < 2 && 0 <= w[1] < 2
    ensures IsAxisStep(2, w) <==> w == [1, 0] || w == [0, 1]
  {
    if IsAxisStep(2, w) {
      var d :| 0 <= d < 2 && (w == Unit(2, d) || w == Reverse(Unit(2, d)));
      assert w[d] != -1;
    }
    if w == [1, 0] {
      assert w == Unit(2, 0);
    } else if w == [0, 1] {
      assert w == Unit(2, 1);
    }
  }

  /** A two-entry direction is diagonal exactly when both entries are non-zero. */
  lemma TwoComponents(w: Direction)
    requires |w| == 2
    ensures |Components(w)| >= 2 <==> w[0] != 0 && w[1] != 0
  {
    ComponentsCharacterised(w);
    var p := NonZeroPositions(w, 2);
    if |p| >= 2 {
      assert p[0] < p[1] < 2;
      assert w[p[0]] != 0 && w[p[1]] != 0;
    }
    if w[0] != 0 && w[1] != 0 {
      assert 0 in p && 1 in p;
    }
  }

  /** On the two-by-two box, the one diagonal step out of the corner `(0, 0)`. */
  lemma CornerDiagonalSteps(w: Direction)
    requires |w| == 2 && 0 <= w[0] < 2 && 0 <= w[1] < 2
    ensures IsDiagonalStep(2, w) <==> w == [1, 1]
  {
    TwoComponents(w);
    if w[0] != 0 && w[1] != 0 {
      assert w == [1, 1];
    }
  }

  /** The unique directions of a two-axis grid, in order. */
  lemma FirstHalfTwo(k: nat)
    requires k == 2
    ensures FirstHalf(k) == [[-1, -1], [-1, 0], [-1, 1], [0, -1], [0, 0]]
  {
    CandidatesUnfold(k);
    CandidatesUnfold(k - 1);
    assert Candidates(0) == [[]] by {
      assert seq(0, _ => Ternary) == [];
    }
    var c1, c2 := Candidates(1), Candidates(2);
    forall i | 0 <= i < 3 ensures c1[i] == [Ternary[i]] {
      PrefixedAt(Ternary, [[]], i);
    }
    forall i | 0 <= i < 9 ensures c2[i] == [Ternary[i / 3], Ternary[i % 3]] {
      PrefixedAt(Ternary, c1, i);
    }
    assert c2[0] == [-1, -1] && c2[1] == [-1, 0] && c2[2] == [-1, 1] && c2[3] == [0, -1] && c2[4] == [0, 0];
  }

  /** On `[2, 2]` the axis phase makes four `connect_nodes` calls, two per axis. */
  lemma TwoByTwoAxisCalls(dims: seq<int>)
    requires dims == [2, 2]
    ensures AllPositive(dims) && |AxisLog(dims, 2)| == 4
    ensures |set x | x in AxisLog(dims, 2)| == 4
  {
    assert AllPositive(dims) by {
      assert dims[1..] == [2] && dims[1..][1..] == [];
    }
    assert dims[1..] == [2] && dims[..1] == [2] && dims[2..] == [] && dims[..0] == [];
    AxisCallCount(dims, 0);
    AxisCallCount(dims, 1);
    assert AxisLog(dims, 2) == AxisLog(dims, 1) + PassLog(dims, 1, Stride(dims, 1));
    assert AxisLog(dims, 1) == PassLog(dims, 0, Stride(dims, 0));
    AxisLogDistinct(dims, 2);
    DistinctCard(AxisLog(dims, 2));
  }

  /**
   * On `[2, 2]` the diagonal phase makes two `connect_nodes` calls:
   * `(1, 0)` to `(0, 1)` along `(-1, 1)` and `(1, 1)` to `(0, 0)` along `(-1, -1)`.
   */
  lemma TwoByTwoDiagonalCalls(dims: seq<int>, x: Link)
    requires dims == [2, 2]
    ensures AllLength(Coordinates(dims), 2) && AllLength(FirstHalf(2), 2)
    ensures x in DiagLog(dims, Coordinates(dims), FirstHalf(2)) <==>
      x == Link([1, 0], [0, 1], [-1, 1]) || x == Link([1, 1], [0, 0], [-1, -1])
  {
    DiagonalLengths(dims);
    var w, c := x.dir, x.from;
    var kept := w in FirstHalf(2) && |Components(w)| >= 2;
    assert x in DiagLog(dims, Coordinates(dims), FirstHalf(2)) <==>
      kept && c in Coordinates(dims) && x.to == Add(c, w) && InBox(dims, x.to) by {
      DiagLogMember(dims, Coordinates(dims), FirstHalf(2), x);
    }
    KeptDiagonalsTwo(2, w);
    CoordinatesMember(dims, c);
    if kept {
      TwoByTwoDiagonalStep(dims, c, w);
    }
  }

  /** For two axes, the diagonal loop keeps exactly `(-1, 1)` and `(-1, -1)`. */
  lemma KeptDiagonalsTwo(k: nat, w: Direction)
    requires k == 2
    ensures w in FirstHalf(k) && |Components(w)| >= 2 <==> w == [-1, 1] || w == [-1, -1]
  {
    FirstHalfTwo(k);
    if |w| == 2 {
      TwoComponents(w);
    }
  }

  /** On `[2, 2]`, the only box points a kept diagonal leads back into the box from. */
  lemma TwoByTwoDiagonalStep(dims: seq<int>, c: Name, w: Direction)
    requires dims == [2, 2] && (w == [-1, 1] || w == [-1, -1])
    ensures |c| == 2 ==>
      (InBox(dims, c) && InBox(dims, Add(c, w)) <==> c == if w[1] == 1 then [1, 0] else [1, 1])
  {
    if |c| == 2 {
      var t := Add(c, w);
      assert t[0] == c[0] + w[0] && t[1] == c[1] + w[1];
    }
  }

  /**
   * The two-by-two grid with diagonals: the corner `(0, 0)` is joined to
   * its two axis neighbours and, diagonally, to the opposite corner.
   */
  lemma TwoByTwoCorner(dims: seq<int>, corner: Name, e: Edge)
    requires dims == [2, 2] && corner == [0, 0]
    ensures AllPositive(dims) && corner in Built(dims, true)
    ensures e in Built(dims, true)[corner].connections <==>
      e == Edge([1, 0], [1, 0]) || e == Edge([0, 1], [0, 1]) || e == Edge([1, 1], [1, 1])
  {
    assert AllPositive(dims) by {
      assert dims[1..] == [2] && dims[1..][1..] == [];
    }
    LatticeEdgesAt(dims, true, corner, e);
    CornerGridEdges(dims, corner, e);
  }

  /** On `[2, 2]` with diagonals, the grid edges out of the corner `(0, 0)`. */
  lemma CornerGridEdges(dims: seq<int>, corner: Name, e: Edge)
    requires dims == [2, 2] && corner == [0, 0]
    ensures IsGridEdge(dims, true, corner, e) <==>
      e == Edge([1, 0], [1, 0]) || e == Edge([0, 1], [0, 1]) || e == Edge([1, 1], [1, 1])
  {
    var w := e.dir;
    if |w| == 2 {
      assert Add(corner, w) == w;
      if 0 <= w[0] < 2 && 0 <= w[1] < 2 {
        CornerAxisSteps(w);
        CornerDiagonalSteps(w);
      }
    }
  }

  /**
   * No extents: one node, the empty coordinate, with no edges; with
   * diagonals the one unique direction is the empty vector.
   */
  lemma NoExtents(dims: seq<int>, diagonal: bool)
    requires dims == []
    ensures AllPositive(dims) && Built(dims, diagonal) == map[[] := Node([], {})]
    ensures FirstHalf(|dims|) == [[]]
  {
    assert Coordinates(dims) == [[]];
    FirstHalfEndsAtZero(0);
    FirstHalfShape(0);
    DiagonalLengths(dims);
    assert FirstHalf(0) == [[]];
    assert Components([]) == [];
    assert DiagLog(dims, Coordinates(dims), FirstHalf(0)) == [];
    assert GridLog(dims, diagonal) == [];
    assert Unwired([[]]) == map[[] := Node([], {})];
  }

  /** `Grid`: a graph over the points of a box, built by `__init__`. */
  class Grid {
    const dimensions: seq<int>
    const graph: Graph
    const uniqueDirections: seq<Direction>

    /**
     * `Grid.__init__`: add one node per box point, join the neighbours along
     * each axis, then (with `diagonal`) along each diagonal direction of
     * `unique_directions`.
     */
    constructor (dims: seq<int>, diagonal: bool)
      requires AllPositive(dims)
      ensures dimensions == dims && fresh(graph) && graph.Valid()
      ensures graph.nodes == Built(dims, diagonal)
      ensures IsLattice(dims, diagonal, graph.nodes)
      ensures uniqueDirections == if diagonal then FirstHalf(|dims|) else UnitDirections(|dims|)
    {
      var g := new Graph();
      var nodeNames := Coordinates(dims);
      CoordinatesDistinct(dims);
      g.AddNodes(nodeNames);
      ghost var start := g.nodes;
      assert start == Unwired(nodeNames);
      var unitDirections := UnitDirections(|dims|);
      ghost var axisLog := WireAxes(g, dims, nodeNames, unitDirections);
      AxisPhaseExact(dims);
      var directions;
      if diagonal {
        directions := UniqueDirections(|dims|);
        FirstHalfShape(|dims|);
        forall t | 0 <= t < |nodeNames| ensures InBox(dims, nodeNames[t]) {
          CoordinatesMember(dims, nodeNames[t]);
        }
        ghost var diagLog := WireDiagonals(g, dims, nodeNames, directions);
        WireConcat(start, axisLog, diagLog);
      } else {
        directions := unitDirections;
        assert axisLog + [] == axisLog;
      }
      dimensions := dims;
      graph := g;
      uniqueDirections := directions;
      LatticeIsGrid(dims, diagonal);
    }
  }
}
