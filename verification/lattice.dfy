/**
 * The geometry of the lattice built by `Grid` (grid.py:85-99): per-axis
 * extents, the coordinates they span in row-major order, strides, and the
 * steps that join neighbouring points.
 */
module Lattice {
  import opened Arith
  import opened Directions
  import opened Products
  import opened Graphs

  /** `range(n)`. */
  function Range(n: int): (r: seq<int>)
    ensures |r| == if n < 0 then 0 else n
  {
    seq(if n < 0 then 0 else n, i => i)
  }

  /** `[range(dim) for dim in dimensions]`. */
  function Ranges(dims: seq<int>): (r: seq<seq<int>>)
    ensures |r| == |dims|
  {
    seq(|dims|, i requires 0 <= i < |dims| => Range(dims[i]))
  }

  /** `itertools.product(*coord_iter)`: every coordinate, row-major. */
  function Coordinates(dims: seq<int>): seq<Name>
  {
    Product(Ranges(dims))
  }

  /** `c` is a point of the box spanned by the extents. */
  predicate InBox(dims: seq<int>, c: Name)
  {
    |c| == |dims| && forall i :: 0 <= i < |c| ==> 0 <= c[i] < dims[i]
  }

  /** Distance in the flat row-major order between neighbours along axis `d`. */
  function Stride(dims: seq<int>, d: nat): (r: int)
    requires d < |dims|
    ensures AllPositive(dims) ==> r >= 1
  {
    if AllPositive(dims) then
      assert AllPositive(dims[d + 1..]);
      ProdPositive(dims[d + 1..]);
      Prod(dims[d + 1..])
    else
      Prod(dims[d + 1..])
  }

  /** Number of points before axis `d` varies: the product of the earlier extents. */
  function Lines(dims: seq<int>, d: nat): (r: int)
    requires d <= |dims|
    ensures AllPositive(dims) ==> r >= 1
  {
    if AllPositive(dims) then
      assert AllPositive(dims[..d]);
      ProdPositive(dims[..d]);
      Prod(dims[..d])
    else
      Prod(dims[..d])
  }

  lemma RangesConcat(a: seq<int>, b: seq<int>)
    ensures Ranges(a + b) == Ranges(a) + Ranges(b)
  {
  }

  lemma SizesOfRanges(dims: seq<int>)
    requires AllPositive(dims)
    ensures Sizes(Ranges(dims)) == dims
  {
  }

  /** `Grid` creates exactly one node per point: the product of the extents. */
  lemma CoordinatesLength(dims: seq<int>)
    requires AllPositive(dims)
    ensures |Coordinates(dims)| == Prod(dims)
  {
    ProductLength(Ranges(dims));
    SizesOfRanges(dims);
  }

  lemma InRange(n: int, x: int)
    ensures x in Range(n) <==> 0 <= x < n
  {
    if 0 <= x < n {
      assert Range(n)[x] == x;
    }
  }

  /** The coordinates are exactly the points of the box. */
  lemma CoordinatesMember(dims: seq<int>, c: Name)
    ensures c in Coordinates(dims) <==> InBox(dims, c)
  {
    ProductMember(Ranges(dims), c);
    forall i | 0 <= i < |c| && i < |dims|
      ensures c[i] in Ranges(dims)[i] <==> 0 <= c[i] < dims[i]
    {
      InRange(dims[i], c[i]);
    }
  }

  /** No coordinate is enumerated twice. */
  lemma CoordinatesDistinct(dims: seq<int>)
    ensures Distinct(Coordinates(dims))
  {
    ProductDistinct(Ranges(dims));
  }

  lemma SingleAxisCoordinate(e: int, j: int)
    requires 0 <= j < e
    ensures |Coordinates([e])| == e && Coordinates([e])[j] == [j]
  {
    assert Ranges([e]) == [Range(e)];
    assert Ranges([e])[1..] == [];
    assert Product(Ranges([e])[1..]) == [[]];
    assert Coordinates([e]) == Prefixed(Range(e), [[]]);
    PrefixedAt(Range(e), [[]], j);
    DivModUnique(j, 1, j, 0);
  }

  /**
   * Flat index `(l * e_d + j) * stride_d + p` holds the point whose first `d`
   * coordinates are the `l`-th point of the earlier axes, whose coordinate on
   * axis `d` is `j`, and whose later coordinates are the `p`-th point of the
   * later axes.
   */
  lemma {:induction false} CoordinateAt(dims: seq<int>, d: nat, l: int, j: int, p: int)
    requires AllPositive(dims) && d < |dims|
    requires 0 <= l < Lines(dims, d) && 0 <= j < dims[d] && 0 <= p < Stride(dims, d)
    ensures 0 <= (l * dims[d] + j) * Stride(dims, d) + p < |Coordinates(dims)|
    ensures |Coordinates(dims[..d])| == Lines(dims, d) && |Coordinates(dims[d + 1..])| == Stride(dims, d)
    ensures Coordinates(dims)[(l * dims[d] + j) * Stride(dims, d) + p]
      == Coordinates(dims[..d])[l] + [j] + Coordinates(dims[d + 1..])[p]
  {
    var e, S := dims[d], Stride(dims, d);
    var pre, a, b := dims[..d], dims[..d + 1], dims[d + 1..];
    assert a == pre + [e] && dims == a + b;
    assert AllPositive(pre) && AllPositive(a) && AllPositive(b);
    CoordinatesLength(dims);
    CoordinatesLength(pre);
    CoordinatesLength(a);
    CoordinatesLength(b);
    ProdConcat(pre, [e]);
    ProdConcat(a, b);
    assert Prod([e]) == e;
    var q := l * e + j;
    FlatBelow(l, j, Lines(dims, d), e);
    FlatBelow(q, p, Prod(a), S);
    var idx := q * S + p;
    RangesConcat(a, b);
    RangesConcat(pre, [e]);
    ProductSplit(Ranges(a), Ranges(b), idx);
    DivModUnique(idx, S, q, p);
    ProductSplit(Ranges(pre), Ranges([e]), q);
    SingleAxisCoordinate(e, j);
    DivModUnique(q, e, l, j);
  }

  lemma StrideFactors(dims: seq<int>, d: nat)
    requires AllPositive(dims) && d < |dims|
    ensures Stride(dims, d) >= 1 && Lines(dims, d) >= 1
    ensures Prod(dims) == (Lines(dims, d) * dims[d]) * Stride(dims, d)
  {
    var e := dims[d];
    assert dims == dims[..d] + [e] + dims[d + 1..];
    assert AllPositive(dims[..d]) && AllPositive(dims[d + 1..]);
    ProdPositive(dims[..d]);
    ProdPositive(dims[d + 1..]);
    ProdConcat(dims[..d] + [e], dims[d + 1..]);
    ProdConcat(dims[..d], [e]);
    assert Prod([e]) == e;
  }

  /** Row-major order: coordinate `d` of the point at flat index `i` is `(i / stride_d) % e_d`. */
  lemma RowMajor(dims: seq<int>, i: int, d: nat)
    requires AllPositive(dims) && d < |dims| && 0 <= i < Prod(dims)
    ensures |Coordinates(dims)| == Prod(dims) && |Coordinates(dims)[i]| == |dims| && Stride(dims, d) >= 1
    ensures Coordinates(dims)[i][d] == (i / Stride(dims, d)) % dims[d]
  {
    CoordinatesLength(dims);
    ProductTupleLength(Ranges(dims), i);
    StrideFactors(dims, d);
    var e, S := dims[d], Stride(dims, d);
    SplitIndex(i, Lines(dims, d), e, S);
    CoordinateAt(dims, d, (i / S) / e, (i / S) % e, i % S);
    assert |Coordinates(dims[..d])[(i / S) / e]| == d by {
      ProductTupleLength(Ranges(dims[..d]), (i / S) / e);
    }
  }

  /** Every point of the box sits at the flat index its strides give. */
  lemma CoordinateOnto(dims: seq<int>, c: Name)
    requires InBox(dims, c)
    ensures exists i :: 0 <= i < |Coordinates(dims)| && Coordinates(dims)[i] == c
  {
    CoordinatesMember(dims, c);
  }

  // ---------------------------------------------------------------------
  // Steps between neighbouring points

  /** A direction whose entries are all in {-1, 0, 1}. */
  predicate IsTernary(w: Direction)
  {
    forall i :: 0 <= i < |w| ==> -1 <= w[i] <= 1
  }

  /** One unit along one axis, forwards or backwards. */
  ghost predicate IsAxisStep(k: nat, w: Direction)
  {
    exists d :: 0 <= d < k && (w == Unit(k, d) || w == Reverse(Unit(k, d)))
  }

  /** A vector of {-1, 0, 1}^k with at least two non-zero entries. */
  ghost predicate IsDiagonalStep(k: nat, w: Direction)
  {
    |w| == k && IsTernary(w) && |Components(w)| >= 2
  }

  /**
   * The edges of the finished lattice: from `n` along step `e.dir` to
   * `e.node == n + e.dir`, inside the box; axis steps always, diagonal steps
   * when diagonals are enabled.
   */
  ghost predicate IsGridEdge(dims: seq<int>, diagonal: bool, n: Name, e: Edge)
  {
    && |e.dir| == |n|
    && e.node == Add(n, e.dir)
    && InBox(dims, e.node)
    && (IsAxisStep(|dims|, e.dir) || (diagonal && IsDiagonalStep(|dims|, e.dir)))
  }

  lemma ReverseUnit(k: nat, d: nat)
    requires d < k
    ensures Reverse(Unit(k, d)) == Single(k, d, -1)
  {
  }

  /** An axis step has exactly one component, so it is never a diagonal step. */
  lemma AxisStepHasOneComponent(k: nat, w: Direction)
    requires IsAxisStep(k, w)
    ensures |w| == k && IsTernary(w) && |Components(w)| == 1
  {
    var d :| 0 <= d < k && (w == Unit(k, d) || w == Reverse(Unit(k, d)));
    if w == Unit(k, d) {
      ComponentsOfSingle(k, d, 1);
    } else {
      ReverseUnit(k, d);
      ComponentsOfSingle(k, d, -1);
    }
  }

  /** Reversing keeps diagonal steps diagonal and axis steps axis steps. */
  lemma ReverseStep(k: nat, w: Direction)
    ensures IsDiagonalStep(k, w) ==> IsDiagonalStep(k, Reverse(w))
    ensures IsAxisStep(k, w) ==> IsAxisStep(k, Reverse(w))
  {
    ComponentsReverse(w);
    if IsAxisStep(k, w) {
      var d :| 0 <= d < k && (w == Unit(k, d) || w == Reverse(Unit(k, d)));
      ReverseInvolutive(Unit(k, d));
      assert Reverse(w) == Unit(k, d) || Reverse(w) == Reverse(Unit(k, d));
    }
  }
}
