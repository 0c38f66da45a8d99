/**
 * Axis-aligned wiring of `Grid` (grid.py:99-121). The nodes sit in a flat
 * row-major list; for axis `d` the loops visit every pass (offset below the
 * stride), every line within it and every jump along the line, joining flat
 * index `i` to `i + stride_d` with the unit vector of axis `d`.
 */
module Axes {
  import opened Arith
  import opened Directions
  import opened Products
  import opened Graphs
  import opened Lattice

  /** `unit_directions`: the unit vector of each axis, in axis order. */
  function UnitDirections(k: nat): (r: seq<Direction>)
    ensures |r| == k && forall d :: 0 <= d < k ==> r[d] == Unit(k, d)
  {
    seq(k, d requires 0 <= d < k => seq(k, index => if index == d then 1 else 0))
  }

  /** The loop counters of one jump: pass `p`, line `l`, jump `j` along axis `d`. */
  ghost predicate AxisArgs(dims: seq<int>, d: nat, p: int, l: int, j: int)
  {
    && AllPositive(dims) && d < |dims|
    && 0 <= p < Stride(dims, d) && 0 <= l < Lines(dims, d) && 0 <= j && j + 1 < dims[d]
  }

  /** The `connect_nodes` call made at pass `p`, line `l`, jump `j` of axis `d`. */
  ghost function AxisLink(dims: seq<int>, d: nat, p: int, l: int, j: int): Link
    requires AxisArgs(dims, d, p, l, j)
  {
    CoordinateAt(dims, d, l, j, p);
    var pre, suf := Coordinates(dims[..d])[l], Coordinates(dims[d + 1..])[p];
    Link(pre + [j] + suf, pre + [j + 1] + suf, Unit(|dims|, d))
  }

  /** The calls of the first `j` jumps of line `l` in pass `p`. */
  ghost function JumpLog(dims: seq<int>, d: nat, p: int, l: int, j: nat): seq<Link>
    requires AllPositive(dims) && d < |dims|
    requires 0 <= p < Stride(dims, d) && 0 <= l < Lines(dims, d) && j < dims[d]
  {
    if j == 0 then [] else JumpLog(dims, d, p, l, j - 1) + [AxisLink(dims, d, p, l, j - 1)]
  }

  /** The calls of the first `l` lines of pass `p`. */
  ghost function LineLog(dims: seq<int>, d: nat, p: int, l: nat): seq<Link>
    requires AllPositive(dims) && d < |dims|
    requires 0 <= p < Stride(dims, d) && l <= Lines(dims, d)
  {
    if l == 0 then [] else LineLog(dims, d, p, l - 1) + JumpLog(dims, d, p, l - 1, dims[d] - 1)
  }

  /** The calls of the first `p` passes of axis `d`. */
  ghost function PassLog(dims: seq<int>, d: nat, p: nat): seq<Link>
    requires AllPositive(dims) && d < |dims| && p <= Stride(dims, d)
  {
    if p == 0 then [] else PassLog(dims, d, p - 1) + LineLog(dims, d, p - 1, Lines(dims, d))
  }

  /** The calls made for the first `d` axes, in the order the loops make them. */
  ghost function AxisLog(dims: seq<int>, d: nat): seq<Link>
    requires AllPositive(dims) && d <= |dims|
  {
    if d == 0 then [] else AxisLog(dims, d - 1) + PassLog(dims, d - 1, Stride(dims, d - 1))
  }

  /** `x` joins a point `c` with `c[d] < e_d - 1` to `c + e_d`, labelled `e_d`. */
  ghost predicate AxisLinkOf(dims: seq<int>, d: nat, x: Link)
  {
    && d < |dims|
    && x.dir == Unit(|dims|, d)
    && InBox(dims, x.from)
    && x.from[d] + 1 < dims[d]
    && x.to == Add(x.from, x.dir)
  }

  lemma AxisLinkShape(dims: seq<int>, d: nat, p: int, l: int, j: int)
    requires AxisArgs(dims, d, p, l, j)
    ensures AxisLinkOf(dims, d, AxisLink(dims, d, p, l, j))
    ensures AxisLink(dims, d, p, l, j).from[d] == j
  {
    CoordinateAt(dims, d, l, j, p);
    var pre, suf := Coordinates(dims[..d])[l], Coordinates(dims[d + 1..])[p];
    CoordinatesMember(dims[..d], pre);
    CoordinatesMember(dims[d + 1..], suf);
    var x := AxisLink(dims, d, p, l, j);
    assert |pre| == d;
    forall i | 0 <= i < |dims|
      ensures 0 <= x.from[i] < dims[i]
    {
      if i > d {
        assert x.from[i] == suf[i - d - 1];
      }
    }
    assert x.to == Add(x.from, x.dir);
  }

  /** The call a jump makes joins flat index `index` to `index + stride_d`. */
  lemma AxisLinkIndex(dims: seq<int>, d: nat, p: int, l: int, j: int, index: int)
    requires AxisArgs(dims, d, p, l, j)
    requires index == (l * dims[d] + j) * Stride(dims, d) + p
    ensures 0 <= index && index + Stride(dims, d) < |Coordinates(dims)|
    ensures Link(Coordinates(dims)[index], Coordinates(dims)[index + Stride(dims, d)], Unit(|dims|, d))
      == AxisLink(dims, d, p, l, j)
  {
    MulStep(l * dims[d] + j, Stride(dims, d));
    CoordinateAt(dims, d, l, j, p);
    CoordinateAt(dims, d, l, j + 1, p);
  }

  lemma {:induction false} JumpLogSound(dims: seq<int>, d: nat, p: int, l: int, j: nat)
    requires AllPositive(dims) && d < |dims|
    requires 0 <= p < Stride(dims, d) && 0 <= l < Lines(dims, d) && j < dims[d]
    ensures forall x :: x in JumpLog(dims, d, p, l, j) ==> AxisLinkOf(dims, d, x)
  {
    if j > 0 {
      JumpLogSound(dims, d, p, l, j - 1);
      AxisLinkShape(dims, d, p, l, j - 1);
    }
  }

  lemma {:induction false} LineLogSound(dims: seq<int>, d: nat, p: int, l: nat)
    requires AllPositive(dims) && d < |dims|
    requires 0 <= p < Stride(dims, d) && l <= Lines(dims, d)
    ensures forall x :: x in LineLog(dims, d, p, l) ==> AxisLinkOf(dims, d, x)
  {
    if l > 0 {
      LineLogSound(dims, d, p, l - 1);
      JumpLogSound(dims, d, p, l - 1, dims[d] - 1);
    }
  }

  lemma {:induction false} PassLogSound(dims: seq<int>, d: nat, p: nat)
    requires AllPositive(dims) && d < |dims| && p <= Stride(dims, d)
    ensures forall x :: x in PassLog(dims, d, p) ==> AxisLinkOf(dims, d, x)
  {
    if p > 0 {
      PassLogSound(dims, d, p - 1);
      LineLogSound(dims, d, p - 1, Lines(dims, d));
    }
  }

  lemma {:induction false} AxisLogSound(dims: seq<int>, d: nat)
    requires AllPositive(dims) && d <= |dims|
    ensures forall x :: x in AxisLog(dims, d) ==> exists a :: 0 <= a < d && AxisLinkOf(dims, a, x)
  {
    if d > 0 {
      AxisLogSound(dims, d - 1);
      StrideFactors(dims, d - 1);
      PassLogSound(dims, d - 1, Stride(dims, d - 1));
    }
  }

  lemma {:induction false} JumpLogContains(dims: seq<int>, d: nat, p: int, l: int, j: nat, j0: int)
    requires AllPositive(dims) && d < |dims|
    requires 0 <= p < Stride(dims, d) && 0 <= l < Lines(dims, d) && j < dims[d]
    requires 0 <= j0 < j
    ensures AxisLink(dims, d, p, l, j0) in JumpLog(dims, d, p, l, j)
  {
    if j0 < j - 1 {
      JumpLogContains(dims, d, p, l, j - 1, j0);
    }
  }

  lemma {:induction false} LineLogContains(dims: seq<int>, d: nat, p: int, l: nat, l0: int, x: Link)
    requires AllPositive(dims) && d < |dims|
    requires 0 <= p < Stride(dims, d) && l <= Lines(dims, d)
    requires 0 <= l0 < l && x in JumpLog(dims, d, p, l0, dims[d] - 1)
    ensures x in LineLog(dims, d, p, l)
  {
    if l0 < l - 1 {
      LineLogContains(dims, d, p, l - 1, l0, x);
    }
  }

  lemma {:induction false} PassLogContains(dims: seq<int>, d: nat, p: nat, p0: int, x: Link)
    requires AllPositive(dims) && d < |dims| && p <= Stride(dims, d)
    requires 0 <= p0 < p && x in LineLog(dims, d, p0, Lines(dims, d))
    ensures x in PassLog(dims, d, p)
  {
    if p0 < p - 1 {
      PassLogContains(dims, d, p - 1, p0, x);
    }
  }

  lemma {:induction false} AxisLogContains(dims: seq<int>, d: nat, d0: nat, x: Link)
    requires AllPositive(dims) && d <= |dims|
    requires d0 < d && x in PassLog(dims, d0, Stride(dims, d0))
    ensures x in AxisLog(dims, d)
  {
    assert AxisLog(dims, d) == AxisLog(dims, d - 1) + PassLog(dims, d - 1, Stride(dims, d - 1));
    if d0 < d - 1 {
      AxisLogContains(dims, d - 1, d0, x);
    }
  }

  /** Each in-box point is the `from` end of the link its loop counters name. */
  lemma AxisLinkAt(dims: seq<int>, d: nat, c: Name) returns (p: int, l: int)
    requires AllPositive(dims) && d < |dims| && InBox(dims, c) && c[d] + 1 < dims[d]
    ensures AxisArgs(dims, d, p, l, c[d]) && AxisLink(dims, d, p, l, c[d]).from == c
  {
    var pre, suf := c[..d], c[d + 1..];
    assert AllPositive(dims[..d]) && AllPositive(dims[d + 1..]);
    assert InBox(dims[..d], pre);
    assert InBox(dims[d + 1..], suf) by {
      forall i | 0 <= i < |suf| ensures 0 <= suf[i] < dims[d + 1..][i] {
        assert suf[i] == c[d + 1 + i];
      }
    }
    CoordinatesMember(dims[..d], pre);
    CoordinatesMember(dims[d + 1..], suf);
    CoordinatesLength(dims[..d]);
    CoordinatesLength(dims[d + 1..]);
    l :| 0 <= l < |Coordinates(dims[..d])| && Coordinates(dims[..d])[l] == pre;
    p :| 0 <= p < |Coordinates(dims[d + 1..])| && Coordinates(dims[d + 1..])[p] == suf;
    assert c == pre + [c[d]] + suf;
  }

  /** The call of pass `p`, line `l`, jump `j` is among the calls of axis `d`. */
  lemma AxisLinkInPass(dims: seq<int>, d: nat, p: int, l: int, j: int)
    requires AxisArgs(dims, d, p, l, j)
    ensures AxisLink(dims, d, p, l, j) in PassLog(dims, d, Stride(dims, d))
  {
    var x := AxisLink(dims, d, p, l, j);
    JumpLogContains(dims, d, p, l, dims[d] - 1, j);
    LineLogContains(dims, d, p, Lines(dims, d), l, x);
    PassLogContains(dims, d, Stride(dims, d), p, x);
  }

  /** Every point below the last position on axis `d` is joined to its successor along `d`. */
  lemma PassLogComplete(dims: seq<int>, d: nat, c: Name)
    requires AllPositive(dims) && d < |dims| && InBox(dims, c) && c[d] + 1 < dims[d]
    ensures Link(c, Add(c, Unit(|dims|, d)), Unit(|dims|, d)) in PassLog(dims, d, Stride(dims, d))
  {
    var p, l := AxisLinkAt(dims, d, c);
    AxisLinkShape(dims, d, p, l, c[d]);
    AxisLinkInPass(dims, d, p, l, c[d]);
  }

  /** The calls of all axes join exactly the pairs (c, c + e_d) inside the box. */
  lemma AxisLogMember(dims: seq<int>, x: Link)
    requires AllPositive(dims)
    ensures x in AxisLog(dims, |dims|) <==> exists d :: 0 <= d < |dims| && AxisLinkOf(dims, d, x)
  {
    AxisLogSound(dims, |dims|);
    if d :| 0 <= d < |dims| && AxisLinkOf(dims, d, x) {
      PassLogComplete(dims, d, x.from);
      StrideFactors(dims, d);
      AxisLogContains(dims, |dims|, d, x);
    }
  }

  /** A call of the axis phase labelled `e_d` is one of axis `d`'s calls. */
  lemma AxisLogDirection(dims: seq<int>, d: nat, x: Link)
    requires AllPositive(dims) && d < |dims|
    requires x in AxisLog(dims, |dims|) && x.dir == Unit(|dims|, d)
    ensures AxisLinkOf(dims, d, x)
  {
    var k := |dims|;
    AxisLogMember(dims, x);
    var d' :| 0 <= d' < k && AxisLinkOf(dims, d', x);
    assert Unit(k, d)[d'] == Unit(k, d')[d'];
  }

  lemma StepBackAndForth(c: Name, u: Direction, n: Name)
    requires |c| == |u| && n == Add(c, u)
    ensures Add(n, Reverse(u)) == c
  {
  }

  /** Moving up along axis `d` from below its last position stays inside the box. */
  lemma StepUpInBox(dims: seq<int>, d: nat, c: Name)
    requires d < |dims| && InBox(dims, c) && c[d] + 1 < dims[d]
    ensures InBox(dims, Add(c, Unit(|dims|, d)))
  {
    var c' := Add(c, Unit(|dims|, d));
    forall a | 0 <= a < |dims| ensures 0 <= c'[a] < dims[a] {
    }
  }

  /** A call of the axis phase gives `n` an edge only along an in-box axis step. */
  lemma AxisEdgesSound(dims: seq<int>, n: Name, e: Edge, x: Link)
    requires AllPositive(dims) && InBox(dims, n)
    requires x in AxisLog(dims, |dims|) && Gives(x, n, e)
    ensures |e.dir| == |n| && e.node == Add(n, e.dir) && InBox(dims, e.node) && IsAxisStep(|dims|, e.dir)
  {
    AxisLogMember(dims, x);
    var d :| 0 <= d < |dims| && AxisLinkOf(dims, d, x);
    var u := Unit(|dims|, d);
    if x.from == n && e == Edge(x.to, x.dir) {
      StepUpInBox(dims, d, n);
      assert e.dir == u;
    } else {
      assert x.to == n && e == Edge(x.from, Reverse(u));
      StepBackAndForth(x.from, u, n);
      assert e.dir == Reverse(u);
    }
  }

  /** Every in-box axis step from `n` is given to `n` by some call of the axis phase. */
  lemma AxisEdgesComplete(dims: seq<int>, n: Name, e: Edge) returns (x: Link)
    requires AllPositive(dims) && InBox(dims, n)
    requires |e.dir| == |n| && e.node == Add(n, e.dir) && InBox(dims, e.node) && IsAxisStep(|dims|, e.dir)
    ensures x in AxisLog(dims, |dims|) && Gives(x, n, e)
  {
    var k := |dims|;
    var d :| 0 <= d < k && (e.dir == Unit(k, d) || e.dir == Reverse(Unit(k, d)));
    var u := Unit(k, d);
    if e.dir == u {
      x := Link(n, e.node, u);
    } else {
      var c := e.node;
      assert Add(c, u) == n;
      x := Link(c, n, u);
    }
    assert AxisLinkOf(dims, d, x);
    AxisLogMember(dims, x);
  }

  /**
   * After the axis loops, the edges of a point `n` are exactly the steps
   * `n -> n + w` inside the box, for `w` plus or minus a unit vector.
   */
  lemma AxisEdges(dims: seq<int>, n: Name, e: Edge)
    requires AllPositive(dims) && InBox(dims, n)
    ensures var log := AxisLog(dims, |dims|);
      GivenBy(log, n, e) <==>
        |e.dir| == |n| && e.node == Add(n, e.dir) && InBox(dims, e.node) && IsAxisStep(|dims|, e.dir)
  {
    var log := AxisLog(dims, |dims|);
    if GivenBy(log, n, e) {
      var i :| 0 <= i < |log| && Gives(log[i], n, e);
      AxisEdgesSound(dims, n, e, log[i]);
    }
    if |e.dir| == |n| && e.node == Add(n, e.dir) && InBox(dims, e.node) && IsAxisStep(|dims|, e.dir) {
      var x := AxisEdgesComplete(dims, n, e);
      GivenByMember(log, x, n, e);
    }
  }

  /** Each axis makes `(e_d - 1) * prod(e_j for j != d)` connect calls. */
  lemma {:induction false} JumpLogLength(dims: seq<int>, d: nat, p: int, l: int, j: nat)
    requires AllPositive(dims) && d < |dims|
    requires 0 <= p < Stride(dims, d) && 0 <= l < Lines(dims, d) && j < dims[d]
    ensures |JumpLog(dims, d, p, l, j)| == j
  {
    if j > 0 {
      JumpLogLength(dims, d, p, l, j - 1);
    }
  }

  lemma {:induction false} LineLogLength(dims: seq<int>, d: nat, p: int, l: nat)
    requires AllPositive(dims) && d < |dims|
    requires 0 <= p < Stride(dims, d) && l <= Lines(dims, d)
    ensures |LineLog(dims, d, p, l)| == l * (dims[d] - 1)
  {
    if l > 0 {
      var before, jumps := LineLog(dims, d, p, l - 1), JumpLog(dims, d, p, l - 1, dims[d] - 1);
      assert |LineLog(dims, d, p, l)| == |before| + |jumps|;
      assert |before| == (l - 1) * (dims[d] - 1) by {
        LineLogLength(dims, d, p, l - 1);
      }
      assert |jumps| == dims[d] - 1 by {
        JumpLogLength(dims, d, p, l - 1, dims[d] - 1);
      }
      MulStepSum(|LineLog(dims, d, p, l)|, |before|, dims[d] - 1, l);
    }
  }

  lemma {:induction false} PassLogLength(dims: seq<int>, d: nat, p: nat)
    requires AllPositive(dims) && d < |dims| && p <= Stride(dims, d)
    ensures |PassLog(dims, d, p)| == p * (Lines(dims, d) * (dims[d] - 1))
  {
    if p > 0 {
      var c := Lines(dims, d) * (dims[d] - 1);
      var before, line := PassLog(dims, d, p - 1), LineLog(dims, d, p - 1, Lines(dims, d));
      assert |PassLog(dims, d, p)| == |before| + |line|;
      PassLogLength(dims, d, p - 1);
      LineLogLength(dims, d, p - 1, Lines(dims, d));
      MulStepSum(|PassLog(dims, d, p)|, |before|, c, p);
    }
  }

  /**
   * Axis `d` makes `(e_d - 1) * prod(e_j for j < d) * prod(e_j for j > d)`
   * `connect_nodes` calls, no two of them alike, each joining a point to its
   * successor along `d`.
   */
  lemma AxisCallCount(dims: seq<int>, d: nat)
    requires AllPositive(dims) && d < |dims|
    ensures |PassLog(dims, d, Stride(dims, d))| == (dims[d] - 1) * (Lines(dims, d) * Stride(dims, d))
    ensures |set x | x in PassLog(dims, d, Stride(dims, d))| == |PassLog(dims, d, Stride(dims, d))|
    ensures forall x :: x in PassLog(dims, d, Stride(dims, d)) ==> AxisLinkOf(dims, d, x)
  {
    var e, L, S := dims[d], Lines(dims, d), Stride(dims, d);
    PassLogLength(dims, d, S);
    PassLogSound(dims, d, S);
    MulSwapOuter(S, L, e - 1);
    PassLogDistinct(dims, d, S);
    DistinctCard(PassLog(dims, d, S));
  }

  /**
   * `x` starts at a point whose coordinates before axis `d` are the `l`-th
   * point of the earlier axes and whose coordinates after `d` are the `p`-th
   * point of the later axes: the line and the pass that made it.
   */
  ghost predicate FromAt(dims: seq<int>, d: nat, x: Link, p: int, l: int)
  {
    && d < |dims| && |x.from| == |dims|
    && 0 <= l < |Coordinates(dims[..d])| && 0 <= p < |Coordinates(dims[d + 1..])|
    && x.from[..d] == Coordinates(dims[..d])[l]
    && x.from[d + 1..] == Coordinates(dims[d + 1..])[p]
  }

  lemma AxisLinkFrom(dims: seq<int>, d: nat, p: int, l: int, j: int)
    requires AxisArgs(dims, d, p, l, j)
    ensures FromAt(dims, d, AxisLink(dims, d, p, l, j), p, l)
    ensures AxisLink(dims, d, p, l, j).from[d] == j
  {
    CoordinateAt(dims, d, l, j, p);
    var pre, suf := Coordinates(dims[..d])[l], Coordinates(dims[d + 1..])[p];
    CoordinatesMember(dims[..d], pre);
    CoordinatesMember(dims[d + 1..], suf);
    var from := AxisLink(dims, d, p, l, j).from;
    assert from == pre + [j] + suf;
    assert from[..d] == pre && from[d + 1..] == suf;
  }

  /** The calls of line `l` in pass `p` start on that line, before jump `j`. */
  lemma {:induction false} JumpLogFrom(dims: seq<int>, d: nat, p: int, l: int, j: nat, x: Link)
    requires AllPositive(dims) && d < |dims|
    requires 0 <= p < Stride(dims, d) && 0 <= l < Lines(dims, d) && j < dims[d]
    requires x in JumpLog(dims, d, p, l, j)
    ensures FromAt(dims, d, x, p, l) && x.from[d] < j
  {
    if x in JumpLog(dims, d, p, l, j - 1) {
      JumpLogFrom(dims, d, p, l, j - 1, x);
    } else {
      AxisLinkFrom(dims, d, p, l, j - 1);
    }
  }

  /** One line makes no call twice. */
  lemma {:induction false} JumpLogDistinct(dims: seq<int>, d: nat, p: int, l: int, j: nat)
    requires AllPositive(dims) && d < |dims|
    requires 0 <= p < Stride(dims, d) && 0 <= l < Lines(dims, d) && j < dims[d]
    ensures Distinct(JumpLog(dims, d, p, l, j))
  {
    if j > 0 {
      JumpLogDistinct(dims, d, p, l, j - 1);
      var last := AxisLink(dims, d, p, l, j - 1);
      AxisLinkFrom(dims, d, p, l, j - 1);
      forall x | x in JumpLog(dims, d, p, l, j - 1)
        ensures x !in [last]
      {
        JumpLogFrom(dims, d, p, l, j - 1, x);
      }
      DistinctConcat(JumpLog(dims, d, p, l, j - 1), [last]);
    }
  }

  /** The calls of the first `l` lines of pass `p` start on one of those lines. */
  lemma {:induction false} LineLogFrom(dims: seq<int>, d: nat, p: int, l: nat, x: Link)
    requires AllPositive(dims) && d < |dims|
    requires 0 <= p < Stride(dims, d) && l <= Lines(dims, d)
    requires x in LineLog(dims, d, p, l)
    ensures exists l' :: 0 <= l' < l && FromAt(dims, d, x, p, l')
  {
    if x in LineLog(dims, d, p, l - 1) {
      LineLogFrom(dims, d, p, l - 1, x);
    } else {
      JumpLogFrom(dims, d, p, l - 1, dims[d] - 1, x);
    }
  }

  /** One pass makes no call twice. */
  lemma {:induction false} LineLogDistinct(dims: seq<int>, d: nat, p: int, l: nat)
    requires AllPositive(dims) && d < |dims|
    requires 0 <= p < Stride(dims, d) && l <= Lines(dims, d)
    ensures Distinct(LineLog(dims, d, p, l))
  {
    if l > 0 {
      var earlier, line := LineLog(dims, d, p, l - 1), JumpLog(dims, d, p, l - 1, dims[d] - 1);
      LineLogDistinct(dims, d, p, l - 1);
      JumpLogDistinct(dims, d, p, l - 1, dims[d] - 1);
      CoordinatesDistinct(dims[..d]);
      forall x | x in earlier
        ensures x !in line
      {
        LineLogFrom(dims, d, p, l - 1, x);
        if x in line {
          JumpLogFrom(dims, d, p, l - 1, dims[d] - 1, x);
        }
      }
      DistinctConcat(earlier, line);
    }
  }

  /** The calls of the first `p` passes of axis `d` start on one of those passes. */
  lemma {:induction false} PassLogFrom(dims: seq<int>, d: nat, p: nat, x: Link)
    requires AllPositive(dims) && d < |dims| && p <= Stride(dims, d)
    requires x in PassLog(dims, d, p)
    ensures exists p', l' :: 0 <= p' < p && FromAt(dims, d, x, p', l')
  {
    if x in PassLog(dims, d, p - 1) {
      PassLogFrom(dims, d, p - 1, x);
    } else {
      LineLogFrom(dims, d, p - 1, Lines(dims, d), x);
    }
  }

  /** Axis `d` makes no call twice. */
  lemma {:induction false} PassLogDistinct(dims: seq<int>, d: nat, p: nat)
    requires AllPositive(dims) && d < |dims| && p <= Stride(dims, d)
    ensures Distinct(PassLog(dims, d, p))
  {
    if p > 0 {
      var earlier, pass := PassLog(dims, d, p - 1), LineLog(dims, d, p - 1, Lines(dims, d));
      PassLogDistinct(dims, d, p - 1);
      LineLogDistinct(dims, d, p - 1, Lines(dims, d));
      CoordinatesDistinct(dims[d + 1..]);
      forall x | x in earlier
        ensures x !in pass
      {
        PassLogFrom(dims, d, p - 1, x);
        if x in pass {
          LineLogFrom(dims, d, p - 1, Lines(dims, d), x);
        }
      }
      DistinctConcat(earlier, pass);
    }
  }

  /** The axis loops make no call twice: calls of different axes differ in direction. */
  lemma {:induction false} AxisLogDistinct(dims: seq<int>, d: nat)
    requires AllPositive(dims) && d <= |dims|
    ensures Distinct(AxisLog(dims, d))
  {
    if d > 0 {
      var earlier, axis := AxisLog(dims, d - 1), PassLog(dims, d - 1, Stride(dims, d - 1));
      AxisLogDistinct(dims, d - 1);
      PassLogDistinct(dims, d - 1, Stride(dims, d - 1));
      AxisLogSound(dims, d - 1);
      PassLogSound(dims, d - 1, Stride(dims, d - 1));
      forall x | x in earlier
        ensures x !in axis
      {
        var a :| 0 <= a < d - 1 && AxisLinkOf(dims, a, x);
        assert x.dir[a] == 1 && Unit(|dims|, d - 1)[a] == 0;
      }
      DistinctConcat(earlier, axis);
    }
  }

  /** Sum over the first `d` axes of `(e_a - 1) * prod(e_j for j != a)`. */
  ghost function AxisEdgeTotal(dims: seq<int>, d: nat): int
    requires AllPositive(dims) && d <= |dims|
  {
    if d == 0 then 0
    else AxisEdgeTotal(dims, d - 1) + (dims[d - 1] - 1) * (Lines(dims, d - 1) * Stride(dims, d - 1))
  }

  lemma {:induction false} AxisLogLength(dims: seq<int>, d: nat)
    requires AllPositive(dims) && d <= |dims|
    ensures |AxisLog(dims, d)| == AxisEdgeTotal(dims, d)
  {
    if d > 0 {
      AxisLogLength(dims, d - 1);
      AxisCallCount(dims, d - 1);
    }
  }

  /**
   * The axis loops make one distinct call for each pair of neighbours along
   * some axis: `sum over d of (e_d - 1) * prod(e_j for j != d)` in all.
   */
  lemma AxisEdgeCount(dims: seq<int>)
    requires AllPositive(dims)
    ensures |set x | x in AxisLog(dims, |dims|)| == |AxisLog(dims, |dims|)| == AxisEdgeTotal(dims, |dims|)
  {
    AxisLogLength(dims, |dims|);
    AxisLogDistinct(dims, |dims|);
    DistinctCard(AxisLog(dims, |dims|));
  }

  /** Two axis calls that join the same unordered pair of points are the same call. */
  lemma AxisCallPairs(dims: seq<int>, x: Link, y: Link)
    requires AllPositive(dims) && x in AxisLog(dims, |dims|) && y in AxisLog(dims, |dims|)
    requires {x.from, x.to} == {y.from, y.to}
    ensures x == y
  {
    AxisLogMember(dims, x);
    AxisLogMember(dims, y);
    var a :| 0 <= a < |dims| && AxisLinkOf(dims, a, x);
    var b :| 0 <= b < |dims| && AxisLinkOf(dims, b, y);
    assert x.to[a] == x.from[a] + 1;
    assert y.to[a] == y.from[a] + y.dir[a];
    if x.from == y.from {
      assert x.to == y.to;
      assert y.dir[a] == 1;
    }
  }
}

module AxisWiring {
  import opened Arith
  import opened Directions
  import opened Graphs
  import opened Lattice
  import opened Axes

  /**
   * The counters of the axis loops: dividing the remaining product by the
   * extent gives the stride, and the node count over a line's span gives the
   * number of lines.
   */
  lemma AxisCounters(dims: seq<int>, d: nat)
    requires AllPositive(dims) && d < |dims|
    ensures Prod(dims[d..]) / dims[d] == Stride(dims, d)
    ensures Prod(dims[d + 1..]) == Stride(dims, d)
    ensures |Coordinates(dims)| / (Stride(dims, d) * dims[d]) == Lines(dims, d)
  {
    var e, S, L := dims[d], Stride(dims, d), Lines(dims, d);
    StrideFactors(dims, d);
    CoordinatesLength(dims);
    assert dims[d..] == [e] + dims[d + 1..];
    assert Prod(dims[d..]) == e * S;
    DivModUnique(Prod(dims[d..]), e, S, 0);
    MulAssoc(L, e, S);
    DivModUnique(Prod(dims), S * e, L, 0);
  }

  /** The flat indices of jump `j` hold the two ends of the call the jump makes. */
  lemma JumpCall(dims: seq<int>, d: nat, p: int, l: int, j: nat, nodeNames: seq<Name>, index: int)
    requires AxisArgs(dims, d, p, l, j) && nodeNames == Coordinates(dims)
    requires index == Steps(l, dims[d] * Stride(dims, d)) + p + Steps(j, Stride(dims, d))
    ensures 0 <= index && index + Stride(dims, d) < |nodeNames|
    ensures Link(nodeNames[index], nodeNames[index + Stride(dims, d)], Unit(|dims|, d)) == AxisLink(dims, d, p, l, j)
  {
    var e, S := dims[d], Stride(dims, d);
    StepsIsProduct(j, S);
    StepsIsProduct(l, e * S);
    MulAssoc(l, e, S);
    MulStep(l * e + j, S);
    assert index == (l * e + j) * S + p;
    AxisLinkIndex(dims, d, p, l, j, index);
  }

  /**
   * The stride arithmetic joins the right flat indices: the node at flat
   * index `i` is joined to the node at `i + stride_d` along `e_d` exactly
   * when its coordinate on axis `d` is below `e_d - 1`.
   */
  lemma StrideNeighbour(dims: seq<int>, d: nat, i: int)
    requires AllPositive(dims) && d < |dims| && 0 <= i < |Coordinates(dims)|
    ensures var names, S := Coordinates(dims), Stride(dims, d);
      && |names[i]| == |dims|
      && (names[i][d] + 1 < dims[d] <==>
            i + S < |names| && Link(names[i], names[i + S], Unit(|dims|, d)) in AxisLog(dims, |dims|))
  {
    var names, S, k := Coordinates(dims), Stride(dims, d), |dims|;
    assert |names[i]| == k by {
      CoordinatesMember(dims, names[i]);
    }
    var below := names[i][d] + 1 < dims[d];
    var joined := i + S < |names| && Link(names[i], names[i + S], Unit(k, d)) in AxisLog(dims, k);
    assert below ==> joined by {
      if below {
        StrideSuccessor(dims, d, i);
      }
    }
    assert joined ==> below by {
      if joined {
        AxisLogDirection(dims, d, Link(names[i], names[i + S], Unit(k, d)));
      }
    }
  }

  /** Below the last position on axis `d`, flat index `i + stride_d` holds the successor along `d`. */
  lemma StrideSuccessor(dims: seq<int>, d: nat, i: int)
    requires AllPositive(dims) && d < |dims| && 0 <= i < |Coordinates(dims)|
    requires |Coordinates(dims)[i]| == |dims| && Coordinates(dims)[i][d] + 1 < dims[d]
    ensures var names, S := Coordinates(dims), Stride(dims, d);
      i + S < |names| && Link(names[i], names[i + S], Unit(|dims|, d)) in AxisLog(dims, |dims|)
  {
    var e, S, L := dims[d], Stride(dims, d), Lines(dims, d);
    CoordinatesLength(dims);
    RowMajor(dims, i, d);
    StrideFactors(dims, d);
    SplitIndex(i, L, e, S);
    var l, j, p := (i / S) / e, (i / S) % e, i % S;
    AxisLinkIndex(dims, d, p, l, j, i);
    AxisLinkShape(dims, d, p, l, j);
    AxisLogMember(dims, AxisLink(dims, d, p, l, j));
  }

  /** The index after the last jump of line `l` is the start of line `l + 1`. */
  lemma LineEnd(e: int, S: int)
    requires e >= 1
    ensures Steps(e - 1, S) + S == e * S
  {
    StepsIsProduct(e - 1, S);
    MulStep(e - 1, S);
  }

  /**
   * One line of the axis loops: starting at flat index `currentIndex`, make
   * the `e_d - 1` jumps of line `l` in pass `p`, each a stride long.
   */
  method WireLine(g: Graph, dims: seq<int>, d: nat, nodeNames: seq<Name>, direction: Direction,
                  nodesPerHit: int, jumpsPerLine: int, p: int, l: int, currentIndex: int)
      returns (nextIndex: int)
    requires AllPositive(dims) && d < |dims| && nodeNames == Coordinates(dims)
    requires direction == Unit(|dims|, d)
    requires nodesPerHit == Stride(dims, d) && jumpsPerLine == dims[d] - 1
    requires 0 <= p < Stride(dims, d) && 0 <= l < Lines(dims, d)
    requires currentIndex == Steps(l, dims[d] * nodesPerHit) + p
    requires g.Valid()
    modifies g
    ensures g.Valid()
    ensures nextIndex == Steps(l + 1, dims[d] * nodesPerHit) + p
    ensures g.nodes == Wire(old(g.nodes), JumpLog(dims, d, p, l, dims[d] - 1))
  {
    nextIndex := currentIndex;
    for jumpIndex := 0 to jumpsPerLine
      invariant g.Valid()
      invariant nextIndex == currentIndex + Steps(jumpIndex, nodesPerHit)
      invariant g.nodes == Wire(old(g.nodes), JumpLog(dims, d, p, l, jumpIndex))
    {
      JumpCall(dims, d, p, l, jumpIndex, nodeNames, nextIndex);
      var outcome := g.ConnectNodes(nodeNames[nextIndex], nodeNames[nextIndex + nodesPerHit], direction);
      WireSnoc(old(g.nodes), JumpLog(dims, d, p, l, jumpIndex), AxisLink(dims, d, p, l, jumpIndex));
      nextIndex := nextIndex + nodesPerHit;
    }
    LineEnd(dims[d], nodesPerHit);
    nextIndex := nextIndex + nodesPerHit;
  }

  /** One pass of the axis loops: every line of pass `p` along axis `d`. */
  method WirePass(g: Graph, dims: seq<int>, d: nat, nodeNames: seq<Name>, direction: Direction,
                  nodesPerHit: int, linesPerPass: int, jumpsPerLine: int, p: int)
    requires AllPositive(dims) && d < |dims| && nodeNames == Coordinates(dims)
    requires direction == Unit(|dims|, d)
    requires nodesPerHit == Stride(dims, d) && linesPerPass == Lines(dims, d) && jumpsPerLine == dims[d] - 1
    requires 0 <= p < Stride(dims, d)
    requires g.Valid()
    modifies g
    ensures g.Valid()
    ensures g.nodes == Wire(old(g.nodes), LineLog(dims, d, p, Lines(dims, d)))
  {
    var currentIndex := p;
    for lineIndex := 0 to linesPerPass
      invariant g.Valid()
      invariant currentIndex == Steps(lineIndex, dims[d] * nodesPerHit) + p
      invariant g.nodes == Wire(old(g.nodes), LineLog(dims, d, p, lineIndex))
    {
      currentIndex := WireLine(g, dims, d, nodeNames, direction, nodesPerHit, jumpsPerLine, p, lineIndex, currentIndex);
      WireConcat(old(g.nodes), LineLog(dims, d, p, lineIndex), JumpLog(dims, d, p, lineIndex, dims[d] - 1));
    }
  }

  /** Every pass along axis `d`. */
  method WireAxis(g: Graph, dims: seq<int>, d: nat, nodeNames: seq<Name>, direction: Direction,
                  nodesPerHit: int, linesPerPass: int, jumpsPerLine: int)
    requires AllPositive(dims) && d < |dims| && nodeNames == Coordinates(dims)
    requires direction == Unit(|dims|, d)
    requires nodesPerHit == Stride(dims, d) && linesPerPass == Lines(dims, d) && jumpsPerLine == dims[d] - 1
    requires g.Valid()
    modifies g
    ensures g.Valid()
    ensures g.nodes == Wire(old(g.nodes), PassLog(dims, d, Stride(dims, d)))
  {
    var passAmt := nodesPerHit;
    for passIndex := 0 to passAmt
      invariant g.Valid()
      invariant g.nodes == Wire(old(g.nodes), PassLog(dims, d, passIndex))
    {
      WirePass(g, dims, d, nodeNames, direction, nodesPerHit, linesPerPass, jumpsPerLine, passIndex);
      WireConcat(old(g.nodes), PassLog(dims, d, passIndex), LineLog(dims, d, passIndex, Lines(dims, d)));
    }
  }

  /**
   * The axis loops of `Grid.__init__`: for each axis, join every flat index
   * to the one a stride further on, line by line and pass by pass. The graph
   * ends up as the axis log applied to the nodes it had.
   */
  method WireAxes(g: Graph, dims: seq<int>, nodeNames: seq<Name>, unitDirections: seq<Direction>)
      returns (ghost log: seq<Link>)
    requires AllPositive(dims) && nodeNames == Coordinates(dims)
    requires unitDirections == UnitDirections(|dims|)
    requires g.Valid()
    modifies g
    ensures g.Valid()
    ensures log == AxisLog(dims, |dims|)
    ensures g.nodes == Wire(old(g.nodes), log)
  {
    CoordinatesLength(dims);
    var nodeAmt := |nodeNames|;
    var nodesPerHit := nodeAmt;
    log := [];
    for dimIndex := 0 to |dims|
      invariant g.Valid()
      invariant nodesPerHit == Prod(dims[dimIndex..])
      invariant log == AxisLog(dims, dimIndex)
      invariant g.nodes == Wire(old(g.nodes), log)
    {
      var dim := dims[dimIndex];
      var direction := unitDirections[dimIndex];
      AxisCounters(dims, dimIndex);
      nodesPerHit := nodesPerHit / dim;
      var hitsPerLine := dim;
      var linesPerPass := nodeAmt / (nodesPerHit * hitsPerLine);
      var jumpsPerLine := hitsPerLine - 1;
      WireAxis(g, dims, dimIndex, nodeNames, direction, nodesPerHit, linesPerPass, jumpsPerLine);
      WireConcat(old(g.nodes), log, PassLog(dims, dimIndex, Stride(dims, dimIndex)));
      log := log + PassLog(dims, dimIndex, Stride(dims, dimIndex));
    }
  }
}
