/**
 * The diagonal phase of `Grid.__init__` (grid.py:123-152): the candidate
 * directions `{-1, 0, 1}^k` in product order, the de-duplicated list
 * `unique_directions`, and the walk along a direction's components that
 * finds the diagonal neighbour of a node.
 */
module Diagonals {
  import opened Wrappers
  import opened Arith
  import opened Directions
  import opened Products
  import opened Graphs
  import opened Lattice

  /** The pool `(-1, 0, 1)` each axis draws from. */
  const Ternary: seq<int> := [-1, 0, 1]

  /** `list(itertools.product(*([(-1, 0, 1)] * k)))`. */
  function Candidates(k: nat): seq<Direction>
  {
    Product(seq(k, _ => Ternary))
  }

  /** `3^k`. */
  function Pow3(k: nat): nat
  {
    if k == 0 then 1 else 3 * Pow3(k - 1)
  }

  /** A pool that reads the same reversed and negated: `pool[|pool| - 1 - j] == -pool[j]`. */
  ghost predicate Mirrored(pool: seq<int>)
  {
    forall j :: 0 <= j < |pool| ==> pool[|pool| - 1 - j] == -pool[j]
  }

  lemma CandidatesUnfold(k: nat)
    requires k > 0
    ensures Candidates(k) == Prefixed(Ternary, Candidates(k - 1))
  {
    assert seq(k, _ => Ternary)[1..] == seq(k - 1, _ => Ternary);
  }

  /** There are `3^k` candidates, an odd number. */
  lemma {:induction false} CandidatesLength(k: nat)
    ensures |Candidates(k)| == Pow3(k) && |Candidates(k)| % 2 == 1
  {
    if k > 0 {
      CandidatesLength(k - 1);
      CandidatesUnfold(k);
    }
  }

  /** The candidates are exactly the ternary vectors of length `k`, each once. */
  lemma CandidatesMember(k: nat, w: Direction)
    ensures w in Candidates(k) <==> |w| == k && IsTernary(w)
    ensures Distinct(Candidates(k))
  {
    var pools := seq(k, _ => Ternary);
    ProductMember(pools, w);
    ProductDistinct(pools);
  }

  /** Counting from the end of `n * m` slots mirrors both the block and the offset. */
  lemma MirrorIndex(n: int, m: int, a: int, b: int)
    requires 0 <= a < n && 0 <= b < m
    ensures n * m - 1 - (a * m + b) == (n - 1 - a) * m + (m - 1 - b)
  {
    MulStep(n - 1 - a, m);
    assert (n - 1 - a) * m + a * m == n * m - m by {
      MulStep(n - 1, m);
      assert (n - 1 - a) * m + a * m == (n - 1) * m;
    }
  }

  /**
   * Over mirrored pools the product is antisymmetric: the tuple `i` places
   * from the end is the negation of the tuple at `i`.
   */
  lemma {:induction false} ProductReverse(pools: seq<seq<int>>, i: int)
    requires forall q :: 0 <= q < |pools| ==> Mirrored(pools[q])
    requires 0 <= i < |Product(pools)|
    ensures Reverse(Product(pools)[i]) == Product(pools)[|Product(pools)| - 1 - i]
  {
    if pools != [] {
      var head, rest := pools[0], Product(pools[1..]);
      var n, m := |head|, |rest|;
      ProductAt(pools, i);
      var a, b := i / m, i % m;
      var i' := |Product(pools)| - 1 - i;
      assert 0 <= a < n && 0 <= b < m && 0 <= i' < |Product(pools)|;
      assert Product(pools)[i'] == [head[n - 1 - a]] + rest[m - 1 - b] by {
        assert |Product(pools)| == n * m;
        DivModSplit(i, m);
        MirrorIndex(n, m, a, b);
        DivModUnique(i', m, n - 1 - a, m - 1 - b);
        ProductAt(pools, i');
      }
      ProductReverse(pools[1..], b);
      assert Mirrored(pools[0]);
      ReverseCons(head[a], rest[b]);
    }
  }

  /** The candidate `i` places from the end is the reverse of candidate `i`. */
  lemma CandidateReverse(k: nat, i: int)
    requires 0 <= i < |Candidates(k)|
    ensures Reverse(Candidates(k)[i]) == Candidates(k)[|Candidates(k)| - 1 - i]
  {
    ProductReverse(seq(k, _ => Ternary), i);
  }

  /** The first half of the candidates, middle (all-zero) candidate included. */
  function FirstHalf(k: nat): seq<Direction>
  {
    Candidates(k)[..(|Candidates(k)| + 1) / 2]
  }

  /** The reverse of candidate `i` occurs before position `m` exactly when its mirror index does. */
  lemma ReverseInPrefix(k: nat, i: int, m: int)
    requires 0 <= i < |Candidates(k)| && 0 <= m <= |Candidates(k)|
    ensures Reverse(Candidates(k)[i]) in Candidates(k)[..m] <==> |Candidates(k)| - 1 - i < m
  {
    var T := Candidates(k);
    CandidateReverse(k, i);
    CandidatesMember(k, T[i]);
    if Reverse(T[i]) in T[..m] {
      var j :| 0 <= j < m && T[..m][j] == Reverse(T[i]);
      assert T[j] == T[|T| - 1 - i];
    }
  }

  /** `unique_directions` has `(3^k + 1) / 2` entries, each a vector of `{-1, 0, 1}^k`. */
  lemma FirstHalfShape(k: nat)
    ensures |FirstHalf(k)| == (Pow3(k) + 1) / 2
    ensures forall w :: w in FirstHalf(k) ==> |w| == k && IsTernary(w)
  {
    CandidatesLength(k);
    forall w | w in FirstHalf(k) ensures |w| == k && IsTernary(w) {
      CandidatesMember(k, w);
    }
  }

  /** Every vector of `{-1, 0, 1}^k` has itself or its reverse in `unique_directions`. */
  lemma FirstHalfCovers(k: nat, w: Direction)
    requires |w| == k && IsTernary(w)
    ensures w in FirstHalf(k) || Reverse(w) in FirstHalf(k)
  {
    var T := Candidates(k);
    var N := |T|;
    CandidatesLength(k);
    CandidatesMember(k, w);
    var i :| 0 <= i < N && T[i] == w;
    if i >= (N + 1) / 2 {
      ReverseInPrefix(k, i, (N + 1) / 2);
    } else {
      assert T[..(N + 1) / 2][i] == w;
    }
  }

  /** No entry of `unique_directions` is the reverse of a later one. */
  lemma FirstHalfNoReversePairs(k: nat, i: int, j: int)
    requires 0 <= i < j < |FirstHalf(k)|
    ensures FirstHalf(k)[i] != Reverse(FirstHalf(k)[j])
  {
    var T := Candidates(k);
    CandidatesLength(k);
    ReverseInPrefix(k, j, j);
    assert T[..j][i] == FirstHalf(k)[i];
  }

  /** The all-zero vector, its own reverse, is the last entry of `unique_directions`. */
  lemma FirstHalfEndsAtZero(k: nat)
    ensures |FirstHalf(k)| >= 1 && FirstHalf(k)[|FirstHalf(k)| - 1] == seq(k, _ => 0)
  {
    var T := Candidates(k);
    var N := |T|;
    CandidatesLength(k);
    var zero := seq(k, _ => 0);
    CandidatesMember(k, zero);
    var z :| 0 <= z < N && T[z] == zero;
    CandidateReverse(k, z);
    assert Reverse(zero) == zero;
    assert z == N - 1 - z;
  }

  // ---------------------------------------------------------------------
  // The walk along a direction's components (grid.py:139-147)
  // ---------------------------------------------------------------------

  /** Every vector in `vs` has `k` entries. */
  ghost predicate AllLength(vs: seq<seq<int>>, k: nat)
  {
    forall t :: 0 <= t < |vs| ==> |vs[t]| == k
  }

  /**
   * Where following `steps` from `n` one at a time leads on the lattice:
   * `None` as soon as a step would leave the box.
   */
  ghost function WalkTo(dims: seq<int>, n: Name, steps: seq<Direction>): (r: Option<Name>)
    requires |n| == |dims| && AllLength(steps, |dims|)
    ensures r.Some? ==> |r.value| == |dims|
    ensures r.Some? && steps != [] ==> InBox(dims, r.value)
  {
    if steps == [] then Some(n)
    else
      match WalkTo(dims, n, steps[..|steps| - 1])
      case None => None
      case Some(m) =>
        var next := Add(m, steps[|steps| - 1]);
        if InBox(dims, next) then Some(next) else None
  }

  /** Stuck once, stuck for good: a walk that fails on a prefix of the steps fails. */
  lemma {:induction false} WalkStaysStuck(dims: seq<int>, n: Name, steps: seq<Direction>, i: nat)
    requires |n| == |dims| && AllLength(steps, |dims|) && i <= |steps|
    requires WalkTo(dims, n, steps[..i]) == None
    ensures WalkTo(dims, n, steps) == None
  {
    if i < |steps| {
      assert steps[..|steps| - 1][..i] == steps[..i];
      WalkStaysStuck(dims, n, steps[..|steps| - 1], i);
    } else {
      assert steps[..i] == steps;
    }
  }

  /** One more step extends the walk by that step, if it stays in the box. */
  lemma WalkSnoc(dims: seq<int>, n: Name, steps: seq<Direction>, i: nat)
    requires |n| == |dims| && AllLength(steps, |dims|) && i < |steps|
    ensures WalkTo(dims, n, steps[..i + 1]) ==
      match WalkTo(dims, n, steps[..i])
      case None => None
      case Some(m) => if InBox(dims, Add(m, steps[i])) then Some(Add(m, steps[i])) else None
  {
    assert steps[..i + 1][..i] == steps[..i];
  }

  /** Adding the component at index `m - 1` moves from `n + v|m-1` to `n + v|m`, inside the box or not. */
  lemma WalkComponentStep(dims: seq<int>, n: Name, v: Direction, m: nat)
    requires InBox(dims, n) && |v| == |dims| && 0 < m <= |v|
    ensures var before, after := Add(n, Masked(v, m - 1)), Add(n, Masked(v, m));
      && (v[m - 1] != 0 ==> Add(before, Single(|v|, m - 1, v[m - 1])) == after)
      && (v[m - 1] == 0 ==> before == after)
      && (InBox(dims, after) ==> InBox(dims, before))
  {
    var before, after := Add(n, Masked(v, m - 1)), Add(n, Masked(v, m));
    if InBox(dims, after) {
      forall i | 0 <= i < |dims| ensures 0 <= before[i] < dims[i] {
        if i != m - 1 {
          assert before[i] == after[i];
        }
      }
    }
  }

  /**
   * Walking the components of `v` below index `m` from an in-box `n` lands on
   * `n` plus the part of `v` below `m`, and fails only when that point is outside.
   */
  lemma {:induction false} WalkComponentsBelow(dims: seq<int>, n: Name, v: Direction, m: nat)
    requires InBox(dims, n) && |v| == |dims| && m <= |v|
    ensures var target := Add(n, Masked(v, m));
      WalkTo(dims, n, ComponentsBelow(v, m)) == if InBox(dims, target) then Some(target) else None
  {
    if m == 0 {
      assert Add(n, Masked(v, 0)) == n;
    } else {
      WalkComponentsBelow(dims, n, v, m - 1);
      WalkComponentStep(dims, n, v, m);
      var steps := ComponentsBelow(v, m);
      if v[m - 1] == 0 {
        assert steps == ComponentsBelow(v, m - 1);
      } else {
        assert steps[..|steps| - 1] == ComponentsBelow(v, m - 1);
      }
    }
  }

  /**
   * The walk of `grid.py:141-147`: following the components of `v` from an
   * in-box `n` ends at `n + v` when that point is in the box, and fails otherwise.
   */
  lemma WalkComponents(dims: seq<int>, n: Name, v: Direction)
    requires InBox(dims, n) && |v| == |dims|
    ensures AllLength(Components(v), |dims|)
    ensures WalkTo(dims, n, Components(v)) == if InBox(dims, Add(n, v)) then Some(Add(n, v)) else None
  {
    WalkComponentsBelow(dims, n, v, |v|);
    assert Masked(v, |v|) == v;
  }

  /** The components of a ternary vector are axis steps. */
  lemma ComponentsAreAxisSteps(v: Direction)
    requires IsTernary(v)
    ensures forall t :: 0 <= t < |Components(v)| ==> IsAxisStep(|v|, Components(v)[t])
  {
    ComponentsCharacterised(v);
    var p := NonZeroPositions(v, |v|);
    forall t | 0 <= t < |Components(v)| ensures IsAxisStep(|v|, Components(v)[t]) {
      var i := p[t];
      assert i in p;
      if v[i] == 1 {
        assert Components(v)[t] == Unit(|v|, i);
      } else {
        ReverseUnit(|v|, i);
        assert Components(v)[t] == Reverse(Unit(|v|, i));
      }
    }
  }

  // ---------------------------------------------------------------------
  // The diagonal connect calls (grid.py:133-149)
  // ---------------------------------------------------------------------

  /** The call made for direction `u` from `n`: one when the walk succeeds, none otherwise. */
  ghost function NodeStep(dims: seq<int>, n: Name, u: Direction): seq<Link>
    requires |n| == |dims| && |u| == |dims|
  {
    if InBox(dims, Add(n, u)) then [Link(n, Add(n, u), u)] else []
  }

  /** The calls made for direction `u` from each of `names`, in order. */
  ghost function NodeLog(dims: seq<int>, names: seq<Name>, u: Direction): seq<Link>
    requires AllLength(names, |dims|) && |u| == |dims|
  {
    if names == [] then []
    else NodeLog(dims, names[..|names| - 1], u) + NodeStep(dims, names[|names| - 1], u)
  }

  /** The calls of the diagonal phase for directions `dirs`; fewer than two components are skipped. */
  ghost function DiagLog(dims: seq<int>, names: seq<Name>, dirs: seq<Direction>): seq<Link>
    requires AllLength(names, |dims|) && AllLength(dirs, |dims|)
  {
    if dirs == [] then []
    else
      var u := dirs[|dirs| - 1];
      DiagLog(dims, names, dirs[..|dirs| - 1])
      + (if |Components(u)| < 2 then [] else NodeLog(dims, names, u))
  }

  lemma {:induction false} NodeLogMember(dims: seq<int>, names: seq<Name>, u: Direction, x: Link)
    requires AllLength(names, |dims|) && |u| == |dims|
    ensures x in NodeLog(dims, names, u) <==>
      x.from in names && x.dir == u && x.to == Add(x.from, u) && InBox(dims, x.to)
  {
    if names != [] {
      var init := names[..|names| - 1];
      NodeLogMember(dims, init, u, x);
      assert names == init + [names[|names| - 1]];
    }
  }

  lemma {:induction false} DiagLogMember(dims: seq<int>, names: seq<Name>, dirs: seq<Direction>, x: Link)
    requires AllLength(names, |dims|) && AllLength(dirs, |dims|)
    ensures x in DiagLog(dims, names, dirs) <==>
      && x.dir in dirs && |Components(x.dir)| >= 2
      && x.from in names && x.to == Add(x.from, x.dir) && InBox(dims, x.to)
  {
    if dirs != [] {
      var init, u := dirs[..|dirs| - 1], dirs[|dirs| - 1];
      DiagLogMember(dims, names, init, x);
      assert dirs == init + [u];
      if |Components(u)| >= 2 {
        NodeLogMember(dims, names, u, x);
      }
    }
  }

  /** Every node name and every unique direction has one entry per axis. */
  lemma DiagonalLengths(dims: seq<int>)
    ensures AllLength(Coordinates(dims), |dims|) && AllLength(FirstHalf(|dims|), |dims|)
  {
    var names := Coordinates(dims);
    forall t | 0 <= t < |names| ensures |names[t]| == |dims| {
      CoordinatesMember(dims, names[t]);
    }
    FirstHalfShape(|dims|);
  }

  /**
   * The diagonal calls for `unique_directions` give an in-box `n` exactly
   * the diagonal steps `n -> n + w` that stay in the box, in both senses.
   */
  lemma DiagonalEdges(dims: seq<int>, n: Name, e: Edge)
    requires AllPositive(dims) && InBox(dims, n)
    ensures AllLength(Coordinates(dims), |dims|) && AllLength(FirstHalf(|dims|), |dims|)
    ensures var log := DiagLog(dims, Coordinates(dims), FirstHalf(|dims|));
      GivenBy(log, n, e) <==>
        |e.dir| == |n| && e.node == Add(n, e.dir) && InBox(dims, e.node) && IsDiagonalStep(|dims|, e.dir)
  {
    var k := |dims|;
    DiagonalLengths(dims);
    var log := DiagLog(dims, Coordinates(dims), FirstHalf(k));
    if GivenBy(log, n, e) {
      var i :| 0 <= i < |log| && Gives(log[i], n, e);
      DiagonalEdgesSound(dims, n, e, log[i]);
    }
    if |e.dir| == |n| && e.node == Add(n, e.dir) && InBox(dims, e.node) && IsDiagonalStep(k, e.dir) {
      var x := DiagonalEdgesComplete(dims, n, e);
      GivenByMember(log, x, n, e);
    }
  }

  lemma DiagonalEdgesSound(dims: seq<int>, n: Name, e: Edge, x: Link)
    requires AllPositive(dims) && InBox(dims, n)
    requires AllLength(Coordinates(dims), |dims|) && AllLength(FirstHalf(|dims|), |dims|)
    requires x in DiagLog(dims, Coordinates(dims), FirstHalf(|dims|)) && Gives(x, n, e)
    ensures |e.dir| == |n| && e.node == Add(n, e.dir) && InBox(dims, e.node) && IsDiagonalStep(|dims|, e.dir)
  {
    var k := |dims|;
    DiagLogMember(dims, Coordinates(dims), FirstHalf(k), x);
    FirstHalfShape(k);
    CoordinatesMember(dims, x.from);
    GivesDiagonal(dims, n, e, x);
  }

  /** The edge a diagonal call gives either end is a diagonal step to the other end. */
  lemma GivesDiagonal(dims: seq<int>, n: Name, e: Edge, x: Link)
    requires InBox(dims, x.from) && InBox(dims, x.to) && IsDiagonalStep(|dims|, x.dir)
    requires x.to == Add(x.from, x.dir) && Gives(x, n, e)
    ensures |e.dir| == |n| && e.node == Add(n, e.dir) && InBox(dims, e.node) && IsDiagonalStep(|dims|, e.dir)
  {
    if !(x.from == n && e == Edge(x.to, x.dir)) {
      ReverseStep(|dims|, x.dir);
      assert Add(n, Reverse(x.dir)) == x.from;
    }
  }

  lemma DiagonalEdgesComplete(dims: seq<int>, n: Name, e: Edge) returns (x: Link)
    requires AllPositive(dims) && InBox(dims, n)
    requires AllLength(Coordinates(dims), |dims|) && AllLength(FirstHalf(|dims|), |dims|)
    requires |e.dir| == |n| && e.node == Add(n, e.dir) && InBox(dims, e.node) && IsDiagonalStep(|dims|, e.dir)
    ensures x in DiagLog(dims, Coordinates(dims), FirstHalf(|dims|)) && Gives(x, n, e)
  {
    var k, w := |dims|, e.dir;
    FirstHalfCovers(k, w);
    CoordinatesMember(dims, n);
    CoordinatesMember(dims, e.node);
    if w in FirstHalf(k) {
      x := Link(n, e.node, w);
    } else {
      ReverseStep(k, w);
      ReverseInvolutive(w);
      assert Add(e.node, Reverse(w)) == n;
      x := Link(e.node, n, Reverse(w));
    }
    DiagLogMember(dims, Coordinates(dims), FirstHalf(k), x);
  }
}

module DiagonalWiring {
  import opened Wrappers
  import opened Arith
  import opened Directions
  import opened Graphs
  import opened Lattice
  import opened Axes
  import opened Diagonals

  /**
   * `unique_directions`: scan the candidates in product order and keep each
   * one whose reverse has not been kept yet. The result is the first half of
   * the candidates (up to and including the all-zero vector).
   */
  method UniqueDirections(k: nat) returns (uniqueDirections: seq<Direction>)
    ensures uniqueDirections == FirstHalf(k)
  {
    var allPossibleDirections := Candidates(k);
    CandidatesLength(k);
    ghost var half := (|allPossibleDirections| + 1) / 2;
    uniqueDirections := [];
    for index := 0 to |allPossibleDirections|
      invariant uniqueDirections == allPossibleDirections[..if index < half then index else half]
    {
      var possibleDirection := allPossibleDirections[index];
      ReverseInPrefix(k, index, if index < half then index else half);
      if Reverse(possibleDirection) !in uniqueDirections {
        uniqueDirections := uniqueDirections + [possibleDirection];
        assert allPossibleDirections[..index] + [possibleDirection] == allPossibleDirections[..index + 1];
      }
    }
  }

  /** Calls between in-box points along directions with at least two components. */
  ghost predicate DiagonalLinks(dims: seq<int>, log: seq<Link>)
  {
    forall x :: x in log ==> InBox(dims, x.from) && InBox(dims, x.to) && |Components(x.dir)| >= 2
  }

  /** The lattice's nodes before any call: one unconnected node per box point. */
  lemma UnwiredBox(dims: seq<int>, c: Name)
    ensures c in Unwired(Coordinates(dims)) <==> InBox(dims, c)
  {
    CoordinatesMember(dims, c);
  }

  /** Every call of the axis phase and of a diagonal log joins two box points. */
  lemma LogWithin(dims: seq<int>, diagLog: seq<Link>)
    requires AllPositive(dims) && DiagonalLinks(dims, diagLog)
    ensures LinksWithin(Unwired(Coordinates(dims)), AxisLog(dims, |dims|) + diagLog)
  {
    var log := AxisLog(dims, |dims|) + diagLog;
    forall i | 0 <= i < |log|
      ensures log[i].from in Unwired(Coordinates(dims)) && log[i].to in Unwired(Coordinates(dims))
    {
      var x := log[i];
      UnwiredBox(dims, x.from);
      UnwiredBox(dims, x.to);
      if i < |AxisLog(dims, |dims|)| {
        assert x in AxisLog(dims, |dims|);
        AxisLogMember(dims, x);
        var d :| 0 <= d < |dims| && AxisLinkOf(dims, d, x);
        StepUpInBox(dims, d, x.from);
      } else {
        assert x in diagLog;
      }
    }
  }

  /** A diagonal call never gives an edge labelled with an axis step. */
  lemma DiagonalGivesNoAxisStep(dims: seq<int>, x: Link, n: Name, e: Edge)
    requires |Components(x.dir)| >= 2 && Gives(x, n, e)
    ensures !IsAxisStep(|dims|, e.dir)
  {
    ComponentsReverse(x.dir);
    if IsAxisStep(|dims|, e.dir) {
      AxisStepHasOneComponent(|dims|, e.dir);
    }
  }

  /**
   * `n` is a node, and its edges labelled with an axis step `w` are exactly
   * the one to `n + w`, if that point is in the box.
   */
  ghost predicate ExactAt(dims: seq<int>, nodes: map<Name, Node>, n: Name)
  {
    && n in nodes
    && forall w, m :: IsAxisStep(|dims|, w) ==>
         (Edge(m, w) in nodes[n].connections <==> |w| == |n| && m == Add(n, w) && InBox(dims, m))
  }

  /** The axis-step edges are exact at every box point: what the walk relies on. */
  ghost predicate AxisStepsExact(dims: seq<int>, nodes: map<Name, Node>)
  {
    forall n {:trigger ExactAt(dims, nodes, n)} :: InBox(dims, n) ==> ExactAt(dims, nodes, n)
  }

  /** The axis phase leaves the axis-step edges exact. */
  lemma AxisPhaseExact(dims: seq<int>)
    requires AllPositive(dims)
    ensures AxisStepsExact(dims, Wire(Unwired(Coordinates(dims)), AxisLog(dims, |dims|)))
  {
    var axis := AxisLog(dims, |dims|);
    var start := Unwired(Coordinates(dims));
    LogWithin(dims, []);
    assert axis + [] == axis;
    forall n | InBox(dims, n) ensures ExactAt(dims, Wire(start, axis), n) {
      UnwiredBox(dims, n);
      forall w, m | IsAxisStep(|dims|, w)
        ensures Edge(m, w) in Wire(start, axis)[n].connections <==> |w| == |n| && m == Add(n, w) && InBox(dims, m)
      {
        WireEdges(start, axis, n, Edge(m, w));
        AxisEdges(dims, n, Edge(m, w));
      }
    }
  }

  /** A diagonal call between box points keeps the axis-step edges exact. */
  lemma DiagonalKeepsExact(dims: seq<int>, nodes: map<Name, Node>, x: Link)
    requires AxisStepsExact(dims, nodes)
    requires InBox(dims, x.from) && InBox(dims, x.to) && |Components(x.dir)| >= 2
    ensures AxisStepsExact(dims, Connected(nodes, x))
  {
    var r := Connected(nodes, x);
    assert ExactAt(dims, nodes, x.from) && ExactAt(dims, nodes, x.to);
    forall n | InBox(dims, n) ensures ExactAt(dims, r, n) {
      assert ExactAt(dims, nodes, n);
      forall w, m | IsAxisStep(|dims|, w)
        ensures Edge(m, w) in r[n].connections <==> |w| == |n| && m == Add(n, w) && InBox(dims, m)
      {
        ConnectEdges(nodes, x.from, x.to, x.dir, n, Edge(m, w));
        if Gives(x, n, Edge(m, w)) {
          DiagonalGivesNoAxisStep(dims, x, n, Edge(m, w));
        }
      }
    }
  }

  /**
   * The walk of one node along the components of a direction: follow the
   * (single) edge labelled with each component, giving up with `None` when
   * there is none.
   */
  method Walk(g: Graph, dims: seq<int>, nodeName: Name, components: seq<Direction>)
      returns (curNodeName: Option<Name>)
    requires InBox(dims, nodeName) && g.Valid() && AxisStepsExact(dims, g.nodes)
    requires AllLength(components, |dims|)
    requires forall t :: 0 <= t < |components| ==> IsAxisStep(|dims|, components[t])
    ensures curNodeName == WalkTo(dims, nodeName, components)
  {
    curNodeName := Some(nodeName);
    for index := 0 to |components|
      invariant curNodeName == WalkTo(dims, nodeName, components[..index])
      invariant curNodeName.Some? && InBox(dims, curNodeName.value)
    {
      var component := components[index];
      var cur := curNodeName.value;
      assert ExactAt(dims, g.nodes, cur);
      WalkSnoc(dims, nodeName, components, index);
      var nextTo := g.GetNextTo(cur, Some(component));
      if nextTo.value != {} {
        var edge :| edge in nextTo.value;
        curNodeName := Some(edge.node);
      } else {
        assert Edge(Add(cur, component), component) !in nextTo.value;
        curNodeName := None;
        WalkStaysStuck(dims, nodeName, components, index + 1);
        break;
      }
    }
    assert components[..|components|] == components;
  }

  /** The log of the first `i + 1` nodes extends that of the first `i` by node `i`'s call, if any. */
  lemma NodeLogSnoc(dims: seq<int>, names: seq<Name>, u: Direction, i: nat)
    requires AllLength(names, |dims|) && |u| == |dims| && i < |names|
    ensures NodeLog(dims, names[..i + 1], u) == NodeLog(dims, names[..i], u) + NodeStep(dims, names[i], u)
  {
    assert names[..i + 1][..i] == names[..i];
  }

  /**
   * The body of the node loop: walk from `nodeName` along the components of
   * `uniqueDirection` and, if the walk ends in the box, connect the two.
   */
  method WireNode(g: Graph, dims: seq<int>, nodeName: Name, uniqueDirection: Direction, components: seq<Direction>)
    requires InBox(dims, nodeName) && |uniqueDirection| == |dims| && IsTernary(uniqueDirection)
    requires components == Components(uniqueDirection) && |components| >= 2
    requires g.Valid() && AxisStepsExact(dims, g.nodes)
    modifies g
    ensures g.Valid() && AxisStepsExact(dims, g.nodes)
    ensures g.nodes == Wire(old(g.nodes), NodeStep(dims, nodeName, uniqueDirection))
  {
    ComponentsAreAxisSteps(uniqueDirection);
    var curNodeName := Walk(g, dims, nodeName, components);
    WalkComponents(dims, nodeName, uniqueDirection);
    if curNodeName.Some? {
      ghost var x := Link(nodeName, curNodeName.value, uniqueDirection);
      DiagonalKeepsExact(dims, g.nodes, x);
      var outcome := g.ConnectNodes(nodeName, curNodeName.value, uniqueDirection);
      WireSnoc(old(g.nodes), [], x);
    }
  }

  /** The node loop for one diagonal direction: every node in order. */
  method WireDirection(g: Graph, dims: seq<int>, nodeNames: seq<Name>, uniqueDirection: Direction,
                       components: seq<Direction>)
    requires forall t :: 0 <= t < |nodeNames| ==> InBox(dims, nodeNames[t])
    requires |uniqueDirection| == |dims| && IsTernary(uniqueDirection)
    requires components == Components(uniqueDirection) && |components| >= 2
    requires g.Valid() && AxisStepsExact(dims, g.nodes)
    modifies g
    ensures g.Valid() && AxisStepsExact(dims, g.nodes)
    ensures AllLength(nodeNames, |dims|)
    ensures g.nodes == Wire(old(g.nodes), NodeLog(dims, nodeNames, uniqueDirection))
  {
    for i := 0 to |nodeNames|
      invariant g.Valid() && AxisStepsExact(dims, g.nodes)
      invariant g.nodes == Wire(old(g.nodes), NodeLog(dims, nodeNames[..i], uniqueDirection))
    {
      ghost var done := NodeLog(dims, nodeNames[..i], uniqueDirection);
      var nodeName := nodeNames[i];
      WireNode(g, dims, nodeName, uniqueDirection, components);
      NodeLogSnoc(dims, nodeNames, uniqueDirection, i);
      WireConcat(old(g.nodes), done, NodeStep(dims, nodeName, uniqueDirection));
    }
    assert nodeNames[..|nodeNames|] == nodeNames;
  }

  /**
   * The diagonal loop of `Grid.__init__`: for each direction of
   * `unique_directions` with at least two components, connect every node
   * to its neighbour along that direction, if it has one.
   */
  method WireDiagonals(g: Graph, dims: seq<int>, nodeNames: seq<Name>, uniqueDirections: seq<Direction>)
      returns (ghost diagLog: seq<Link>)
    requires forall t :: 0 <= t < |nodeNames| ==> InBox(dims, nodeNames[t])
    requires AllLength(uniqueDirections, |dims|)
    requires forall t :: 0 <= t < |uniqueDirections| ==> IsTernary(uniqueDirections[t])
    requires g.Valid() && AxisStepsExact(dims, g.nodes)
    modifies g
    ensures g.Valid()
    ensures AllLength(nodeNames, |dims|) && diagLog == DiagLog(dims, nodeNames, uniqueDirections)
    ensures g.nodes == Wire(old(g.nodes), diagLog)
  {
    diagLog := [];
    for u := 0 to |uniqueDirections|
      invariant g.Valid() && AxisStepsExact(dims, g.nodes)
      invariant diagLog == DiagLog(dims, nodeNames, uniqueDirections[..u])
      invariant g.nodes == Wire(old(g.nodes), diagLog)
    {
      var uniqueDirection := uniqueDirections[u];
      var components := GetComponents(uniqueDirection);
      assert uniqueDirections[..u + 1][..u] == uniqueDirections[..u];
      if |components| < 2 {
        // skip over non-diagonals
        continue;
      }
      ghost var nodeLog := NodeLog(dims, nodeNames, uniqueDirection);
      WireDirection(g, dims, nodeNames, uniqueDirection, components);
      WireConcat(old(g.nodes), diagLog, nodeLog);
      diagLog := diagLog + nodeLog;
    }
    assert uniqueDirections[..|uniqueDirections|] == uniqueDirections;
  }
}
