/**
 * Directions are integer vectors, one entry per axis (grid.py:4-20, 81-83):
 * their componentwise sum, their reversal and their decomposition into
 * single-axis components.
 */
module Directions {

  type Direction = seq<int>

  /** The direction of length `n` holding `x` at index `i` and 0 elsewhere. */
  function Single(n: nat, i: nat, x: int): Direction
    requires i < n
  {
    seq(n, j => if j == i then x else 0)
  }

  /** The unit vector along axis `i` of an `n`-dimensional lattice. */
  function Unit(n: nat, i: nat): Direction
    requires i < n
  {
    Single(n, i, 1)
  }

  /** `Graph.reverse_direction`: negate every component. */
  function Reverse(direction: Direction): (r: Direction)
    ensures |r| == |direction|
    ensures forall i :: 0 <= i < |r| ==> r[i] == -direction[i]
  {
    seq(|direction|, i requires 0 <= i < |direction| => -direction[i])
  }

  lemma ReverseInvolutive(direction: Direction)
    ensures Reverse(Reverse(direction)) == direction
  {
  }

  /** Reversing a direction negates its head and its tail separately. */
  lemma ReverseCons(x: int, t: Direction)
    ensures Reverse([x] + t) == [-x] + Reverse(t)
  {
    var r, s := Reverse([x] + t), [-x] + Reverse(t);
    forall i | 0 <= i < |r|
      ensures r[i] == s[i]
    {
      if i > 0 {
        assert ([x] + t)[i] == t[i - 1];
      }
    }
  }

  /** Componentwise sum of two directions of the same length. */
  function Add(a: Direction, b: Direction): (r: Direction)
    requires |a| == |b|
    ensures |r| == |a|
  {
    seq(|a|, i requires 0 <= i < |a| => a[i] + b[i])
  }

  // ---------------------------------------------------------------------
  // sum_directions: zip(*directions) stops at the shortest direction, and
  // each column is summed from the left starting at 0.

  /** Length of the shortest of a non-empty list of directions. */
  function MinLength(directions: seq<Direction>): (r: nat)
    requires directions != []
    ensures forall j :: 0 <= j < |directions| ==> r <= |directions[j]|
    ensures exists j :: 0 <= j < |directions| && r == |directions[j]|
  {
    var last := |directions| - 1;
    if last == 0 then |directions[0]|
    else
      var m := MinLength(directions[..last]);
      assert directions[..last][0] == directions[0];
      if |directions[last]| < m then |directions[last]| else m
  }

  /** Sum of column `i`, accumulated from the left as Python's `sum` does. */
  function ColumnSum(directions: seq<Direction>, i: nat): int
    requires forall j :: 0 <= j < |directions| ==> i < |directions[j]|
  {
    if directions == [] then 0
    else ColumnSum(directions[..|directions| - 1], i) + directions[|directions| - 1][i]
  }

  /** `sum_directions`: componentwise sum, truncated to the shortest input. */
  function SumDirections(directions: seq<Direction>): (r: Direction)
    ensures directions == [] ==> r == []
    ensures directions != [] ==> |r| == MinLength(directions)
  {
    if directions == [] then []
    else seq(MinLength(directions), i requires 0 <= i < MinLength(directions) => ColumnSum(directions, i))
  }

  /** Every direction cut to its first `m` entries. */
  function Truncate(directions: seq<Direction>, m: nat): seq<Direction>
    requires forall j :: 0 <= j < |directions| ==> m <= |directions[j]|
  {
    seq(|directions|, j requires 0 <= j < |directions| => directions[j][..m])
  }

  /** Cutting the inputs past column `i` does not change that column's sum. */
  lemma {:induction false} ColumnSumTruncate(directions: seq<Direction>, m: nat, i: nat)
    requires forall j :: 0 <= j < |directions| ==> m <= |directions[j]|
    requires i < m
    ensures ColumnSum(Truncate(directions, m), i) == ColumnSum(directions, i)
  {
    if directions != [] {
      var last := |directions| - 1;
      assert Truncate(directions, m)[..last] == Truncate(directions[..last], m);
      ColumnSumTruncate(directions[..last], m, i);
    }
  }

  /**
   * The entries past the shortest input play no part in the sum: cutting
   * every input to the shortest length first gives the same direction.
   */
  lemma SumDirectionsTruncates(directions: seq<Direction>)
    requires directions != []
    ensures SumDirections(Truncate(directions, MinLength(directions))) == SumDirections(directions)
  {
    var m := MinLength(directions);
    var cut := Truncate(directions, m);
    assert MinLength(cut) == m;
    forall i | 0 <= i < m
      ensures ColumnSum(cut, i) == ColumnSum(directions, i)
    {
      ColumnSumTruncate(directions, m, i);
    }
  }

  /** Summing two directions of equal length is componentwise addition. */
  lemma SumDirectionsPair(a: Direction, b: Direction)
    requires |a| == |b|
    ensures SumDirections([a, b]) == Add(a, b)
  {
    var ds := [a, b];
    assert ds[..1] == [a] && [a][..0] == [];
    forall i | 0 <= i < |a|
      ensures ColumnSum(ds, i) == a[i] + b[i]
    {
      assert ColumnSum([a], i) == ColumnSum([], i) + a[i];
      assert ColumnSum(ds, i) == ColumnSum([a], i) + b[i];
    }
  }

  /** A direction plus its reverse is the zero vector. */
  lemma SumWithReverse(d: Direction)
    ensures SumDirections([d, Reverse(d)]) == seq(|d|, _ => 0)
  {
    SumDirectionsPair(d, Reverse(d));
  }

  // ---------------------------------------------------------------------
  // get_components

  /** Components contributed by the first `m` entries of `v`, in index order. */
  function ComponentsBelow(v: Direction, m: nat): (r: seq<Direction>)
    requires m <= |v|
    ensures |r| <= m
    ensures forall t :: 0 <= t < |r| ==> |r[t]| == |v|
  {
    if m == 0 then []
    else ComponentsBelow(v, m - 1) + (if v[m - 1] != 0 then [Single(|v|, m - 1, v[m - 1])] else [])
  }

  /** One single-axis direction per non-zero entry of `v`, in index order. */
  function Components(v: Direction): (r: seq<Direction>)
    ensures |r| <= |v|
    ensures forall t :: 0 <= t < |r| ==> |r[t]| == |v|
  {
    ComponentsBelow(v, |v|)
  }

  /** The indices below `m` at which `v` is non-zero, ascending. */
  function NonZeroPositions(v: Direction, m: nat): seq<nat>
    requires m <= |v|
  {
    if m == 0 then []
    else NonZeroPositions(v, m - 1) + (if v[m - 1] != 0 then [m - 1] else [])
  }

  ghost predicate Ascending(s: seq<nat>)
  {
    forall a, b :: 0 <= a < b < |s| ==> s[a] < s[b]
  }

  lemma {:induction false} NonZeroPositionsShape(v: Direction, m: nat)
    requires m <= |v|
    ensures Ascending(NonZeroPositions(v, m))
    ensures forall t :: 0 <= t < |NonZeroPositions(v, m)| ==> NonZeroPositions(v, m)[t] < m
    ensures forall i :: i in NonZeroPositions(v, m) <==> 0 <= i < m && v[i] != 0
  {
    if m > 0 {
      NonZeroPositionsShape(v, m - 1);
    }
  }

  lemma {:induction false} ComponentsBelowShape(v: Direction, m: nat)
    requires m <= |v|
    ensures |ComponentsBelow(v, m)| == |NonZeroPositions(v, m)|
    ensures forall t :: 0 <= t < |ComponentsBelow(v, m)| ==>
      NonZeroPositions(v, m)[t] < |v| &&
      ComponentsBelow(v, m)[t] == Single(|v|, NonZeroPositions(v, m)[t], v[NonZeroPositions(v, m)[t]])
  {
    if m > 0 {
      ComponentsBelowShape(v, m - 1);
      NonZeroPositionsShape(v, m - 1);
    }
  }

  /**
   * `get_components` yields one vector per non-zero entry, in index order;
   * each holds the original value at its index and 0 everywhere else.
   */
  lemma ComponentsCharacterised(v: Direction)
    ensures var p := NonZeroPositions(v, |v|);
      && |Components(v)| == |p|
      && Ascending(p)
      && (forall i :: i in p <==> 0 <= i < |v| && v[i] != 0)
      && forall t :: 0 <= t < |p| ==> p[t] < |v| && Components(v)[t] == Single(|v|, p[t], v[p[t]])
  {
    ComponentsBelowShape(v, |v|);
    NonZeroPositionsShape(v, |v|);
  }

  /** `get_components`, the loop of grid.py:11-20. */
  method GetComponents(direction: Direction) returns (ans: seq<Direction>)
    ensures ans == Components(direction)
  {
    ans := [];
    for index := 0 to |direction|
      invariant ans == ComponentsBelow(direction, index)
    {
      var val := direction[index];
      if val != 0 {
        var component := seq(|direction|, _ => 0);
        component := component[index := val];
        assert component == Single(|direction|, index, val);
        ans := ans + [component];
      }
    }
  }

  /** The zero vector, and only the zero vector, has no components. */
  lemma ComponentsEmptyIffZero(v: Direction)
    ensures Components(v) == [] <==> forall i :: 0 <= i < |v| ==> v[i] == 0
  {
    var p := NonZeroPositions(v, |v|);
    assert |Components(v)| == |p| && forall i :: i in p <==> 0 <= i < |v| && v[i] != 0 by {
      ComponentsCharacterised(v);
    }
    if Components(v) == [] {
      forall i | 0 <= i < |v| ensures v[i] == 0 {
        assert i !in p;
      }
    } else {
      assert p[0] in p;
    }
  }

  /** The entries of `v` below `m`, with every later entry zeroed. */
  function Masked(v: Direction, m: nat): (r: Direction)
    ensures |r| == |v|
  {
    seq(|v|, i requires 0 <= i < |v| => if i < m then v[i] else 0)
  }

  lemma {:induction false} ColumnSumBelow(v: Direction, m: nat, i: nat)
    requires m <= |v| && i < |v|
    ensures ColumnSum(ComponentsBelow(v, m), i) == Masked(v, m)[i]
  {
    if m > 0 {
      ColumnSumBelow(v, m - 1, i);
      var prev := ComponentsBelow(v, m - 1);
      if v[m - 1] != 0 {
        var cur := prev + [Single(|v|, m - 1, v[m - 1])];
        assert cur[..|cur| - 1] == prev;
      } else {
        assert ComponentsBelow(v, m) == prev;
      }
    }
  }

  /** Summing the components of a non-zero direction gives the direction back. */
  lemma SumOfComponents(v: Direction)
    requires exists i :: 0 <= i < |v| && v[i] != 0
    ensures SumDirections(Components(v)) == v
  {
    ComponentsEmptyIffZero(v);
    var cs := Components(v);
    assert MinLength(cs) == |v|;
    forall i | 0 <= i < |v|
      ensures ColumnSum(cs, i) == v[i]
    {
      ColumnSumBelow(v, |v|, i);
    }
  }

  lemma {:induction false} NonZeroPositionsSingle(n: nat, i: nat, x: int, m: nat)
    requires i < n && x != 0 && m <= n
    ensures NonZeroPositions(Single(n, i, x), m) == if i < m then [i] else []
  {
    if m > 0 {
      NonZeroPositionsSingle(n, i, x, m - 1);
    }
  }

  /** A single non-zero entry decomposes into itself. */
  lemma ComponentsOfSingle(n: nat, i: nat, x: int)
    requires i < n && x != 0
    ensures Components(Single(n, i, x)) == [Single(n, i, x)]
  {
    ComponentsBelowShape(Single(n, i, x), n);
    NonZeroPositionsSingle(n, i, x, n);
  }

  lemma {:induction false} NonZeroPositionsReverse(v: Direction, m: nat)
    requires m <= |v|
    ensures NonZeroPositions(Reverse(v), m) == NonZeroPositions(v, m)
  {
    if m > 0 {
      NonZeroPositionsReverse(v, m - 1);
    }
  }

  /** Reversing a direction keeps its number of non-zero components. */
  lemma ComponentsReverse(v: Direction)
    ensures |Components(Reverse(v))| == |Components(v)|
  {
    ComponentsBelowShape(v, |v|);
    ComponentsBelowShape(Reverse(v), |v|);
    NonZeroPositionsReverse(v, |v|);
  }
}
