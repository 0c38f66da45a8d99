/** Integer facts used by the stride arithmetic of the lattice builder. */
module Arith {

  /** Product of a sequence of integers (1 for the empty sequence). */
  function Prod(s: seq<int>): int
  {
    if s == [] then 1 else s[0] * Prod(s[1..])
  }

  predicate AllPositive(s: seq<int>)
  {
    forall i :: 0 <= i < |s| ==> s[i] >= 1
  }

  lemma {:induction false} ProdConcat(a: seq<int>, b: seq<int>)
    ensures Prod(a + b) == Prod(a) * Prod(b)
  {
    if a == [] {
      assert a + b == b;
    } else {
      assert (a + b)[1..] == a[1..] + b;
      ProdConcat(a[1..], b);
      calc {
        Prod(a + b);
        a[0] * Prod(a[1..] + b);
        a[0] * (Prod(a[1..]) * Prod(b));
        (a[0] * Prod(a[1..])) * Prod(b);
      }
    }
  }

  lemma {:induction false} ProdPositive(s: seq<int>)
    requires AllPositive(s)
    ensures Prod(s) >= 1
  {
    if s != [] {
      assert AllPositive(s[1..]);
      ProdPositive(s[1..]);
      MulAtLeastOne(s[0], Prod(s[1..]));
    }
  }

  lemma MulAtLeastOne(a: int, b: int)
    requires a >= 1 && b >= 1
    ensures a * b >= 1 && a * b >= a && a * b >= b
  {
  }

  /** Multiplying by a factor of at least one does not decrease a non-negative number. */
  lemma MulMonotone(k: int, m: int)
    requires k >= 1 && m >= 0
    ensures k * m >= m
  {
    assert k * m == (k - 1) * m + m;
  }

  /** Euclidean division is determined by quotient and remainder. */
  lemma DivModUnique(x: int, m: int, q: int, r: int)
    requires 0 <= r < m && x == q * m + r
    ensures x / m == q && x % m == r
  {
    var q', r' := x / m, x % m;
    assert x == q' * m + r' && 0 <= r' < m;
    assert (q - q') * m == r' - r;
    if q > q' {
      MulMonotone(q - q', m);
    } else if q < q' {
      MulMonotone(q' - q, m);
    }
  }

  /** A quotient by `b` of a number below `a * b` is below `a`. */
  lemma DivBelow(r: int, a: int, b: int)
    requires 0 <= r < a * b && b >= 1
    ensures 0 <= r / b < a
  {
    var q := r / b;
    assert r == q * b + r % b;
    if q >= a {
      MulMonotoneRight(a, q, b);
    }
  }

  lemma MulMonotoneRight(a: int, q: int, b: int)
    requires a <= q && b >= 0
    ensures a * b <= q * b
  {
    assert q * b == a * b + (q - a) * b;
    assert (q - a) * b >= 0;
  }

  /** Splitting a flat index over a product of two sizes. */
  lemma NestedDivMod(i: int, a: int, b: int)
    requires 0 <= i && a >= 1 && b >= 1
    ensures i / (a * b) == (i / b) / a
    ensures (i % (a * b)) / b == (i / b) % a
    ensures (i % (a * b)) % b == i % b
  {
    var q, r := i / (a * b), i % (a * b);
    assert i == q * (a * b) + r && 0 <= r < a * b;
    var q1, r1 := r / b, r % b;
    assert r == q1 * b + r1 && 0 <= r1 < b;
    DivBelow(r, a, b);
    assert i == (q * a + q1) * b + r1;
    DivModUnique(i, b, q * a + q1, r1);
    DivModUnique(q * a + q1, a, q, q1);
  }

  /** A number is determined by its quotient and remainder. */
  lemma DivModDetermines(i: int, j: int, m: int)
    requires m > 0 && i / m == j / m && i % m == j % m
    ensures i == j
  {
    assert i == (i / m) * m + i % m;
    assert j == (j / m) * m + j % m;
  }

  /** Euclidean division splits `x` into quotient and remainder. */
  lemma DivModSplit(x: int, m: int)
    requires m > 0
    ensures x == (x / m) * m + x % m && 0 <= x % m < m
  {
  }

  lemma MulStep(a: int, s: int)
    ensures (a + 1) * s == a * s + s
  {
  }

  /** A total of `p - 1` blocks of `c` plus one more block is `p` blocks. */
  lemma MulStepSum(total: int, before: int, c: int, p: int)
    requires before == (p - 1) * c && total == before + c
    ensures total == p * c
  {
    MulStep(p - 1, c);
  }

  /** `j` steps of length `s` from zero, added one at a time. */
  ghost function Steps(j: nat, s: int): int
  {
    if j == 0 then 0 else Steps(j - 1, s) + s
  }

  lemma {:induction false} StepsIsProduct(j: nat, s: int)
    ensures Steps(j, s) == j * s
  {
    if j > 0 {
      StepsIsProduct(j - 1, s);
      MulStep(j - 1, s);
    }
  }

  lemma MulSwapOuter(a: int, b: int, c: int)
    ensures a * (b * c) == c * (b * a)
  {
    MulAssoc(a, b, c);
    MulAssoc(c, b, a);
  }

  lemma MulAssoc(a: int, b: int, c: int)
    ensures a * (b * c) == (a * b) * c
  {
  }

  /** `a * m + b` stays below `n * m` when `a < n` and `b < m`. */
  lemma FlatBelow(a: int, b: int, n: int, m: int)
    requires 0 <= a < n && 0 <= b < m
    ensures 0 <= a * m + b < n * m
  {
    MulMonotoneRight(a + 1, n, m);
    assert (a + 1) * m == a * m + m;
    assert a * m >= 0;
  }

  /** A flat index below `(L * e) * S` splits into (line, position on the axis, offset). */
  lemma SplitIndex(i: int, lines: int, e: int, s: int)
    requires 0 <= i < (lines * e) * s && e >= 1 && s >= 1
    ensures 0 <= (i / s) / e < lines && 0 <= (i / s) % e < e && 0 <= i % s < s
    ensures i == (((i / s) / e) * e + (i / s) % e) * s + i % s
  {
    DivBelow(i, lines * e, s);
    DivBelow(i / s, lines, e);
  }
}
