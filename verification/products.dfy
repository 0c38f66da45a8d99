/**
 * `itertools.product(*pools)` as the lattice builder uses it (grid.py:95, 125):
 * every choice of one element per pool, in row-major order (the last pool
 * varies fastest).
 */
module Products {
  import opened Arith

  /** `[h] + t` for every head `h` (outer loop) and every tail `t` (inner loop). */
  function Prefixed(heads: seq<int>, tails: seq<seq<int>>): (r: seq<seq<int>>)
    ensures |r| == |heads| * |tails|
  {
    if heads == [] then []
    else
      Prefixed(heads[..|heads| - 1], tails)
      + seq(|tails|, t requires 0 <= t < |tails| => [heads[|heads| - 1]] + tails[t])
  }

  /** The Cartesian product of `pools`, row-major. */
  function Product(pools: seq<seq<int>>): seq<seq<int>>
  {
    if pools == [] then [[]] else Prefixed(pools[0], Product(pools[1..]))
  }

  /** The sizes of the pools. */
  function Sizes(pools: seq<seq<int>>): (r: seq<int>)
    ensures |r| == |pools|
  {
    seq(|pools|, i requires 0 <= i < |pools| => |pools[i]|)
  }

  ghost predicate Distinct<T>(s: seq<T>)
  {
    forall i, j :: 0 <= i < j < |s| ==> s[i] != s[j]
  }

  /** Two sequences without repeats and without common elements concatenate without repeats. */
  lemma DistinctConcat<T>(a: seq<T>, b: seq<T>)
    requires Distinct(a) && Distinct(b)
    requires forall x :: x in a ==> x !in b
    ensures Distinct(a + b)
  {
    forall i, j | 0 <= i < j < |a + b|
      ensures (a + b)[i] != (a + b)[j]
    {
      if i < |a| && |a| <= j {
        assert (a + b)[i] in a && (a + b)[j] == b[j - |a|];
      } else if |a| <= i {
        assert (a + b)[i] == b[i - |a|] && (a + b)[j] == b[j - |a|];
      }
    }
  }

  /** A sequence without repeats has as many distinct elements as entries. */
  lemma {:induction false} DistinctCard<T>(s: seq<T>)
    requires Distinct(s)
    ensures |set x | x in s| == |s|
  {
    if s != [] {
      var init, last := s[..|s| - 1], s[|s| - 1];
      assert Distinct(init);
      DistinctCard(init);
      assert (set x | x in s) == (set x | x in init) + {last} by {
        assert s == init + [last];
      }
      assert last !in init;
    }
  }

  /** The product has as many tuples as the product of the pool sizes. */
  lemma {:induction false} ProductLength(pools: seq<seq<int>>)
    ensures |Product(pools)| == Prod(Sizes(pools))
  {
    if pools != [] {
      ProductLength(pools[1..]);
      assert Sizes(pools)[1..] == Sizes(pools[1..]);
    }
  }

  lemma {:induction false} PrefixedAt(heads: seq<int>, tails: seq<seq<int>>, i: int)
    requires 0 <= i < |heads| * |tails|
    ensures |tails| > 0 && 0 <= i / |tails| < |heads|
    ensures Prefixed(heads, tails)[i] == [heads[i / |tails|]] + tails[i % |tails|]
  {
    var init := heads[..|heads| - 1];
    if i < |init| * |tails| {
      PrefixedAt(init, tails, i);
    } else {
      var t := i - |init| * |tails|;
      assert |heads| * |tails| == |init| * |tails| + |tails|;
      DivModUnique(i, |tails|, |heads| - 1, t);
    }
  }

  /** The tuple at flat index `i`: the head pool is indexed by `i / R`, the rest by `i % R`. */
  lemma ProductAt(pools: seq<seq<int>>, i: int)
    requires pools != [] && 0 <= i < |Product(pools)|
    ensures var rest := Product(pools[1..]);
      |rest| > 0 && 0 <= i / |rest| < |pools[0]| &&
      Product(pools)[i] == [pools[0][i / |rest|]] + rest[i % |rest|]
  {
    PrefixedAt(pools[0], Product(pools[1..]), i);
  }

  lemma PrefixedMemberHead(heads: seq<int>, tails: seq<seq<int>>, x: seq<int>)
    requires x in Prefixed(heads, tails)
    ensures |x| >= 1 && x[0] in heads && x[1..] in tails
  {
    var r := Prefixed(heads, tails);
    var i :| 0 <= i < |r| && r[i] == x;
    PrefixedAt(heads, tails, i);
  }

  lemma PrefixedMemberTail(heads: seq<int>, tails: seq<seq<int>>, x: seq<int>)
    requires |x| >= 1 && x[0] in heads && x[1..] in tails
    ensures x in Prefixed(heads, tails)
  {
    var a :| 0 <= a < |heads| && heads[a] == x[0];
    var b :| 0 <= b < |tails| && tails[b] == x[1..];
    var i := a * |tails| + b;
    FlatBelow(a, b, |heads|, |tails|);
    PrefixedAt(heads, tails, i);
    DivModUnique(i, |tails|, a, b);
    assert Prefixed(heads, tails)[i] == [x[0]] + x[1..] == x;
  }

  lemma PrefixedMember(heads: seq<int>, tails: seq<seq<int>>, x: seq<int>)
    ensures x in Prefixed(heads, tails) <==> |x| >= 1 && x[0] in heads && x[1..] in tails
  {
    if x in Prefixed(heads, tails) {
      PrefixedMemberHead(heads, tails, x);
    }
    if |x| >= 1 && x[0] in heads && x[1..] in tails {
      PrefixedMemberTail(heads, tails, x);
    }
  }

  /** A tuple is in the product exactly when it picks one element from each pool. */
  lemma {:induction false} ProductMember(pools: seq<seq<int>>, x: seq<int>)
    ensures x in Product(pools) <==> |x| == |pools| && forall i :: 0 <= i < |x| ==> x[i] in pools[i]
  {
    if pools == [] {
    } else {
      PrefixedMember(pools[0], Product(pools[1..]), x);
      if |x| >= 1 {
        ProductMember(pools[1..], x[1..]);
        if |x| == |pools| && forall i :: 0 <= i < |x| ==> x[i] in pools[i] {
          assert forall i :: 0 <= i < |x[1..]| ==> x[1..][i] in pools[1..][i];
        }
        if x[1..] in Product(pools[1..]) {
          assert forall i :: 1 <= i < |x| ==> x[i] == x[1..][i - 1];
        }
      }
    }
  }

  /** Every tuple of the product has one entry per pool. */
  lemma ProductTupleLength(pools: seq<seq<int>>, i: int)
    requires 0 <= i < |Product(pools)|
    ensures |Product(pools)[i]| == |pools|
  {
    ProductMember(pools, Product(pools)[i]);
  }

  /** Pools without repeats give a product without repeats. */
  lemma {:induction false} ProductDistinct(pools: seq<seq<int>>)
    requires forall k :: 0 <= k < |pools| ==> Distinct(pools[k])
    ensures Distinct(Product(pools))
  {
    if pools != [] {
      var rest := Product(pools[1..]);
      ProductDistinct(pools[1..]);
      forall i, j | 0 <= i < j < |Product(pools)|
        ensures Product(pools)[i] != Product(pools)[j]
      {
        ProductAt(pools, i);
        ProductAt(pools, j);
        var R := |rest|;
        if Product(pools)[i] == Product(pools)[j] {
          var x, y := Product(pools)[i], Product(pools)[j];
          assert x[0] == y[0] && x[1..] == y[1..];
          assert i / R == j / R;
          assert i % R == j % R;
          DivModDetermines(i, j, R);
        }
      }
    }
  }

  /** |product(A + B)| == |product(A)| * |product(B)|. */
  lemma {:induction false} ProductConcatLength(a: seq<seq<int>>, b: seq<seq<int>>)
    ensures |Product(a + b)| == |Product(a)| * |Product(b)|
  {
    if a == [] {
      assert a + b == b;
    } else {
      assert (a + b)[0] == a[0] && (a + b)[1..] == a[1..] + b;
      ProductConcatLength(a[1..], b);
      MulAssoc(|a[0]|, |Product(a[1..])|, |Product(b)|);
    }
  }

  /**
   * The tuple at flat index `i` of `product(A + B)` is the tuple at `i / R`
   * of `product(A)` followed by the tuple at `i % R` of `product(B)`, where
   * `R` is the size of `product(B)` (the stride of the first |A| positions).
   */
  lemma {:induction false} ProductSplit(a: seq<seq<int>>, b: seq<seq<int>>, i: int)
    requires 0 <= i < |Product(a + b)|
    ensures var R := |Product(b)|;
      R > 0 && 0 <= i / R < |Product(a)| &&
      Product(a + b)[i] == Product(a)[i / R] + Product(b)[i % R]
  {
    var R := |Product(b)|;
    ProductConcatLength(a, b);
    if a == [] {
      assert a + b == b;
      DivModUnique(i, R, 0, i);
    } else {
      assert (a + b)[0] == a[0] && (a + b)[1..] == a[1..] + b;
      var R' := |Product(a[1..])|;
      ProductConcatLength(a[1..], b);
      var R1 := |Product(a[1..] + b)|;
      assert R1 == R' * R;
      ProductAt(a + b, i);
      assert R1 > 0;
      assert R' > 0 && R > 0;
      ProductSplit(a[1..], b, i % R1);
      NestedDivMod(i, R', R);
      assert |Product(a)| == |a[0]| * R';
      assert i < (|a[0]| * R') * R;
      DivBelow(i, |a[0]| * R', R);
      ProductAt(a, i / R);
    }
  }
}
