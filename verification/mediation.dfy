/**
 `mediate_heat`: the element-wise mean of several heat vectors, each entry
 being the column sum divided by the number of vectors and truncated toward
 zero, as `int(sum_temp / vectors_num)` does.
 */
module Mediation {
  import opened Heat

  /** What `mediate_heat` needs to index without failing: at least one vector, none shorter than the first. */
  predicate Mediable(vs: seq<seq<int>>)
  {
    |vs| > 0 && forall j :: 0 <= j < |vs| ==> |vs[j]| >= |vs[0]|
  }

  /** The sum of entry `i` over the vectors, accumulated in list order. */
  function ColumnSum(vs: seq<seq<int>>, i: nat): int
    requires forall j :: 0 <= j < |vs| ==> i < |vs[j]|
  {
    if |vs| == 0 then 0 else ColumnSum(vs[..|vs| - 1], i) + vs[|vs| - 1][i]
  }

  /** `int(a / n)`: the quotient truncated toward zero. */
  function TruncDiv(a: int, n: int): int
    requires n > 0
  {
    if a >= 0 then a / n else -((-a) / n)
  }

  /** The mean heat vector. */
  function Mediate(vs: seq<seq<int>>): (r: seq<int>)
    requires Mediable(vs)
    ensures |r| == |vs[0]|
  {
    seq(|vs[0]|, i requires 0 <= i < |vs[0]| => TruncDiv(ColumnSum(vs, i), |vs|))
  }

  lemma {:induction false} ColumnSumBetween(vs: seq<seq<int>>, i: nat, lo: int, hi: int)
    requires forall j :: 0 <= j < |vs| ==> i < |vs[j]| && lo <= vs[j][i] <= hi
    ensures |vs| * lo <= ColumnSum(vs, i) <= |vs| * hi
    decreases |vs|
  {
    if |vs| > 0 {
      ColumnSumBetween(vs[..|vs| - 1], i, lo, hi);
      assert |vs| * lo == (|vs| - 1) * lo + lo;
      assert |vs| * hi == (|vs| - 1) * hi + hi;
    }
  }

  /** Division by a positive number is monotone. */
  lemma {:induction false} DivMonotone(a: int, b: int, n: int)
    requires n > 0 && a <= b
    ensures a / n <= b / n
  {
    if a / n > b / n {
      assert n * (a / n) >= n * (b / n + 1) by {
        MultiplyMonotone(n, b / n + 1, a / n);
      }
    }
  }

  lemma {:induction false} MultiplyMonotone(n: int, x: int, y: int)
    requires n > 0 && x <= y
    ensures n * x <= n * y
  {
    assert n * y - n * x == n * (y - x);
  }

  /** `(n * k) / n == k` for a positive `n`. */
  lemma {:induction false} DivOfMultiple(n: int, k: int)
    requires n > 0
    ensures (n * k) / n == k
  {
    var q, m := (n * k) / n, (n * k) % n;
    assert n * k == n * q + m && 0 <= m < n;
    if q > k {
      MultiplyMonotone(n, k + 1, q);
    } else if q < k {
      MultiplyMonotone(n, q + 1, k);
    }
  }

  /** A truncated quotient of a sum between `n * lo` and `n * hi` lies between `lo` and `hi`. */
  lemma TruncDivBetween(a: int, n: int, lo: int, hi: int)
    requires n > 0 && n * lo <= a <= n * hi
    ensures lo <= TruncDiv(a, n) <= hi
  {
    if a >= 0 {
      DivMonotone(n * lo, a, n);
      DivMonotone(a, n * hi, n);
      DivOfMultiple(n, lo);
      DivOfMultiple(n, hi);
    } else {
      assert n * (-hi) <= -a <= n * (-lo);
      DivMonotone(n * (-hi), -a, n);
      DivMonotone(-a, n * (-lo), n);
      DivOfMultiple(n, -lo);
      DivOfMultiple(n, -hi);
    }
  }

  /** Each mediated entry lies between the smallest and the largest of the entries it averages. */
  lemma MediateWithin(vs: seq<seq<int>>, i: nat, lo: int, hi: int)
    requires Mediable(vs) && i < |vs[0]|
    requires forall j :: 0 <= j < |vs| ==> lo <= vs[j][i] <= hi
    ensures lo <= Mediate(vs)[i] <= hi
  {
    ColumnSumBetween(vs, i, lo, hi);
    TruncDivBetween(ColumnSum(vs, i), |vs|, lo, hi);
  }

  /** Mediating vectors whose levels lie in `[0, maxHeat]` gives such a vector. */
  lemma MediateBounded(vs: seq<seq<int>>, maxHeat: int)
    requires Mediable(vs)
    ensures (forall j :: 0 <= j < |vs| ==> Bounded(vs[j], maxHeat)) ==> Bounded(Mediate(vs), maxHeat)
  {
    if forall j :: 0 <= j < |vs| ==> Bounded(vs[j], maxHeat) {
      forall i | 0 <= i < |vs[0]|
        ensures 0 <= Mediate(vs)[i] <= maxHeat
      {
        MediateWithin(vs, i, 0, maxHeat);
      }
    }
  }

  lemma {:induction false} ColumnSumNonNegative(vs: seq<seq<int>>, i: nat)
    requires forall j :: 0 <= j < |vs| ==> i < |vs[j]| && vs[j][i] >= 0
    ensures ColumnSum(vs, i) >= 0
    decreases |vs|
  {
    if |vs| > 0 {
      ColumnSumNonNegative(vs[..|vs| - 1], i);
    }
  }

  /** For non-negative levels the truncated mean is the floor of the mean. */
  lemma MediateFloor(vs: seq<seq<int>>, i: nat)
    requires Mediable(vs) && i < |vs[0]|
    requires forall j :: 0 <= j < |vs| ==> vs[j][i] >= 0
    ensures Mediate(vs)[i] * |vs| <= ColumnSum(vs, i) < (Mediate(vs)[i] + 1) * |vs|
  {
    ColumnSumNonNegative(vs, i);
    var a, n := ColumnSum(vs, i), |vs|;
    assert a == n * (a / n) + a % n;
  }

  lemma {:induction false} ColumnSumOfCopies(v: seq<int>, k: nat, i: nat)
    requires i < |v|
    ensures ColumnSum(seq(k, _ => v), i) == k * v[i]
    decreases k
  {
    if k > 0 {
      assert seq(k, _ => v)[..k - 1] == seq(k - 1, _ => v);
      ColumnSumOfCopies(v, k - 1, i);
    }
  }

  /** Mediating `k` copies of one vector gives that vector back. */
  lemma MediateCopies(v: seq<int>, k: nat)
    requires k >= 1
    ensures Mediable(seq(k, _ => v))
    ensures Mediate(seq(k, _ => v)) == v
  {
    var vs := seq(k, _ => v);
    forall i | 0 <= i < |v|
      ensures Mediate(vs)[i] == v[i]
    {
      ColumnSumOfCopies(v, k, i);
      if v[i] >= 0 {
        DivOfMultiple(k, v[i]);
      } else {
        assert -(k * v[i]) == k * (-v[i]);
        DivOfMultiple(k, -v[i]);
      }
    }
  }

  lemma ColumnSumPair(u: seq<int>, v: seq<int>)
    requires |u| == |v| == 2
    ensures ColumnSum([u, v], 0) == u[0] + v[0] && ColumnSum([u, v], 1) == u[1] + v[1]
  {
    assert [u][..0] == [];
    assert ColumnSum([u], 0) == u[0] && ColumnSum([u], 1) == u[1];
    assert [u, v][..1] == [u];
  }

  /** The mean of `[4, 0]` and `[0, 4]` is `[2, 2]`; the mean of `[1, 2]` and `[2, 1]` is `[1, 1]`, never rounded up. */
  lemma MediateExamples()
    ensures Mediate([[4, 0], [0, 4]]) == [2, 2]
    ensures Mediate([[1, 2], [2, 1]]) == [1, 1]
  {
    ColumnSumPair([4, 0], [0, 4]);
    ColumnSumPair([1, 2], [2, 1]);
  }

  /** `mediate_heat` as the source computes it: an outer loop over positions, an inner loop summing over vectors. */
  method MediateHeat(vs: seq<seq<int>>) returns (mean: seq<int>)
    requires Mediable(vs)
    ensures mean == Mediate(vs)
  {
    mean := [];
    var n := |vs|;
    var i := 0;
    while i < |vs[0]|
      invariant 0 <= i <= |vs[0]|
      invariant mean == Mediate(vs)[..i]
    {
      var sum := 0;
      var j := 0;
      while j < n
        invariant 0 <= j <= n
        invariant sum == ColumnSum(vs[..j], i)
      {
        assert vs[..j + 1][..j] == vs[..j];
        sum := sum + vs[j][i];
        j := j + 1;
      }
      assert vs[..n] == vs;
      mean := mean + [TruncDiv(sum, n)];
      i := i + 1;
    }
  }
}
