/**
 * Margin-of-error arithmetic after chapter 8 of the U.S. Census Bureau's
 * ACS General Handbook (2018): margins of independent estimates combine by
 * root-sum-of-squares, and a proportion is a clamped quotient.
 *
 * Arithmetic is over `real`. Python takes square roots in floating point;
 * here a square root is kept exact as a `Root`, and every statement about
 * its value is made of an `m` with `IsSqrt(m, radicand)`, which is unique.
 */
module Stats {
  import opened Wrappers

  /** `scale * sqrt(radicand)`, held exactly. */
  datatype Root = Root(scale: real, radicand: real)

  /** `x ** 2` */
  function Sq(x: real): real { x * x }

  /** `m` is the non-negative square root of `x`. */
  ghost predicate IsSqrt(m: real, x: real) {
    0.0 <= m && Sq(m) == x
  }

  function Abs(x: real): real { if x < 0.0 then -x else x }
  function Max(a: real, b: real): real { if a < b then b else a }
  function Min(a: real, b: real): real { if a < b then a else b }

  lemma MulPositive(x: real, y: real)
    requires 0.0 < x && 0.0 < y
    ensures 0.0 < x * y
  {
  }

  lemma SqDifference(a: real, b: real)
    ensures Sq(b) - Sq(a) == (b - a) * (b + a)
  {
  }

  /** For non-negative `a`, `b`: `a <= b` exactly when `a ** 2 <= b ** 2`. */
  lemma SquareMonotone(a: real, b: real)
    requires 0.0 <= a && 0.0 <= b
    ensures a <= b <==> Sq(a) <= Sq(b)
  {
    SqDifference(a, b);
    if a < b {
      MulPositive(b - a, b + a);
    } else if b < a {
      MulPositive(a - b, a + b);
    }
  }

  lemma SqrtUnique(m1: real, m2: real, x: real)
    requires IsSqrt(m1, x) && IsSqrt(m2, x)
    ensures m1 == m2
  {
    SquareMonotone(m1, m2);
    SquareMonotone(m2, m1);
  }

  /** `sum(moe ** 2 for moe in moes)` */
  function SumOfSquares(moes: seq<real>): (s: real)
    ensures s >= 0.0
  {
    if |moes| == 0 then 0.0 else SumOfSquares(moes[..|moes| - 1]) + Sq(moes[|moes| - 1])
  }

  /**
   * `moe_of_sum(*moes)`: the margin of error of a sum or difference of
   * independent estimates, `sqrt(sum(moe ** 2 for moe in moes))`.
   */
  function MoeOfSum(moes: seq<real>): (r: Root)
    ensures r.scale == 1.0 && r.radicand >= 0.0
  {
    Root(1.0, SumOfSquares(moes))
  }

  lemma {:induction false} SumOfSquaresAppend(a: seq<real>, b: seq<real>)
    ensures SumOfSquares(a + b) == SumOfSquares(a) + SumOfSquares(b)
    decreases |b|
  {
    if |b| > 0 {
      assert (a + b)[..|a + b| - 1] == a + b[..|b| - 1];
      SumOfSquaresAppend(a, b[..|b| - 1]);
    } else {
      assert a + b == a;
    }
  }

  /** Removing the element at `i` removes its square from the sum. */
  lemma SumOfSquaresRemove(b: seq<real>, i: nat)
    requires i < |b|
    ensures SumOfSquares(b) == SumOfSquares(b[..i] + b[i + 1..]) + Sq(b[i])
  {
    var x, pre, post := b[i], b[..i], b[i + 1..];
    assert b == pre + ([x] + post);
    SumOfSquaresAppend(pre, [x] + post);
    SumOfSquaresAppend([x], post);
    SumOfSquaresAppend(pre, post);
    assert SumOfSquares([x]) == Sq(x) by {
      assert [x][..0] == [];
    }
  }

  lemma MultisetCancel(p: multiset<real>, q: multiset<real>, x: real)
    requires p + multiset{x} == q + multiset{x}
    ensures p == q
  {
    forall y ensures p[y] == q[y] {
      assert (p + multiset{x})[y] == (q + multiset{x})[y];
    }
  }

  /** The sum of squares does not depend on the order of the margins. */
  lemma {:induction false} SumOfSquaresPermutation(a: seq<real>, b: seq<real>)
    requires multiset(a) == multiset(b)
    ensures SumOfSquares(a) == SumOfSquares(b)
    decreases |a|
  {
    if |a| > 0 {
      var front := a[..|a| - 1];
      var x := a[|a| - 1];
      assert x in multiset(b);
      var i :| 0 <= i < |b| && b[i] == x;
      var rest := b[..i] + b[i + 1..];
      assert multiset(a) == multiset(front) + multiset{x} by {
        assert a == front + [x];
      }
      assert multiset(b) == multiset(rest) + multiset{x} by {
        assert b == b[..i] + [x] + b[i + 1..];
      }
      MultisetCancel(multiset(front), multiset(rest), x);
      SumOfSquaresPermutation(front, rest);
      SumOfSquaresRemove(b, i);
    } else {
      assert b == [];
    }
  }

  /** `moe_of_sum()` with no arguments is 0. */
  lemma MoeOfSumEmpty(m: real)
    ensures IsSqrt(m, MoeOfSum([]).radicand) <==> m == 0.0
  {
    assert SumOfSquares([]) == 0.0;
    if 0.0 <= m {
      SquareMonotone(m, 0.0);
    }
  }

  /** `moe_of_sum(x)` is `abs(x)`. */
  lemma MoeOfSumSingle(x: real, m: real)
    ensures IsSqrt(m, MoeOfSum([x]).radicand) <==> m == Abs(x)
  {
    assert [x][..0] == [];
    assert SumOfSquares([x]) == Sq(x);
    assert Sq(Abs(x)) == Sq(x);
    if IsSqrt(m, MoeOfSum([x]).radicand) {
      SqrtUnique(m, Abs(x), Sq(x));
    }
  }

  /** `moe_of_sum` does not depend on the order of its arguments. */
  lemma MoeOfSumOrder(a: seq<real>, b: seq<real>)
    requires multiset(a) == multiset(b)
    ensures MoeOfSum(a) == MoeOfSum(b)
  {
    SumOfSquaresPermutation(a, b);
  }

  /** An extra 0 argument, anywhere, changes nothing. */
  lemma MoeOfSumExtraZero(a: seq<real>, i: nat)
    requires i <= |a|
    ensures MoeOfSum(a[..i] + [0.0] + a[i..]) == MoeOfSum(a)
  {
    SumOfSquaresAppend(a[..i] + [0.0], a[i..]);
    SumOfSquaresAppend(a[..i], [0.0]);
    SumOfSquaresAppend(a[..i], a[i..]);
    assert a[..i] + a[i..] == a;
  }

  /**
   * The combined margin of two estimates is at least each margin and at most
   * their sum.
   */
  lemma MoeOfSumPair(a: real, b: real, m: real)
    requires IsSqrt(m, MoeOfSum([a, b]).radicand)
    ensures Abs(a) <= m && Abs(b) <= m && m <= Abs(a) + Abs(b)
  {
    assert [a, b][..1] == [a];
    assert [a][..0] == [];
    assert SumOfSquares([a]) == Sq(a);
    assert SumOfSquares([a, b]) == SumOfSquares([a]) + Sq(b);
    assert Sq(m) == Sq(a) + Sq(b);
    assert Sq(Abs(a)) == Sq(a) && Sq(Abs(b)) == Sq(b);
    SquareMonotone(Abs(a), m);
    SquareMonotone(Abs(b), m);
    SquareMonotone(m, Abs(a) + Abs(b));
    assert Sq(Abs(a) + Abs(b)) == Sq(a) + Sq(b) + 2.0 * (Abs(a) * Abs(b));
    assert Abs(a) * Abs(b) >= 0.0 by {
      if Abs(a) > 0.0 && Abs(b) > 0.0 {
        MulPositive(Abs(a), Abs(b));
      }
    }
  }

  /**
   * `est_of_prop(subpop_est, pop_est)`: `subpop_est / pop_est` with the
   * population taken to be at least 1 and the subpopulation clamped into
   * `[0, pop_est]`; the quotient is capped at 1.
   */
  function EstOfProp(subpopEst: real, popEst: real): (r: real)
    ensures 0.0 <= r <= 1.0
  {
    var pop := Max(popEst, 1.0);
    var subpop := Max(Min(subpopEst, pop), 0.0);
    Min(subpop / pop, 1.0)
  }

  /** With `1 <= pop` and `0 <= subpop <= pop` the result is the plain quotient. */
  lemma EstOfPropIsQuotient(subpopEst: real, popEst: real)
    requires 1.0 <= popEst && 0.0 <= subpopEst <= popEst
    ensures EstOfProp(subpopEst, popEst) == subpopEst / popEst
  {
    assert subpopEst / popEst <= 1.0 by {
      assert subpopEst <= popEst * 1.0;
    }
  }

  /** The converse does not hold: a clamped input can give the plain quotient too. */
  lemma EstOfPropQuotientOutsideDomain()
    ensures EstOfProp(0.0, 0.5) == 0.0 / 0.5
  {
  }

  /** A population below 1 is treated as 1. */
  lemma EstOfPropSmallPop(subpopEst: real, popEst: real)
    requires popEst < 1.0
    ensures EstOfProp(subpopEst, popEst) == EstOfProp(subpopEst, 1.0)
  {
  }

  /** A non-positive subpopulation gives 0. */
  lemma EstOfPropNoSubpop(subpopEst: real, popEst: real)
    requires subpopEst <= 0.0
    ensures EstOfProp(subpopEst, popEst) == 0.0
  {
  }

  /** A subpopulation at least as large as the clamped population gives 1. */
  lemma EstOfPropWholePop(subpopEst: real, popEst: real)
    requires subpopEst >= Max(popEst, 1.0)
    ensures EstOfProp(subpopEst, popEst) == 1.0
  {
    var pop := Max(popEst, 1.0);
    assert pop / pop == 1.0;
  }

  /** The result is the quotient by the clamped population, clamped into `[0, 1]`. */
  lemma EstOfPropClampedQuotient(subpopEst: real, popEst: real)
    ensures EstOfProp(subpopEst, popEst) == Max(Min(subpopEst / Max(popEst, 1.0), 1.0), 0.0)
  {
    var pop := Max(popEst, 1.0);
    if subpopEst >= pop {
      assert subpopEst / pop >= 1.0 by { assert subpopEst >= pop * 1.0; }
    } else if subpopEst <= 0.0 {
      assert subpopEst / pop <= 0.0;
    } else {
      assert subpopEst / pop <= 1.0 by { assert subpopEst <= pop * 1.0; }
    }
  }

  /** A larger subpopulation never gives a smaller proportion. */
  lemma EstOfPropMonotone(s1: real, s2: real, popEst: real)
    requires s1 <= s2
    ensures EstOfProp(s1, popEst) <= EstOfProp(s2, popEst)
  {
    var pop := Max(popEst, 1.0);
    var a := Max(Min(s1, pop), 0.0);
    var b := Max(Min(s2, pop), 0.0);
    assert a <= b;
    assert a / pop <= b / pop by {
      assert (b - a) / pop >= 0.0;
    }
  }

  /** The radicand of `moe_of_prop`, after the clamps of its first three lines. */
  function MoeOfPropRadicand(subpopEst: real, popEst: real, subpopMoe: real, popMoe: real): real
  {
    var pop := Max(popEst, 1.0);
    var prop := EstOfProp(subpopEst, pop);
    var pm := Min(popMoe, subpopMoe);
    Sq(subpopMoe) - Sq(prop * pm)
  }

  /**
   * `moe_of_prop(subpop_est, pop_est, subpop_moe, pop_moe)`: the margin of
   * error of a proportion whose two counts come from different sources,
   * `1 / pop * sqrt(subpop_moe ** 2 - (prop * pop_moe) ** 2)`, with the
   * population at least 1 and the population MoE clamped to the subpopulation
   * MoE. `math.sqrt` of a negative radicand raises `ValueError`.
   */
  function MoeOfProp(subpopEst: real, popEst: real, subpopMoe: real, popMoe: real): (r: Result<Root>)
    ensures 0.0 <= subpopMoe && 0.0 <= popMoe ==> r.Ok?
    ensures r.Ok? ==> 0.0 <= r.value.radicand && 0.0 < r.value.scale <= 1.0
    ensures r.Err? ==> r.error == ValueError
  {
    var pop := Max(popEst, 1.0);
    var radicand := MoeOfPropRadicand(subpopEst, popEst, subpopMoe, popMoe);
    assert 0.0 <= subpopMoe && 0.0 <= popMoe ==> radicand >= 0.0 by {
      if 0.0 <= subpopMoe && 0.0 <= popMoe {
        RadicandNonNegative(subpopEst, popEst, subpopMoe, popMoe);
      }
    }
    if radicand < 0.0 then Err(ValueError) else Ok(Root(1.0 / pop, radicand))
  }

  /**
   * With non-negative MoEs the radicand is at least 0 and at most
   * `subpop_moe ** 2`: the clamped population MoE is at most the subpopulation
   * MoE and the proportion is in `[0, 1]`.
   */
  lemma RadicandNonNegative(subpopEst: real, popEst: real, subpopMoe: real, popMoe: real)
    requires 0.0 <= subpopMoe && 0.0 <= popMoe
    ensures 0.0 <= MoeOfPropRadicand(subpopEst, popEst, subpopMoe, popMoe) <= Sq(subpopMoe)
  {
    var pop := Max(popEst, 1.0);
    var prop := EstOfProp(subpopEst, pop);
    var pm := Min(popMoe, subpopMoe);
    assert 0.0 <= prop * pm <= pm by {
      assert prop * pm <= 1.0 * pm;
    }
    SquareMonotone(prop * pm, subpopMoe);
  }

  /** With non-negative MoEs the result is between 0 and `subpop_moe / max(pop_est, 1)`. */
  lemma MoeOfPropBounds(subpopEst: real, popEst: real, subpopMoe: real, popMoe: real, m: real)
    requires 0.0 <= subpopMoe && 0.0 <= popMoe
    requires IsSqrt(m, MoeOfPropRadicand(subpopEst, popEst, subpopMoe, popMoe))
    ensures var r := MoeOfProp(subpopEst, popEst, subpopMoe, popMoe);
      r.Ok? && 0.0 <= r.value.scale * m <= subpopMoe / Max(popEst, 1.0)
  {
    RootAtMostSubpopMoe(subpopEst, popEst, subpopMoe, popMoe, m);
    var scale := MoeOfProp(subpopEst, popEst, subpopMoe, popMoe).value.scale;
    ScaledBounds(scale, Max(popEst, 1.0), m, subpopMoe);
  }

  lemma RootAtMostSubpopMoe(subpopEst: real, popEst: real, subpopMoe: real, popMoe: real, m: real)
    requires 0.0 <= subpopMoe && 0.0 <= popMoe
    requires IsSqrt(m, MoeOfPropRadicand(subpopEst, popEst, subpopMoe, popMoe))
    ensures m <= subpopMoe
  {
    RadicandNonNegative(subpopEst, popEst, subpopMoe, popMoe);
    SquareMonotone(m, subpopMoe);
  }

  lemma ScaledBounds(scale: real, pop: real, m: real, moe: real)
    requires 1.0 <= pop && scale == 1.0 / pop && 0.0 <= m <= moe
    ensures 0.0 <= scale * m <= moe / pop
  {
    ScaleMonotone(scale, 0.0, m);
    ScaleMonotone(scale, m, moe);
  }

  lemma ScaleMonotone(k: real, x: real, y: real)
    requires 0.0 <= k && x <= y
    ensures k * x <= k * y
  {
    assert k * y - k * x == k * (y - x);
    if 0.0 < k && x < y {
      MulPositive(k, y - x);
    }
  }

  /** With no population MoE the result is exactly `subpop_moe / max(pop_est, 1)`. */
  lemma MoeOfPropExactPop(subpopEst: real, popEst: real, subpopMoe: real, m: real)
    requires 0.0 <= subpopMoe
    requires IsSqrt(m, MoeOfPropRadicand(subpopEst, popEst, subpopMoe, 0.0))
    ensures var r := MoeOfProp(subpopEst, popEst, subpopMoe, 0.0);
      r.Ok? && r.value.scale * m == subpopMoe / Max(popEst, 1.0)
  {
    var pop := Max(popEst, 1.0);
    assert MoeOfPropRadicand(subpopEst, popEst, subpopMoe, 0.0) == Sq(subpopMoe);
    SqrtUnique(m, subpopMoe, Sq(subpopMoe));
    assert 1.0 / pop * m == m / pop;
  }

  /** Negative MoEs can make the radicand negative, and then `math.sqrt` raises. */
  lemma MoeOfPropNegativeMoeRaises()
    ensures MoeOfProp(1.0, 1.0, -1.0, -2.0) == Err(ValueError)
  {
    assert EstOfProp(1.0, 1.0) == 1.0;
    assert MoeOfPropRadicand(1.0, 1.0, -1.0, -2.0) == -3.0;
  }
}
