/**
 * The circular serial correlation of a byte string, in exact arithmetic. It always lies between -1 and 1,
 * and its denominator vanishes exactly when all bytes are equal.
 */
module SerialCorrelation {
  import opened Words

  function Sum(xs: seq<int>): int {
    if xs == [] then 0 else Sum(xs[..|xs| - 1]) + xs[|xs| - 1]
  }

  function SumSquares(xs: seq<int>): int {
    if xs == [] then 0 else SumSquares(xs[..|xs| - 1]) + xs[|xs| - 1] * xs[|xs| - 1]
  }

  function Dot(xs: seq<int>, ys: seq<int>): int
    requires |xs| == |ys|
  {
    if xs == [] then 0 else Dot(xs[..|xs| - 1], ys[..|ys| - 1]) + xs[|xs| - 1] * ys[|ys| - 1]
  }

  /** The sum of the squared distances to `y`. */
  ghost function Spread(xs: seq<int>, y: int): int {
    if xs == [] then 0 else Spread(xs[..|xs| - 1], y) + (xs[|xs| - 1] - y) * (xs[|xs| - 1] - y)
  }

  ghost predicate AllEqual(xs: seq<int>) {
    forall i, j | 0 <= i < |xs| && 0 <= j < |xs| :: xs[i] == xs[j]
  }

  lemma {:induction false} SpreadExpands(xs: seq<int>, y: int)
    ensures Spread(xs, y) == SumSquares(xs) - 2 * y * Sum(xs) + |xs| * (y * y)
    decreases |xs|
  {
    if xs != [] {
      var rest, x := xs[..|xs| - 1], xs[|xs| - 1];
      SpreadExpands(rest, y);
      SpreadStep(SumSquares(rest), Sum(rest), |rest|, x, y);
    }
  }

  lemma SpreadStep(q: int, s: int, n: int, x: int, y: int)
    ensures q - 2 * y * s + n * (y * y) + (x - y) * (x - y) == q + x * x - 2 * y * (s + x) + (n + 1) * (y * y)
  {
    assert (x - y) * (x - y) == x * x - 2 * (y * x) + y * y;
    assert 2 * y * (s + x) == 2 * y * s + 2 * (y * x);
    assert (n + 1) * (y * y) == n * (y * y) + y * y;
  }

  lemma {:induction false} SpreadNonnegative(xs: seq<int>, y: int)
    ensures Spread(xs, y) >= 0
    ensures Spread(xs, y) == 0 <==> forall i | 0 <= i < |xs| :: xs[i] == y
    decreases |xs|
  {
    if xs != [] {
      var rest, x := xs[..|xs| - 1], xs[|xs| - 1];
      SpreadNonnegative(rest, y);
      Square(x - y);
      assert xs == rest + [x];
    }
  }

  lemma Square(d: int)
    ensures d * d >= 0 && (d * d == 0 <==> d == 0)
  {
  }

  /** What the denominator is: `n` times the sum of squares, less the square of the sum. */
  function Variance(xs: seq<int>): int {
    |xs| * SumSquares(xs) - Sum(xs) * Sum(xs)
  }

  lemma VarianceStep(n: int, q: int, s: int, y: int)
    ensures (n + 1) * (q + y * y) - (s + y) * (s + y) == (n * q - s * s) + (q - 2 * y * s + n * (y * y))
  {
    assert (n + 1) * (q + y * y) == n * q + n * (y * y) + q + y * y;
    assert (s + y) * (s + y) == s * s + 2 * y * s + y * y;
  }

  lemma {:induction false} VarianceNonnegative(xs: seq<int>)
    ensures Variance(xs) >= 0
    ensures Variance(xs) == 0 <==> AllEqual(xs)
    decreases |xs|
  {
    if xs != [] {
      var rest, y := xs[..|xs| - 1], xs[|xs| - 1];
      VarianceNonnegative(rest);
      SpreadExpands(rest, y);
      SpreadNonnegative(rest, y);
      VarianceStep(|rest|, SumSquares(rest), Sum(rest), y);
      assert Variance(xs) == Variance(rest) + Spread(rest, y);
      hide Spread, Variance, Sum, SumSquares;
      assert AllEqual(xs) <==> forall i | 0 <= i < |rest| :: rest[i] == y by {
        assert forall i | 0 <= i < |rest| :: xs[i] == rest[i];
      }
    }
  }

  // ---------------------------------------------------------------- the circular neighbour

  function Rotated(xs: seq<int>): (ys: seq<int>)
    ensures |ys| == |xs|
    ensures forall i | 0 <= i < |xs| :: ys[i] == if i == |xs| - 1 then xs[0] else xs[i + 1]
  {
    if xs == [] then [] else xs[1..] + [xs[0]]
  }

  lemma NextIndex(i: nat, n: nat)
    requires i < n
    ensures (i + 1) % n == if i == n - 1 then 0 else i + 1
  {
  }

  lemma {:induction false} SumsConcat(xs: seq<int>, ys: seq<int>)
    ensures Sum(xs + ys) == Sum(xs) + Sum(ys) && SumSquares(xs + ys) == SumSquares(xs) + SumSquares(ys)
    decreases |ys|
  {
    if ys == [] {
      assert xs + ys == xs;
    } else {
      SumsConcat(xs, ys[..|ys| - 1]);
      assert (xs + ys)[..|xs + ys| - 1] == xs + ys[..|ys| - 1];
    }
  }

  lemma RotatedSums(xs: seq<int>)
    ensures Sum(Rotated(xs)) == Sum(xs) && SumSquares(Rotated(xs)) == SumSquares(xs)
  {
    if xs != [] {
      SumsConcat(xs[1..], [xs[0]]);
      SumsConcat([xs[0]], xs[1..]);
      assert xs == [xs[0]] + xs[1..];
    }
  }

  function Plus(xs: seq<int>, ys: seq<int>, sign: int): (zs: seq<int>)
    requires |xs| == |ys|
    ensures |zs| == |xs| && forall i | 0 <= i < |xs| :: zs[i] == xs[i] + sign * ys[i]
  {
    seq(|xs|, i requires 0 <= i < |xs| => xs[i] + sign * ys[i])
  }

  lemma {:induction false} PlusSums(xs: seq<int>, ys: seq<int>, sign: int)
    requires |xs| == |ys| && (sign == 1 || sign == -1)
    ensures Sum(Plus(xs, ys, sign)) == Sum(xs) + sign * Sum(ys)
    ensures SumSquares(Plus(xs, ys, sign)) == SumSquares(xs) + 2 * sign * Dot(xs, ys) + SumSquares(ys)
    decreases |xs|
  {
    if xs != [] {
      var n := |xs| - 1;
      PlusSums(xs[..n], ys[..n], sign);
      assert Plus(xs, ys, sign)[..n] == Plus(xs[..n], ys[..n], sign);
      SquareOfSum(xs[n], ys[n], sign);
    }
  }

  lemma SquareOfSum(x: int, y: int, sign: int)
    requires sign == 1 || sign == -1
    ensures (x + sign * y) * (x + sign * y) == x * x + 2 * sign * (x * y) + y * y
  {
  }

  lemma {:induction false} SquaresNonnegative(xs: seq<int>)
    ensures SumSquares(xs) >= 0
    decreases |xs|
  {
    if xs != [] {
      SquaresNonnegative(xs[..|xs| - 1]);
      Square(xs[|xs| - 1]);
    }
  }

  function Numerator(xs: seq<int>): int {
    |xs| * Dot(xs, Rotated(xs)) - Sum(xs) * Sum(xs)
  }

  /** The denominator bounds the numerator on both sides. */
  lemma NumeratorBounded(xs: seq<int>)
    ensures -Variance(xs) <= Numerator(xs) <= Variance(xs)
  {
    hide *;
    var ys := Rotated(xs);
    RotatedSums(xs);
    PlusSums(xs, ys, -1);
    PlusSums(xs, ys, 1);
    SquaresNonnegative(Plus(xs, ys, -1));
    VarianceNonnegative(Plus(xs, ys, 1));
    var n, q, p, s := |xs|, SumSquares(xs), Dot(xs, ys), Sum(xs);
    Definitions(xs, ys);
    Above(n, q, p);
    Below(n, q, p, s);
  }

  lemma Definitions(xs: seq<int>, ys: seq<int>)
    requires ys == Rotated(xs)
    ensures Variance(xs) == |xs| * SumSquares(xs) - Sum(xs) * Sum(xs)
    ensures Numerator(xs) == |xs| * Dot(xs, ys) - Sum(xs) * Sum(xs)
    ensures Variance(Plus(xs, ys, 1))
         == |xs| * SumSquares(Plus(xs, ys, 1)) - Sum(Plus(xs, ys, 1)) * Sum(Plus(xs, ys, 1))
  {
  }

  lemma Above(n: nat, q: int, p: int)
    requires q - 2 * p + q >= 0
    ensures n * p <= n * q
  {
  }

  lemma Below(n: nat, q: int, p: int, s: int)
    requires n * (q + 2 * p + q) - (s + s) * (s + s) >= 0
    ensures n * p - s * s >= -(n * q - s * s)
  {
    assert n * (q + 2 * p + q) == 2 * (n * q) + 2 * (n * p);
    assert (s + s) * (s + s) == 4 * (s * s);
  }

  function Ints(bytes: seq<byte>): (xs: seq<int>)
    ensures |xs| == |bytes| && forall i | 0 <= i < |bytes| :: xs[i] == bytes[i]
  {
    seq(|bytes|, i requires 0 <= i < |bytes| => bytes[i] as int)
  }

  function Correlation(xs: seq<int>): real {
    if |xs| < 2 || Variance(xs) == 0 then 0.0 else (Numerator(xs) as real) / (Variance(xs) as real)
  }

  /** In exact arithmetic the correlation is a correlation; it is undefined only for constant strings. */
  lemma CorrelationBounded(xs: seq<int>)
    ensures -1.0 <= Correlation(xs) <= 1.0
    ensures Variance(xs) >= 0 && (Variance(xs) == 0 <==> AllEqual(xs))
  {
    NumeratorBounded(xs);
    VarianceNonnegative(xs);
    if Variance(xs) != 0 {
      hide Numerator, Variance;
      Quotient(Numerator(xs), Variance(xs));
    }
  }

  /** The loop of the battery, without rounding. */
  method Correlate(bytes: seq<byte>) returns (r: real)
    ensures r == Correlation(Ints(bytes))
  {
    hide *;
    var n := |bytes|;
    ghost var xs := Ints(bytes);
    CorrelationIs(xs);
    if n < 2 {
      return 0.0;
    }
    var sum, sumSq, sumProd := 0, 0, 0;
    NothingSummed(xs);
    for i := 0 to n
      invariant sum == Sum(xs[..i]) && sumSq == SumSquares(xs[..i]) && sumProd == Dot(xs[..i], Rotated(xs)[..i])
    {
      NextIndex(i, n);
      OneSummed(xs, i);
      var x: int := bytes[i];
      var y: int := bytes[(i + 1) % n];
      sum := sum + x;
      sumSq := sumSq + x * x;
      sumProd := sumProd + x * y;
    }
    assert xs[..n] == xs && Rotated(xs)[..n] == Rotated(xs);
    Definitions(xs, Rotated(xs));
    var num := n * sumProd - sum * sum;
    var den := n * sumSq - sum * sum;
    if den == 0 {
      r := 0.0;
    } else {
      r := (num as real) / (den as real);
    }
  }

  lemma CorrelationIs(xs: seq<int>)
    ensures |xs| < 2 || Variance(xs) == 0 ==> Correlation(xs) == 0.0
    ensures |xs| >= 2 && Variance(xs) != 0 ==> Correlation(xs) == (Numerator(xs) as real) / (Variance(xs) as real)
  {
    hide Variance, Numerator;
  }

  lemma NothingSummed(xs: seq<int>)
    ensures xs[..0] == [] && Sum([]) == 0 && SumSquares([]) == 0 && Dot(xs[..0], Rotated(xs)[..0]) == 0
  {
  }

  lemma OneSummed(xs: seq<int>, i: nat)
    requires i < |xs|
    ensures Sum(xs[..i + 1]) == Sum(xs[..i]) + xs[i]
    ensures SumSquares(xs[..i + 1]) == SumSquares(xs[..i]) + xs[i] * xs[i]
    ensures Dot(xs[..i + 1], Rotated(xs)[..i + 1])
         == Dot(xs[..i], Rotated(xs)[..i]) + xs[i] * (if i == |xs| - 1 then xs[0] else xs[i + 1])
  {
    assert xs[..i + 1][..i] == xs[..i] && Rotated(xs)[..i + 1][..i] == Rotated(xs)[..i];
  }

  lemma ScaledOrder(x: real, y: real, d: real)
    requires x < y && d > 0.0
    ensures x * d < y * d
  {
    assert (y - x) * d > 0.0;
  }

  lemma Scaled(q: real, num: real, d: real)
    requires d > 0.0 && q * d == num && -d <= num <= d
    ensures -1.0 <= q <= 1.0
  {
    if q > 1.0 {
      ScaledOrder(1.0, q, d);
    } else if q < -1.0 {
      ScaledOrder(q, -1.0, d);
    }
  }

  lemma QuotientTimes(num: real, d: real)
    requires d != 0.0
    ensures (num / d) * d == num
  {
  }

  lemma Quotient(num: int, den: int)
    requires den > 0 && -den <= num <= den
    ensures -1.0 <= (num as real) / (den as real) <= 1.0
  {
    QuotientTimes(num as real, den as real);
    Scaled((num as real) / (den as real), num as real, den as real);
  }

  // ---------------------------------------------------------------- deviations from the mean

  /** The sum of the products of deviations from the mean, each scaled by the number of values to stay whole. */
  ghost function Deviations(xs: seq<int>, ys: seq<int>, n: nat, sum: int): int
    requires |xs| == |ys|
  {
    if xs == [] then 0
    else
      Deviations(xs[..|xs| - 1], ys[..|ys| - 1], n, sum)
      + (n * xs[|xs| - 1] - sum) * (n * ys[|ys| - 1] - sum)
  }

  lemma {:induction false} DeviationsExpand(xs: seq<int>, ys: seq<int>, n: nat, sum: int)
    requires |xs| == |ys|
    ensures Deviations(xs, ys, n, sum)
         == n * n * Dot(xs, ys) - n * sum * (Sum(xs) + Sum(ys)) + |xs| * (sum * sum)
    decreases |xs|
  {
    if xs != [] {
      var m := |xs| - 1;
      DeviationsExpand(xs[..m], ys[..m], n, sum);
      hide Deviations, Dot, Sum;
      DeviationsStep(n, sum, Dot(xs[..m], ys[..m]), Sum(xs[..m]) + Sum(ys[..m]), m, xs[m], ys[m]);
      LastSummed(xs, ys, n, sum);
    }
  }

  lemma LastSummed(xs: seq<int>, ys: seq<int>, n: nat, sum: int)
    requires |xs| == |ys| && xs != []
    ensures var m := |xs| - 1;
            && Dot(xs, ys) == Dot(xs[..m], ys[..m]) + xs[m] * ys[m]
            && Sum(xs) == Sum(xs[..m]) + xs[m] && Sum(ys) == Sum(ys[..m]) + ys[m]
            && Deviations(xs, ys, n, sum)
               == Deviations(xs[..m], ys[..m], n, sum) + (n * xs[m] - sum) * (n * ys[m] - sum)
  {
  }

  lemma DeviationsStep(n: int, sum: int, dot: int, both: int, m: int, x: int, y: int)
    ensures n * n * dot - n * sum * both + m * (sum * sum) + (n * x - sum) * (n * y - sum)
         == n * n * (dot + x * y) - n * sum * (both + x + y) + (m + 1) * (sum * sum)
  {
    assert (n * x - sum) * (n * y - sum) == n * x * (n * y) - n * x * sum - sum * (n * y) + sum * sum;
    assert n * x * (n * y) == n * n * (x * y);
    assert n * sum * (both + x + y) == n * sum * both + n * sum * x + n * sum * y;
    assert n * n * (dot + x * y) == n * n * dot + n * n * (x * y);
  }

  lemma {:induction false} DotSelf(xs: seq<int>)
    ensures Dot(xs, xs) == SumSquares(xs)
    decreases |xs|
  {
    if xs != [] {
      DotSelf(xs[..|xs| - 1]);
    }
  }

  lemma WholeDeviations(n: int, dot: int, sum: int, both: int, d: int)
    requires both == sum + sum && d == n * n * dot - n * sum * both + n * (sum * sum)
    ensures d == n * (n * dot - sum * sum)
  {
    assert n * sum * both == n * (sum * sum) + n * (sum * sum);
    assert n * (n * dot - sum * sum) == n * (n * dot) - n * (sum * sum);
  }

  /**
   * Numerator and denominator are, up to one common factor, the covariance of each value with the next one around the
   * circle and the variance of the values.
   */
  lemma CorrelationOfDeviations(xs: seq<int>)
    ensures |xs| * Numerator(xs) == Deviations(xs, Rotated(xs), |xs|, Sum(xs))
    ensures |xs| * Variance(xs) == Deviations(xs, xs, |xs|, Sum(xs))
  {
    hide *;
    var n, sum, ys := |xs|, Sum(xs), Rotated(xs);
    DeviationsExpand(xs, ys, n, sum);
    DeviationsExpand(xs, xs, n, sum);
    RotatedSums(xs);
    DotSelf(xs);
    Definitions(xs, ys);
    WholeDeviations(n, Dot(xs, ys), sum, sum + Sum(ys), Deviations(xs, ys, n, sum));
    WholeDeviations(n, Dot(xs, xs), sum, sum + sum, Deviations(xs, xs, n, sum));
  }
}
