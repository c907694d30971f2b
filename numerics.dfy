// Exact stand-ins for the numeric built-ins the engine calls: Python's `pow` with a
// non-negative integer exponent and `math.factorial`, together with binomial
// coefficients and the binomial expectation used to relate the pricers.

module Numerics {

  /** `pow(x, n)` for a non-negative integer exponent. */
  function Pow(x: real, n: nat): (p: real)
    ensures x > 0.0 ==> p > 0.0
    ensures x >= 0.0 ==> p >= 0.0
    ensures x != 0.0 ==> p != 0.0
  {
    if n == 0 then 1.0 else x * Pow(x, n - 1)
  }

  /** `math.factorial(n)`. */
  function Fact(n: nat): (f: nat)
    ensures f >= 1
  {
    if n == 0 then 1 else n * Fact(n - 1)
  }

  /** The binomial coefficient C(n, k), by Pascal's rule; zero when k > n. */
  function Binom(n: nat, k: nat): nat
  {
    if k == 0 then 1 else if n == 0 then 0 else Binom(n - 1, k - 1) + Binom(n - 1, k)
  }

  lemma {:induction false} BinomAbove(n: nat, k: nat)
    requires k > n
    ensures Binom(n, k) == 0
  {
    if n > 0 {
      BinomAbove(n - 1, k - 1);
      BinomAbove(n - 1, k);
    }
  }

  lemma {:induction false} BinomDiagonal(n: nat)
    ensures Binom(n, n) == 1
  {
    if n > 0 {
      BinomDiagonal(n - 1);
      BinomAbove(n - 1, n);
    }
  }

  /** C(n, k) * k! * (n - k)! == n!, the closed form of the coefficient. */
  lemma {:induction false} BinomFactorials(n: nat, k: nat)
    requires k <= n
    ensures Binom(n, k) * Fact(k) * Fact(n - k) == Fact(n)
  {
    if k == 0 {
    } else if k == n {
      BinomDiagonal(n);
    } else {
      BinomFactorials(n - 1, k - 1);
      BinomFactorials(n - 1, k);
      assert Fact(k) == k * Fact(k - 1);
      assert Fact(n - k) == (n - k) * Fact(n - 1 - k);
      PascalFactorials(Binom(n - 1, k - 1), Binom(n - 1, k), k, n - k, Fact(k - 1), Fact(n - 1 - k), Fact(n - 1));
    }
  }

  /** The arithmetic step of BinomFactorials, over plain integers. */
  lemma {:induction false} PascalFactorials(a: int, b: int, k: int, m: int, x: int, y: int, f: int)
    requires a * x * (m * y) == f && b * (k * x) * y == f
    ensures (a + b) * (k * x) * (m * y) == (k + m) * f
  {
    calc {
      (a + b) * (k * x) * (m * y);
      a * (k * x) * (m * y) + b * (k * x) * (m * y);
      k * (a * x * (m * y)) + m * (b * (k * x) * y);
    }
  }

  /** The weight C(k, l) * q^l * (1 - q)^(k - l) of ending l up-moves above a node after k steps. */
  function Weight(q: real, k: nat, l: nat): real
    requires l <= k
  {
    (Binom(k, l) as real) * Pow(q, l) * Pow(1.0 - q, k - l)
  }

  /** The contribution of the node l up-moves above node i after k steps: Weight(q, k, l) * t[i + l]. */
  function Term(q: real, t: seq<real>, i: nat, k: nat, l: nat): real
    requires l <= k && i + k < |t|
  {
    Scale(Weight(q, k, l), t[i + l])
  }

  /** The partial binomial expectation: the sum over l < j of Term(q, t, i, k, l). */
  function BinomialSum(q: real, t: seq<real>, i: nat, k: nat, j: nat): real
    requires j <= k + 1 && i + k < |t|
  {
    if j == 0 then 0.0 else BinomialSum(q, t, i, k, j - 1) + Term(q, t, i, k, j - 1)
  }

  /** The expectation q * up + (1 - q) * down of a value that moves up with probability q. */
  function Mix(q: real, up: real, down: real): real
  {
    q * up + (1.0 - q) * down
  }

  /** Pascal's rule on weights. */
  lemma {:induction false} WeightPascal(q: real, k: nat, l: nat)
    requires 1 <= l <= k
    ensures Weight(q, k + 1, l) == Mix(q, Weight(q, k, l - 1), Weight(q, k, l))
  {
    var a, b := Binom(k, l) as real, Binom(k, l - 1) as real;
    var p, s := Pow(q, l - 1), Pow(1.0 - q, k - l);
    assert Binom(k + 1, l) as real == a + b;
    assert Pow(q, l) == q * p;
    assert Pow(1.0 - q, k + 1 - l) == (1.0 - q) * s;
    PascalArith(q, a, b, p, s, Weight(q, k + 1, l), Weight(q, k, l), Weight(q, k, l - 1));
  }

  /**
   * The arithmetic of WeightPascal, over plain reals: with coefficients C(k, l) and
   * C(k, l - 1), powers q^(l - 1) and (1 - q)^(k - l), the weight for (k + 1, l) is the
   * q-mixture of the weights for (k, l - 1) (up) and (k, l) (down).
   */
  lemma {:induction false} PascalArith(q: real, coeff: real, coeffBelow: real, powUp: real, powDown: real,
                                       weightNext: real, weight: real, weightBelow: real)
    requires weightNext == (coeff + coeffBelow) * (q * powUp) * ((1.0 - q) * powDown)
    requires weight == coeff * (q * powUp) * powDown && weightBelow == coeffBelow * powUp * ((1.0 - q) * powDown)
    ensures weightNext == Mix(q, weightBelow, weight)
  {
    calc {
      weightNext;
      (1.0 - q) * (coeff * (q * powUp) * powDown) + q * (coeffBelow * powUp * ((1.0 - q) * powDown));
    }
  }

  /** Pascal's rule on terms: the node i + l is reached from i + l (down) or from i + l - 1 (up). */
  lemma {:induction false} TermPascal(q: real, t: seq<real>, i: nat, k: nat, l: nat)
    requires 1 <= l <= k && i + k + 1 < |t|
    ensures Term(q, t, i, k + 1, l) == Mix(q, Term(q, t, i + 1, k, l - 1), Term(q, t, i, k, l))
  {
    WeightPascal(q, k, l);
    assert t[i + 1 + (l - 1)] == t[i + l];
    MixFactor(q, Weight(q, k, l - 1), Weight(q, k, l), t[i + l]);
  }

  /** A common factor e of both outcomes comes out of the expectation: w = Mix(a, b) gives w * e = Mix(a * e, b * e). */
  lemma {:induction false} MixFactor(q: real, a: real, b: real, e: real)
    ensures Scale(Mix(q, a, b), e) == Mix(q, Scale(a, e), Scale(b, e))
  {
  }

  /** The partial sums of BinomialSum obey Pascal's rule, term by term. */
  lemma {:induction false} BinomialSumPascal(q: real, t: seq<real>, i: nat, k: nat, j: nat)
    requires 1 <= j <= k + 1 && i + k + 1 < |t|
    ensures BinomialSum(q, t, i, k + 1, j)
         == Mix(q, BinomialSum(q, t, i + 1, k, j - 1), BinomialSum(q, t, i, k, j))
  {
    if j == 1 {
      assert Binom(k + 1, 0) == 1 && Binom(k, 0) == 1;
      assert Pow(1.0 - q, k + 1) == (1.0 - q) * Pow(1.0 - q, k);
      assert Weight(q, k + 1, 0) == (1.0 - q) * Weight(q, k, 0);
      var x := t[i];
      assert Term(q, t, i, k + 1, 0) == Weight(q, k + 1, 0) * x;
      assert Term(q, t, i, k, 0) == Weight(q, k, 0) * x;
      ScaleAssoc(1.0 - q, Weight(q, k, 0), x);
    } else {
      BinomialSumPascal(q, t, i, k, j - 1);
      TermPascal(q, t, i, k, j - 1);
      BinomialSumUnfold(q, t, i, k + 1, j);
      BinomialSumUnfold(q, t, i, k, j);
      BinomialSumUnfold(q, t, i + 1, k, j - 1);
      SumRegroup(q, BinomialSum(q, t, i, k + 1, j), BinomialSum(q, t, i, k + 1, j - 1), Term(q, t, i, k + 1, j - 1),
        BinomialSum(q, t, i, k, j - 1), BinomialSum(q, t, i + 1, k, j - 1 - 1),
        Term(q, t, i, k, j - 1), Term(q, t, i + 1, k, j - 1 - 1),
        BinomialSum(q, t, i, k, j), BinomialSum(q, t, i + 1, k, j - 1));
    }
  }

  lemma {:induction false} BinomialSumUnfold(q: real, t: seq<real>, i: nat, k: nat, j: nat)
    requires 1 <= j <= k + 1 && i + k < |t|
    ensures BinomialSum(q, t, i, k, j) == BinomialSum(q, t, i, k, j - 1) + Term(q, t, i, k, j - 1)
  {
  }

  lemma {:induction false} ScaleAssoc(a: real, w: real, x: real)
    ensures (a * w) * x == a * (w * x)
  {
  }

  /**
   * The bookkeeping of one induction step of BinomialSumPascal, over plain reals:
   * a sum = prefix + last whose prefix and last term are both q-mixtures of an up
   * and a down part is the q-mixture of the summed up parts and the summed down parts.
   */
  lemma {:induction false} SumRegroup(q: real, sum: real, prefix: real, last: real, downPrefix: real, upPrefix: real,
                                      downLast: real, upLast: real, down: real, up: real)
    requires sum == prefix + last
    requires prefix == Mix(q, upPrefix, downPrefix)
    requires last == Mix(q, upLast, downLast)
    requires down == downPrefix + downLast
    requires up == upPrefix + upLast
    ensures sum == Mix(q, up, down)
  {
  }

  /** One step of backward induction on a full binomial expectation over kp = k - 1 steps gives the one over k steps. */
  lemma {:induction false} BinomialSumStep(q: real, t: seq<real>, i: nat, kp: nat, k: nat)
    requires k == kp + 1 && i + k < |t|
    ensures BinomialSum(q, t, i, k, k + 1) == Mix(q, BinomialSum(q, t, i + 1, kp, k), BinomialSum(q, t, i, kp, k))
  {
    BinomialSumPascal(q, t, i, kp, k);
    TermDiagonal(q, t, i, kp, k);
    BinomialSumUnfold(q, t, i, k, k + 1);
    BinomialSumUnfold(q, t, i + 1, kp, k);
    assert k - 1 == kp;
    MixAddUp(q, BinomialSum(q, t, i + 1, kp, kp), BinomialSum(q, t, i, kp, k), Term(q, t, i + 1, kp, kp), Term(q, t, i, k, k));
  }

  /** Adding q * x to an expectation adds x to its up value. */
  lemma {:induction false} MixAddUp(q: real, a: real, b: real, x: real, y: real)
    requires y == q * x
    ensures Mix(q, a, b) + y == Mix(q, a + x, b)
  {
  }

  /** The top node after k = kp + 1 steps is reached only by an up-move from the top node after kp steps. */
  lemma {:induction false} TermDiagonal(q: real, t: seq<real>, i: nat, kp: nat, k: nat)
    requires k == kp + 1 && i + k < |t|
    ensures Term(q, t, i, k, k) == q * Term(q, t, i + 1, kp, kp)
  {
    BinomDiagonal(kp);
    BinomDiagonal(k);
    assert Weight(q, k, k) == q * Weight(q, kp, kp);
    assert t[i + k] == t[i + 1 + kp];
  }

  /** a * x, as a named term so that proofs can match scaled quantities one for one. */
  function Scale(a: real, x: real): real
  {
    a * x
  }

  /** `1 / (a! * b!)`. */
  function InverseFactorials(a: nat, b: nat): real
  {
    FactorialProductPositive(a, b);
    1.0 / ((Fact(a) * Fact(b)) as real)
  }

  lemma {:induction false} FactorialProductPositive(a: nat, b: nat)
    ensures Fact(a) * Fact(b) >= 1
  {
    var x, y := Fact(a), Fact(b);
    assert x * y >= 1 * y;
  }

  /**
   * The binomial expectation written with factorials, as a sum over l < j of
   * 1 / (l! (n - l)!) * q^l * (1 - q)^(n - l) * t[l]; with the factor n! in front
   * and j = n + 1 this is the closed-form binomial expectation of layer t.
   */
  function FactorialSum(q: real, t: seq<real>, n: nat, j: nat): real
    requires j <= n + 1 && n < |t|
  {
    if j == 0 then 0.0 else FactorialSum(q, t, n, j - 1) + FactorialTerm(q, t, n, j - 1)
  }

  /** The summand 1 / (l! (n - l)!) * q^l * (1 - q)^(n - l) * t[l] of FactorialSum. */
  function FactorialTerm(q: real, t: seq<real>, n: nat, l: nat): real
    requires l <= n < |t|
  {
    FactorialWeight(q, n, l) * t[l]
  }

  /** The factor 1 / (l! (n - l)!) * q^l * (1 - q)^(n - l) of the summand, multiplied out from the left. */
  function FactorialWeight(q: real, n: nat, l: nat): real
    requires l <= n
  {
    InverseFactorials(l, n - l) * Pow(q, l) * Pow(1.0 - q, n - l)
  }

  /** n! times the factorial form of the partial sum is the partial binomial expectation over n steps from node 0. */
  lemma {:induction false} FactorialSumScaled(q: real, t: seq<real>, n: nat, j: nat, f: nat)
    requires j <= n + 1 && n < |t| && f == Fact(n)
    ensures Scale(f as real, FactorialSum(q, t, n, j)) == BinomialSum(q, t, 0, n, j)
  {
    if j > 0 {
      FactorialSumScaled(q, t, n, j - 1, f);
      FactorialTermScaled(q, t, n, j - 1, f);
      ScaledSum(f as real, FactorialSum(q, t, n, j), FactorialSum(q, t, n, j - 1), FactorialTerm(q, t, n, j - 1),
        BinomialSum(q, t, 0, n, j), BinomialSum(q, t, 0, n, j - 1), Term(q, t, 0, n, j - 1));
    }
  }

  /** Scaling distributes over one step of a sum: f * prefix and f * last give f * (prefix + last). */
  lemma {:induction false} ScaledSum(f: real, sum: real, prefix: real, last: real,
                                     scaledSum: real, scaledPrefix: real, scaledLast: real)
    requires sum == prefix + last && scaledSum == scaledPrefix + scaledLast
    requires Scale(f, prefix) == scaledPrefix && Scale(f, last) == scaledLast
    ensures Scale(f, sum) == scaledSum
  {
  }

  /** n! times a summand of FactorialSum is the matching term of BinomialSum. */
  lemma {:induction false} FactorialTermScaled(q: real, t: seq<real>, n: nat, l: nat, f: nat)
    requires l <= n < |t| && f == Fact(n)
    ensures Scale(f as real, FactorialTerm(q, t, n, l)) == Term(q, t, 0, n, l)
  {
    FactorialCoefficient(n, l, f, Binom(n, l));
    FactorialWeightScaled(q, n, l, f as real, Binom(n, l) as real);
    ScaledTermAt(q, t, n, l, f as real);
  }

  lemma {:induction false} ScaledTermAt(q: real, t: seq<real>, n: nat, l: nat, f: real)
    requires l <= n < |t| && Scale(f, FactorialWeight(q, n, l)) == Weight(q, n, l)
    ensures Scale(f, FactorialTerm(q, t, n, l)) == Term(q, t, 0, n, l)
  {
    assert t[0 + l] == t[l];
    var x, e := FactorialWeight(q, n, l), t[l];
    calc {
      Scale(f, FactorialTerm(q, t, n, l));
      f * (x * e);
      (f * x) * e;
    }
  }

  lemma {:induction false} FactorialWeightScaled(q: real, n: nat, l: nat, f: real, b: real)
    requires l <= n && b == Binom(n, l) as real && Scale(f, InverseFactorials(l, n - l)) == b
    ensures Scale(f, FactorialWeight(q, n, l)) == Weight(q, n, l)
  {
    ScaledFactor(f, InverseFactorials(l, n - l) * Pow(q, l), b * Pow(q, l), InverseFactorials(l, n - l), b, Pow(q, l));
    ScaledFactor(f, FactorialWeight(q, n, l), Weight(q, n, l), InverseFactorials(l, n - l) * Pow(q, l), b * Pow(q, l),
      Pow(1.0 - q, n - l));
  }

  /** Scaling commutes with a common factor: f * x == w and y == x * e, z == w * e give f * y == z. */
  lemma {:induction false} ScaledFactor(f: real, y: real, z: real, x: real, w: real, e: real)
    requires y == x * e && z == w * e && Scale(f, x) == w
    ensures Scale(f, y) == z
  {
    calc {
      f * (x * e);
      (f * x) * e;
    }
  }

  /** f / (l! (n - l)!) is the binomial coefficient b = C(n, l), for f = n!. */
  lemma {:induction false} FactorialCoefficient(n: nat, l: nat, f: nat, b: nat)
    requires l <= n && f == Fact(n) && b == Binom(n, l)
    ensures Scale(f as real, InverseFactorials(l, n - l)) == b as real
  {
    BinomFactorialsAt(n, l, f, b);
    InverseFactorialsCancel(n, l, f, b, Fact(l), Fact(n - l));
  }

  lemma {:induction false} BinomFactorialsAt(n: nat, l: nat, f: nat, b: nat)
    requires l <= n && f == Fact(n) && b == Binom(n, l)
    ensures b * Fact(l) * Fact(n - l) == f
  {
    BinomFactorials(n, l);
  }

  lemma {:induction false} InverseFactorialsCancel(n: nat, l: nat, f: nat, b: nat, x: nat, y: nat)
    requires l <= n && b * x * y == f && x == Fact(l) && y == Fact(n - l)
    ensures (f as real) * InverseFactorials(l, n - l) == b as real
  {
    CancelFactorials(b, x, y, f, InverseFactorials(l, n - l));
  }

  lemma {:induction false} CancelFactorials(b: int, x: int, y: int, f: int, inv: real)
    requires b * x * y == f && x >= 1 && y >= 1 && inv == 1.0 / ((x * y) as real)
    ensures (f as real) * inv == b as real
  {
    var p := x * y;
    assert p >= 1 * y;
    assert b * p == f;
    assert (b as real) * (p as real) == f as real;
  }
}
