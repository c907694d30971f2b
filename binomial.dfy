// Model of Binomial.py: the one-period parameters of the Cox-Ross-Rubinstein
// lattice, the risk-neutral probability q derived from them, and the price of
// the underlying at each node of the recombining tree.

module Binomial {
  import opened Numerics

  /**
   * A `BinomialModel` object: up move u, down move d and simple risk-free rate r
   * per step, and the attribute q that the constructor derives from them.
   */
  datatype BinomialModel = BinomialModel(u: real, d: real, r: real, q: real)

  /** What every constructed object satisfies: u != d and q == (r - d) / (u - d), stated without division. */
  predicate Valid(bm: BinomialModel)
  {
    bm.u != bm.d && bm.q * (bm.u - bm.d) == bm.r - bm.d
  }

  /** The no-arbitrage collar -1 < d < r < u that the interactive constructor enforces. */
  predicate NoArbitrage(bm: BinomialModel)
  {
    -1.0 < bm.d < bm.r < bm.u
  }

  /**
   * `BinomialModel(u, d, r)` with explicit parameters: stores them and sets
   * `q = (r - d) / (u - d)`, which fails by division by zero when u == d.
   * The resulting q lies strictly between 0 and 1 exactly when d < r < u.
   */
  function NewBinomialModel(u: real, d: real, r: real): (bm: BinomialModel)
    requires u != d
    ensures bm.u == u && bm.d == d && bm.r == r && Valid(bm)
    ensures d < u ==> (0.0 < bm.q < 1.0 <==> d < r < u)
  {
    var q := (r - d) / (u - d);
    assert q * (u - d) == r - d;
    if d < u then ScaledBounds(q, u - d, r - d); BinomialModel(u, d, r, q) else BinomialModel(u, d, r, q)
  }

  /** Under q the expected one-step return of the underlying is r. */
  lemma {:induction false} RiskNeutral(bm: BinomialModel)
    requires Valid(bm)
    ensures bm.q * bm.u + (1.0 - bm.q) * bm.d == bm.r
  {
  }

  /** Under the collar, q is a probability strictly between 0 and 1. */
  lemma {:induction false} RiskNeutralProbBounds(bm: BinomialModel)
    requires Valid(bm) && NoArbitrage(bm)
    ensures 0.0 < bm.q < 1.0
  {
    ScaledBounds(bm.q, bm.u - bm.d, bm.r - bm.d);
  }

  /** One step of discounted risk-neutral expectation: (q * up + (1 - q) * down) / (1 + r). */
  function Discounted(bm: BinomialModel, up: real, down: real): real
    requires 1.0 + bm.r != 0.0
  {
    Mix(bm.q, up, down) / (1.0 + bm.r)
  }

  /** Under the collar, discounting is monotone in both successor values. */
  lemma {:induction false} DiscountedMonotone(bm: BinomialModel, up: real, down: real, up': real, down': real)
    requires Valid(bm) && NoArbitrage(bm)
    requires up >= up' && down >= down'
    ensures Discounted(bm, up, down) >= Discounted(bm, up', down')
  {
    RiskNeutralProbBounds(bm);
    WeightedMonotone(bm.q, up, down, up', down');
    DivMonotone(Mix(bm.q, up, down), Mix(bm.q, up', down'), 1.0 + bm.r);
  }

  /**
   * k passes of backward induction applied to a layer of values t: the value
   * that node i of the layer k steps before t collapses to.
   */
  function Collapse(bm: BinomialModel, t: seq<real>, k: nat, i: nat): real
    requires (k == 0 || 1.0 + bm.r != 0.0) && i + k < |t|
  {
    if k == 0 then t[i] else Discounted(bm, Collapse(bm, t, k - 1, i + 1), Collapse(bm, t, k - 1, i))
  }

  /**
   * Collapsing k steps is the discounted binomial expectation over the k + 1
   * values the node reaches: (1 + r)^k * Collapse(t, k, i) equals the sum over l
   * of C(k, l) q^l (1 - q)^(k - l) t[i + l], all k + 1 terms.
   */
  lemma {:induction false} CollapseExpansion(bm: BinomialModel, t: seq<real>, k: nat, i: nat)
    requires (k == 0 || 1.0 + bm.r != 0.0) && i + k < |t|
    ensures Scale(Pow(1.0 + bm.r, k), Collapse(bm, t, k, i)) == BinomialSum(bm.q, t, i, k, k + 1)
  {
    if k == 0 {
      assert Binom(0, 0) == 1;
      assert Weight(bm.q, 0, 0) == 1.0;
      assert t[i + 0] == t[i];
    } else {
      CollapseExpansion(bm, t, k - 1, i + 1);
      CollapseExpansion(bm, t, k - 1, i);
      BinomialSumStep(bm.q, t, i, k - 1, k);
      ExpansionStep(bm, k, Collapse(bm, t, k - 1, i + 1), Collapse(bm, t, k - 1, i));
    }
  }

  /** Scaling one discounting step by (1 + r)^k leaves the expectation of both successors scaled by (1 + r)^(k - 1). */
  lemma {:induction false} ExpansionStep(bm: BinomialModel, k: nat, up: real, down: real)
    requires 1.0 + bm.r != 0.0 && k >= 1
    ensures Scale(Pow(1.0 + bm.r, k), Discounted(bm, up, down))
         == Mix(bm.q, Scale(Pow(1.0 + bm.r, k - 1), up), Scale(Pow(1.0 + bm.r, k - 1), down))
  {
    var x := Discounted(bm, up, down);
    DivMul(Mix(bm.q, up, down), 1.0 + bm.r);
    ExpansionArith(bm.q, 1.0 + bm.r, Pow(1.0 + bm.r, k - 1), Pow(1.0 + bm.r, k), x, up, down);
  }

  /**
   * The arithmetic of ExpansionStep over plain reals: when value * growth is the
   * expectation of up and down, then power * growth times value is the expectation
   * of power * up and power * down.
   */
  lemma {:induction false} ExpansionArith(q: real, growth: real, power: real, powerNext: real, value: real, up: real, down: real)
    requires powerNext == growth * power && value * growth == Mix(q, up, down)
    ensures Scale(powerNext, value) == Mix(q, Scale(power, up), Scale(power, down))
  {
    calc {
      powerNext * value;
      power * (value * growth);
      power * (q * up + (1.0 - q) * down);
      q * (power * up) + (1.0 - q) * (power * down);
    }
  }

  /** `calculateStockPriceBinominal(s0, n, i)`: the price after n steps of which i went up. */
  function NodePrice(bm: BinomialModel, s0: real, n: nat, i: nat): real
    requires i <= n
  {
    s0 * Pow(1.0 + bm.u, i) * Pow(1.0 + bm.d, n - i)
  }

  /** The lowest and highest nodes of step n; the root is s0. */
  lemma {:induction false} NodeBoundary(bm: BinomialModel, s0: real, n: nat)
    ensures NodePrice(bm, s0, n, 0) == s0 * Pow(1.0 + bm.d, n)
    ensures NodePrice(bm, s0, n, n) == s0 * Pow(1.0 + bm.u, n)
    ensures NodePrice(bm, s0, 0, 0) == s0
  {
  }

  /** An up move multiplies the price by 1 + u, a down move by 1 + d. */
  lemma {:induction false} NodeRecombines(bm: BinomialModel, s0: real, n: nat, i: nat)
    requires i <= n
    ensures NodePrice(bm, s0, n + 1, i + 1) == NodePrice(bm, s0, n, i) * (1.0 + bm.u)
    ensures NodePrice(bm, s0, n + 1, i) == NodePrice(bm, s0, n, i) * (1.0 + bm.d)
  {
    var a, b := Pow(1.0 + bm.u, i), Pow(1.0 + bm.d, n - i);
    assert Pow(1.0 + bm.u, i + 1) == (1.0 + bm.u) * a;
    assert Pow(1.0 + bm.d, n + 1 - i) == (1.0 + bm.d) * b;
  }

  /** Number of up moves in a path of moves (true = up). */
  function Ups(moves: seq<bool>): (k: nat)
    ensures k <= |moves|
  {
    if moves == [] then 0 else Ups(moves[..|moves| - 1]) + (if moves[|moves| - 1] then 1 else 0)
  }

  /** The growth factor of one move: 1 + u up, 1 + d down. */
  function Growth(bm: BinomialModel, up: bool): real
  {
    if up then 1.0 + bm.u else 1.0 + bm.d
  }

  /** The price reached by applying the moves one after the other to s0. */
  function PathPrice(bm: BinomialModel, s0: real, moves: seq<bool>): real
  {
    if moves == [] then s0 else Scale(Growth(bm, moves[|moves| - 1]), PathPrice(bm, s0, moves[..|moves| - 1]))
  }

  /** The lattice recombines: the price along any path depends only on its length and its number of up moves. */
  lemma {:induction false} PathIndependent(bm: BinomialModel, s0: real, moves: seq<bool>)
    ensures PathPrice(bm, s0, moves) == NodePrice(bm, s0, |moves|, Ups(moves))
  {
    if moves != [] {
      var prefix, last := moves[..|moves| - 1], moves[|moves| - 1];
      PathIndependent(bm, s0, prefix);
      PathStep(bm, s0, moves, prefix, last, |prefix|, Ups(prefix));
    }
  }

  lemma {:induction false} PathStep(bm: BinomialModel, s0: real, moves: seq<bool>, prefix: seq<bool>, last: bool, n: nat, k: nat)
    requires moves != [] && prefix == moves[..|moves| - 1] && last == moves[|moves| - 1]
    requires n == |prefix| && k == Ups(prefix) && k <= n && PathPrice(bm, s0, prefix) == NodePrice(bm, s0, n, k)
    ensures PathPrice(bm, s0, moves) == NodePrice(bm, s0, |moves|, Ups(moves))
  {
    NodeGrowth(bm, s0, n, k, last);
    assert Ups(moves) == k + (if last then 1 else 0);
    assert |moves| == n + 1;
    assert PathPrice(bm, s0, moves) == Scale(Growth(bm, last), PathPrice(bm, s0, prefix));
  }

  /** One move from node (n, k) lands on node (n + 1, k + 1) when up and on (n + 1, k) when down. */
  lemma {:induction false} NodeGrowth(bm: BinomialModel, s0: real, n: nat, k: nat, up: bool)
    requires k <= n
    ensures NodePrice(bm, s0, n + 1, k + (if up then 1 else 0)) == Scale(Growth(bm, up), NodePrice(bm, s0, n, k))
  {
    NodeRecombines(bm, s0, n, k);
  }

  /** Under q the discounted node price is a martingale: one step of discounted expectation returns the parent price. */
  lemma {:induction false} NodeMartingale(bm: BinomialModel, s0: real, n: nat, i: nat)
    requires Valid(bm) && 1.0 + bm.r != 0.0 && i <= n
    ensures Discounted(bm, NodePrice(bm, s0, n + 1, i + 1), NodePrice(bm, s0, n + 1, i)) == NodePrice(bm, s0, n, i)
  {
    NodeRecombines(bm, s0, n, i);
    RiskNeutral(bm);
    OneStepExpectation(bm, NodePrice(bm, s0, n, i), NodePrice(bm, s0, n + 1, i + 1), NodePrice(bm, s0, n + 1, i));
  }

  /** With s0 > 0 and -1 < d, u every node price is positive. */
  lemma {:induction false} NodePositive(bm: BinomialModel, s0: real, n: nat, i: nat)
    requires s0 > 0.0 && -1.0 < bm.d && -1.0 < bm.u && i <= n
    ensures NodePrice(bm, s0, n, i) > 0.0
  {
    PositiveProduct(s0, Pow(1.0 + bm.u, i), Pow(1.0 + bm.d, n - i));
  }

  /** Moving one node up within a step never lowers the price when s0 >= 0 and -1 < d <= u. */
  lemma {:induction false} NodeStepUp(bm: BinomialModel, s0: real, n: nat, i: nat)
    requires s0 >= 0.0 && -1.0 < bm.d <= bm.u && i < n
    ensures NodePrice(bm, s0, n, i) <= NodePrice(bm, s0, n, i + 1)
  {
    var a, b := Pow(1.0 + bm.u, i), Pow(1.0 + bm.d, n - i - 1);
    assert Pow(1.0 + bm.u, i + 1) == (1.0 + bm.u) * a;
    assert Pow(1.0 + bm.d, n - i) == (1.0 + bm.d) * b;
    StepUpArith(s0, a, b, 1.0 + bm.u, 1.0 + bm.d);
  }

  /** For a fixed step, node prices are nondecreasing in the number of up moves. */
  lemma {:induction false} NodeMonotone(bm: BinomialModel, s0: real, n: nat, i: nat, j: nat)
    requires s0 >= 0.0 && -1.0 < bm.d <= bm.u && i <= j <= n
    ensures NodePrice(bm, s0, n, i) <= NodePrice(bm, s0, n, j)
  {
    if i < j {
      NodeMonotone(bm, s0, n, i, j - 1);
      NodeStepUp(bm, s0, n, j - 1);
    }
  }

  // Arithmetic steps, stated over plain reals so that the solver sees nothing else.

  lemma {:induction false} ScaledBounds(q: real, w: real, z: real)
    requires w > 0.0 && q * w == z
    ensures (0.0 < q <==> 0.0 < z) && (q < 1.0 <==> z < w)
  {
    ProductSign(q, w);
    var e := 1.0 - q;
    assert e * w == w - z;
    ProductSign(e, w);
  }

  lemma {:induction false} ProductSign(x: real, w: real)
    requires w > 0.0
    ensures x > 0.0 <==> x * w > 0.0
  {
    if x > 0.0 {
      assert x * w > 0.0;
    } else {
      assert (-x) * w >= 0.0;
    }
  }

  lemma {:induction false} DivCancel(a: real, b: real, p: real)
    requires b != 0.0 && a == p * b
    ensures a / b == p
  {
  }

  lemma {:induction false} DivMul(a: real, b: real)
    requires b != 0.0
    ensures (a / b) * b == a
  {
  }

  lemma {:induction false} DivMonotone(a: real, a': real, b: real)
    requires b > 0.0 && a >= a'
    ensures a / b >= a' / b
  {
    assert a / b - a' / b == (a - a') / b;
  }

  lemma {:induction false} WeightedMonotone(q: real, up: real, down: real, up': real, down': real)
    requires 0.0 < q < 1.0 && up >= up' && down >= down'
    ensures Mix(q, up, down) >= Mix(q, up', down')
  {
    NonnegProduct(q, up - up');
    NonnegProduct(1.0 - q, down - down');
  }

  lemma {:induction false} NonnegProduct(x: real, y: real)
    requires x >= 0.0 && y >= 0.0
    ensures x * y >= 0.0
  {
  }

  lemma {:induction false} OneStepExpectation(bm: BinomialModel, p: real, up: real, down: real)
    requires bm.q * bm.u + (1.0 - bm.q) * bm.d == bm.r && 1.0 + bm.r != 0.0
    requires up == p * (1.0 + bm.u) && down == p * (1.0 + bm.d)
    ensures Discounted(bm, up, down) == p
  {
    var q := bm.q;
    calc {
      q * up + (1.0 - q) * down;
      p * (1.0 + (q * bm.u + (1.0 - q) * bm.d));
      p * (1.0 + bm.r);
    }
    DivCancel(Mix(q, up, down), 1.0 + bm.r, p);
  }

  lemma {:induction false} StepUpArith(s0: real, a: real, b: real, up: real, down: real)
    requires s0 >= 0.0 && a > 0.0 && b > 0.0 && 0.0 < down <= up
    ensures s0 * a * (down * b) <= s0 * (up * a) * b
  {
    var c := s0 * a * b;
    assert c >= 0.0 by { assert s0 * a >= 0.0; }
    assert s0 * a * (down * b) == c * down;
    assert s0 * (up * a) * b == c * up;
    assert c * (up - down) >= 0.0;
  }

  lemma {:induction false} PositiveProduct(x: real, y: real, z: real)
    requires x > 0.0 && y > 0.0 && z > 0.0
    ensures x * y * z > 0.0
  {
    assert x * y > 0.0;
  }
}
