// Model of Options.py: the payoffs of the option variants and the three
// backward-induction pricers over the binomial lattice: the European iterative
// collapse, the European "aggregated" closed-form sum with factorials, and the
// American Snell-envelope pricer.

module Options {
  import opened Auxiliary
  import opened Numerics
  import opened Binomial

  /** The option variants and their strikes. */
  datatype Kind = Call(strike: real) | Put(strike: real) | DoubleDigit(lower: real, upper: real)

  /** What an option object holds for pricing: its variant, the number of steps N and the initial price s0. */
  datatype Contract = Contract(kind: Kind, N: nat, s0: real)

  /** `Call.payoff`: max(price - strike, 0). */
  function CallPayoff(strike: real, price: real): (v: real)
    ensures v >= 0.0 && v >= price - strike
    ensures price >= strike ==> v == price - strike
    ensures price <= strike ==> v == 0.0
  {
    Maximum(price - strike, 0.0)
  }

  /** `Put.payoff`: max(strike - price, 0). */
  function PutPayoff(strike: real, price: real): (v: real)
    ensures v >= 0.0 && v >= strike - price
    ensures price <= strike ==> v == strike - price
    ensures price >= strike ==> v == 0.0
  {
    Maximum(strike - price, 0.0)
  }

  /** `DoubleDigit.payoff`: one strictly between the two strikes, zero elsewhere (the strikes included). */
  function DoubleDigitPayoff(lower: real, upper: real, price: real): (v: real)
    ensures v == 0.0 || v == 1.0
    ensures v == 1.0 <==> lower < price && price < upper
  {
    if lower < price < upper then 1.0 else 0.0
  }

  /** The abstract `payoff(price)`, dispatched on the variant; never negative. */
  function Payoff(kind: Kind, price: real): (v: real)
    ensures v >= 0.0
  {
    match kind
    case Call(strike) => CallPayoff(strike, price)
    case Put(strike) => PutPayoff(strike, price)
    case DoubleDigit(lower, upper) => DoubleDigitPayoff(lower, upper, price)
  }

  /** The divisions by 1 + r happen only when there is at least one step. */
  predicate Discountable(bm: BinomialModel, c: Contract)
  {
    c.N == 0 || 1.0 + bm.r != 0.0
  }

  /** The intrinsic value of node (m, i): the payoff at its underlying price. */
  function Exercise(bm: BinomialModel, c: Contract, m: nat, i: nat): real
    requires i <= m
  {
    Payoff(c.kind, NodePrice(bm, c.s0, m, i))
  }

  /** The European value of node (m, i): the payoff at maturity, discounted expectation before. */
  function EuroValue(bm: BinomialModel, c: Contract, m: nat, i: nat): real
    requires Discountable(bm, c) && i <= m <= c.N
    decreases c.N - m
  {
    if m == c.N then Exercise(bm, c, m, i)
    else Discounted(bm, EuroValue(bm, c, m + 1, i + 1), EuroValue(bm, c, m + 1, i))
  }

  /**
   * The Snell envelope of node (m, i): the payoff at maturity; before it, the
   * continuation value val1 if it is strictly larger than the exercise value
   * val2, and val2 otherwise.
   */
  function AmerValue(bm: BinomialModel, c: Contract, m: nat, i: nat): real
    requires Discountable(bm, c) && i <= m <= c.N
    decreases c.N - m
  {
    if m == c.N then Exercise(bm, c, m, i)
    else
      var val1 := Discounted(bm, AmerValue(bm, c, m + 1, i + 1), AmerValue(bm, c, m + 1, i));
      var val2 := Exercise(bm, c, m, i);
      if val1 > val2 then val1 else val2
  }

  lemma {:induction false} DiscountFactorNonZero(bm: BinomialModel, c: Contract)
    requires Discountable(bm, c)
    ensures Pow(1.0 + bm.r, c.N) != 0.0
  {
  }

  /** The aggregated branch: N! / (1 + r)^N times the sum over i of the summands. */
  function Aggregated(bm: BinomialModel, c: Contract): real
    requires Discountable(bm, c)
  {
    DiscountFactorNonZero(bm, c);
    Scale((Fact(c.N) as real) / Pow(1.0 + bm.r, c.N), FactorialSum(bm.q, Terminal(bm, c), c.N, c.N + 1))
  }

  /**
   * `EurOpt.calculateOptionPriceCRR(binmodel, method)`. The iterative branch
   * fills `price` with the payoffs at maturity and collapses it in place, one
   * step per pass; the aggregated branch evaluates the closed-form sum; any
   * other method name leaves the result at -1.
   */
  method CalculateOptionPriceCRR(bm: BinomialModel, c: Contract, methodName: string := "iterative")
    returns (finalPrice: real)
    requires methodName == "iterative" || methodName == "aggregated" ==> Discountable(bm, c)
    ensures methodName == "iterative" ==> finalPrice == EuroValue(bm, c, 0, 0)
    ensures methodName == "aggregated" ==> finalPrice == Aggregated(bm, c) && finalPrice == EuroValue(bm, c, 0, 0)
    ensures methodName != "iterative" && methodName != "aggregated" ==> finalPrice == -1.0
    ensures (methodName == "iterative" || methodName == "aggregated") && c.N == 0 ==> finalPrice == Payoff(c.kind, c.s0)
  {
    finalPrice := -1.0;
    if methodName == "iterative" {
      var m: int := c.N - 1;
      var price := new real[c.N + 1];
      for i := 0 to c.N + 1
        invariant forall k :: 0 <= k < i ==> price[k] == EuroValue(bm, c, c.N, k)
      {
        price[i] := Payoff(c.kind, NodePrice(bm, c.s0, c.N, i));
      }
      while m >= 0
        invariant -1 <= m < c.N
        invariant forall k :: 0 <= k <= m + 1 ==> price[k] == EuroValue(bm, c, m + 1, k)
      {
        for i := 0 to m + 1
          invariant forall k :: 0 <= k < i ==> price[k] == EuroValue(bm, c, m, k)
          invariant forall k :: i <= k <= m + 1 ==> price[k] == EuroValue(bm, c, m + 1, k)
        {
          price[i] := Discounted(bm, price[i + 1], price[i]);
        }
        m := m - 1;
      }
      finalPrice := price[0];
    } else if methodName == "aggregated" {
      finalPrice := Aggregated(bm, c);
      AggregatedEqualsIterative(bm, c);
    }
  }

  /**
   * `AmOpt.calculateOptionPriceBySnell(binmodel)`. The source allocates
   * `price_tree` as N + 1 references to one list of N + 1 entries, so every row
   * `price_tree[m]` is the same list: it is modelled as the single array
   * `priceTree`. Each pass reads entries i and i + 1 before overwriting entry i,
   * so the shared list still yields the Snell envelope at the root.
   * Only Call and Put derive from AmOpt.
   */
  method CalculateOptionPriceBySnell(bm: BinomialModel, c: Contract) returns (rootPrice: real)
    requires Discountable(bm, c)
    requires c.kind.Call? || c.kind.Put?
    ensures rootPrice == AmerValue(bm, c, 0, 0)
    ensures rootPrice >= Payoff(c.kind, c.s0)
    ensures Valid(bm) && NoArbitrage(bm) ==> rootPrice >= EuroValue(bm, c, 0, 0) >= 0.0
  {
    var priceTree := new real[c.N + 1](_ => 0.0);
    var m: int := c.N - 1;
    for i := 0 to c.N + 1
      invariant forall k :: 0 <= k < i ==> priceTree[k] == AmerValue(bm, c, c.N, k)
    {
      priceTree[i] := Payoff(c.kind, NodePrice(bm, c.s0, c.N, i));
    }
    while m >= 0
      invariant -1 <= m < c.N
      invariant forall k :: 0 <= k <= m + 1 ==> priceTree[k] == AmerValue(bm, c, m + 1, k)
    {
      for i := 0 to m + 1
        invariant forall k :: 0 <= k < i ==> priceTree[k] == AmerValue(bm, c, m, k)
        invariant forall k :: i <= k <= m + 1 ==> priceTree[k] == AmerValue(bm, c, m + 1, k)
      {
        var val1 := Discounted(bm, priceTree[i + 1], priceTree[i]);
        var val2 := Payoff(c.kind, NodePrice(bm, c.s0, m, i));
        priceTree[i] := if val1 > val2 then val1 else val2;
      }
      m := m - 1;
    }
    rootPrice := priceTree[0];
    AmericanAtLeastExercise(bm, c, 0, 0);
    NodeBoundary(bm, c.s0, 0);
    if Valid(bm) && NoArbitrage(bm) {
      AmericanAtLeastEuropean(bm, c, 0, 0);
      EuropeanNonNegative(bm, c, 0, 0);
    }
  }

  /** With no step both values are the payoff at the initial price. */
  lemma {:induction false} ZeroSteps(bm: BinomialModel, c: Contract)
    requires c.N == 0
    ensures EuroValue(bm, c, 0, 0) == Payoff(c.kind, c.s0)
    ensures AmerValue(bm, c, 0, 0) == Payoff(c.kind, c.s0)
  {
    NodeBoundary(bm, c.s0, 0);
  }

  /** At every node before maturity the American value is max(continuation, exercise). */
  lemma {:induction false} SnellIsMaximum(bm: BinomialModel, c: Contract, m: nat, i: nat)
    requires Discountable(bm, c) && i <= m < c.N
    ensures AmerValue(bm, c, m, i)
         == Maximum(Discounted(bm, AmerValue(bm, c, m + 1, i + 1), AmerValue(bm, c, m + 1, i)), Exercise(bm, c, m, i))
  {
  }

  /** The American value never falls below immediate exercise, hence never below zero. */
  lemma {:induction false} AmericanAtLeastExercise(bm: BinomialModel, c: Contract, m: nat, i: nat)
    requires Discountable(bm, c) && i <= m <= c.N
    ensures AmerValue(bm, c, m, i) >= Exercise(bm, c, m, i) >= 0.0
  {
  }

  /** Under the collar, the European value is never negative. */
  lemma {:induction false} EuropeanNonNegative(bm: BinomialModel, c: Contract, m: nat, i: nat)
    requires Valid(bm) && NoArbitrage(bm) && i <= m <= c.N
    ensures EuroValue(bm, c, m, i) >= 0.0
    decreases c.N - m
  {
    if m < c.N {
      EuropeanNonNegative(bm, c, m + 1, i + 1);
      EuropeanNonNegative(bm, c, m + 1, i);
      DiscountedMonotone(bm, EuroValue(bm, c, m + 1, i + 1), EuroValue(bm, c, m + 1, i), 0.0, 0.0);
      ZeroDiscount(bm);
    }
  }

  lemma {:induction false} ZeroDiscount(bm: BinomialModel)
    requires 1.0 + bm.r != 0.0
    ensures Discounted(bm, 0.0, 0.0) == 0.0
  {
    assert Mix(bm.q, 0.0, 0.0) == 0.0;
    DivCancel(0.0, 1.0 + bm.r, 0.0);
  }

  /** Under the collar, early exercise is worth something: the American value dominates the European one. */
  lemma {:induction false} AmericanAtLeastEuropean(bm: BinomialModel, c: Contract, m: nat, i: nat)
    requires Valid(bm) && NoArbitrage(bm) && i <= m <= c.N
    ensures AmerValue(bm, c, m, i) >= EuroValue(bm, c, m, i)
    decreases c.N - m
  {
    if m < c.N {
      AmericanAtLeastEuropean(bm, c, m + 1, i + 1);
      AmericanAtLeastEuropean(bm, c, m + 1, i);
      DiscountedMonotone(bm, AmerValue(bm, c, m + 1, i + 1), AmerValue(bm, c, m + 1, i),
        EuroValue(bm, c, m + 1, i + 1), EuroValue(bm, c, m + 1, i));
    }
  }

  /** The payoffs at maturity, as a sequence indexed by the number of up moves. */
  function Terminal(bm: BinomialModel, c: Contract): seq<real>
  {
    seq(c.N + 1, i requires 0 <= i < c.N + 1 => Exercise(bm, c, c.N, i))
  }

  /**
   * The two-step call with u = 0.1, d = -0.05, r = 0.02, s0 = 100 and strike 100:
   * the nodes at maturity are 90.25, 104.5 and 121, so the payoffs are 0, 4.5 and 21.
   */
  lemma {:induction false} TwoStepCallTerminal()
    ensures Terminal(NewBinomialModel(0.1, -0.05, 0.02), Contract(Call(100.0), 2, 100.0)) == [0.0, 4.5, 21.0]
  {
    var bm, c := NewBinomialModel(0.1, -0.05, 0.02), Contract(Call(100.0), 2, 100.0);
    assert NodePrice(bm, c.s0, 2, 0) == 90.25;
    assert NodePrice(bm, c.s0, 2, 1) == 104.5;
    assert NodePrice(bm, c.s0, 2, 2) == 121.0;
  }

  /**
   * The same two-step call priced end to end: with q = 7/15, the European value
   * at the root is (102.2 / 15) / 1.02^2.
   */
  lemma {:induction false} TwoStepCallPrice()
    ensures EuroValue(NewBinomialModel(0.1, -0.05, 0.02), Contract(Call(100.0), 2, 100.0), 0, 0) == (102.2 / 15.0) / 1.0404
  {
    var bm, c := NewBinomialModel(0.1, -0.05, 0.02), Contract(Call(100.0), 2, 100.0);
    assert bm.q == 7.0 / 15.0;
    assert NodePrice(bm, c.s0, 2, 0) == 90.25;
    assert NodePrice(bm, c.s0, 2, 1) == 104.5;
    assert NodePrice(bm, c.s0, 2, 2) == 121.0;
    assert EuroValue(bm, c, 1, 1) == (183.0 / 15.0) / 1.02;
    assert EuroValue(bm, c, 1, 0) == (31.5 / 15.0) / 1.02;
  }

  /**
   * Early exercise can be worth strictly more: a one-step put with strike 100 on
   * s0 = 80 has continuation value 18.4 / 1.02 but is exercised at 20.
   */
  lemma {:induction false} OneStepPutEarlyExercise()
    ensures var bm, c := NewBinomialModel(0.1, -0.05, 0.02), Contract(Put(100.0), 1, 80.0);
      EuroValue(bm, c, 0, 0) == 18.4 / 1.02 && AmerValue(bm, c, 0, 0) == 20.0 && AmerValue(bm, c, 0, 0) > EuroValue(bm, c, 0, 0)
  {
    var bm, c := NewBinomialModel(0.1, -0.05, 0.02), Contract(Put(100.0), 1, 80.0);
    assert bm.q == 7.0 / 15.0;
    assert NodePrice(bm, c.s0, 1, 0) == 76.0;
    assert NodePrice(bm, c.s0, 1, 1) == 88.0;
    assert NodePrice(bm, c.s0, 0, 0) == 80.0;
    assert EuroValue(bm, c, 0, 0) == 18.4 / 1.02;
  }

  /** k = N - m steps before maturity, the European value is the k-step collapse of the payoffs at maturity. */
  lemma {:induction false} EuroValueIsCollapse(bm: BinomialModel, c: Contract, m: nat, k: nat, i: nat)
    requires Discountable(bm, c) && i <= m <= c.N && k == c.N - m
    ensures EuroValue(bm, c, m, i) == Collapse(bm, Terminal(bm, c), k, i)
    decreases k
  {
    if k > 0 {
      EuroValueIsCollapse(bm, c, m + 1, k - 1, i + 1);
      EuroValueIsCollapse(bm, c, m + 1, k - 1, i);
    }
  }

  /** The aggregated closed form and the iterative backward induction compute the same price. */
  lemma {:induction false} AggregatedEqualsIterative(bm: BinomialModel, c: Contract)
    requires Discountable(bm, c)
    ensures Aggregated(bm, c) == EuroValue(bm, c, 0, 0)
  {
    var t := Terminal(bm, c);
    var f, p := Fact(c.N) as real, Pow(1.0 + bm.r, c.N);
    var s, e, b := FactorialSum(bm.q, t, c.N, c.N + 1), Collapse(bm, t, c.N, 0), BinomialSum(bm.q, t, 0, c.N, c.N + 1);
    FactorialSumScaled(bm.q, t, c.N, c.N + 1, Fact(c.N));
    EuroValueIsCollapse(bm, c, 0, c.N, 0);
    CollapseExpansion(bm, t, c.N, 0);
    DiscountFactorNonZero(bm, c);
    Rearrange(f, p, s, e, b);
    AggregatedValue(bm, c, t, f, p, s);
  }

  /** Aggregated, with N!, (1 + r)^N and the factorial sum passed in as values. */
  lemma {:induction false} AggregatedValue(bm: BinomialModel, c: Contract, t: seq<real>, f: real, p: real, s: real)
    requires Discountable(bm, c) && t == Terminal(bm, c) && f == Fact(c.N) as real && p == Pow(1.0 + bm.r, c.N)
    requires s == FactorialSum(bm.q, t, c.N, c.N + 1)
    ensures Aggregated(bm, c) == Scale(f / p, s)
  {
  }

  /**
   * The last step of AggregatedEqualsIterative, over plain reals: when N! times the
   * factorial sum and (1 + r)^N times the European value are the same binomial
   * expectation, N! / (1 + r)^N times the factorial sum is the European value.
   */
  lemma {:induction false} Rearrange(factorial: real, discount: real, factorialSum: real, euro: real, expectation: real)
    requires discount != 0.0 && Scale(factorial, factorialSum) == expectation && Scale(discount, euro) == expectation
    ensures Scale(factorial / discount, factorialSum) == euro
  {
    assert factorial / discount * factorialSum == (factorial * factorialSum) / discount;
  }
}
