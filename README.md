# Binomial CRR option pricing engine, in Dafny

This project models the pricing core of a small Python option pricer:

- the Cox-Ross-Rubinstein binomial model (`Binomial.py`);
- the European pricer `EurOpt.calculateOptionPriceCRR` with its `iterative` and `aggregated` methods (`Options.py`);
- the American pricer `AmOpt.calculateOptionPriceBySnell`, the Snell envelope (`Options.py`);
- the payoffs of `Call`, `Put` and `DoubleDigit` (`Options.py`);
- the helper `maximum` (`auxiliary.py`).

All arithmetic is over Dafny's exact `real`s.

Modules:

- `Auxiliary` (`auxiliary.dfy`): `maximum`.
- `Numerics` (`numerics.dfy`) has exact stand-ins for `pow` and `math.factorial`, plus binomial coefficients. It also defines:
  - `BinomialSum`: the binomial expectation ∑ C(k, l) q^l (1 − q)^(k−l) t[i + l] over a sequence of values `t`;
  - `FactorialSum`: the factorial-weighted sum that the `aggregated` branch evaluates.
  Both come with the identities that link them.
- `Binomial` (`binomial.dfy`):
  - `BinomialModel(u, d, r, q)`, with the constructor's `q = (r − d) / (u − d)`;
  - `NodePrice`, which is `calculateStockPriceBinominal`;
  - `Discounted`, one step of discounted risk-neutral expectation;
  - `Collapse`, k steps of it applied to a row of values;
  - the lattice lemmas: boundary nodes, recombination, martingale, positivity and monotonicity.
- `Options` (`options.dfy`):
  - the option variants and their payoffs;
  - the reference values `EuroValue` (the backward-induction recursion) and `AmerValue` (the Snell envelope);
  - `Aggregated`, the closed form;
  - the two pricers as methods with loops over arrays, each proved equal to the reference value;
  - the lemmas relating the reference values to one another.

`EurOpt.calculateOptionPriceCRR` is modelled as follows:

- The `iterative` branch fills an array with the payoffs at maturity, then overwrites it in place, one backward pass per step. Its loop invariants tie every entry to `EuroValue`.
- The `aggregated` branch returns `N! / (1 + r)^N * Σ_i 1/(i!(N − i)!) q^i (1 − q)^(N−i) payoff(S(N, i))`. The summand is associated as the source associates it, and the sum is taken left to right. `AggregatedEqualsIterative` proves that, over exact reals, it equals the iterative price.
- Any other method name returns −1.

`AmOpt.calculateOptionPriceBySnell` pre-allocates `price_tree` as `[[0.0] * (N + 1)] * (N + 1)`. All of its rows are therefore the same list. The model keeps that sharing by using a single array `priceTree` for every row. Each pass reads entries `i + 1` and `i` before it overwrites entry `i`, so the shared row still yields the Snell envelope at the root. The method's contract proves exactly this: its result is `AmerValue(bm, c, 0, 0)`.

`DoubleDigit.__init__` only rejects negative strikes (Options.py:131), so `DoubleDigitPayoff` is proved for any pair of strikes; when lower ≥ upper it is identically 0.

For a two-step call with u = 0.1, d = −0.05, s0 = 100 and strike 100, the nodes at maturity are 90.25, 104.5 and 121, so the payoffs at maturity are 0, 4.5 and 21. `TwoStepCallTerminal` states these values, and `TwoStepCallPrice` gives the European price (102.2 / 15) / 1.02². `OneStepPutEarlyExercise` exhibits a one-step put (s0 = 80, strike 100) whose American value 20 is strictly above its European value 18.4 / 1.02.

## Model

| member | source | states |
|---|---|---|
| Auxiliary.Maximum | auxiliary.py:22-23 | the result is at least both arguments and is one of them |
| Numerics.Pow | Binomial.py:35 | `pow(x, n)` is positive for a positive base, non-negative for a non-negative base, non-zero for a non-zero base |
| Numerics.Fact | Options.py:51-52 | `math.factorial(n) >= 1`, so every factorial the aggregated branch divides by is non-zero |
| Numerics.BinomFactorials | Options.py:52 | C(n, k) · k! · (n − k)! = n! for k ≤ n |
| Numerics.FactorialCoefficient | Options.py:51-52 | N! times 1/(l! (N − l)!) is the binomial coefficient C(N, l) |
| Numerics.WeightPascal | Options.py:52-53 | the weight C(k + 1, l) q^l (1 − q)^(k+1−l) is the q-mixture of the weights for (k, l − 1) and (k, l) |
| Numerics.BinomialSumPascal | Options.py:45-48 | a partial binomial expectation over k + 1 steps is the q-mixture of partial expectations over k steps, shifted up by one node and in place |
| Numerics.BinomialSumStep | Options.py:45-48 | the full binomial expectation over kp + 1 steps is the q-mixture of the full expectations over kp steps from nodes i + 1 and i |
| Numerics.FactorialSumScaled | Options.py:51-55 | N! times the sum of factorial-weighted payoffs equals the binomial expectation Σ C(N, l) q^l (1 − q)^(N−l) t[l] |
| Binomial.NewBinomialModel | Binomial.py:27-31 | the explicit-parameter constructor stores u, d, r and a q with q · (u − d) = r − d; for d < u, 0 < q < 1 holds exactly when d < r < u |
| Binomial.RiskNeutral | Binomial.py:31 | under q the expected one-step return q · u + (1 − q) · d is r |
| Binomial.RiskNeutralProbBounds | Binomial.py:15-31 | under the collar −1 < d < r < u enforced by the interactive constructor, 0 < q < 1 |
| Binomial.DiscountedMonotone | Options.py:47 | under the collar, the update `(q · up + (1 − q) · down) / (1 + r)` is monotone in both successor values |
| Binomial.CollapseExpansion | Options.py:45-48 | (1 + r)^k times k backward passes from node i equals the binomial expectation Σ C(k, l) q^l (1 − q)^(k−l) t[i + l] |
| Binomial.NodePrice | Binomial.py:33-35 | `calculateStockPriceBinominal(s0, n, i)` = s0 · (1 + u)^i · (1 + d)^(n − i); its properties are NodeBoundary, NodeRecombines, PathIndependent, NodeMartingale, NodePositive, NodeStepUp and NodeMonotone |
| Binomial.Discounted | Options.py:47 | the update (q · up + (1 − q) · down) / (1 + r) of Options.py:47 and 77-78, defined when 1 + r ≠ 0; its properties are DiscountedMonotone, NodeMartingale and ExpansionStep |
| Binomial.NodeBoundary | Binomial.py:33-35 | the bottom node of step n is s0 (1 + d)^n, the top node is s0 (1 + u)^n, the root is s0 |
| Binomial.NodeRecombines | Binomial.py:33-35 | an up move from (n, i) reaches (n + 1, i + 1) and multiplies by 1 + u; a down move reaches (n + 1, i) and multiplies by 1 + d |
| Binomial.NodeGrowth | Binomial.py:35 | one move of either kind from (n, k) lands on the node with one more up move exactly when the move is up |
| Binomial.PathIndependent | Binomial.py:33-35 | the price along any sequence of moves depends only on its length and its number of up moves: it is the node price |
| Binomial.NodeMartingale | Binomial.py:31-35 | one discounted q-expectation of the two children of (n, i) gives back the price at (n, i) |
| Binomial.NodePositive | Binomial.py:35 | with s0 > 0 and u, d > −1 every node price is positive |
| Binomial.NodeStepUp | Binomial.py:35 | with s0 ≥ 0 and −1 < d ≤ u, node (n, i + 1) is priced at least as high as node (n, i) |
| Binomial.NodeMonotone | Binomial.py:35 | with s0 ≥ 0 and −1 < d ≤ u, node prices of one step are non-decreasing in the number of up moves |
| Options.CallPayoff | Options.py:107-108 | the call payoff is non-negative and at least price − strike; it is price − strike in the money and 0 otherwise |
| Options.PutPayoff | Options.py:120-121 | the put payoff is non-negative and at least strike − price; it is strike − price in the money and 0 otherwise |
| Options.DoubleDigitPayoff | Options.py:137-138 | the payoff is 0 or 1, and 1 exactly when the price lies strictly between the strikes |
| Options.Payoff | Options.py:25-28 | every variant's payoff is non-negative |
| Options.Exercise | Options.py:79 | `val2`, the payoff at the price of node (m, i); AmericanAtLeastExercise bounds the American value by it |
| Options.EuroValue | Options.py:41-49 | the payoff at maturity and, before it, the discounted expectation of the two successors; CalculateOptionPriceCRR's loops are proved to compute it, and EuropeanNonNegative, EuroValueIsCollapse and ZeroSteps state its properties |
| Options.AmerValue | Options.py:69-83 | the payoff at maturity and, before it, `val1 if val1 > val2 else val2`; CalculateOptionPriceBySnell's loops are proved to compute it, and SnellIsMaximum, AmericanAtLeastExercise, AmericanAtLeastEuropean and ZeroSteps state its properties |
| Options.Aggregated | Options.py:51-55 | N! / (1 + r)^N times the left-to-right sum of 1/(i! (N − i)!) · q^i · (1 − q)^(N−i) · payoff(S(N, i)); AggregatedEqualsIterative proves it equal to EuroValue at the root |
| Options.DiscountFactorNonZero | Options.py:51 | the factor (1 + r)^N that the aggregated branch divides by is non-zero whenever a division happens |
| Options.CalculateOptionPriceCRR | Options.py:35-59 | `iterative` returns the root of the backward induction; `aggregated` returns the closed form, which equals it; any other name returns −1; with N = 0 both return payoff(s0) |
| Options.CalculateOptionPriceBySnell | Options.py:66-83 | with the aliased single-row price tree, the result is the Snell envelope at the root; it is at least payoff(s0); under the collar it is at least the European price, which is non-negative |
| Options.ZeroSteps | Options.py:41-49 | with N = 0 both the European and the American values are payoff(s0) |
| Options.SnellIsMaximum | Options.py:75-82 | before maturity the American value is the maximum of the discounted continuation value and immediate exercise |
| Options.AmericanAtLeastExercise | Options.py:77-80 | the American value of every node is at least its exercise value, which is non-negative |
| Options.EuropeanNonNegative | Options.py:45-48 | under the collar every European node value is non-negative |
| Options.AmericanAtLeastEuropean | Options.py:75-82 | under the collar the American value of every node is at least the European one |
| Options.TwoStepCallTerminal | Options.py:43-44 | for the two-step call with u = 0.1, d = −0.05, s0 = 100 and strike 100, the payoffs at maturity are 0, 4.5 and 21 |
| Options.TwoStepCallPrice | Options.py:41-49 | for the same call the European price at the root is (102.2 / 15) / 1.0404 |
| Options.OneStepPutEarlyExercise | Options.py:75-83 | for a one-step put with strike 100 on s0 = 80 the European value is 18.4 / 1.02 and the American value is 20, strictly larger |
| Options.EuroValueIsCollapse | Options.py:41-49 | N − m steps before maturity, the European value of node (m, i) is the (N − m)-step backward collapse of the payoffs at maturity |
| Options.AggregatedEqualsIterative | Options.py:40-55 | over exact reals the aggregated closed form equals the iterative backward-induction price |

## Left out

- Interactive construction is not modelled: the `input()`/`print()` loops in `Options.__init__`, `Call.__init__`, `Put.__init__`, `DoubleDigit.__init__` and the interactive branch of `BinomialModel.__init__` (Binomial.py:11-26). The collar that loop enforces is the predicate `NoArbitrage`, which lemmas take as a precondition.
- `BinomialModel(u, d, r)` falls back to the interactive branch when any of u, d or r is zero (Python falsiness). The model treats every call with explicit values as the explicit branch; `NewBinomialModel` requires only u ≠ d, which avoids the division by zero there.
- `Options.__init__` computes `h = T / N` (Options.py:19). Its guard lets N = 0 through, and the division then raises. `h` is used only by `approximateBlackScholes`, so neither `h` nor `time_to_maturity` is modelled. The model's N = 0 results describe pricing an object whose N is 0.
- The `stopping_tree` flags of `calculateOptionPriceBySnell` (Options.py:70, 74, 81) are not modelled. The method never returns them. Like `price_tree`, its rows are one shared list (Options.py:70). The flags are written into that list by the rule True at maturity and, before it, `val1 > val2`. Entry i < N is last written by pass m = i, so it holds only the flag of node (i, i), and only entry N stays True. The list therefore carries no per-node stopping data.
- Both pricers divide by `1 + r` (Options.py:47, 77-78), and the aggregated branch by `pow(1 + r, N)` (Options.py:51). Each raises ZeroDivisionError when r = −1 and N ≥ 1. The precondition `Discountable` excludes that case instead of modelling the error. Every way the source builds a model keeps r > −1: the interactive loop (Binomial.py:15-26) and the calibration `r = exp(r · h) − 1` (Options.py:91).
- `approximateBlackScholes` (the exp/sqrt calibration), `BlackScholes.py`, `PricingModels`, `Pricer.py`, `BoxMullerTrans` and the `execution_time` decorator are not modelled. They involve transcendental floating point, randomness, clocks and I/O.
- `print` in the unknown-method branch is not modelled; only the returned −1 is.
- Floating-point rounding is not modelled: all quantities are exact reals. Nor are the float overflow of `math.factorial(N) / pow(...)` for large N and the int/float distinction of `maximum(x, 0)`, of the 0/1 DoubleDigit payoff and of the unknown-method sentinel (the int `-1` at Options.py:39, modelled as `-1.0`).
- CalculateOptionPriceCRR: the `aggregated` ensures holds over exact reals; in floating point the two branches agree only up to rounding.
- DoubleDigitPayoff: is stated for every pair of strikes, lower ≥ upper included, because `DoubleDigit.__init__` does not order them (Options.py:131).
