/**
  The credits rate card (packages/api-types/src/ai-credits.ts) against the registry of provider list prices
  (packages/api-types/src/agent-models.ts). Registry prices are exact decimals, so they are `real` here; the
  prices computed from them in doubles are modelled with their rounding.
 */
module RateCard {
  import opened Wrappers
  import opened CallBudget
  import opened CallFit
  import opened Doubles

  datatype Model = Opus5 | Sonnet5 | Opus48 | Opus47 | Sonnet46 | Haiku45

  /** Opus-class models never run on credits. */
  predicate OnCredits(m: Model)
  {
    m.Sonnet5? || m.Sonnet46? || m.Haiku45?
  }

  /** CREDIT_RATE_CARD_V1. */
  function CardRates(m: Model): Rates
    requires OnCredits(m)
  {
    match m
    case Sonnet5 => Rates(400, 2_000, 40, 500, 800)
    case Sonnet46 => Rates(600, 3_000, 60, 750, 1_200)
    case Haiku45 => Rates(200, 1_000, 20, 250, 400)
  }

  /** CLAUDE_MODELS: input and output cents per 1,000 tokens. */
  function ListCentsPer1k(m: Model): (real, real)
  {
    match m
    case Opus5 => (0.5, 2.5)
    case Sonnet5 => (0.2, 1.0)
    case Opus48 => (0.5, 2.5)
    case Opus47 => (0.5, 2.5)
    case Sonnet46 => (0.3, 1.5)
    case Haiku45 => (0.1, 0.5)
  }

  const CACHE_WRITE_5M: real := 1.25
  const CACHE_WRITE_1H: real := 2.0
  const CACHE_READ: real := 0.1

  function Counts(t: Tokens): seq<int>
  {
    [t.uncachedInput, t.output, t.cacheRead, t.cacheWrite5m, t.cacheWrite1h]
  }

  /** What each count is multiplied by, in order. */
  function Factors(m: Model): (factors: seq<seq<real>>)
    ensures |factors| == 5
    ensures forall i :: 0 <= i < 5 ==>
              |factors[i]| <= 3 && forall j :: 0 <= j < |factors[i]| ==> 0.1 <= factors[i][j] <= 1000.0
  {
    var (input, output) := ListCentsPer1k(m);
    [[input, 1000.0], [output, 1000.0],
     [input, CACHE_READ, 1000.0], [input, CACHE_WRITE_5M, 1000.0], [input, CACHE_WRITE_1H, 1000.0]]
  }

  function PartPrices(m: Model, t: Tokens): seq<real>
  {
    seq(5, i requires 0 <= i < 5 => Product(Counts(t)[i] as real, Factors(m)[i]))
  }

  function ComputedPartPrices(round: real -> real, m: Model, t: Tokens): seq<real>
  {
    seq(5, i requires 0 <= i < 5 => ComputedProduct(round, Counts(t)[i] as real, Factors(m)[i]))
  }

  /** The exact list price of a call in microcents. */
  function ListPriceMicrocents(m: Model, t: Tokens): real
  {
    Sum(PartPrices(m, t))
  }

  /** The same in doubles, every product and sum rounded. */
  function ComputedMicrocents(round: real -> real, m: Model, t: Tokens): real
  {
    ComputedSum(round, ComputedPartPrices(round, m, t))
  }

  function MathRound(x: real): int
  {
    (x + 0.5).Floor
  }

  predicate NoNegativeCount(t: Tokens)
  {
    t.uncachedInput >= 0 && t.output >= 0 && t.cacheRead >= 0 && t.cacheWrite5m >= 0 && t.cacheWrite1h >= 0
  }

  /** `listPriceCostMillicents`. */
  function ListPriceMillicents(round: real -> real, m: Model, t: Tokens): Option<real>
  {
    if !NoNegativeCount(t) then None
    else Some(round(MathRound(ComputedMicrocents(round, m, t)) as real / 1000.0))
  }

  // ---------------------------------------------------------------- the exact price

  lemma TwoFactors(x: real, f: real, g: real)
    ensures Product(x, [f, g]) == Times(Times(x, f), g)
  {
    hide Times;
    assert [f, g][1..] == [g] && [g][1..] == [];
    assert Product(Times(Times(x, f), g), []) == Times(Times(x, f), g);
  }

  lemma ThreeFactors(x: real, f: real, g: real, h: real)
    ensures Product(x, [f, g, h]) == Times(Times(Times(x, f), g), h)
  {
    hide Times;
    assert [f, g, h][1..] == [g, h];
    TwoFactors(Times(x, f), g, h);
  }

  lemma SumOfFive(xs: seq<real>)
    requires |xs| == 5
    ensures Sum(xs) == xs[0] + xs[1] + xs[2] + xs[3] + xs[4]
  {
    assert xs[..4][..3] == xs[..3] && xs[..3][..2] == xs[..2] && xs[..2][..1] == xs[..1] && xs[..1][..0] == [];
    assert Sum(xs[..1]) == xs[0];
    assert Sum(xs[..2]) == xs[0] + xs[1];
    assert Sum(xs[..3]) == xs[0] + xs[1] + xs[2];
  }

  lemma PriceFormula(m: Model, t: Tokens)
    ensures var (input, output) := ListCentsPer1k(m);
      ListPriceMicrocents(m, t) ==
      Times(Times(t.uncachedInput as real, input), 1000.0)
      + Times(Times(t.output as real, output), 1000.0)
      + Times(Times(Times(t.cacheRead as real, input), CACHE_READ), 1000.0)
      + Times(Times(Times(t.cacheWrite5m as real, input), CACHE_WRITE_5M), 1000.0)
      + Times(Times(Times(t.cacheWrite1h as real, input), CACHE_WRITE_1H), 1000.0)
  {
    hide Product, Times, Sum, ListCentsPer1k;
    var (input, output) := ListCentsPer1k(m);
    SumOfFive(PartPrices(m, t));
    TwoFactors(t.uncachedInput as real, input, 1000.0);
    TwoFactors(t.output as real, output, 1000.0);
    ThreeFactors(t.cacheRead as real, input, CACHE_READ, 1000.0);
    ThreeFactors(t.cacheWrite5m as real, input, CACHE_WRITE_5M, 1000.0);
    ThreeFactors(t.cacheWrite1h as real, input, CACHE_WRITE_1H, 1000.0);
  }

  /** The list price is a whole number of microcents, half of what the card charges. */
  lemma ListPriceIsWhole(m: Model, t: Tokens) returns (microcents: int)
    requires OnCredits(m)
    ensures ListPriceMicrocents(m, t) == microcents as real && Cost(t, CardRates(m)) == 2 * microcents
  {
    hide ListPriceMicrocents;
    PriceFormula(m, t);
    match m
    case Sonnet5 =>
      microcents := 200 * t.uncachedInput + 1000 * t.output + 20 * t.cacheRead + 250 * t.cacheWrite5m
                    + 400 * t.cacheWrite1h;
    case Sonnet46 =>
      microcents := 300 * t.uncachedInput + 1500 * t.output + 30 * t.cacheRead + 375 * t.cacheWrite5m
                    + 600 * t.cacheWrite1h;
    case Haiku45 =>
      microcents := 100 * t.uncachedInput + 500 * t.output + 10 * t.cacheRead + 125 * t.cacheWrite5m
                    + 200 * t.cacheWrite1h;
  }

  // ---------------------------------------------------------------- floating-point noise

  /** Two million dollars: up to here the noise of computing a price stays below half a microcent. */
  const PRECISE_MICROCENTS: int := 200_000_000_000_000

  lemma PartNear(round: real -> real, m: Model, t: Tokens, i: int)
    requires RoundsToNearest(round) && 0 <= i < 5 && 0 <= Counts(t)[i] <= PRECISE_MICROCENTS
    ensures Near(ComputedPartPrices(round, m, t)[i], PartPrices(m, t)[i], 12.0 * U)
  {
    var x, factors := Counts(t)[i] as real, Factors(m)[i];
    assert Near(x, x, 0.0);
    hide Near, RoundsToNearest, Times;
    CountStaysInside(x, factors, 1.0, 1_000_000_000_000_000.0);
    ProductError(round, x, x, 0.0, factors);
  }

  /** No price is below one microcent a token, so parts are zero or at least one, and counts are at most prices. */
  lemma PartAtLeastCount(m: Model, t: Tokens, i: int)
    requires 0 <= i < 5 && Counts(t)[i] >= 0
    ensures PartPrices(m, t)[i] >= Counts(t)[i] as real
    ensures Counts(t)[i] == 0 ==> PartPrices(m, t)[i] == 0.0
  {
    hide Product;
    var (input, output) := ListCentsPer1k(m);
    var x := Counts(t)[i] as real;
    TwoFactors(x, input, 1000.0);
    TwoFactors(x, output, 1000.0);
    ThreeFactors(x, input, CACHE_READ, 1000.0);
    ThreeFactors(x, input, CACHE_WRITE_5M, 1000.0);
    ThreeFactors(x, input, CACHE_WRITE_1H, 1000.0);
  }

  /** Computing a price of up to two million dollars is off by less than half a microcent. */
  lemma NoiseIsSmall(round: real -> real, m: Model, t: Tokens)
    requires RoundsToNearest(round) && NoNegativeCount(t) && ListPriceMicrocents(m, t) <= PRECISE_MICROCENTS as real
    ensures ListPriceMicrocents(m, t) - 0.5 < ComputedMicrocents(round, m, t) < ListPriceMicrocents(m, t) + 0.5
  {
    hide RoundsToNearest, Product, ComputedProduct, Sum, ComputedSum, Near, Factors;
    var xs, es := ComputedPartPrices(round, m, t), PartPrices(m, t);
    SumOfFive(es);
    forall i | 0 <= i < 5 ensures es[i] >= Counts(t)[i] as real >= 0.0 && (es[i] == 0.0 || es[i] >= 1.0) {
      PartAtLeastCount(m, t, i);
    }
    hide PartPrices;
    assert es[0] >= 0.0 && es[1] >= 0.0 && es[2] >= 0.0 && es[3] >= 0.0 && es[4] >= 0.0;
    forall i | 0 <= i < 5 ensures Near(xs[i], es[i], 12.0 * U) {
      PartNear(round, m, t, i);
    }
    TermsError(round, xs, es, 12.0 * U);
    NoiseBelowHalf(ComputedMicrocents(round, m, t), ListPriceMicrocents(m, t));
  }

  lemma NoiseBelowHalf(x: real, price: real)
    requires 0.0 <= price <= PRECISE_MICROCENTS as real && Near(x, price, 22.0 * U)
    ensures price - 0.5 < x < price + 0.5
  {
  }

  /**
    The card charges exactly twice the list price, for every model it prices and every token vector of up to
    two million dollars at list price, however the doubles it is computed in round to nearest: one microcredit
    is one microcent, the markup is 2.0, and the registry's price is the exact one in thousandths of a cent,
    rounded once.
   */
  lemma CardIsTwiceListPrice(round: real -> real, m: Model, t: Tokens)
    requires OnCredits(m) && RoundsToNearest(round)
    ensures ListPriceMillicents(round, m, t).None? <==> !NoNegativeCount(t)
    ensures NoNegativeCount(t) && Cost(t, CardRates(m)) <= 2 * PRECISE_MICROCENTS ==>
              ListPriceMillicents(round, m, t) == Some(round(Cost(t, CardRates(m)) as real / 2000.0))
  {
    hide ListPriceMicrocents, ComputedMicrocents, Cost, MathRound, RoundsToNearest;
    var microcents := ListPriceIsWhole(m, t);
    if NoNegativeCount(t) && microcents <= PRECISE_MICROCENTS {
      NoiseIsSmall(round, m, t);
      RoundingShedsNoise(microcents, ComputedMicrocents(round, m, t));
      assert Cost(t, CardRates(m)) as real / 2000.0 == microcents as real / 1000.0;
    }
  }

  /** A whole number off by less than a half rounds to itself. */
  lemma RoundingShedsNoise(n: int, x: real)
    requires n as real - 0.5 <= x < n as real + 0.5
    ensures MathRound(x) == n
  {
  }

  /**
    Every card row meets what the bound and the ladder's sums require: a priced model is refused a bound only
    for its sizes.
   */
  lemma CardRowsCanBeBounded(m: Model, g: Regions, maxOutput: int)
    requires OnCredits(m)
    ensures ValidRates(CardRates(m)) && OrderedRates(CardRates(m)) && CardRates(m).output > 0
    ensures ValidRegions(g) && 1 <= maxOutput <= 1_000_000_000 && InputTokens(g) <= 1_000_000_000
            ==> CallUpperBound(g, maxOutput, CardRates(m)).Ok?
    ensures forall p :: CardRates(m).input <= (CeilingTokens(p) - FloorTokens(p)) * CardRates(m).output
  {
  }
}
