/**
  What a model call costs, the most it can cost, and the largest output ceiling that fits a budget
  (packages/api-types/src/ai-credits.ts). All amounts are integer microcredits.
 */
module CallBudget {
  import opened Wrappers
  import opened Calendar
  import opened Proration

  datatype Rates = Rates(input: int, output: int, cacheRead: int, cacheWrite5m: int, cacheWrite1h: int)

  datatype Tokens = Tokens(uncachedInput: int, output: int, cacheRead: int, cacheWrite5m: int, cacheWrite1h: int)

  datatype Regions = Regions(oneHour: int, fiveMinute: int, uncached: int)

  datatype Bound = Bound(inputTokens: int, inputMicro: int, micro: int)

  /** Tokens a request may be billed for beyond the text of its body. */
  const FRAMING_TOKENS: int := 2_048

  predicate ValidRates(r: Rates)
  {
    && NonNegativeSafe(r.input) && NonNegativeSafe(r.output) && NonNegativeSafe(r.cacheRead)
    && NonNegativeSafe(r.cacheWrite5m) && NonNegativeSafe(r.cacheWrite1h)
  }

  predicate OrderedRates(r: Rates)
  {
    r.cacheRead <= r.input <= r.cacheWrite5m <= r.cacheWrite1h
  }

  predicate ValidTokens(t: Tokens)
  {
    && NonNegativeSafe(t.uncachedInput) && NonNegativeSafe(t.output) && NonNegativeSafe(t.cacheRead)
    && NonNegativeSafe(t.cacheWrite5m) && NonNegativeSafe(t.cacheWrite1h)
  }

  /** Every kind of token at its own rate. */
  function Cost(t: Tokens, r: Rates): int
  {
    t.uncachedInput * r.input + t.output * r.output + t.cacheRead * r.cacheRead
    + t.cacheWrite5m * r.cacheWrite5m + t.cacheWrite1h * r.cacheWrite1h
  }

  function Charge(t: Tokens, r: Rates): Result<int>
  {
    if !ValidRates(r) || !ValidTokens(t) then RangeError else ToSafeNumber(Cost(t, r))
  }

  function PartSum(parts: seq<(int, int)>): int
  {
    if parts == [] then 0
    else PartSum(parts[..|parts| - 1]) + parts[|parts| - 1].0 * parts[|parts| - 1].1
  }

  method CallChargeMicro(t: Tokens, r: Rates) returns (charge: Result<int>)
    ensures charge == Charge(t, r)
  {
    if !ValidRates(r) {
      return RangeError;
    }
    var parts := [(t.uncachedInput, r.input), (t.output, r.output), (t.cacheRead, r.cacheRead),
                  (t.cacheWrite5m, r.cacheWrite5m), (t.cacheWrite1h, r.cacheWrite1h)];
    var total := 0;
    for i := 0 to |parts|
      invariant total == PartSum(parts[..i])
      invariant forall j :: 0 <= j < i ==> NonNegativeSafe(parts[j].0)
    {
      var (count, rate) := parts[i];
      if !NonNegativeSafe(count) {
        return RangeError;
      }
      assert parts[..i + 1][..i] == parts[..i];
      total := total + count * rate;
    }
    FivePartSum(parts);
    assert NonNegativeSafe(parts[0].0) && NonNegativeSafe(parts[1].0) && NonNegativeSafe(parts[2].0)
        && NonNegativeSafe(parts[3].0) && NonNegativeSafe(parts[4].0);
    charge := ToSafeNumber(total);
  }

  lemma FivePartSum(p: seq<(int, int)>)
    requires |p| == 5
    ensures PartSum(p[..5]) ==
            p[0].0 * p[0].1 + p[1].0 * p[1].1 + p[2].0 * p[2].1 + p[3].0 * p[3].1 + p[4].0 * p[4].1
  {
    assert p[..5][..4] == p[..4] && p[..4][..3] == p[..3] && p[..3][..2] == p[..2] && p[..2][..1] == p[..1]
        && p[..1][..0] == [];
    assert PartSum(p[..1]) == p[0].0 * p[0].1;
    assert PartSum(p[..2]) == PartSum(p[..1]) + p[1].0 * p[1].1;
    assert PartSum(p[..3]) == PartSum(p[..2]) + p[2].0 * p[2].1;
    assert PartSum(p[..4]) == PartSum(p[..3]) + p[3].0 * p[3].1;
    assert PartSum(p[..5]) == PartSum(p[..4]) + p[4].0 * p[4].1;
  }

  function InputMicro(g: Regions, r: Rates): int
  {
    g.oneHour * r.cacheWrite1h + g.fiveMinute * r.cacheWrite5m + g.uncached * r.input
    + FRAMING_TOKENS * r.cacheWrite1h
  }

  function InputTokens(g: Regions): int
  {
    g.oneHour + g.fiveMinute + g.uncached + FRAMING_TOKENS
  }

  predicate ValidRegions(g: Regions)
  {
    NonNegativeSafe(g.oneHour) && NonNegativeSafe(g.fiveMinute) && NonNegativeSafe(g.uncached)
  }

  /** The most one call can cost, from the byte counts of its body. */
  function CallUpperBound(g: Regions, maxOutput: int, r: Rates): Result<Bound>
  {
    if !ValidRates(r) || !OrderedRates(r) || !ValidRegions(g) then RangeError
    else if !NonNegativeSafe(maxOutput) || maxOutput == 0 then RangeError
    else
      var tokens :- ToSafeNumber(InputTokens(g));
      var input :- ToSafeNumber(InputMicro(g, r));
      var total :- ToSafeNumber(InputMicro(g, r) + maxOutput * r.output);
      Ok(Bound(tokens, input, total))
  }

  /** The largest output ceiling whose bound fits in `room`; 0 when the input alone does not fit. */
  function MaxOutputTokensWithin(room: int, inputMicro: int, r: Rates): Result<int>
  {
    if !SafeInteger(room) || !NonNegativeSafe(inputMicro) || !ValidRates(r) || r.output == 0 then RangeError
    else
      var spare := room - inputMicro;
      if spare <= 0 then Ok(0) else Ok((spare - spare % r.output) / r.output)
  }

  // ---------------------------------------------------------------- the bound is an upper bound

  /** Input tokens of one stretch of the prompt, by the rate each is billed at. */
  datatype Billed = Billed(read: nat, input: nat, write5m: nat, write1h: nat)
  {
    function Count(): nat { read + input + write5m + write1h }

    function CostAt(r: Rates): int
    {
      read * r.cacheRead + input * r.input + write5m * r.cacheWrite5m + write1h * r.cacheWrite1h
    }
  }

  /** Where a call's tokens fall. */
  datatype Attribution = Attribution(oneHour: Billed, fiveMinute: Billed, uncached: Billed, framing: Billed,
                                     output: nat)

  /**
    What the provider may bill for a body with these regions: no more tokens than bytes in any region, each at
    a rate its region allows, bounded framing, and output up to the ceiling.
   */
  predicate Billable(a: Attribution, g: Regions, maxOutput: int)
  {
    && a.oneHour.Count() <= g.oneHour
    && a.fiveMinute.Count() <= g.fiveMinute && a.fiveMinute.write1h == 0
    && a.uncached.Count() <= g.uncached && a.uncached.write1h == 0 && a.uncached.write5m == 0
    && a.framing.Count() <= 2_048
    && a.output <= maxOutput
  }

  function TokensOf(a: Attribution): Tokens
  {
    Tokens(a.oneHour.input + a.fiveMinute.input + a.uncached.input + a.framing.input,
           a.output,
           a.oneHour.read + a.fiveMinute.read + a.uncached.read + a.framing.read,
           a.oneHour.write5m + a.fiveMinute.write5m + a.uncached.write5m + a.framing.write5m,
           a.oneHour.write1h + a.fiveMinute.write1h + a.uncached.write1h + a.framing.write1h)
  }

  lemma MulMonotone(a: nat, b: nat, c: nat, d: nat)
    requires a <= b && c <= d
    ensures 0 <= a * c <= b * d
  {
    assert b * d == a * c + a * (d - c) + (b - a) * d;
    assert a * (d - c) >= 0 && (b - a) * d >= 0 && a * c >= 0;
  }

  /** A stretch costs at most its bytes at the dearest rate in it. */
  lemma StretchBound(b: Billed, bytes: int, r: Rates, dearest: nat)
    requires ValidRates(r) && OrderedRates(r) && b.Count() <= bytes
    requires r.input <= dearest
    requires b.write5m > 0 ==> r.cacheWrite5m <= dearest
    requires b.write1h > 0 ==> r.cacheWrite1h <= dearest
    ensures 0 <= b.CostAt(r) <= bytes * dearest
  {
    KindBound(b.read, r.cacheRead, dearest);
    KindBound(b.input, r.input, dearest);
    KindBound(b.write5m, r.cacheWrite5m, dearest);
    KindBound(b.write1h, r.cacheWrite1h, dearest);
    Distribute4(b.read, b.input, b.write5m, b.write1h, dearest);
    MulMonotone(b.Count(), bytes, dearest, dearest);
  }

  lemma KindBound(n: nat, rate: nat, dearest: nat)
    requires n > 0 ==> rate <= dearest
    ensures 0 <= n * rate <= n * dearest
  {
    if n > 0 { MulMonotone(n, n, rate, dearest); }
  }

  lemma CostByStretch(a: Attribution, r: Rates)
    ensures Cost(TokensOf(a), r) ==
            a.oneHour.CostAt(r) + a.fiveMinute.CostAt(r) + a.uncached.CostAt(r) + a.framing.CostAt(r)
            + a.output * r.output
  {
    Distribute4(a.oneHour.input, a.fiveMinute.input, a.uncached.input, a.framing.input, r.input);
    Distribute4(a.oneHour.read, a.fiveMinute.read, a.uncached.read, a.framing.read, r.cacheRead);
    Distribute4(a.oneHour.write5m, a.fiveMinute.write5m, a.uncached.write5m, a.framing.write5m, r.cacheWrite5m);
    Distribute4(a.oneHour.write1h, a.fiveMinute.write1h, a.uncached.write1h, a.framing.write1h, r.cacheWrite1h);
  }

  lemma Distribute4(a: int, b: int, c: int, d: int, x: int)
    ensures (a + b + c + d) * x == a * x + b * x + c * x + d * x
  {
  }

  /** Whatever the provider bills within the regions and the ceiling, the charge is at most the bound. */
  lemma ChargeWithinBound(a: Attribution, g: Regions, maxOutput: int, r: Rates)
    requires Billable(a, g, maxOutput)
    requires CallUpperBound(g, maxOutput, r).Ok?
    ensures Charge(TokensOf(a), r).Ok?
    ensures 0 <= Charge(TokensOf(a), r).value <= CallUpperBound(g, maxOutput, r).value.micro
  {
    StretchBound(a.oneHour, g.oneHour, r, r.cacheWrite1h);
    StretchBound(a.fiveMinute, g.fiveMinute, r, r.cacheWrite5m);
    StretchBound(a.uncached, g.uncached, r, r.input);
    StretchBound(a.framing, FRAMING_TOKENS, r, r.cacheWrite1h);
    MulMonotone(a.output, maxOutput, r.output, r.output);
    CostByStretch(a, r);
    hide Cost;
  }

  /** Every byte at the dearest rate its region allows, every framing token, all the output. */
  function Dearest(g: Regions, maxOutput: nat): Attribution
    requires ValidRegions(g)
  {
    Attribution(Billed(0, 0, 0, g.oneHour), Billed(0, 0, g.fiveMinute, 0), Billed(0, g.uncached, 0, 0),
                Billed(0, 0, 0, 2_048), maxOutput)
  }

  /** The total of a call's input tokens. */
  function InputCount(t: Tokens): int
  {
    t.uncachedInput + t.cacheRead + t.cacheWrite5m + t.cacheWrite1h
  }

  /**
    The bound is the least there is: it is what the dearest billing comes to. Without its output that billing
    costs the input bound and has the input tokens of the bound.
   */
  lemma BoundIsAttained(g: Regions, maxOutput: int, r: Rates)
    requires CallUpperBound(g, maxOutput, r).Ok?
    ensures var bound, a := CallUpperBound(g, maxOutput, r).value, Dearest(g, maxOutput);
      && Billable(a, g, maxOutput)
      && Charge(TokensOf(a), r) == Ok(bound.micro)
      && Charge(TokensOf(a.(output := 0)), r) == Ok(bound.inputMicro)
      && InputCount(TokensOf(a)) == bound.inputTokens
  {
    var a := Dearest(g, maxOutput);
    CostByStretch(a, r);
    CostByStretch(a.(output := 0), r);
    DearestCosts(g, r);
    ChargeWithinBound(a, g, maxOutput, r);
    ChargeWithinBound(a.(output := 0), g, maxOutput, r);
    hide Cost;
  }

  lemma DearestCosts(g: Regions, r: Rates)
    requires ValidRegions(g)
    ensures var a := Dearest(g, 0);
      a.oneHour.CostAt(r) + a.fiveMinute.CostAt(r) + a.uncached.CostAt(r) + a.framing.CostAt(r) == InputMicro(g, r)
  {
  }

  predicate IsSafeCount(n: int)
  {
    0 <= n <= 9_007_199_254_740_991
  }

  /** A charge is refused exactly when a count, a rate or the total is no safe integer. */
  lemma ChargeRefusedIff(t: Tokens, r: Rates)
    ensures Charge(t, r).Ok? <==>
            && IsSafeCount(t.uncachedInput) && IsSafeCount(t.output) && IsSafeCount(t.cacheRead)
            && IsSafeCount(t.cacheWrite5m) && IsSafeCount(t.cacheWrite1h)
            && IsSafeCount(r.input) && IsSafeCount(r.output) && IsSafeCount(r.cacheRead)
            && IsSafeCount(r.cacheWrite5m) && IsSafeCount(r.cacheWrite1h)
            && Cost(t, r) <= 9_007_199_254_740_991
  {
    if ValidTokens(t) && ValidRates(r) {
      CostNotNegative(t, r);
    }
    hide Cost;
  }

  lemma CostNotNegative(t: Tokens, r: Rates)
    requires ValidTokens(t) && ValidRates(r)
    ensures Cost(t, r) >= 0
  {
    MulMonotone(0, t.uncachedInput, 0, r.input);
    MulMonotone(0, t.output, 0, r.output);
    MulMonotone(0, t.cacheRead, 0, r.cacheRead);
    MulMonotone(0, t.cacheWrite5m, 0, r.cacheWrite5m);
    MulMonotone(0, t.cacheWrite1h, 0, r.cacheWrite1h);
  }

  /**
    A bound is refused exactly when a size, a rate or a total is no safe integer, a rate is out of order or the
    ceiling is 0.
   */
  lemma BoundRefusedIff(g: Regions, maxOutput: int, r: Rates)
    ensures CallUpperBound(g, maxOutput, r).Ok? <==>
            && IsSafeCount(g.oneHour) && IsSafeCount(g.fiveMinute) && IsSafeCount(g.uncached)
            && IsSafeCount(maxOutput) && maxOutput > 0
            && IsSafeCount(r.input) && IsSafeCount(r.output) && IsSafeCount(r.cacheRead)
            && IsSafeCount(r.cacheWrite5m) && IsSafeCount(r.cacheWrite1h)
            && r.cacheRead <= r.input <= r.cacheWrite5m <= r.cacheWrite1h
            && g.oneHour + g.fiveMinute + g.uncached + 2_048 <= 9_007_199_254_740_991
            && InputMicro(g, r) + maxOutput * r.output <= 9_007_199_254_740_991
  {
    if ValidRates(r) && ValidRegions(g) && NonNegativeSafe(maxOutput) {
      InputNotNegative(g, r);
      MulMonotone(0, maxOutput, 0, r.output);
    }
    hide InputMicro;
  }

  // ---------------------------------------------------------------- sizing the ceiling

  /** A ceiling is computed exactly for a safe room and input and safe rates with an output rate. */
  lemma CeilingRefusedIff(room: int, input: int, r: Rates)
    ensures MaxOutputTokensWithin(room, input, r).Ok? <==>
            && -9_007_199_254_740_991 <= room <= 9_007_199_254_740_991 && IsSafeCount(input)
            && IsSafeCount(r.input) && IsSafeCount(r.output) && IsSafeCount(r.cacheRead)
            && IsSafeCount(r.cacheWrite5m) && IsSafeCount(r.cacheWrite1h) && r.output > 0
  {
  }

  /** For ceilings of at least 1: the bound fits in the room exactly up to the ceiling computed for it. */
  lemma CeilingIsExact(g: Regions, m: int, r: Rates, room: int)
    requires SafeInteger(room) && r.output > 0 && m >= 1
    requires ValidRates(r) && OrderedRates(r) && ValidRegions(g)
    requires SafeInteger(InputTokens(g)) && SafeInteger(InputMicro(g, r))
    ensures MaxOutputTokensWithin(room, InputMicro(g, r), r).Ok?
    ensures MaxOutputTokensWithin(room, InputMicro(g, r), r).value >= 0
    ensures m <= MaxOutputTokensWithin(room, InputMicro(g, r), r).value <==>
            && CallUpperBound(g, m, r).Ok?
            && CallUpperBound(g, m, r).value.micro <= room
  {
    hide InputMicro, InputTokens, CallUpperBound, MaxOutputTokensWithin;
    var spare := room - InputMicro(g, r);
    InputNotNegative(g, r);
    CeilingArithmetic(spare, r.output, m);
    MulMonotone(1, m, 1, r.output);
    MulMonotone(1, r.output, m, m);
    WithinIs(room, InputMicro(g, r), r);
    BoundFitsIff(g, m, r, room);
  }

  lemma WithinIs(room: int, input: int, r: Rates)
    requires SafeInteger(room) && NonNegativeSafe(input) && ValidRates(r) && r.output > 0
    ensures var spare := room - input;
      MaxOutputTokensWithin(room, input, r) == Ok(if spare <= 0 then 0 else (spare - spare % r.output) / r.output)
  {
  }

  lemma BoundFitsIff(g: Regions, m: int, r: Rates, room: int)
    requires SafeInteger(room) && 1 <= m <= m * r.output
    requires ValidRates(r) && OrderedRates(r) && ValidRegions(g)
    requires SafeInteger(InputTokens(g)) && NonNegativeSafe(InputMicro(g, r))
    ensures InputMicro(g, r) + m * r.output <= room <==>
            CallUpperBound(g, m, r).Ok? && CallUpperBound(g, m, r).value.micro <= room
  {
    hide InputMicro, InputTokens;
  }

  lemma InputNotNegative(g: Regions, r: Rates)
    requires ValidRates(r) && ValidRegions(g)
    ensures InputMicro(g, r) >= 0
  {
    MulMonotone(0, g.oneHour, 0, r.cacheWrite1h);
    MulMonotone(0, g.fiveMinute, 0, r.cacheWrite5m);
    MulMonotone(0, g.uncached, 0, r.input);
  }

  lemma CeilingArithmetic(spare: int, rate: nat, m: int)
    requires rate > 0 && m >= 1
    ensures spare > 0 ==> (m <= (spare - spare % rate) / rate <==> m * rate <= spare)
    ensures spare > 0 ==> (spare - spare % rate) / rate >= 0
    ensures spare <= 0 ==> m * rate > spare
  {
    MulMonotone(1, m, 1, rate);
    if spare > 0 {
      var q := spare / rate;
      assert spare - spare % rate == q * rate;
      DivIs(q * rate, rate, q);
      DivBounds(spare, rate);
      MulStep(q, m, rate);
      if m <= q { MulMonotone(m, q, rate, rate); }
    }
  }
}
