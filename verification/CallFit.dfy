/**
  Whether one model call may start (apps/server/src/services/credit-call-fit.ts): the ladder that admits a
  call at the full output ceiling, at a lower one, asks for less history, or refuses. Over a task's calls the
  ladder keeps what is charged within what was reserved.
 */
module CallFit {
  import opened Wrappers
  import opened Calendar
  import opened Proration
  import opened CallBudget

  datatype Purpose = Plan | Answer

  function CeilingTokens(p: Purpose): (n: int)
    ensures n > 0
  {
    if p.Plan? then 8_192 else 4_096
  }

  function FloorTokens(p: Purpose): (n: int)
    ensures 0 < n < CeilingTokens(p)
  {
    if p.Plan? then 1_024 else 512
  }

  datatype Fit =
    | AtCeiling(maxOutput: int, bound: Bound)
    | LowerOutput(maxOutput: int, bound: Bound)
    | TrimHistory(budget: int, dropBytes: int)
    | Refuse(needed: int, shortfall: int)
  {
    predicate Admits() { AtCeiling? || LowerOutput? }
  }

  function CeilDiv(a: int, b: int): int
    requires b > 0
  {
    var raised := a + b - 1;
    (raised - raised % b) / b
  }

  /** The rungs below the ceiling, for a body whose input bound is `input`. */
  function TrimOrRefuse(p: Purpose, room: int, input: int, r: Rates, history: int): Result<Fit>
  {
    var floorOutput := FloorTokens(p) * r.output;
    var needed := input + floorOutput;
    var refuse := Ok(Refuse(needed, needed - room));
    var allowedInput := room - floorOutput;
    if p.Answer? || history == 0 || allowedInput <= 0 then refuse
    else if r.input <= 0 then RangeError
    else
      var dropBytes := CeilDiv(input - allowedInput, r.input);
      if dropBytes > history then refuse else Ok(TrimHistory(history - dropBytes, dropBytes))
  }

  function FitCall(p: Purpose, room: int, g: Regions, r: Rates, history: int): Result<Fit>
  {
    if !SafeInteger(room) || !NonNegativeSafe(history) || r.output <= 0 then RangeError
    else
      var ceiling := CeilingTokens(p);
      var atCeiling :- CallUpperBound(g, ceiling, r);
      if atCeiling.micro <= room then Ok(AtCeiling(ceiling, atCeiling))
      else
        var within :- MaxOutputTokensWithin(room, atCeiling.inputMicro, r);
        var allowed := if within <= ceiling then within else ceiling;
        if allowed >= FloorTokens(p) then
          var bound :- CallUpperBound(g, allowed, r);
          Ok(LowerOutput(allowed, bound))
        else TrimOrRefuse(p, room, atCeiling.inputMicro, r, history)
  }

  // ---------------------------------------------------------------- each rung

  /** What the ladder needs of its arguments; beyond it the ladder itself decides. */
  predicate Priced(p: Purpose, room: int, g: Regions, r: Rates, history: int)
  {
    && SafeInteger(room) && NonNegativeSafe(history) && r.output > 0
    && CallUpperBound(g, CeilingTokens(p), r).Ok?
  }

  /** The largest output ceiling, up to the full one, whose bound fits in the room; 0 if none does. */
  function LargestFitting(p: Purpose, room: int, g: Regions, r: Rates): int
    requires Priced(p, room, g, r, 0)
  {
    var within := MaxOutputTokensWithin(room, InputMicro(g, r), r);
    if within.Ok? && within.value <= CeilingTokens(p) then within.value else CeilingTokens(p)
  }

  lemma PricedFacts(p: Purpose, room: int, g: Regions, r: Rates)
    requires Priced(p, room, g, r, 0)
    ensures ValidRates(r) && OrderedRates(r) && ValidRegions(g)
    ensures SafeInteger(InputTokens(g)) && SafeInteger(InputMicro(g, r))
    ensures CallUpperBound(g, CeilingTokens(p), r).value.inputMicro == InputMicro(g, r)
    ensures CallUpperBound(g, CeilingTokens(p), r).value.micro == InputMicro(g, r) + CeilingTokens(p) * r.output
  {
    hide InputMicro, InputTokens;
  }

  /** `m` tokens fit exactly up to the largest fitting ceiling. */
  lemma FitsUpTo(p: Purpose, room: int, g: Regions, r: Rates, m: int)
    requires Priced(p, room, g, r, 0) && 1 <= m <= CeilingTokens(p)
    ensures m <= LargestFitting(p, room, g, r) <==>
            CallUpperBound(g, m, r).Ok? && CallUpperBound(g, m, r).value.micro <= room
  {
    hide InputMicro, InputTokens, CallUpperBound, MaxOutputTokensWithin;
    PricedFacts(p, room, g, r);
    CeilingIsExact(g, m, r, room);
  }

  /** The largest fitting ceiling is where the bound at it fits and the bound one above does not. */
  lemma LargestFittingArithmetic(p: Purpose, room: int, g: Regions, r: Rates)
    requires Priced(p, room, g, r, 0)
    ensures 0 <= LargestFitting(p, room, g, r) <= CeilingTokens(p)
    ensures forall m :: 1 <= m <= CeilingTokens(p) ==>
              (m <= LargestFitting(p, room, g, r) <==> InputMicro(g, r) + m * r.output <= room)
  {
    hide InputMicro, InputTokens, CallUpperBound;
    PricedFacts(p, room, g, r);
    InputNotNegative(g, r);
    var spare := room - InputMicro(g, r);
    forall m | 1 <= m <= CeilingTokens(p)
      ensures m <= LargestFitting(p, room, g, r) <==> InputMicro(g, r) + m * r.output <= room
    {
      CeilingArithmetic(spare, r.output, m);
    }
    if spare > 0 {
      DivBounds(spare, r.output);
      QuotientNotNegative(spare, r.output);
    }
  }

  lemma QuotientNotNegative(n: nat, d: nat)
    requires d > 0
    ensures (n - n % d) / d >= 0
  {
    var q := n / d;
    assert n - n % d == q * d;
    DivIs(q * d, d, q);
  }

  /**
    The ladder, rung by rung: the full ceiling when it fits, otherwise the largest ceiling that fits as long as
    it reaches the floor, otherwise less history or a refusal.
   */
  lemma LadderIsExact(p: Purpose, room: int, g: Regions, r: Rates, history: int)
    requires Priced(p, room, g, r, history)
    ensures var largest, fit := LargestFitting(p, room, g, r), FitCall(p, room, g, r, history);
      if largest >= FloorTokens(p) then
        && fit.Ok? && fit.value.Admits()
        && (fit.value.AtCeiling? <==> largest == CeilingTokens(p))
        && fit.value.maxOutput == largest
        && CallUpperBound(g, largest, r) == Ok(fit.value.bound)
      else fit == TrimOrRefuse(p, room, InputMicro(g, r), r, history)
  {
    hide InputMicro, InputTokens, CallUpperBound, MaxOutputTokensWithin, TrimOrRefuse;
    var largest, ceiling := LargestFitting(p, room, g, r), CeilingTokens(p);
    PricedFacts(p, room, g, r);
    LargestFittingArithmetic(p, room, g, r);
    CeilingIsExact(g, ceiling, r, room);
    FitsUpTo(p, room, g, r, ceiling);
    if largest >= 1 {
      FitsUpTo(p, room, g, r, largest);
    }
  }

  /** An admitted call carries a ceiling between floor and full ceiling, and a bound that fits in the room. */
  lemma AdmittedBoundFits(p: Purpose, room: int, g: Regions, r: Rates, history: int)
    requires FitCall(p, room, g, r, history).Ok? && FitCall(p, room, g, r, history).value.Admits()
    ensures var fit := FitCall(p, room, g, r, history).value;
      && FloorTokens(p) <= fit.maxOutput <= CeilingTokens(p)
      && CallUpperBound(g, fit.maxOutput, r) == Ok(fit.bound)
      && fit.bound.micro <= room
  {
    FitIsPriced(p, room, g, r, history);
    hide InputMicro, InputTokens, CallUpperBound, FitCall, TrimOrRefuse, LargestFitting;
    LadderIsExact(p, room, g, r, history);
    LowRungsAdmitNothing(p, room, InputMicro(g, r), r, history);
    LargestFittingArithmetic(p, room, g, r);
    var largest := LargestFitting(p, room, g, r);
    if largest >= 1 {
      FitsUpTo(p, room, g, r, largest);
    }
  }

  lemma FitIsPriced(p: Purpose, room: int, g: Regions, r: Rates, history: int)
    requires FitCall(p, room, g, r, history).Ok?
    ensures Priced(p, room, g, r, history)
  {
    hide InputMicro, InputTokens, MaxOutputTokensWithin, TrimOrRefuse;
  }

  lemma LowRungsAdmitNothing(p: Purpose, room: int, input: int, r: Rates, history: int)
    ensures var fit := TrimOrRefuse(p, room, input, r, history); fit.Ok? ==> !fit.value.Admits()
  {
  }

  lemma CeilDivRoundsUp(a: int, b: nat)
    requires b > 0
    ensures CeilDiv(a, b) * b >= a
    ensures a >= 1 ==> CeilDiv(a, b) >= 1
  {
    var raised := a + b - 1;
    var q := raised / b;
    DivBounds(raised, b);
    assert raised - raised % b == q * b;
    DivIs(q * b, b, q);
    MulStep(q, 1, b);
  }

  /**
    Below the admitting rungs: a refusal always names a positive shortfall against the bound at the floor; a
    trim always asks for at least one byte and no more than there is, so the history strictly shrinks.
   */
  lemma LowRungsAreHonest(p: Purpose, room: int, g: Regions, r: Rates, history: int)
    requires FitCall(p, room, g, r, history).Ok?
    ensures var fit := FitCall(p, room, g, r, history).value;
      && (fit.Refuse? ==> fit.shortfall > 0 && fit.needed == InputMicro(g, r) + FloorTokens(p) * r.output
                          && fit.needed == room + fit.shortfall)
      && (fit.TrimHistory? ==> && p.Plan? && r.input > 0
                               && 1 <= fit.dropBytes <= history && 0 <= fit.budget == history - fit.dropBytes < history
                               && fit.dropBytes * r.input
                                  >= InputMicro(g, r) + FloorTokens(p) * r.output - room)
  {
    FitIsPriced(p, room, g, r, history);
    hide InputMicro, InputTokens, CallUpperBound, LargestFitting;
    LadderIsExact(p, room, g, r, history);
    LargestFittingArithmetic(p, room, g, r);
    var floorOutput := FloorTokens(p) * r.output;
    if LargestFitting(p, room, g, r) < FloorTokens(p) {
      assert InputMicro(g, r) + floorOutput > room;
      if r.input > 0 {
        CeilDivRoundsUp(InputMicro(g, r) - (room - floorOutput), r.input);
      }
    }
    hide FitCall;
  }

  lemma CeilDivLeast(a: int, b: nat)
    requires b > 0
    ensures (CeilDiv(a, b) - 1) * b < a <= CeilDiv(a, b) * b
  {
    CeilDivRoundsUp(a, b);
    var raised := a + b - 1;
    var q := raised / b;
    DivBounds(raised, b);
    assert raised - raised % b == q * b;
    DivIs(q * b, b, q);
    assert (q - 1) * b == q * b - b;
  }

  /** The ladder refuses to decide for an unsafe room or history, a free output rate or a body it cannot bound. */
  lemma FitRefusedUnpriced(p: Purpose, room: int, g: Regions, r: Rates, history: int)
    ensures (&& -9_007_199_254_740_991 <= room <= 9_007_199_254_740_991 && IsSafeCount(history)
             && r.output > 0 && CallUpperBound(g, if p.Plan? then 8_192 else 4_096, r).Ok?)
            <==> Priced(p, room, g, r, history)
    ensures FitCall(p, room, g, r, history).Ok? ==> Priced(p, room, g, r, history)
  {
    hide CallUpperBound;
    if FitCall(p, room, g, r, history).Ok? {
      FitIsPriced(p, room, g, r, history);
    }
  }

  /**
    The admitting rungs in tokens: a plan call is sent with 8,192 tokens of output if that fits, otherwise with
    the most that fits from 1,024 up; an answer call with 4,096, otherwise the most that fits from 512 up.
   */
  lemma LadderInTokens(p: Purpose, room: int, g: Regions, r: Rates, history: int)
    requires Priced(p, room, g, r, history)
    ensures var fit, input := FitCall(p, room, g, r, history), InputMicro(g, r);
      var top, floor := if p.Plan? then 8_192 else 4_096, if p.Plan? then 1_024 else 512;
      && (fit.Ok? && fit.value.AtCeiling? <==> input + top * r.output <= room)
      && (fit.Ok? && fit.value.LowerOutput? <==> input + floor * r.output <= room < input + top * r.output)
      && (fit.Ok? && fit.value.AtCeiling? ==> fit.value.maxOutput == top)
      && (fit.Ok? && fit.value.LowerOutput? ==>
            var m := fit.value.maxOutput;
            floor <= m < top && input + m * r.output <= room < input + (m + 1) * r.output)
      && (fit.Ok? && fit.value.Admits() ==> CallUpperBound(g, fit.value.maxOutput, r) == Ok(fit.value.bound))
  {
    hide InputMicro, InputTokens, CallUpperBound, FitCall, TrimOrRefuse, LargestFitting;
    LadderIsExact(p, room, g, r, history);
    LowRungsAdmitNothing(p, room, InputMicro(g, r), r, history);
    LargestFittingArithmetic(p, room, g, r);
  }

  /**
    The low rungs exactly. A body over its room by `excess` at the floor is a plan call to be trimmed when its
    history covers the excess at the input rate and the floor's output leaves room for input; then the fewest
    bytes that cover it are asked for. An input rate of 0 is an error there; anything else is refused.
   */
  lemma LowRungsExactly(p: Purpose, room: int, g: Regions, r: Rates, history: int)
    requires Priced(p, room, g, r, history)
    requires InputMicro(g, r) + (if p.Plan? then 1_024 else 512) * r.output > room
    ensures var floorOutput := (if p.Plan? then 1_024 else 512) * r.output;
      var fit, excess := FitCall(p, room, g, r, history), InputMicro(g, r) + floorOutput - room;
      var priced := p.Plan? && history > 0 && room > floorOutput;
      && (fit.RangeError? <==> priced && r.input == 0)
      && (fit.Ok? ==> fit.value.TrimHistory? || fit.value.Refuse?)
      && (fit.Ok? && fit.value.TrimHistory? <==> priced && r.input > 0 && excess <= history * r.input)
      && (fit.Ok? && fit.value.TrimHistory? ==>
            var d := fit.value.dropBytes;
            (d - 1) * r.input < excess <= d * r.input && fit.value.budget == history - d)
      && (fit.Ok? && fit.value.Refuse? ==> fit.value == Refuse(room + excess, excess))
  {
    PricedFacts(p, room, g, r);
    hide InputMicro, InputTokens, CallUpperBound, LargestFitting, FitCall;
    LadderIsExact(p, room, g, r, history);
    LargestFittingArithmetic(p, room, g, r);
    TrimExactly(p, room, InputMicro(g, r), r, history);
  }

  lemma TrimExactly(p: Purpose, room: int, input: int, r: Rates, history: int)
    requires history >= 0 && r.input >= 0
    ensures var floorOutput := FloorTokens(p) * r.output;
      var fit, excess := TrimOrRefuse(p, room, input, r, history), input + floorOutput - room;
      var priced := p.Plan? && history > 0 && room > floorOutput;
      && (fit.RangeError? <==> priced && r.input == 0)
      && (fit.Ok? && fit.value.TrimHistory? <==> priced && r.input > 0 && excess <= history * r.input)
      && (fit.Ok? ==>
            || fit.value == Refuse(room + excess, excess)
            || (fit.value.TrimHistory? && var d := fit.value.dropBytes;
                  (d - 1) * r.input < excess <= d * r.input && fit.value.budget == history - d))
  {
    if r.input > 0 {
      var excess := input - (room - FloorTokens(p) * r.output);
      CeilDivLeast(excess, r.input);
      MulStep(history, CeilDiv(excess, r.input), r.input);
      MulStep(CeilDiv(excess, r.input) - 1, history, r.input);
      MulStep(CeilDiv(excess, r.input), history, r.input);
    }
    hide CeilDiv;
  }

  /** Every sum the low rungs form for this call, in the source's order. */
  function LowRungSums(p: Purpose, room: int, input: int, r: Rates, history: int): seq<int>
  {
    var floorOutput := FloorTokens(p) * r.output;
    var needed, allowedInput := input + floorOutput, room - floorOutput;
    var excess := input - allowedInput;
    [floorOutput, needed, needed - room]
    + (if p.Answer? || history == 0 then [] else [allowedInput])
    + (if Trims(p, allowedInput, r, history) then [excess, excess + r.input, excess + r.input - 1] else [])
  }

  /** Whether the ladder gets as far as pricing a trim. */
  predicate Trims(p: Purpose, allowedInput: int, r: Rates, history: int)
  {
    p.Plan? && history != 0 && allowedInput > 0 && r.input > 0
  }

  /**
    Below the admitting rungs, all sums are integers a double holds exactly, so that computing in doubles is
    computing exactly, if and only if the shortfall is one and, where a trim is priced, so is the shortfall
    raised by the price of an input token. If an input token costs no more than the output between floor and
    ceiling, as on every card, the shortfall alone decides.
   */
  lemma LowRungSumsAreExact(p: Purpose, room: int, g: Regions, r: Rates, history: int)
    requires Priced(p, room, g, r, history) && LargestFitting(p, room, g, r) < FloorTokens(p)
    ensures var shortfall := InputMicro(g, r) + FloorTokens(p) * r.output - room;
      var exact := forall n :: n in LowRungSums(p, room, InputMicro(g, r), r, history) ==> SafeInteger(n);
      && shortfall > 0
      && (exact <==>
            && shortfall <= MAX_SAFE
            && (Trims(p, room - FloorTokens(p) * r.output, r, history) ==> shortfall + r.input <= MAX_SAFE))
      && (r.input <= (CeilingTokens(p) - FloorTokens(p)) * r.output ==> (exact <==> shortfall <= MAX_SAFE))
  {
    hide InputMicro, InputTokens, LargestFitting;
    PricedFacts(p, room, g, r);
    InputNotNegative(g, r);
    LargestFittingArithmetic(p, room, g, r);
    Difference(CeilingTokens(p), FloorTokens(p), r.output);
    MulMonotone(0, FloorTokens(p), 0, r.output);
    MulMonotone(FloorTokens(p), CeilingTokens(p), r.output, r.output);
    hide CallUpperBound;
    SumsAreSafe(p, room, InputMicro(g, r), r, history);
  }

  lemma SumsAreSafe(p: Purpose, room: int, input: int, r: Rates, history: int)
    requires SafeInteger(room) && NonNegativeSafe(input) && ValidRates(r) && r.output > 0
    requires 0 <= FloorTokens(p) * r.output && room < input + FloorTokens(p) * r.output <= MAX_SAFE
    ensures var shortfall := input + FloorTokens(p) * r.output - room;
      (forall n :: n in LowRungSums(p, room, input, r, history) ==> SafeInteger(n)) <==>
      && shortfall <= MAX_SAFE
      && (Trims(p, room - FloorTokens(p) * r.output, r, history) ==> shortfall + r.input <= MAX_SAFE)
  {
    var sums := LowRungSums(p, room, input, r, history);
    var allowed := room - FloorTokens(p) * r.output;
    assert sums[2] in sums;
    if Trims(p, allowed, r, history) {
      assert sums == [sums[0], sums[1], sums[2], allowed, input - allowed, input - allowed + r.input,
                      input - allowed + r.input - 1];
      assert sums[5] in sums;
    }
  }

  // ---------------------------------------------------------------- trimming once is enough

  /** `h` is the body `g` rebuilt without at least `dropped` of its bytes, wherever they were. */
  predicate Rebuilt(h: Regions, g: Regions, dropped: int)
  {
    && 0 <= h.oneHour <= g.oneHour && 0 <= h.fiveMinute <= g.fiveMinute && 0 <= h.uncached <= g.uncached
    && (g.oneHour - h.oneHour) + (g.fiveMinute - h.fiveMinute) + (g.uncached - h.uncached) >= dropped
  }

  /** Every dropped byte saves at least the plain input rate. */
  lemma DroppingSaves(h: Regions, g: Regions, dropped: nat, r: Rates)
    requires ValidRates(r) && OrderedRates(r) && Rebuilt(h, g, dropped)
    ensures InputMicro(h, r) + dropped * r.input <= InputMicro(g, r)
  {
    var a, b, c := g.oneHour - h.oneHour, g.fiveMinute - h.fiveMinute, g.uncached - h.uncached;
    MulMonotone(a, a, r.input, r.cacheWrite1h);
    MulMonotone(b, b, r.input, r.cacheWrite5m);
    MulMonotone(dropped, a + b + c, r.input, r.input);
    Distribute4(a, b, c, 0, r.input);
    Difference(g.oneHour, h.oneHour, r.cacheWrite1h);
    Difference(g.fiveMinute, h.fiveMinute, r.cacheWrite5m);
    Difference(g.uncached, h.uncached, r.input);
  }

  lemma Difference(a: int, b: int, x: int)
    ensures (a - b) * x == a * x - b * x
  {
  }

  /** A smaller body can be priced if the larger one could. */
  lemma RebuiltIsPriced(p: Purpose, room: int, g: Regions, h: Regions, r: Rates, history: int, dropped: nat)
    requires Priced(p, room, g, r, 0) && Rebuilt(h, g, dropped) && NonNegativeSafe(history)
    ensures Priced(p, room, h, r, history)
  {
    PricedFacts(p, room, g, r);
    DroppingSaves(h, g, dropped, r);
    MulMonotone(0, dropped, 0, r.input);
    MulMonotone(0, CeilingTokens(p), 0, r.output);
    assert ValidRegions(h);
    InputNotNegative(h, r);
    hide InputMicro;
  }

  /**
    One round of trimming is enough: whatever bytes the caller drops, and from whichever regions, once it has
    dropped as many as asked the rebuilt call is admitted.
   */
  lemma TrimmedCallIsAdmitted(p: Purpose, room: int, g: Regions, r: Rates, history: int,
                              h: Regions, historyLeft: int)
    requires FitCall(p, room, g, r, history).Ok? && FitCall(p, room, g, r, history).value.TrimHistory?
    requires Rebuilt(h, g, FitCall(p, room, g, r, history).value.dropBytes) && NonNegativeSafe(historyLeft)
    ensures FitCall(p, room, h, r, historyLeft).Ok? && FitCall(p, room, h, r, historyLeft).value.Admits()
  {
    var dropped := FitCall(p, room, g, r, history).value.dropBytes;
    LowRungsAreHonest(p, room, g, r, history);
    FitIsPriced(p, room, g, r, history);
    PricedFacts(p, room, g, r);
    hide FitCall, InputMicro, InputTokens, CallUpperBound, TrimOrRefuse, LargestFitting;
    RebuiltIsPriced(p, room, g, h, r, historyLeft, dropped);
    DroppingSaves(h, g, dropped, r);
    LadderIsExact(p, room, h, r, historyLeft);
    LargestFittingArithmetic(p, room, h, r);
    assert InputMicro(h, r) + FloorTokens(p) * r.output <= room;
  }

  // ---------------------------------------------------------------- a task's calls

  /** One call of a task: its body, and what the provider bills for it. */
  datatype Call = Call(purpose: Purpose, regions: Regions, rates: Rates, history: int, billed: Attribution)

  /** A call is sent only when the ladder admits it, and is billed within the ceiling it was sent with. */
  predicate Admitted(room: int, call: Call)
  {
    var fit := FitCall(call.purpose, room, call.regions, call.rates, call.history);
    fit.Ok? && fit.value.Admits() && Billable(call.billed, call.regions, fit.value.maxOutput)
  }

  function ChargeOf(call: Call): int
  {
    match Charge(TokensOf(call.billed), call.rates)
    case Ok(charge) => charge
    case RangeError => 0
  }

  /** Calls made one after another, each fitted to what the ones before it left. */
  ghost predicate AdmittedRun(room: int, calls: seq<Call>)
    decreases |calls|
  {
    calls != [] ==> Admitted(room, calls[0]) && AdmittedRun(room - ChargeOf(calls[0]), calls[1..])
  }

  function TotalCharged(calls: seq<Call>): int
  {
    if calls == [] then 0 else ChargeOf(calls[0]) + TotalCharged(calls[1..])
  }

  /** An admitted call can always be charged, and what it costs fits in the room. */
  lemma AdmittedCallFits(room: int, call: Call)
    requires Admitted(room, call)
    ensures Charge(TokensOf(call.billed), call.rates).Ok?
    ensures 0 <= ChargeOf(call) <= room
  {
    hide FitCall, CallUpperBound, Charge;
    AdmittedBoundFits(call.purpose, room, call.regions, call.rates, call.history);
    var m := FitCall(call.purpose, room, call.regions, call.rates, call.history).value.maxOutput;
    ChargeWithinBound(call.billed, call.regions, m, call.rates);
  }

  /**
    Every call admitted is affordable: over any sequence of calls the total charged stays within the room the
    task started with.
   */
  lemma {:induction false} CallsStayWithinRoom(room: int, calls: seq<Call>)
    requires room >= 0 && AdmittedRun(room, calls)
    ensures 0 <= TotalCharged(calls) <= room
    ensures forall call :: call in calls ==> Charge(TokensOf(call.billed), call.rates).Ok?
    decreases |calls|
  {
    hide Admitted, ChargeOf, Charge, Cost;
    if calls != [] {
      AdmittedCallFits(room, calls[0]);
      CallsStayWithinRoom(room - ChargeOf(calls[0]), calls[1..]);
      assert calls == [calls[0]] + calls[1..];
    }
  }
}
