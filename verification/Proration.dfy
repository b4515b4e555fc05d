/**
  Shares of a monthly allowance (packages/api-types/src/ai-credits.ts). Amounts are microcredits; division
  is BigInt division, which truncates toward zero.
 */
module Proration {
  import opened Wrappers
  import opened Calendar

  const MICRO: int := 1_000_000

  function TruncDiv(a: int, b: int): int
    requires b > 0
  {
    if a >= 0 then a / b else -((-a) / b)
  }

  function ToSafeNumber(n: int): Result<int>
  {
    if SafeInteger(n) then Ok(n) else RangeError
  }

  predicate NonNegativeSafe(n: int)
  {
    0 <= n <= MAX_SAFE
  }

  function FloorToWholeCredits(micro: nat): (whole: nat)
    ensures whole % 1_000_000 == 0 && whole <= micro < whole + 1_000_000
  {
    micro / MICRO * MICRO
  }

  function ProratedWholeCreditsMicro(amount: int, portion: int, whole: int): Result<int>
  {
    if !SafeInteger(amount) || !NonNegativeSafe(portion) || !NonNegativeSafe(whole) then RangeError
    else if whole == 0 || portion > whole then RangeError
    else
      ScalePositive(whole);
      ToSafeNumber(TruncDiv(amount * portion, whole * MICRO) * MICRO)
  }

  lemma ScalePositive(whole: int)
    requires whole > 0
    ensures whole * MICRO > 0
  {
  }

  // ---------------------------------------------------------------- floors

  lemma DivBounds(x: int, d: int)
    requires d > 0
    ensures x / d * d <= x < x / d * d + d
  {
  }

  lemma MulNonNegative(x: nat, d: nat)
    ensures x * d >= 0
  {
  }

  lemma MulStep(a: int, b: int, d: int)
    requires d > 0
    ensures a < b ==> a * d + d <= b * d
  {
    var gap := b - a - 1;
    if gap >= 0 {
      MulNonNegative(gap, d);
      assert b == a + 1 + gap;
      assert b * d == (a + 1 + gap) * d == a * d + d + gap * d;
    }
  }

  lemma DivIs(x: int, d: int, q: int)
    requires d > 0 && q * d <= x < q * d + d
    ensures x / d == q
  {
    DivBounds(x, d);
    MulStep(x / d, q, d);
    MulStep(q, x / d, d);
  }

  lemma DivMonotone(x: int, y: int, d: int)
    requires d > 0 && x <= y
    ensures x / d <= y / d
  {
    DivBounds(x, d);
    DivBounds(y, d);
    MulStep(y / d, x / d, d);
  }

  /** Splitting a sum before dividing loses at most one. */
  lemma DivSum(x: int, y: int, d: int)
    requires d > 0
    ensures x / d + y / d <= (x + y) / d <= x / d + y / d + 1
  {
    DivBounds(x, d);
    DivBounds(y, d);
    DivBounds(x + y, d);
    var q := x / d + y / d;
    assert q * d == x / d * d + y / d * d;
    MulStep((x + y) / d, q, d);
    MulStep(q + 1, (x + y) / d, d);
    assert (q + 1) * d == q * d + d;
  }

  // ---------------------------------------------------------------- one share

  predicate ValidShare(amount: int, portion: int, whole: int)
  {
    SafeInteger(amount) && 0 <= portion <= whole <= MAX_SAFE && whole > 0
  }

  /** The share of a non-negative amount, before the safe-integer guard. */
  function Share(amount: nat, portion: nat, whole: nat): int
    requires whole > 0
  {
    amount * portion / (whole * MICRO) * MICRO
  }

  /** The share is the largest whole number of credits not above the exact share, and never above the amount. */
  lemma ShareIsFloorOfExact(amount: nat, portion: nat, whole: nat)
    requires 0 < whole && portion <= whole
    ensures var v := Share(amount, portion, whole);
      && v % 1_000_000 == 0
      && v * whole <= amount * portion < (v + 1_000_000) * whole
      && v <= amount
  {
    var d := whole * MICRO;
    var x := amount * portion;
    var q := x / d;
    DivBounds(x, d);
    assert q * MICRO * whole == q * d;
    assert (q * MICRO + MICRO) * whole == q * d + d;
    assert x <= amount * whole;
    MulStep(amount, q * MICRO, whole);
  }

  /**
    The guard never fires: with valid arguments the share is always returned. Its sign is the amount's, so
    it is odd in the amount.
   */
  lemma ProrationNeverFails(amount: int, portion: int, whole: int)
    requires ValidShare(amount, portion, whole)
    ensures ProratedWholeCreditsMicro(amount, portion, whole) ==
            Ok(if amount >= 0 then Share(amount, portion, whole) else -Share(-amount, portion, whole))
    ensures ProratedWholeCreditsMicro(-amount, portion, whole) ==
            Ok(-ProratedWholeCreditsMicro(amount, portion, whole).value)
  {
    ProrationOf(amount, portion, whole);
    ProrationOf(-amount, portion, whole);
    if amount == 0 {
      DivIs(0, whole * MICRO, 0);
    }
    hide ProratedWholeCreditsMicro, Share;
  }

  /** Arguments are refused exactly when one is no safe integer, the whole is nothing or the portion exceeds it. */
  lemma ProrationRefusedIff(amount: int, portion: int, whole: int)
    ensures ProratedWholeCreditsMicro(amount, portion, whole).Ok? <==>
            && -9_007_199_254_740_991 <= amount <= 9_007_199_254_740_991
            && 0 <= portion <= whole <= 9_007_199_254_740_991 && whole > 0
  {
    if ValidShare(amount, portion, whole) {
      ProrationOf(amount, portion, whole);
    }
  }

  lemma ProrationOf(amount: int, portion: int, whole: int)
    requires ValidShare(amount, portion, whole)
    ensures ProratedWholeCreditsMicro(amount, portion, whole) ==
            Ok(if amount >= 0 then Share(amount, portion, whole) else -Share(-amount, portion, whole))
  {
    var size := if amount >= 0 then amount else -amount;
    ShareIsFloorOfExact(size, portion, whole);
    var y, d := size * portion, whole * MICRO;
    MulNonNegative(size, portion);
    assert amount * portion == if amount >= 0 then y else -y;
    TruncDivSign(y, d);
    hide TruncDiv;
    assert Share(size, portion, whole) == y / d * MICRO;
    assert -(y / d) * MICRO == -(y / d * MICRO);
    assert TruncDiv(amount * portion, d) == if amount >= 0 then y / d else -(y / d);
  }

  lemma TruncDivSign(y: int, d: int)
    requires d > 0 && y >= 0
    ensures TruncDiv(y, d) == y / d && TruncDiv(-y, d) == -(y / d)
  {
    if y == 0 {
      DivIs(y, d, 0);
    }
  }

  /** A longer portion never gets less. */
  lemma ShareMonotone(amount: nat, p: nat, q: nat, whole: nat)
    requires 0 < whole && p <= q
    ensures Share(amount, p, whole) <= Share(amount, q, whole)
  {
    assert amount * (q - p) >= 0;
    assert amount * p <= amount * q;
    DivMonotone(amount * p, amount * q, whole * MICRO);
  }

  /** The whole month gets the level floored to whole credits. */
  lemma ShareOfWhole(amount: nat, whole: nat)
    requires 0 < whole
    ensures Share(amount, whole, whole) == FloorToWholeCredits(amount)
  {
    var q, d := amount / MICRO, whole * MICRO;
    assert q * d == q * MICRO * whole;
    assert amount * whole - q * d == (amount - q * MICRO) * whole;
    assert 0 <= (amount - q * MICRO) * whole;
    MulStep(amount - q * MICRO, MICRO, whole);
    assert MICRO * whole == d;
    DivIs(amount * whole, d, q);
  }

  // ---------------------------------------------------------------- windows of a natural month

  datatype InstantRange = InstantRange(start: DateArgument, end: DateArgument)

  /** What a window grants of a monthly level. */
  function WindowShareMicro(level: int, window: InstantRange, natural: InstantRange): Result<int>
  {
    if !NonNegativeSafe(level) then RangeError
    else if window.start.InvalidDate? || window.end.InvalidDate? then RangeError
    else if natural.start.InvalidDate? || natural.end.InvalidDate? then RangeError
    else
      var ws, we := Time(window.start.at), Time(window.end.at);
      var ns, ne := Time(natural.start.at), Time(natural.end.at);
      if !(ns <= ws && ws < we && we <= ne) then RangeError
      else ProratedWholeCreditsMicro(level, we - ws, ne - ns)
  }

  /** Instants that cut a natural month into consecutive windows, its ends included. */
  ghost predicate Cuts(cuts: seq<Instant>)
  {
    && |cuts| >= 2
    && forall i :: 0 < i < |cuts| ==> Time(cuts[i - 1]) < Time(cuts[i])
  }

  function Window(from: Instant, to: Instant): InstantRange
  {
    InstantRange(DateAt(from), DateAt(to))
  }

  lemma {:induction false} CutsOrdered(cuts: seq<Instant>, i: nat, j: nat)
    requires Cuts(cuts) && i <= j < |cuts|
    ensures Time(cuts[i]) <= Time(cuts[j])
    decreases j
  {
    hide Time;
    if i < j {
      CutsOrdered(cuts, i, j - 1);
    }
  }

  /** Inside a natural month every window's share is granted. */
  lemma WindowIsGranted(level: nat, cuts: seq<Instant>, i: nat)
    requires level <= MAX_SAFE && Cuts(cuts) && 0 < i < |cuts|
    requires Time(cuts[|cuts| - 1]) - Time(cuts[0]) <= MAX_SAFE
    ensures var whole := Time(cuts[|cuts| - 1]) - Time(cuts[0]);
      && 0 <= Time(cuts[i]) - Time(cuts[i - 1]) <= whole
      && whole > 0
      && WindowShareMicro(level, Window(cuts[i - 1], cuts[i]), Window(cuts[0], cuts[|cuts| - 1]))
         == Ok(Share(level, Time(cuts[i]) - Time(cuts[i - 1]), whole))
  {
    hide Time, Share;
    CutsOrdered(cuts, 0, i - 1);
    CutsOrdered(cuts, i, |cuts| - 1);
    ProrationOf(level, Time(cuts[i]) - Time(cuts[i - 1]), Time(cuts[|cuts| - 1]) - Time(cuts[0]));
    hide ProratedWholeCreditsMicro;
  }

  /**
    A window is granted its share of the natural month, in milliseconds, exactly when all four instants are
    dates, the window is not empty and lies inside the month, and level and month are safe integers.
   */
  lemma WindowShareExactly(level: int, window: InstantRange, natural: InstantRange)
    ensures
      var valid := window.start.DateAt? && window.end.DateAt? && natural.start.DateAt? && natural.end.DateAt?;
      var granted := WindowShareMicro(level, window, natural);
      && (granted.Ok? <==>
            && 0 <= level <= 9_007_199_254_740_991 && valid
            && Time(natural.start.at) <= Time(window.start.at) < Time(window.end.at) <= Time(natural.end.at)
            && Time(natural.end.at) - Time(natural.start.at) <= 9_007_199_254_740_991)
      && (granted.Ok? ==>
            granted.value == Share(level, Time(window.end.at) - Time(window.start.at),
                                   Time(natural.end.at) - Time(natural.start.at)))
  {
    hide Time, Share;
    if window.start.DateAt? && window.end.DateAt? && natural.start.DateAt? && natural.end.DateAt? {
      var portion, whole := Time(window.end.at) - Time(window.start.at), Time(natural.end.at) - Time(natural.start.at);
      ProrationRefusedIff(level, portion, whole);
      if ValidShare(level, portion, whole) {
        ProrationOf(level, portion, whole);
      }
    }
    hide ProratedWholeCreditsMicro;
  }

  /** The sum of what the first `n` windows grant. */
  ghost function TotalGranted(level: nat, cuts: seq<Instant>, n: nat): int
    requires level <= MAX_SAFE && Cuts(cuts) && n < |cuts|
    requires Time(cuts[|cuts| - 1]) - Time(cuts[0]) <= MAX_SAFE
  {
    if n == 0 then 0
    else
      WindowIsGranted(level, cuts, n);
      TotalGranted(level, cuts, n - 1) +
      WindowShareMicro(level, Window(cuts[n - 1], cuts[n]), Window(cuts[0], cuts[|cuts| - 1])).value
  }

  /** Granting two adjacent portions apart loses at most one credit. */
  lemma ShareSum(level: nat, p: nat, q: nat, whole: nat)
    requires whole > 0
    ensures Share(level, p, whole) + Share(level, q, whole) <= Share(level, p + q, whole)
    ensures Share(level, p + q, whole) <= Share(level, p, whole) + Share(level, q, whole) + MICRO
  {
    assert level * (p + q) == level * p + level * q;
    DivSum(level * p, level * q, whole * MICRO);
  }

  lemma {:induction false} TotalGrantedBounds(level: nat, cuts: seq<Instant>, n: nat)
    requires level <= MAX_SAFE && Cuts(cuts) && 0 < n < |cuts|
    requires Time(cuts[|cuts| - 1]) - Time(cuts[0]) <= MAX_SAFE
    ensures var whole, reached := Time(cuts[|cuts| - 1]) - Time(cuts[0]), Time(cuts[n]) - Time(cuts[0]);
      && whole > 0 && reached >= 0
      && TotalGranted(level, cuts, n) <= Share(level, reached, whole)
      && Share(level, reached, whole) <= TotalGranted(level, cuts, n) + (n - 1) * MICRO
  {
    hide Time, Share, WindowShareMicro;
    var whole, reached := Time(cuts[|cuts| - 1]) - Time(cuts[0]), Time(cuts[n]) - Time(cuts[0]);
    CutsOrdered(cuts, 0, n);
    WindowIsGranted(level, cuts, n);
    if n > 1 {
      CutsOrdered(cuts, 0, n - 1);
      TotalGrantedBounds(level, cuts, n - 1);
      ShareSum(level, Time(cuts[n - 1]) - Time(cuts[0]), Time(cuts[n]) - Time(cuts[n - 1]), whole);
    } else {
      assert TotalGranted(level, cuts, 0) == 0;
    }
  }

  /**
    However a natural month is cut into windows, together they grant at most the level floored to whole
    credits, and at most one credit less per cut.
   */
  lemma WindowsConserveCredits(level: nat, cuts: seq<Instant>)
    requires level <= MAX_SAFE && Cuts(cuts)
    requires Time(cuts[|cuts| - 1]) - Time(cuts[0]) <= MAX_SAFE
    ensures var granted, windows := TotalGranted(level, cuts, |cuts| - 1), |cuts| - 1;
      FloorToWholeCredits(level) - (windows - 1) * 1_000_000 <= granted <= FloorToWholeCredits(level)
  {
    hide Time, Share;
    TotalGrantedBounds(level, cuts, |cuts| - 1);
    ShareOfWhole(level, Time(cuts[|cuts| - 1]) - Time(cuts[0]));
  }

  /** A natural month is always short enough for that: less than 62 days. */
  lemma NaturalMonthIsShort(anchor: CivilDate, k: int)
    ensures 0 < Time(AddMonths(anchor, k + 1)) - Time(AddMonths(anchor, k)) < 62 * MS_PER_DAY <= MAX_SAFE
  {
    var a, b := AddMonths(anchor, k), AddMonths(anchor, k + 1);
    NextMonth(MonthNumber(a));
    AddMonthsIncreases(anchor, k, k + 1);
    hide MonthStart;
    assert DayNumber(b) - DayNumber(a) <= 31 + 30;
  }

  /** Windows cut from any natural month of any anchor, up to the end of representable time, conserve its credits. */
  lemma NaturalMonthConservesCredits(level: nat, anchor: CivilDate, k: int, cuts: seq<Instant>)
    requires level <= MAX_SAFE && Cuts(cuts)
    requires cuts[0] == AddMonths(anchor, k) && cuts[|cuts| - 1] == AddMonths(anchor, k + 1)
    ensures Time(cuts[|cuts| - 1]) - Time(cuts[0]) <= MAX_SAFE
    ensures FloorToWholeCredits(level) - (|cuts| - 2) * 1_000_000 <= TotalGranted(level, cuts, |cuts| - 1)
            <= FloorToWholeCredits(level)
  {
    hide Time, AddMonths;
    NaturalMonthIsShort(anchor, k);
    WindowsConserveCredits(level, cuts);
  }
}
