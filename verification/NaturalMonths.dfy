/**
  Natural months counted from an anchor (packages/api-types/src/ai-credits.ts): the month that contains an
  instant, and a paid period split into months.
 */
module NaturalMonths {
  import opened Wrappers
  import opened Calendar

  datatype NaturalMonth = NaturalMonth(index: int, start: Instant, end: Instant)

  /** Instant `t` lies in the `k`-th month after `anchor`. */
  predicate Contains(anchor: CivilDate, k: int, t: CivilDate)
  {
    Time(AddMonths(anchor, k)) <= Time(t) < Time(AddMonths(anchor, k + 1))
  }

  function Estimate(anchor: CivilDate, at: CivilDate): int
  {
    (at.year - anchor.year) * 12 + (at.month - anchor.month)
  }

  /** The index of the month that contains `at`. */
  function MonthIndex(anchor: CivilDate, at: CivilDate): int
  {
    var k := Estimate(anchor, at);
    if Time(AddMonths(anchor, k)) <= Time(at) then k else k - 1
  }

  /** The estimate is right or one too high. */
  lemma EstimateBrackets(anchor: CivilDate, at: CivilDate)
    ensures var k := Estimate(anchor, at);
      Time(AddMonths(anchor, k - 1)) < Time(at) < Time(AddMonths(anchor, k + 1))
  {
    hide Time, AddMonths;
    var k := Estimate(anchor, at);
    TimeOrder(at, AddMonths(anchor, k + 1));
    TimeOrder(AddMonths(anchor, k - 1), at);
  }

  lemma OneMonthOnly(anchor: CivilDate, j: int, k: int, t: CivilDate)
    requires Contains(anchor, j, t) && Contains(anchor, k, t)
    ensures j == k
  {
    hide Time, AddMonths;
    AddMonthsIncreases(anchor, j, k + 1);
    AddMonthsIncreases(anchor, k, j + 1);
  }

  /**
    Every instant lies in exactly one month, whose index is the difference of month numbers or one less; from
    the anchor on, indices are not negative.
   */
  lemma MonthIndexIsUnique(anchor: CivilDate, at: CivilDate)
    ensures forall k :: Contains(anchor, k, at) <==> k == MonthIndex(anchor, at)
    ensures Time(anchor) <= Time(at) ==> 0 <= MonthIndex(anchor, at) <= Estimate(anchor, at)
  {
    hide Time, AddMonths;
    var index := MonthIndex(anchor, at);
    EstimateBrackets(anchor, at);
    assert Contains(anchor, index, at);
    forall k | Contains(anchor, k, at) ensures k == index {
      OneMonthOnly(anchor, k, index, at);
    }
    AddNothing(anchor);
    if Time(anchor) <= Time(at) {
      EstimateNotNegative(anchor, at);
    }
  }

  /** The difference of month numbers cannot be negative from the anchor on. */
  lemma EstimateNotNegative(anchor: CivilDate, at: CivilDate)
    requires Time(anchor) <= Time(at)
    ensures 0 <= Estimate(anchor, at)
  {
    TimeOrder(at, anchor);
  }

  /** Month counts between representable instants are far from the limit of exact integers. */
  lemma EstimateSafe(anchor: Instant, at: Instant)
    ensures Estimate(anchor, at) < 8_000_000
  {
    hide MonthStart;
    var m, n := MonthNumber(anchor), MonthNumber(at);
    if m < n {
      MonthStartGrows(m, n);
      assert DayNumber(at) <= 100_000_000 && DayNumber(anchor) >= -100_000_000;
    }
  }

  /** What the search needs to know. */
  lemma SearchFacts(a: Instant, t: Instant, k: int)
    requires Time(a) <= Time(t) && k == MonthIndex(a, t)
    ensures 0 <= k <= Estimate(a, t) <= k + 1 <= 8_000_000
    ensures Contains(a, k, t)
    ensures Representable(AddMonths(a, k))
  {
    hide Time, AddMonths;
    MonthIndexIsUnique(a, t);
    EstimateSafe(a, t);
    AddNothing(a);
    AddMonthsIncreases(a, 0, k);
    assert Contains(a, k, t);
    BetweenRepresentable(a, AddMonths(a, k), t);
  }

  lemma BetweenRepresentable(a: Instant, x: CivilDate, b: Instant)
    requires Time(a) <= Time(x) <= Time(b)
    ensures Representable(x)
  {
  }

  /** Below the month of `t` every boundary is representable and not after `t`; the next one is after it. */
  lemma ClimbFacts(a: Instant, t: Instant, k: int, index: int)
    requires Time(a) <= Time(t) && k == MonthIndex(a, t) && 0 <= index <= k
    ensures index < k ==> Representable(AddMonths(a, index + 1)) && Time(AddMonths(a, index + 1)) <= Time(t)
    ensures index == k ==> Time(t) < Time(AddMonths(a, index + 1))
  {
    hide Time, AddMonths, MonthIndex;
    SearchFacts(a, t, k);
    if index < k {
      AddMonthsIncreases(a, index + 1, k);
      AddMonthsIncreases(a, 0, index + 1);
      AddNothing(a);
      BetweenRepresentable(a, AddMonths(a, index + 1), t);
    }
  }

  /** The first loop: from `t`'s month or the one after it, `down` steps to `t`'s. */
  method DescendToMonth(a: Instant, t: Instant, from: int) returns (r: Result<int>, ghost down: int)
    requires Time(a) <= Time(t) && MonthIndex(a, t) <= from <= MonthIndex(a, t) + 1
    ensures 0 <= down <= from - MonthIndex(a, t)
    ensures r.Ok? ==> r.value == MonthIndex(a, t)
    ensures r.RangeError? ==> !Representable(AddMonths(a, MonthIndex(a, t) + 1))
  {
    hide Time, AddMonths, MonthIndex, Representable, Contains;
    ghost var k := MonthIndex(a, t);
    SearchFacts(a, t, k);
    ContainsBounds(a, k, t);
    var index := from;
    down := 0;
    while index > 0
      invariant k <= index <= from && down == from - index
    {
      var candidate := AddUtcMonths(DateAt(a), index);
      if candidate.RangeError? {
        return RangeError, down;
      }
      if Time(candidate.value) <= Time(t) {
        break;
      }
      index := index - 1;
      down := down + 1;
    }
    r := Ok(index);
  }

  lemma ContainsBounds(a: CivilDate, k: int, t: CivilDate)
    requires Contains(a, k, t)
    ensures Time(AddMonths(a, k)) <= Time(t) < Time(AddMonths(a, k + 1))
  {
  }

  /** The second loop: from a month not after `t`'s, `up` steps to `t`'s. */
  method ClimbToMonth(a: Instant, t: Instant, from: int) returns (r: Result<int>, ghost up: int)
    requires Time(a) <= Time(t) && 0 <= from <= MonthIndex(a, t)
    ensures up == MonthIndex(a, t) - from
    ensures r == if Representable(AddMonths(a, MonthIndex(a, t) + 1)) then Ok(MonthIndex(a, t)) else RangeError
  {
    hide Time, AddMonths, MonthIndex, Representable, Contains;
    ghost var k := MonthIndex(a, t);
    SearchFacts(a, t, k);
    var index := from;
    up := 0;
    while true
      invariant from <= index <= k && up == index - from
      decreases k - index
    {
      ClimbFacts(a, t, k, index);
      var next := AddUtcMonths(DateAt(a), index + 1);
      if next.RangeError? {
        return RangeError, up;
      }
      if Time(next.value) > Time(t) {
        break;
      }
      index := index + 1;
      up := up + 1;
    }
    r := Ok(index);
  }

  /**
    The natural month of `anchor` that contains `at`. It is refused exactly when an argument is not a date,
    `at` is before the anchor, or the month's end is past the last representable instant. The first loop
    runs `down` <= 1 times and the second never.
   */
  method NaturalMonthContaining(anchor: DateArgument, at: DateArgument)
    returns (r: Result<NaturalMonth>, ghost down: nat, ghost up: nat)
    ensures r.Ok? <==>
            && anchor.DateAt? && at.DateAt?
            && Time(anchor.at) <= Time(at.at)
            && Representable(AddMonths(anchor.at, MonthIndex(anchor.at, at.at) + 1))
    ensures r.Ok? ==>
            && Contains(anchor.at, r.value.index, at.at)
            && r.value.start == AddMonths(anchor.at, r.value.index)
            && r.value.end == AddMonths(anchor.at, r.value.index + 1)
    ensures down <= 1 && up == 0
  {
    hide Time, AddMonths, MonthIndex, Representable, Contains, Valid;
    down, up := 0, 0;
    if anchor.InvalidDate? || at.InvalidDate? {
      return RangeError, 0, 0;
    }
    var a, t := anchor.at, at.at;
    if Time(t) < Time(a) {
      return RangeError, 0, 0;
    }
    ghost var k := MonthIndex(a, t);
    SearchFacts(a, t, k);
    var index := (t.year - a.year) * 12 + (t.month - a.month);
    if index < 0 {
      index := 0;
    }
    var reached;
    reached, down := DescendToMonth(a, t, index);
    if reached.RangeError? {
      return RangeError, down, up;
    }
    index := reached.value;
    var found;
    found, up := ClimbToMonth(a, t, index);
    if found.RangeError? {
      return RangeError, down, up;
    }
    index := found.value;
    var start := AddUtcMonths(anchor, index);
    var end := AddUtcMonths(anchor, index + 1);
    r := Ok(NaturalMonth(index, start.value, end.value));
  }

  // ---------------------------------------------------------------- a period

  const MAX_NATURAL_MONTHS: int := 1_200

  /** Month `i` of the period from `start` to `end`: a natural month, cut at the period's end. */
  predicate IsMonthOfPeriod(m: NaturalMonth, start: CivilDate, end: CivilDate, i: int)
  {
    var next := AddMonths(start, i + 1);
    && m.index == i
    && m.start == AddMonths(start, i)
    && m.end == (if Time(next) < Time(end) then next else end)
    && Time(m.start) < Time(end)
  }

  /** All months of the period, in order, and no more. */
  predicate IsPeriod(months: seq<NaturalMonth>, start: CivilDate, end: CivilDate)
  {
    && (forall i :: 0 <= i < |months| ==> IsMonthOfPeriod(months[i], start, end, i))
    && months != [] && Time(end) <= Time(AddMonths(start, |months|))
  }

  /** Whether the loop can finish: the period ends within 1,199 months, at a representable boundary. */
  ghost predicate Splittable(start: CivilDate, end: CivilDate)
  {
    exists n: int :: 0 < n < MAX_NATURAL_MONTHS && ClosesAt(start, end, n)
  }

  predicate ClosesAt(start: CivilDate, end: CivilDate, n: int)
  {
    Time(end) <= Time(AddMonths(start, n)) && Representable(AddMonths(start, n))
  }

  /** While months still start before `end`, no earlier boundary closes the period. */
  lemma NotClosedBefore(start: CivilDate, end: CivilDate, index: int, n: int)
    requires Time(AddMonths(start, index)) < Time(end) && ClosesAt(start, end, n)
    ensures index < n
  {
    hide Time, AddMonths;
    AddMonthsIncreases(start, n, index);
  }

  method NaturalMonthsOfPeriod(start: DateArgument, end: DateArgument) returns (r: Result<seq<NaturalMonth>>)
    ensures r.Ok? <==>
            && start.DateAt? && end.DateAt? && Time(start.at) < Time(end.at)
            && Splittable(start.at, end.at)
    ensures r.Ok? ==> IsPeriod(r.value, start.at, end.at)
  {
    hide Time, AddMonths, Representable, IsMonthOfPeriod;
    if start.InvalidDate? || end.InvalidDate? || Time(end.at) <= Time(start.at) {
      return RangeError;
    }
    var months: seq<NaturalMonth> := [];
    var index := 0;
    AddNothing(start.at);
    forall n | ClosesAt(start.at, end.at, n) ensures 0 < n {
      NotClosedBefore(start.at, end.at, 0, n);
    }
    while true
      invariant 0 <= index == |months| <= MAX_NATURAL_MONTHS
      invariant forall i :: 0 <= i < index ==> IsMonthOfPeriod(months[i], start.at, end.at, i)
      invariant Representable(AddMonths(start.at, index))
      invariant forall n :: ClosesAt(start.at, end.at, n) ==> index <= n
      invariant index == 0 ==> Time(AddMonths(start.at, index)) < Time(end.at)
      decreases MAX_NATURAL_MONTHS - index
    {
      if index >= MAX_NATURAL_MONTHS {
        return RangeError;
      }
      var monthStart := AddUtcMonths(start, index);
      assert monthStart.Ok?;
      if Time(monthStart.value) >= Time(end.at) {
        assert ClosesAt(start.at, end.at, index);
        break;
      }
      forall n | ClosesAt(start.at, end.at, n) ensures index < n {
        NotClosedBefore(start.at, end.at, index, n);
      }
      var next := AddUtcMonths(start, index + 1);
      if next.RangeError? {
        NeverCloses(start.at, end.at, index);
        return RangeError;
      }
      MonthOfPeriodIs(start.at, end.at, index, monthStart.value, next.value);
      months := months + [NaturalMonth(index, monthStart.value,
                                       if Time(next.value) < Time(end.at) then next.value else end.at)];
      index := index + 1;
    }
    r := Ok(months);
  }

  lemma MonthOfPeriodIs(start: CivilDate, end: Instant, i: int, first: Instant, next: Instant)
    requires first == AddMonths(start, i) && next == AddMonths(start, i + 1) && Time(first) < Time(end)
    ensures IsMonthOfPeriod(NaturalMonth(i, first, if Time(next) < Time(end) then next else end), start, end, i)
  {
    hide Time, AddMonths;
  }

  /** If the next boundary is not representable, neither is any later one. */
  lemma NeverCloses(start: Instant, end: Instant, index: int)
    requires 0 <= index && Time(AddMonths(start, index)) < Time(end)
    requires !Representable(AddMonths(start, index + 1))
    ensures !Splittable(start, end)
  {
    hide Time, AddMonths;
    forall n: int | ClosesAt(start, end, n) ensures n <= index {
      if index < n {
        RepresentableBefore(start, index + 1, n);
      }
    }
    forall n: int | ClosesAt(start, end, n) ensures index < n {
      NotClosedBefore(start, end, index, n);
    }
  }

  lemma RepresentableBefore(start: Instant, j: int, n: int)
    requires 0 <= j <= n && Representable(AddMonths(start, n))
    ensures Representable(AddMonths(start, j))
  {
    hide Time, AddMonths;
    AddNothing(start);
    AddMonthsIncreases(start, 0, j);
    AddMonthsIncreases(start, j, n);
    BetweenRepresentable(start, AddMonths(start, j), AddMonths(start, n));
  }

  /** The number of months after which the period is over. */
  ghost function ClosingMonth(start: CivilDate, end: CivilDate): int
  {
    var k := MonthIndex(start, end);
    if Time(AddMonths(start, k)) == Time(end) then k else k + 1
  }

  lemma ClosingMonthIsFirst(start: CivilDate, end: CivilDate, n: int)
    ensures Time(end) <= Time(AddMonths(start, n)) <==> ClosingMonth(start, end) <= n
  {
    hide Time, AddMonths, MonthIndex;
    MonthIndexIsUnique(start, end);
    var k := MonthIndex(start, end);
    assert Contains(start, k, end);
    AddMonthsIncreases(start, n, k);
    AddMonthsIncreases(start, n, k + 1);
  }

  /**
    The split succeeds exactly when 1,199 months reach the end and the boundary that closes the period is a
    representable time. The guard runs before the end test, so a period of exactly 1,200 months is refused.
   */
  lemma SplittableUpTo1199Months(start: Instant, end: CivilDate)
    requires Time(start) < Time(end)
    ensures Splittable(start, end) <==>
            && Time(end) <= Time(AddMonths(start, 1_199))
            && Representable(AddMonths(start, ClosingMonth(start, end)))
    ensures !Splittable(start, AddMonths(start, 1_200))
  {
    hide Time, AddMonths, Representable, ClosingMonth;
    var c := ClosingMonth(start, end);
    AddNothing(start);
    ClosingMonthIsFirst(start, end, 0);
    ClosingMonthIsFirst(start, end, c);
    ClosingMonthIsFirst(start, end, MAX_NATURAL_MONTHS - 1);
    assert Representable(AddMonths(start, c)) ==> ClosesAt(start, end, c);
    forall n: int | ClosesAt(start, end, n) ensures c <= n && Representable(AddMonths(start, c)) {
      ClosingMonthIsFirst(start, end, n);
      RepresentableBefore(start, c, n);
    }
    forall n: int | n < MAX_NATURAL_MONTHS ensures !ClosesAt(start, AddMonths(start, MAX_NATURAL_MONTHS), n) {
      AddMonthsIncreases(start, n, MAX_NATURAL_MONTHS);
    }
  }

  /** A period of `n` whole months has `n` months; an annual period gives twelve. */
  lemma WholeMonths(months: seq<NaturalMonth>, start: CivilDate, n: nat)
    requires IsPeriod(months, start, AddMonths(start, n))
    ensures |months| == n
  {
    hide Time, AddMonths;
    AddMonthsIncreases(start, |months|, n);
    var last := |months| - 1;
    assert IsMonthOfPeriod(months[last], start, AddMonths(start, n), last);
    AddMonthsIncreases(start, last, n);
  }

  /**
    The months partition the period: the first starts at its start, each ends where the next starts, the last
    ends at its end, and none is empty.
   */
  lemma MonthsPartitionPeriod(months: seq<NaturalMonth>, start: CivilDate, end: CivilDate)
    requires Time(start) < Time(end) && IsPeriod(months, start, end)
    ensures months[0].start == start && months[|months| - 1].end == end
    ensures forall i :: 0 < i < |months| ==> months[i - 1].end == months[i].start
    ensures forall i :: 0 <= i < |months| ==> Time(months[i].start) < Time(months[i].end)
  {
    hide Time, AddMonths;
    AddNothing(start);
    forall i | 0 <= i < |months|
      ensures Time(months[i].start) < Time(months[i].end)
      ensures i > 0 ==> months[i - 1].end == months[i].start
    {
      assert IsMonthOfPeriod(months[i], start, end, i);
      assert i > 0 ==> IsMonthOfPeriod(months[i - 1], start, end, i - 1);
      AddMonthsIncreases(start, i, i + 1);
    }
    TimeOrder(end, AddMonths(start, |months|));
  }

  /**
    Every instant of the period lies in exactly one of its months, the one whose index is the instant's
    natural month counted from the period's start.
   */
  lemma EveryInstantInItsMonth(months: seq<NaturalMonth>, start: CivilDate, end: CivilDate, t: CivilDate)
    requires IsPeriod(months, start, end)
    requires Time(start) <= Time(t) < Time(end)
    ensures 0 <= MonthIndex(start, t) < |months|
    ensures forall i :: 0 <= i < |months| ==>
              (Time(months[i].start) <= Time(t) < Time(months[i].end) <==> i == MonthIndex(start, t))
  {
    hide Time, AddMonths, MonthIndex;
    var k := MonthIndex(start, t);
    MonthIndexIsUnique(start, t);
    assert Contains(start, k, t);
    AddMonthsIncreases(start, k, |months|);
    forall i | 0 <= i < |months|
      ensures Time(months[i].start) <= Time(t) < Time(months[i].end) <==> i == k
    {
      assert IsMonthOfPeriod(months[i], start, end, i);
      assert Contains(start, i, t) <==> i == k;
    }
  }
}
