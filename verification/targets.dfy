/** The Q1 target figures of the daily report (`calculate_target_metrics`) and
    the signed rendering of a change (`_format_change`).

    Dates are day numbers (days since 1970-01-01); money is an exact real, so
    the float rounding of the divisions is not modelled. */
module Targets {
  import opened Wrappers
  import opened Text
  import opened Calendar

  const Q1Target: real := 1600000.0

  /** 2026-01-01 and 2026-03-31. */
  const Q1Start: int := DaysFromCivil(2026, 1, 1)
  const Q1End: int := DaysFromCivil(2026, 3, 31)

  /** The report snapshot's three ARR totals, each possibly missing. */
  datatype TargetSnapshot = TargetSnapshot(totalWonArr: Option<real>, yesterdayTotalArr: Option<real>,
                                           q1WonArr: Option<real>)

  datatype Metrics = Metrics(
    totalArr: real, q1Won: real, remainingTarget: real, pctAchieved: real,
    daysElapsed: int, daysRemaining: nat, isOnTrack: bool,
    dailyArrChange: real, requiredDaily: real, requiredWeekly: real)

  /** `x or 0` on a nullable number. */
  function OrZero(x: Option<real>): (r: real)
    ensures x.Some? ==> r == x.value
    ensures x.None? ==> r == 0.0
  {
    x.GetOr(0.0)
  }

  /** `max(0, (Q1_END - today).days + 1)`: days left in the quarter, today
      included. */
  function DaysRemaining(today: int): (n: nat)
    ensures today <= Q1End ==> n == Q1End - today + 1
    ensures today > Q1End ==> n == 0
  {
    if Q1End - today + 1 > 0 then Q1End - today + 1 else 0
  }

  /** `calculate_target_metrics`. */
  function CalculateTargetMetrics(s: TargetSnapshot, today: int): (m: Metrics)
    ensures m.isOnTrack <==> m.totalArr >= Q1Target
    ensures m.remainingTarget >= 0.0 && (m.remainingTarget == 0.0 <==> m.isOnTrack)
    ensures !m.isOnTrack ==> m.totalArr + m.remainingTarget == Q1Target
    ensures m.pctAchieved >= 100.0 <==> m.isOnTrack
    ensures m.daysRemaining > 0 ==> m.requiredDaily * (m.daysRemaining as real) == Q1Target - m.totalArr
    ensures m.daysRemaining == 0 ==> m.requiredDaily == 0.0
    ensures m.dailyArrChange == m.totalArr - OrZero(s.yesterdayTotalArr)
    ensures s.totalWonArr.None? ==> m.totalArr == 0.0
    ensures s.totalWonArr.Some? ==> m.totalArr == s.totalWonArr.value
    ensures m.q1Won == (if s.q1WonArr.Some? then s.q1WonArr.value else 0.0)
    ensures m.pctAchieved * Q1Target == m.totalArr * 100.0
    ensures m.requiredWeekly == 7.0 * m.requiredDaily
    ensures today <= Q1End ==> m.daysElapsed + m.daysRemaining == Q1End - Q1Start + 2
    ensures m.daysElapsed == today - Q1Start + 1 && m.daysRemaining == DaysRemaining(today)
  {
    var total := OrZero(s.totalWonArr);
    var yesterday := OrZero(s.yesterdayTotalArr);
    var daysRemaining := DaysRemaining(today);
    var remaining := Q1Target - total;
    var requiredDaily := if daysRemaining > 0 then remaining / (daysRemaining as real) else 0.0;
    Metrics(
      totalArr := total,
      q1Won := OrZero(s.q1WonArr),
      remainingTarget := if remaining > 0.0 then remaining else 0.0,
      pctAchieved := if Q1Target > 0.0 then total / Q1Target * 100.0 else 0.0,
      daysElapsed := today - Q1Start + 1,
      daysRemaining := daysRemaining,
      isOnTrack := remaining <= 0.0,
      dailyArrChange := total - yesterday,
      requiredDaily := requiredDaily,
      requiredWeekly := requiredDaily * 7.0)
  }

  /** The compound on-track expression the function computes and then drops:
      on track if the target is met, or if the day's gain covers the required
      daily rate, a day without gain being judged against twice that rate. */
  predicate OnTrackHeuristic(m: Metrics) {
    Q1Target - m.totalArr <= 0.0
    || m.requiredDaily <= (if m.dailyArrChange > 0.0 then m.dailyArrChange else m.requiredDaily * 2.0)
  }

  // ----- Properties of the metrics -----

  /** The quarter is 90 days long, and on any day inside it the elapsed and
      remaining days (both counting today) add up to 91. */
  lemma QuarterDays(s: TargetSnapshot, today: int)
    requires Q1Start <= today <= Q1End
    ensures Q1End - Q1Start + 1 == 90
    ensures var m := CalculateTargetMetrics(s, today);
            1 <= m.daysElapsed <= 90 && m.daysElapsed + m.daysRemaining == 91
  {
    QuarterBounds();
    var m := CalculateTargetMetrics(s, today);
    assert m.daysElapsed == today - Q1Start + 1;
    assert m.daysRemaining == Q1End - today + 1;
  }

  /** The quarter's first and last days as day numbers. */
  lemma QuarterBounds()
    ensures Q1Start == 20454 && Q1End == 20543
  {
    assert 2025 / 400 == 5 && 25 / 4 == 6 && 25 / 100 == 0;
    assert 2026 / 400 == 5 && 26 / 4 == 6 && 26 / 100 == 0;
    assert (153 * ((1 + 9) % 12) + 2) / 5 == 306;
    assert (153 * ((3 + 9) % 12) + 2) / 5 == 0;
  }

  /** Once the quarter is over nothing remains to be spread over days: the
      required rates are zero. */
  lemma AfterQuarterNoRate(s: TargetSnapshot, today: int)
    requires today > Q1End
    ensures var m := CalculateTargetMetrics(s, today);
            m.daysRemaining == 0 && m.requiredDaily == 0.0 && m.requiredWeekly == 0.0
  {
  }

  /** The required rate uses the unclamped remainder: once the target is
      exceeded inside the quarter it is negative, while the reported remainder
      stays at zero. */
  lemma ExceededTargetNegativeRate(s: TargetSnapshot, today: int)
    requires today <= Q1End
    requires s.totalWonArr.Some? && s.totalWonArr.value > Q1Target
    ensures var m := CalculateTargetMetrics(s, today);
            m.requiredDaily < 0.0 && m.requiredWeekly == 7.0 * m.requiredDaily && m.remainingTarget == 0.0
  {
    var m := CalculateTargetMetrics(s, today);
    assert m.requiredDaily * (m.daysRemaining as real) < 0.0;
  }

  /** Missing figures count as zero: with no data the whole target remains
      and the change is zero. */
  lemma NoDataMeansWholeTarget(today: int)
    ensures var m := CalculateTargetMetrics(TargetSnapshot(None, None, None), today);
            m.remainingTarget == Q1Target && m.dailyArrChange == 0.0 && !m.isOnTrack
            && m.pctAchieved == 0.0 && m.q1Won == 0.0
  {
  }

  /** The dropped expression would have called a stalled quarter on track:
      inside the quarter, below target, any day without gain satisfies it,
      while the returned flag says not on track. */
  lemma HeuristicPassesDaysWithoutGain(s: TargetSnapshot, today: int)
    requires today <= Q1End
    ensures var m := CalculateTargetMetrics(s, today);
            m.totalArr < Q1Target && m.dailyArrChange <= 0.0 ==> OnTrackHeuristic(m) && !m.isOnTrack
  {
    var m := CalculateTargetMetrics(s, today);
    if m.totalArr < Q1Target {
      assert m.requiredDaily * (m.daysRemaining as real) > 0.0;
      assert m.requiredDaily > 0.0;
    }
  }

  // ----- Rendering a change -----

  /** `round()` to a whole number, ties to even, of a non-negative amount: how
      `format(v, ',.0f')` picks the digits of the exact value. */
  function RoundHalfEven(v: real): (n: nat)
    requires v >= 0.0
    ensures v - 0.5 <= n as real <= v + 0.5
    ensures (n as real - v == 0.5 || v - n as real == 0.5) ==> n % 2 == 0
  {
    var f := v.Floor;
    var frac := v - f as real;
    if frac < 0.5 then f
    else if frac > 0.5 then f + 1
    else if f % 2 == 0 then f
    else f + 1
  }

  /** Three digits, with leading zeros. */
  function Digits3(k: nat): (s: string)
    requires k < 1000
    ensures |s| == 3 && forall i :: 0 <= i < 3 ==> IsDigit(s[i])
  {
    [DigitChar(k / 100), DigitChar(k / 10 % 10), DigitChar(k % 10)]
  }

  /** A whole number with a comma between thousands (`format(n, ',')`). */
  function Grouped(n: nat): (s: string)
    ensures |s| > 0 && IsDigit(s[0])
    ensures forall i :: 0 <= i < |s| ==> IsDigit(s[i]) || s[i] == ','
    decreases n
  {
    if n < 1000 then DecimalOf(n) else Grouped(n / 1000) + "," + Digits3(n % 1000)
  }

  /** The rendered magnitude read back: the commas dropped, the digits read. */
  function Ungrouped(s: string): nat
    requires forall i :: 0 <= i < |s| ==> IsDigit(s[i]) || s[i] == ','
  {
    var digits := RemoveChar(s, ',');
    assert forall i :: 0 <= i < |digits| ==> IsDigit(digits[i]) by {
      RemoveCharOnlyDrops(s, ',');
    }
    DigitsValue(digits)
  }

  /** `_format_change`. */
  function FormatChange(v: Option<real>): (s: string)
    ensures s == "-" <==> v.None? || v.value == 0.0
    ensures v.Some? && v.value > 0.0 ==> |s| > 2 && s[..2] == "+$"
    ensures v.Some? && v.value < 0.0 ==> |s| > 2 && s[..2] == "-$"
  {
    if v.None? || v.value == 0.0 then "-"
    else if v.value > 0.0 then "+$" + Grouped(RoundHalfEven(v.value))
    else "-$" + Grouped(RoundHalfEven(-v.value))
  }

  // ----- Properties of the rendering -----

  lemma {:induction false} DigitsAppend3(a: string, k: nat)
    requires k < 1000
    requires forall i :: 0 <= i < |a| ==> IsDigit(a[i])
    ensures forall i :: 0 <= i < |a + Digits3(k)| ==> IsDigit((a + Digits3(k))[i])
    ensures DigitsValue(a + Digits3(k)) == 1000 * DigitsValue(a) + k
  {
    var x, y, z := k / 100, k / 10 % 10, k % 10;
    var cx, cy, cz := DigitChar(x), DigitChar(y), DigitChar(z);
    var s1 := a + [cx];
    DigitsSnoc(a, cx);
    var s2 := s1 + [cy];
    DigitsSnoc(s1, cy);
    DigitsSnoc(s2, cz);
    assert a + Digits3(k) == s2 + [cz];
    assert 100 * x + 10 * y + z == k;
  }

  /** One more digit on the right multiplies the value by ten and adds it. */
  lemma DigitsSnoc(a: string, c: char)
    requires forall i :: 0 <= i < |a| ==> IsDigit(a[i])
    requires IsDigit(c)
    ensures forall i :: 0 <= i < |a + [c]| ==> IsDigit((a + [c])[i])
    ensures DigitsValue(a + [c]) == 10 * DigitsValue(a) + DigitValue(c)
  {
    var s := a + [c];
    assert forall i :: 0 <= i < |s| ==> IsDigit(s[i]) by {
      forall i | 0 <= i < |s| ensures IsDigit(s[i]) {
        if i < |a| { assert s[i] == a[i]; }
      }
    }
    assert s[..|s| - 1] == a && s[|s| - 1] == c;
  }

  /** Reading a grouped rendering back gives the number. */
  lemma {:induction false} GroupedRoundTrip(n: nat)
    ensures Ungrouped(Grouped(n)) == n
    decreases n
  {
    if n < 1000 {
      assert ',' !in DecimalOf(n);
      RemoveAbsentChar(DecimalOf(n), ',');
    } else {
      GroupedRoundTrip(n / 1000);
      UngroupedAppend(Grouped(n / 1000), n % 1000);
    }
  }

  /** Three more digits after a comma multiply the value read by a thousand. */
  lemma UngroupedAppend(high: string, k: nat)
    requires k < 1000
    requires forall i :: 0 <= i < |high| ==> IsDigit(high[i]) || high[i] == ','
    ensures var s := high + "," + Digits3(k);
            (forall i :: 0 <= i < |s| ==> IsDigit(s[i]) || s[i] == ',')
            && Ungrouped(s) == 1000 * Ungrouped(high) + k
  {
    var lo := Digits3(k);
    GroupAppendChars(high, lo);
    GroupAppendDigits(high, lo);
    RemoveCharOnlyDrops(high, ',');
    DigitsAppend3(RemoveChar(high, ','), k);
  }

  lemma GroupAppendChars(high: string, lo: string)
    requires forall i :: 0 <= i < |high| ==> IsDigit(high[i]) || high[i] == ','
    requires forall i :: 0 <= i < |lo| ==> IsDigit(lo[i])
    ensures var s := high + "," + lo;
            forall i :: 0 <= i < |s| ==> IsDigit(s[i]) || s[i] == ','
  {
    var s := high + "," + lo;
    forall i | 0 <= i < |s| ensures IsDigit(s[i]) || s[i] == ',' {
      if i > |high| { assert s[i] == lo[i - |high| - 1]; }
    }
  }

  lemma GroupAppendDigits(high: string, lo: string)
    requires forall i :: 0 <= i < |lo| ==> IsDigit(lo[i])
    ensures RemoveChar(high + "," + lo, ',') == RemoveChar(high, ',') + lo
  {
    assert forall i :: 0 <= i < |lo| ==> lo[i] != ',';
    RemoveCharAcross(high, ',', lo);
  }

  /** A non-zero change reads back, after its sign and dollar sign, as its
      magnitude rounded to whole dollars. */
  lemma FormatChangeRoundTrip(v: real)
    requires v != 0.0
    ensures var s := FormatChange(Some(v));
            var magnitude := if v > 0.0 then v else -v;
            (s[0] == '+' <==> v > 0.0) && (s[0] == '-' <==> v < 0.0) && s[1] == '$'
            && (forall i :: 2 <= i < |s| ==> IsDigit(s[i]) || s[i] == ',')
            && Ungrouped(s[2..]) == RoundHalfEven(magnitude)
  {
    var magnitude := if v > 0.0 then v else -v;
    var s := FormatChange(Some(v));
    assert s[2..] == Grouped(RoundHalfEven(magnitude));
    GroupedRoundTrip(RoundHalfEven(magnitude));
  }

  /** A change under half a dollar is not zero, so it keeps its sign but shows
      no dollars. */
  lemma SmallChangeShowsZero()
    ensures FormatChange(Some(0.25)) == "+$0"
    ensures FormatChange(Some(-0.25)) == "-$0"
  {
    assert RoundHalfEven(0.25) == 0;
    assert DecimalOf(0) == "0";
  }

  /** Thousands are separated by commas. */
  lemma GroupedExample()
    ensures FormatChange(Some(-1234567.5)) == "-$1,234,568"
  {
    assert RoundHalfEven(1234567.5) == 1234568;
    assert DecimalOf(1) == "1";
    assert Grouped(1) == "1";
    assert Digits3(234) == "234";
    assert Grouped(1234) == "1,234";
    assert Digits3(568) == "568";
  }
}
