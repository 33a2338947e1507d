/** The concrete cases of the repository's test file, stated about the model. */
module TimeSpanScenarios {
  import opened Numerics
  import opened TimeSpans

  function Whole(days: int, hours: int, minutes: int, seconds: int, millis: int): Props {
    Record(Time(Some(days as real), Some(hours as real), Some(minutes as real),
                Some(seconds as real), Some(millis as real)))
  }

  /** 1d 1h 1m 1s 1ms. */
  const OneOfAll := Of(Whole(1, 1, 1, 1, 1))
  /** 1d 12h 30m 30s 500ms: half a unit past each whole unit. */
  const HalfOfAll := Of(Whole(1, 12, 30, 30, 500))
  /** 1d 23h 59m 59s 999ms: one millisecond short of two days. */
  const AllMinusOneOfAll := Of(Whole(1, 23, 59, 59, 999))

  lemma ScenarioLengths()
    ensures OneOfAll.millis == 90061001
    ensures HalfOfAll.millis == 131430500
    ensures AllMinusOneOfAll.millis == 172799999
  {
    OfWholeFields(1, 1, 1, 1, 1);
    OfWholeFields(1, 12, 30, 30, 500);
    OfWholeFields(1, 23, 59, 59, 999);
  }

  /** One week counted in each unit. */
  lemma OneWeekTotals()
    ensures OneWeek().millis == 604800000
    ensures InDays(OneWeek()) == 7.0 && InHours(OneWeek()) == 168.0
    ensures InMinutes(OneWeek()) == 10080.0 && InSeconds(OneWeek()) == 604800.0
  {
  }

  /** Comparisons between the named constants. */
  lemma ConstantComparisons()
    ensures IsLessThan(OneHour(), Span(OneDay())) && !IsEqualTo(OneHour(), Span(OneDay()))
    ensures IsEqualTo(OneHour(), Span(OneHour())) && !IsGreaterThan(OneHour(), Span(OneHour()))
    ensures IsGreaterThan(OneHour(), Span(OneMinute())) && !IsLessThan(OneHour(), Span(OneMinute()))
    ensures !IsEqualTo(OneHour(), Span(OneMinute())) && !IsGreaterThan(OneHour(), Span(OneDay()))
    ensures !IsLessThan(OneHour(), Span(OneHour()))
  {
  }

  /** Zero is positive and not negative; -1 is negative. */
  lemma SignOfSmallSpans()
    ensures !IsNegative(Of(Number(0.0))) && IsPositive(Of(Number(0.0)))
    ensures IsNegative(Of(Number(-1.0))) && !IsPositive(Of(Number(-1.0)))
  {
    RoundOfInteger(0);
    RoundOfInteger(-1);
  }

  lemma AbsoluteAndNegateOfOne()
    ensures AsAbsolute(Of(Number(1.0))).millis == 1 && AsAbsolute(Of(Number(-1.0))).millis == 1
    ensures Negate(Of(Number(1.0))).millis == -1 && Negate(Of(Number(-1.0))).millis == 1
  {
    RoundOfInteger(1);
    RoundOfInteger(-1);
  }

  lemma PlusMinusOfOneDay()
    ensures Plus(OneDay(), Span(OneDay())).millis == 2 * OneDay().millis
    ensures Plus(OneDay(), Number(-(OneDay().millis as real))).millis == 0
    ensures Minus(OneDay(), Span(OneDay())).millis == 0
    ensures Minus(OneDay(), Number(-(OneDay().millis as real))).millis == 2 * OneDay().millis
  {
    RoundOfInteger(-86400000);
  }

  /** Scaling rounds with Math.round: one day times 5 is exact, a third of a
      day is rounded, and a third or a half of one millisecond rounds to 0 and
      1 (never a fractional 0.5). */
  lemma ScalingRounds()
    ensures MultiplyBy(OneDay(), 5.0).millis == 5 * OneDay().millis
    ensures DivideBy(OneDay(), 3.0).millis == Round(86400000.0 / 3.0) == 28800000
    ensures DivideBy(Of(Number(1.0)), 3.0).millis == 0
    ensures DivideBy(Of(Number(1.0)), 2.0).millis == 1
  {
    MultiplyByWhole(OneDay(), 5);
    RoundOfInteger(1);
    RoundOfInteger(28800000);
  }

  /** Flooring 1ms short of two days: one day, or 47 hours, or two days less a
      minute, or two days less a second. */
  lemma FloorForAllMinusOne()
    ensures FloorFor(AllMinusOneOfAll, Days) == OneDay()
    ensures FloorFor(AllMinusOneOfAll, Hours) == Of(Whole(2, -1, 0, 0, 0))
    ensures FloorFor(AllMinusOneOfAll, Minutes) == Of(Whole(2, 0, -1, 0, 0))
    ensures FloorFor(AllMinusOneOfAll, Seconds) == Of(Whole(2, 0, 0, -1, 0))
  {
    ScenarioLengths();
    OfWholeFields(2, -1, 0, 0, 0);
    OfWholeFields(2, 0, -1, 0, 0);
    OfWholeFields(2, 0, 0, -1, 0);
    FloorForUnique(AllMinusOneOfAll, Days, OneDay());
    FloorForUnique(AllMinusOneOfAll, Hours, Of(Whole(2, -1, 0, 0, 0)));
    FloorForUnique(AllMinusOneOfAll, Minutes, Of(Whole(2, 0, -1, 0, 0)));
    FloorForUnique(AllMinusOneOfAll, Seconds, Of(Whole(2, 0, 0, -1, 0)));
  }

  /** Rounding 1d 1h 1m 1s 1ms keeps each leading part. */
  lemma RoundForOneOfAll()
    ensures RoundFor(OneOfAll, Days) == Of(Whole(1, 0, 0, 0, 0))
    ensures RoundFor(OneOfAll, Hours) == Of(Whole(1, 1, 0, 0, 0))
    ensures RoundFor(OneOfAll, Minutes) == Of(Whole(1, 1, 1, 0, 0))
    ensures RoundFor(OneOfAll, Seconds) == Of(Whole(1, 1, 1, 1, 0))
  {
    ScenarioLengths();
    OfWholeFields(1, 0, 0, 0, 0);
    OfWholeFields(1, 1, 0, 0, 0);
    OfWholeFields(1, 1, 1, 0, 0);
    OfWholeFields(1, 1, 1, 1, 0);
    RoundForUnique(OneOfAll, Days, Of(Whole(1, 0, 0, 0, 0)));
    RoundForUnique(OneOfAll, Hours, Of(Whole(1, 1, 0, 0, 0)));
    RoundForUnique(OneOfAll, Minutes, Of(Whole(1, 1, 1, 0, 0)));
    RoundForUnique(OneOfAll, Seconds, Of(Whole(1, 1, 1, 1, 0)));
  }

  /** Rounding 1d 12h 30m 30s 500ms: each remainder of at least half a unit
      rounds up; the seconds case is an exact tie. */
  lemma RoundForHalfOfAll()
    ensures RoundFor(HalfOfAll, Days) == Of(Whole(2, 0, 0, 0, 0))
    ensures RoundFor(HalfOfAll, Hours) == Of(Whole(1, 13, 0, 0, 0))
    ensures RoundFor(HalfOfAll, Minutes) == Of(Whole(1, 12, 31, 0, 0))
    ensures RoundFor(HalfOfAll, Seconds) == Of(Whole(1, 12, 30, 31, 0))
  {
    ScenarioLengths();
    OfWholeFields(2, 0, 0, 0, 0);
    OfWholeFields(1, 13, 0, 0, 0);
    OfWholeFields(1, 12, 31, 0, 0);
    OfWholeFields(1, 12, 30, 31, 0);
    RoundForUnique(HalfOfAll, Days, Of(Whole(2, 0, 0, 0, 0)));
    RoundForUnique(HalfOfAll, Hours, Of(Whole(1, 13, 0, 0, 0)));
    RoundForUnique(HalfOfAll, Minutes, Of(Whole(1, 12, 31, 0, 0)));
    RoundForUnique(HalfOfAll, Seconds, Of(Whole(1, 12, 30, 31, 0)));
  }

  /** Rounding 1ms short of two days gives two days in every unit. */
  lemma RoundForAllMinusOne(u: Unit)
    requires u != Millis
    ensures RoundFor(AllMinusOneOfAll, u) == Of(Whole(2, 0, 0, 0, 0))
  {
    ScenarioLengths();
    OfWholeFields(2, 0, 0, 0, 0);
    RoundForUnique(AllMinusOneOfAll, u, Of(Whole(2, 0, 0, 0, 0)));
  }

  /** Ceiling 1d 1h 1m 1s 1ms bumps the last part kept. */
  lemma CeilForOneOfAll()
    ensures CeilFor(OneOfAll, Days) == Of(Whole(2, 0, 0, 0, 0))
    ensures CeilFor(OneOfAll, Hours) == Of(Whole(1, 2, 0, 0, 0))
    ensures CeilFor(OneOfAll, Minutes) == Of(Whole(1, 1, 2, 0, 0))
    ensures CeilFor(OneOfAll, Seconds) == Of(Whole(1, 1, 1, 2, 0))
  {
    ScenarioLengths();
    OfWholeFields(2, 0, 0, 0, 0);
    OfWholeFields(1, 2, 0, 0, 0);
    OfWholeFields(1, 1, 2, 0, 0);
    OfWholeFields(1, 1, 1, 2, 0);
    CeilForUnique(OneOfAll, Days, Of(Whole(2, 0, 0, 0, 0)));
    CeilForUnique(OneOfAll, Hours, Of(Whole(1, 2, 0, 0, 0)));
    CeilForUnique(OneOfAll, Minutes, Of(Whole(1, 1, 2, 0, 0)));
    CeilForUnique(OneOfAll, Seconds, Of(Whole(1, 1, 1, 2, 0)));
  }

  /** With the clock fixed at `today`: until tomorrow and since yesterday are one
      day, and yesterday to tomorrow is two. */
  lemma ClockScenarios(today: int)
    ensures InDays(Until((today + 86400000) as real, today as real)) == 1.0
    ensures InDays(Since((today - 86400000) as real, today as real)) == 1.0
    ensures InDays(Between((today - 86400000) as real, (today + 86400000) as real)) == 2.0
  {
    BetweenIsDifference(today, today + 86400000);
    BetweenIsDifference(today - 86400000, today);
    BetweenIsDifference(today - 86400000, today + 86400000);
  }
}
