/** The immutable `TimeSpan` duration value of sharp-timespan: a signed whole
    number of milliseconds, with construction, comparison, arithmetic, totals
    in a unit and unit-granular floor, round and ceil. JavaScript numbers are
    taken as exact reals; `millis` is always whole: the number and record
    paths end in Math.round, and the copy path copies a value that was
    already whole. */
module TimeSpans {
  import opened Numerics

  datatype Option<T> = None | Some(value: T)

  /** The field names of the `Time` record, used as a unit key. */
  datatype Unit = Days | Hours | Minutes | Seconds | Millis

  /** Milliseconds in one `u`. */
  function Weight(u: Unit): (w: nat)
    ensures w >= 1
  {
    match u
    case Days => 86400000
    case Hours => 3600000
    case Minutes => 60000
    case Seconds => 1000
    case Millis => 1
  }

  /** A `Time` record: every field is optional. */
  datatype Time = Time(
    days: Option<real>,
    hours: Option<real>,
    minutes: Option<real>,
    seconds: Option<real>,
    millis: Option<real>)

  /** The destructuring default: an absent field reads as 0. */
  function OrZero(field: Option<real>): (x: real)
    ensures field.Some? ==> x == field.value
    ensures field.None? ==> x == 0.0
  {
    match field
    case Some(x) => x
    case None => 0.0
  }

  /** The field of `t` named by `u`, absent read as 0. */
  function Field(t: Time, u: Unit): real {
    match u
    case Days => OrZero(t.days)
    case Hours => OrZero(t.hours)
    case Minutes => OrZero(t.minutes)
    case Seconds => OrZero(t.seconds)
    case Millis => OrZero(t.millis)
  }

  /** The record's length in milliseconds as a plain weighted sum of its fields
      (the reference for the nested form the constructor evaluates). */
  function WeightedSum(t: Time): real {
    Field(t, Days) * Weight(Days) as real
    + Field(t, Hours) * Weight(Hours) as real
    + Field(t, Minutes) * Weight(Minutes) as real
    + Field(t, Seconds) * Weight(Seconds) as real
    + Field(t, Millis) * Weight(Millis) as real
  }

  /** The single-field record `{ [u]: n }`. */
  function Single(u: Unit, n: real): (t: Time)
    ensures Field(t, u) == n
    ensures forall v :: v != u ==> Field(t, v) == 0.0
    ensures WeightedSum(t) == n * Weight(u) as real
  {
    match u
    case Days => Time(Some(n), None, None, None, None)
    case Hours => Time(None, Some(n), None, None, None)
    case Minutes => Time(None, None, Some(n), None, None)
    case Seconds => Time(None, None, None, Some(n), None)
    case Millis => Time(None, None, None, None, Some(n))
  }

  datatype TimeSpan = TimeSpan(millis: int)

  /** What the constructor accepts: a number of milliseconds, another span, or
      a `Time` record. */
  datatype Props = Number(n: real) | Span(span: TimeSpan) | Record(time: Time)

  /** The constructor (and the static `of`, which only calls it). */
  function Of(value: Props): (r: TimeSpan)
    ensures value.Number? ==> RoundsTo(value.n, r.millis)
    ensures value.Span? ==> r == value.span
    ensures value.Record? ==> RoundsTo(WeightedSum(value.time), r.millis)
  {
    match value
    case Number(n) => TimeSpan(Round(n))
    case Span(span) => TimeSpan(span.millis)
    case Record(t) =>
      var days, hours, minutes := OrZero(t.days), OrZero(t.hours), OrZero(t.minutes);
      var seconds, millis := OrZero(t.seconds), OrZero(t.millis);
      TimeSpan(Round(millis
                     + 1000.0 * (seconds
                                 + 60.0 * (minutes
                                           + 60.0 * (hours
                                                     + 24.0 * days)))))
  }

  /** Construction from whole-number fields is exact: no rounding happens. */
  lemma OfWholeFields(days: int, hours: int, minutes: int, seconds: int, millis: int)
    ensures Of(Record(Time(Some(days as real), Some(hours as real), Some(minutes as real),
                           Some(seconds as real), Some(millis as real)))).millis
            == millis + 1000 * seconds + 60000 * minutes + 3600000 * hours + 86400000 * days
  {
    var t := Time(Some(days as real), Some(hours as real), Some(minutes as real),
                  Some(seconds as real), Some(millis as real));
    var exact := millis + 1000 * seconds + 60000 * minutes + 3600000 * hours + 86400000 * days;
    assert WeightedSum(t) == exact as real;
    RoundsToUnique(WeightedSum(t), Of(Record(t)).millis, exact);
  }

  /** `{ [u]: n }` for a whole `n` is exactly `n` units long. */
  lemma OfSingleWhole(u: Unit, n: int)
    ensures Of(Record(Single(u, n as real))).millis == n * Weight(u)
  {
    CastMul(n, Weight(u));
    RoundsToUnique(WeightedSum(Single(u, n as real)), Of(Record(Single(u, n as real))).millis, n * Weight(u));
  }

  // ---------------------------------------------------------------- static constants

  /** `of({ days: 7 })`. */
  function OneWeek(): (r: TimeSpan)
    ensures r == Of(Record(Single(Days, 7.0)))
    ensures r.millis == 604800000
  {
    OfSingleWhole(Days, 7);
    Of(Record(Single(Days, 7.0)))
  }

  /** `of({ days: 1 })`. */
  function OneDay(): (r: TimeSpan)
    ensures r == Of(Record(Single(Days, 1.0)))
    ensures r.millis == 86400000
  {
    OfSingleWhole(Days, 1);
    Of(Record(Single(Days, 1.0)))
  }

  /** `of({ hours: 1 })`. */
  function OneHour(): (r: TimeSpan)
    ensures r == Of(Record(Single(Hours, 1.0)))
    ensures r.millis == 3600000
  {
    OfSingleWhole(Hours, 1);
    Of(Record(Single(Hours, 1.0)))
  }

  /** `of({ minutes: 30 })`. */
  function HalfHour(): (r: TimeSpan)
    ensures r == Of(Record(Single(Minutes, 30.0)))
    ensures r.millis == 1800000
  {
    OfSingleWhole(Minutes, 30);
    Of(Record(Single(Minutes, 30.0)))
  }

  /** `of({ minutes: 5 })`. */
  function FiveMinutes(): (r: TimeSpan)
    ensures r == Of(Record(Single(Minutes, 5.0)))
    ensures r.millis == 300000
  {
    OfSingleWhole(Minutes, 5);
    Of(Record(Single(Minutes, 5.0)))
  }

  /** `of({ minutes: 1 })`. */
  function OneMinute(): (r: TimeSpan)
    ensures r == Of(Record(Single(Minutes, 1.0)))
    ensures r.millis == 60000
  {
    OfSingleWhole(Minutes, 1);
    Of(Record(Single(Minutes, 1.0)))
  }

  /** `of({ seconds: 30 })`. */
  function HalfMinute(): (r: TimeSpan)
    ensures r == Of(Record(Single(Seconds, 30.0)))
    ensures r.millis == 30000
  {
    OfSingleWhole(Seconds, 30);
    Of(Record(Single(Seconds, 30.0)))
  }

  /** `of({ seconds: 1 })`. */
  function OneSecond(): (r: TimeSpan)
    ensures r == Of(Record(Single(Seconds, 1.0)))
    ensures r.millis == 1000
  {
    OfSingleWhole(Seconds, 1);
    Of(Record(Single(Seconds, 1.0)))
  }

  // ---------------------------------------------------------------- static helpers

  /** The span from `past` to `future`, both epoch milliseconds: `future` is
      rounded by the constructor and `past` by `minus`. */
  function Between(past: real, future: real): (r: TimeSpan)
    ensures r.millis == Round(future) - Round(past)
  {
    Minus(Of(Number(future)), Number(past))
  }

  /** `since`, with the clock reading `now` passed in. */
  function Since(past: real, now: real): (r: TimeSpan)
    ensures r.millis == Round(now) - Round(past)
  {
    Between(past, now)
  }

  /** `until`, with the clock reading `now` passed in. */
  function Until(future: real, now: real): (r: TimeSpan)
    ensures r.millis == Round(future) - Round(now)
  {
    Between(now, future)
  }

  /** For whole epoch milliseconds the span is exactly their difference. */
  lemma BetweenIsDifference(past: int, future: int)
    ensures Between(past as real, future as real).millis == future - past
  {
    RoundOfInteger(past);
    RoundOfInteger(future);
  }

  // ---------------------------------------------------------------- sign

  predicate IsNegative(d: TimeSpan): (b: bool)
    ensures b <==> d.millis < 0
    ensures b <==> Negate(d).millis > 0
  {
    d.millis < 0
  }

  /** Not negative, so zero counts as positive. */
  predicate IsPositive(d: TimeSpan): (b: bool)
    ensures b <==> !IsNegative(d)
    ensures b <==> d.millis >= 0
  {
    !IsNegative(d)
  }

  /** The sign is a comparison with zero: negative is less than 0 ms, positive
      is not less than it, so zero is positive and not negative. */
  lemma PositiveIsNotNegative(d: TimeSpan)
    ensures IsNegative(d) <==> IsLessThan(d, Number(0.0))
    ensures IsPositive(d) <==> !IsLessThan(d, Number(0.0))
    ensures IsPositive(d) != IsNegative(d)
    ensures d.millis == 0 ==> IsPositive(d) && !IsNegative(d)
  {
    RoundOfInteger(0);
  }

  // ---------------------------------------------------------------- totals

  function Rank(u: Unit): nat {
    match u
    case Days => 4
    case Hours => 3
    case Minutes => 2
    case Seconds => 1
    case Millis => 0
  }

  /** The switch of `as`, entered at case `u` with the running value `time`:
      each case divides once and falls through to the next smaller unit. */
  function FallThrough(u: Unit, time: real): (r: real)
    ensures r * Weight(u) as real == time
    decreases Rank(u)
  {
    match u
    case Days => FallThrough(Hours, time / 24.0)
    case Hours => FallThrough(Minutes, time / 60.0)
    case Minutes => FallThrough(Seconds, time / 60.0)
    case Seconds => FallThrough(Millis, time / 1000.0)
    case Millis => time
  }

  /** The private `as`: the whole span counted in `u`, not truncated. */
  function As(d: TimeSpan, u: Unit): (r: real)
    ensures r * Weight(u) as real == d.millis as real
    ensures r == d.millis as real / Weight(u) as real
  {
    FallThrough(u, d.millis as real)
  }

  function InDays(d: TimeSpan): (r: real)
    ensures r * 86400000.0 == d.millis as real
  {
    As(d, Days)
  }

  function InHours(d: TimeSpan): (r: real)
    ensures r * 3600000.0 == d.millis as real
  {
    As(d, Hours)
  }

  function InMinutes(d: TimeSpan): (r: real)
    ensures r * 60000.0 == d.millis as real
  {
    As(d, Minutes)
  }

  function InSeconds(d: TimeSpan): (r: real)
    ensures r * 1000.0 == d.millis as real
  {
    As(d, Seconds)
  }

  /** Building `{ [u]: n }` and reading it back in `u` gives `n` exactly when
      `n` units are a whole number of milliseconds (`of({ hours: 0.5 }).hours`
      is 0.5, but `of({ millis: 0.5 }).millis` is 1). */
  /** `as(u)` reads `n` exactly when `n` units are the span's milliseconds. */
  lemma AsExactly(d: TimeSpan, u: Unit, n: real)
    ensures As(d, u) == n <==> n * Weight(u) as real == d.millis as real
  {
    if n * Weight(u) as real == d.millis as real {
      MulCancel(As(d, u), n, Weight(u) as real);
    }
  }

  /** Building `{ [u]: n }` keeps `n` units exactly when they are whole
      milliseconds; otherwise Math.round moves them. */
  lemma OfSingleExactly(u: Unit, n: real)
    ensures n * Weight(u) as real == Of(Record(Single(u, n))).millis as real
        <==> (n * Weight(u) as real).Floor as real == n * Weight(u) as real
  {
    RoundExactly(n * Weight(u) as real, Of(Record(Single(u, n))).millis);
  }

  /** Building `{ [u]: n }` and reading it back in `u` gives `n` exactly when
      `n` units are whole milliseconds: `of({ hours: 0.5 }).hours` is 0.5, but
      `of({ millis: 0.5 }).millis` is 1. */
  lemma AsOfSingle(u: Unit, n: real)
    ensures As(Of(Record(Single(u, n))), u) == n
        <==> (n * Weight(u) as real).Floor as real == n * Weight(u) as real
  {
    AsExactly(Of(Record(Single(u, n))), u, n);
    OfSingleExactly(u, n);
  }

  // ---------------------------------------------------------------- comparisons

  /** The argument goes through the constructor first, so a number is
      rounded before the comparison. */
  predicate IsEqualTo(d: TimeSpan, other: Props): (b: bool)
    ensures b <==> d == Of(other)
    ensures b <==> Minus(d, other).millis == 0
  {
    d.millis == Of(other).millis
  }

  predicate IsGreaterThan(d: TimeSpan, other: Props): (b: bool)
    ensures b <==> d.millis > Of(other).millis
    ensures b <==> Minus(d, other).millis > 0
  {
    d.millis > Of(other).millis
  }

  predicate IsLessThan(d: TimeSpan, other: Props): (b: bool)
    ensures b <==> d.millis < Of(other).millis
    ensures b <==> IsNegative(Minus(d, other))
  {
    d.millis < Of(other).millis
  }

  /** Exactly one of the three comparisons holds. */
  lemma Trichotomy(d: TimeSpan, other: Props)
    ensures IsLessThan(d, other) || IsEqualTo(d, other) || IsGreaterThan(d, other)
    ensures !(IsLessThan(d, other) && IsEqualTo(d, other))
    ensures !(IsLessThan(d, other) && IsGreaterThan(d, other))
    ensures !(IsEqualTo(d, other) && IsGreaterThan(d, other))
  {
  }

  /** `a` is greater than `b` exactly when `b` is less than `a`. */
  lemma GreaterIsConverseOfLess(a: TimeSpan, b: TimeSpan)
    ensures IsGreaterThan(a, Span(b)) <==> IsLessThan(b, Span(a))
    ensures IsEqualTo(a, Span(b)) <==> IsEqualTo(b, Span(a))
  {
  }

  // ---------------------------------------------------------------- arithmetic

  function MultiplyBy(d: TimeSpan, factor: real): (r: TimeSpan)
    ensures RoundsTo(d.millis as real * factor, r.millis)
  {
    Of(Number(d.millis as real * factor))
  }

  /** Division by zero is left to IEEE-754 (Infinity or NaN) and not modelled. */
  function DivideBy(d: TimeSpan, factor: real): (r: TimeSpan)
    requires factor != 0.0
    ensures RoundsTo(d.millis as real / factor, r.millis)
  {
    Of(Number(d.millis as real / factor))
  }

  function Plus(d: TimeSpan, other: Props): (r: TimeSpan)
    ensures r.millis == d.millis + Of(other).millis
  {
    RoundOfInteger(d.millis + Of(other).millis);
    Of(Number((d.millis + Of(other).millis) as real))
  }

  function Minus(d: TimeSpan, other: Props): (r: TimeSpan)
    ensures r.millis == d.millis - Of(other).millis
  {
    RoundOfInteger(d.millis - Of(other).millis);
    Of(Number((d.millis - Of(other).millis) as real))
  }

  function AsAbsolute(d: TimeSpan): (r: TimeSpan)
    ensures !IsNegative(r)
    ensures r.millis == d.millis || r.millis == -d.millis
  {
    RoundOfInteger(IntAbs(d.millis));
    Of(Number(Abs(d.millis as real)))
  }

  function Negate(d: TimeSpan): (r: TimeSpan)
    ensures r.millis + d.millis == 0
  {
    RoundOfInteger(-d.millis);
    Of(Number(-(d.millis as real)))
  }

  /** Multiplying by a whole factor is exact. */
  lemma MultiplyByWhole(d: TimeSpan, k: int)
    ensures MultiplyBy(d, k as real).millis == d.millis * k
  {
    CastMul(d.millis, k);
    RoundsToUnique(d.millis as real * k as real, MultiplyBy(d, k as real).millis, d.millis * k);
  }

  /** A span minus itself is zero. */
  lemma MinusSelf(d: TimeSpan)
    ensures Minus(d, Span(d)).millis == 0
  {
  }

  /** Subtracting what was added restores the span. */
  lemma PlusThenMinus(d: TimeSpan, x: Props)
    ensures Minus(Plus(d, x), x) == d
  {
  }

  /** Subtracting a negated span adds it, also when the negation is given as a
      plain number of milliseconds. */
  lemma MinusNegated(d: TimeSpan, x: TimeSpan)
    ensures Minus(d, Span(Negate(x))) == Plus(d, Span(x))
    ensures Minus(d, Number(-(x.millis as real))) == Plus(d, Span(x))
  {
    RoundOfInteger(-x.millis);
  }

  /** Negating twice restores the span. */
  lemma NegateInvolution(d: TimeSpan)
    ensures Negate(Negate(d)) == d
  {
  }

  /** The absolute value is idempotent, leaves a non-negative span alone and
      ignores the sign of its argument. */
  lemma AbsoluteProperties(d: TimeSpan)
    ensures AsAbsolute(AsAbsolute(d)) == AsAbsolute(d)
    ensures !IsNegative(d) ==> AsAbsolute(d) == d
    ensures AsAbsolute(Negate(d)) == AsAbsolute(d)
  {
  }

  // ---------------------------------------------------------------- unit granularity

  /** `r` has the sign of `d`: a rounded span never flips sign. */
  predicate SignAgrees(r: TimeSpan, d: TimeSpan) {
    (d.millis < 0 ==> r.millis <= 0) && (d.millis >= 0 ==> r.millis >= 0)
  }

  /** The magnitude of `d` counted in `u`. */
  lemma AbsAs(d: TimeSpan, u: Unit)
    ensures Abs(As(d, u)) == IntAbs(d.millis) as real / Weight(u) as real
  {
  }

  /** `{ [u]: millis < 0 ? -span : span }`, the last step of floorFor, roundFor
      and ceilFor. */
  function Rebuild(d: TimeSpan, u: Unit, span: nat): (r: TimeSpan)
    ensures r.millis % Weight(u) == 0
    ensures IntAbs(r.millis) == span * Weight(u)
    ensures SignAgrees(r, d)
  {
    var signed := if d.millis < 0 then -(span as int) else span as int;
    OfSingleWhole(u, signed);
    MultipleHasNoRemainder(signed, Weight(u));
    Of(Record(Single(u, if d.millis < 0 then -(span as real) else span as real)))
  }

  /** The multiple of the unit nearest to `d` toward zero. */
  function FloorFor(d: TimeSpan, u: Unit): (r: TimeSpan)
    ensures r.millis % Weight(u) == 0
    ensures IntAbs(r.millis) <= IntAbs(d.millis) < IntAbs(r.millis) + Weight(u)
    ensures SignAgrees(r, d)
  {
    var span := Floor(Abs(As(d, u)));
    AbsAs(d, u);
    FloorScaled(IntAbs(d.millis), Weight(u), span);
    Rebuild(d, u, span)
  }

  /** The multiple of the unit nearest to `d` in magnitude, a tie going away
      from zero. */
  function RoundFor(d: TimeSpan, u: Unit): (r: TimeSpan)
    ensures r.millis % Weight(u) == 0
    ensures 2 * IntAbs(r.millis) - Weight(u) <= 2 * IntAbs(d.millis) < 2 * IntAbs(r.millis) + Weight(u)
    ensures SignAgrees(r, d)
  {
    var span := Round(Abs(As(d, u)));
    AbsAs(d, u);
    RoundScaled(IntAbs(d.millis), Weight(u), span);
    Rebuild(d, u, span)
  }

  /** The multiple of the unit nearest to `d` away from zero. */
  function CeilFor(d: TimeSpan, u: Unit): (r: TimeSpan)
    ensures r.millis % Weight(u) == 0
    ensures IntAbs(d.millis) <= IntAbs(r.millis) < IntAbs(d.millis) + Weight(u)
    ensures SignAgrees(r, d)
  {
    var span := Ceil(Abs(As(d, u)));
    AbsAs(d, u);
    CeilScaled(IntAbs(d.millis), Weight(u), span);
    Rebuild(d, u, span)
  }

  /** `sign(d) * k * weight(u)`: the span `k` units long with the sign of `d`. */
  function SignedUnits(d: TimeSpan, u: Unit, k: nat): TimeSpan {
    var magnitude := k * Weight(u);
    TimeSpan(if d.millis < 0 then -magnitude else magnitude)
  }

  /** FloorFor in whole-number arithmetic: the magnitude divided by the weight,
      truncated, with the sign put back. */
  lemma FloorForByDivision(d: TimeSpan, u: Unit)
    ensures FloorFor(d, u) == SignedUnits(d, u, IntAbs(d.millis) / Weight(u))
  {
    var w, a := Weight(u), IntAbs(d.millis);
    var r := SignedUnits(d, u, a / w);
    MultipleHasNoRemainder(a / w, w);
    SignedMultiple(a / w * w, w);
    FloorForUnique(d, u, r);
  }

  /** CeilFor in whole-number arithmetic: the magnitude divided by the weight,
      rounded up, with the sign put back. */
  lemma CeilForByDivision(d: TimeSpan, u: Unit)
    ensures CeilFor(d, u) == SignedUnits(d, u, CeilDiv(IntAbs(d.millis), Weight(u)))
  {
    var w, a := Weight(u), IntAbs(d.millis);
    var k := CeilDiv(a, w);
    var r := SignedUnits(d, u, k);
    MultipleHasNoRemainder(k, w);
    SignedMultiple(k * w, w);
    CeilForUnique(d, u, r);
  }

  /** `a / w` rounded up, in whole-number arithmetic. */
  function CeilDiv(a: nat, w: nat): (k: nat)
    requires w > 0
    ensures k * w - w < a <= k * w
  {
    var k, rem := (a + w - 1) / w, (a + w - 1) % w;
    assert a + w - 1 == k * w + rem;
    k
  }

  /** RoundFor in whole-number arithmetic: the magnitude divided by the weight,
      a half rounded up, with the sign put back. */
  lemma RoundForByDivision(d: TimeSpan, u: Unit)
    ensures RoundFor(d, u) == SignedUnits(d, u, HalfUp(IntAbs(d.millis), Weight(u)))
  {
    var w, a := Weight(u), IntAbs(d.millis);
    var k := HalfUp(a, w);
    var r := SignedUnits(d, u, k);
    MultipleHasNoRemainder(k, w);
    SignedMultiple(k * w, w);
    RoundForUnique(d, u, r);
  }

  /** `a / w` rounded half up, in whole-number arithmetic. */
  function HalfUp(a: nat, w: nat): (k: nat)
    requires w > 0
    ensures 2 * (k * w) - w <= 2 * a < 2 * (k * w) + w
  {
    var k, rem := (2 * a + w) / (2 * w), (2 * a + w) % (2 * w);
    assert 2 * a + w == k * (2 * w) + rem;
    assert k * (2 * w) == 2 * (k * w);
    k
  }

  /** Flooring never grows and ceiling never shrinks the magnitude. */
  lemma FloorCeilBracket(d: TimeSpan, u: Unit)
    ensures IntAbs(FloorFor(d, u).millis) <= IntAbs(d.millis) <= IntAbs(CeilFor(d, u).millis)
    ensures IntAbs(CeilFor(d, u).millis) - IntAbs(FloorFor(d, u).millis) <= Weight(u)
  {
    var w, f, c := Weight(u), FloorFor(d, u), CeilFor(d, u);
    SignedMultiple(f.millis, w);
    SignedMultiple(c.millis, w);
    GranulesAround(IntAbs(d.millis), IntAbs(f.millis), IntAbs(c.millis), w);
  }

  /** The multiples of `w` just below and just above `a` are at most `w` apart. */
  lemma GranulesAround(a: int, lo: int, hi: int, w: nat)
    requires w > 0 && lo % w == 0 && hi % w == 0
    requires lo <= a < lo + w && a <= hi < a + w
    ensures hi - lo <= w
  {
    if hi - lo > w {
      MultipleHasNoRemainder(hi / w - 1, w);
      assert hi - w == (hi / w - 1) * w;
      MultiplesApart(lo, hi - w, w);
    }
  }

  /** The magnitude of a multiple of `w` is a multiple of `w`, and so is its
      negation. */
  lemma SignedMultiple(m: int, w: nat)
    requires w > 0 && m % w == 0
    ensures IntAbs(m) % w == 0 && (-m) % w == 0
  {
    MultipleHasNoRemainder(-(m / w), w);
    assert -m == -(m / w) * w;
  }

  /** Two multiples of `w` with the sign of `d` and magnitudes less than `w`
      apart are equal. */
  lemma SameGranule(d: TimeSpan, r1: TimeSpan, r2: TimeSpan, w: nat)
    requires w > 0 && r1.millis % w == 0 && r2.millis % w == 0
    requires SignAgrees(r1, d) && SignAgrees(r2, d)
    requires IntAbs(r1.millis) <= IntAbs(r2.millis) < IntAbs(r1.millis) + w
    ensures r1 == r2
  {
    SignedMultiple(r1.millis, w);
    SignedMultiple(r2.millis, w);
    MultiplesApart(IntAbs(r1.millis), IntAbs(r2.millis), w);
  }

  /** The contract of FloorFor pins its result down: no other span meets it. */
  lemma FloorForUnique(d: TimeSpan, u: Unit, r: TimeSpan)
    requires r.millis % Weight(u) == 0
    requires IntAbs(r.millis) <= IntAbs(d.millis) < IntAbs(r.millis) + Weight(u)
    requires SignAgrees(r, d)
    ensures r == FloorFor(d, u)
  {
    var f := FloorFor(d, u);
    if IntAbs(r.millis) <= IntAbs(f.millis) {
      SameGranule(d, r, f, Weight(u));
    } else {
      SameGranule(d, f, r, Weight(u));
    }
  }

  /** The contract of CeilFor pins its result down: no other span meets it. */
  lemma CeilForUnique(d: TimeSpan, u: Unit, r: TimeSpan)
    requires r.millis % Weight(u) == 0
    requires IntAbs(d.millis) <= IntAbs(r.millis) < IntAbs(d.millis) + Weight(u)
    requires SignAgrees(r, d)
    ensures r == CeilFor(d, u)
  {
    var c := CeilFor(d, u);
    if IntAbs(r.millis) <= IntAbs(c.millis) {
      SameGranule(d, r, c, Weight(u));
    } else {
      SameGranule(d, c, r, Weight(u));
    }
  }

  /** The contract of RoundFor pins its result down: no other span meets it. */
  lemma RoundForUnique(d: TimeSpan, u: Unit, r: TimeSpan)
    requires r.millis % Weight(u) == 0
    requires 2 * IntAbs(r.millis) - Weight(u) <= 2 * IntAbs(d.millis) < 2 * IntAbs(r.millis) + Weight(u)
    requires SignAgrees(r, d)
    ensures r == RoundFor(d, u)
  {
    var n := RoundFor(d, u);
    if IntAbs(r.millis) <= IntAbs(n.millis) {
      SameGranule(d, r, n, Weight(u));
    } else {
      SameGranule(d, n, r, Weight(u));
    }
  }

  /** A span that is already a whole number of units is left unchanged by all
      three. */
  lemma GranularFixedPoint(d: TimeSpan, u: Unit)
    requires d.millis % Weight(u) == 0
    ensures FloorFor(d, u) == d && RoundFor(d, u) == d && CeilFor(d, u) == d
  {
    FloorForUnique(d, u, d);
    RoundForUnique(d, u, d);
    CeilForUnique(d, u, d);
  }

  /** The three are idempotent. */
  lemma GranularIdempotent(d: TimeSpan, u: Unit)
    ensures FloorFor(FloorFor(d, u), u) == FloorFor(d, u)
    ensures RoundFor(RoundFor(d, u), u) == RoundFor(d, u)
    ensures CeilFor(CeilFor(d, u), u) == CeilFor(d, u)
  {
    GranularFixedPoint(FloorFor(d, u), u);
    GranularFixedPoint(RoundFor(d, u), u);
    GranularFixedPoint(CeilFor(d, u), u);
  }

  /** Negating commutes with the three: they work on the magnitude and put the
      sign back. */
  lemma FloorForOddSymmetry(d: TimeSpan, u: Unit)
    ensures FloorFor(Negate(d), u) == Negate(FloorFor(d, u))
  {
    SignedMultiple(FloorFor(d, u).millis, Weight(u));
    FloorForUnique(Negate(d), u, Negate(FloorFor(d, u)));
  }

  lemma RoundForOddSymmetry(d: TimeSpan, u: Unit)
    ensures RoundFor(Negate(d), u) == Negate(RoundFor(d, u))
  {
    SignedMultiple(RoundFor(d, u).millis, Weight(u));
    RoundForUnique(Negate(d), u, Negate(RoundFor(d, u)));
  }

  lemma CeilForOddSymmetry(d: TimeSpan, u: Unit)
    ensures CeilFor(Negate(d), u) == Negate(CeilFor(d, u))
  {
    SignedMultiple(CeilFor(d, u).millis, Weight(u));
    CeilForUnique(Negate(d), u, Negate(CeilFor(d, u)));
  }
}
