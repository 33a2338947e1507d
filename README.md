# sharp-timespan: the `TimeSpan` value, modelled in Dafny

`TimeSpan` is an immutable, signed span of time measured in whole
milliseconds. It can be built from a number, from another span, or from a
`Time` record `{days, hours, minutes, seconds, millis}` whose fields are all
optional. It offers sign tests, exact comparisons, arithmetic, the total
length in a unit, and floor/round/ceil to a whole number of a unit.

The model is pure, like the source: every operation returns a new span, and
`millis` is assigned once. It has three modules:

- `Numerics` (numerics.dfy): `Math.abs`, `Math.floor`, `Math.ceil` and
  `Math.round`, taken over exact reals. It also holds the arithmetic lemmas
  that scale `k <= a / w < k + 1` into whole-number bounds.
- `TimeSpans` (time_span.dfy): the class in src/index.ts.
  - `datatype TimeSpan(millis: int)` is the span.
  - `Props` is the constructor's three input shapes: `Number`, `Span` and
    `Record`.
  - `Unit` with `Weight` replaces the computed record key `{ [unit]: … }`.
  - The private `as` is `As`; its fall-through switch is `FallThrough`. It
    follows the switch case by case: each case divides once and then falls
    into the next case.
  - Every operation is a function. The static constructor `of` and the class
    constructor are one function, `Of`.
- `TimeSpanScenarios` (scenarios.dfy): the concrete cases of
  tests/TimeSpan.test.ts, stated about the model.

`millis` is always whole: the number and record paths end in `Math.round`,
and the copy path copies a value that was already whole.
`Math.round(x)` is `floor(x + 1/2)`, so a tie goes toward +infinity.
`Math.round(-2.5)` is therefore -2 and not -3; `Numerics.RoundTiesUp` states
this. `divideBy` and `multiplyBy` build their result through that same
constructor, so their results are rounded too. The test at
tests/TimeSpan.test.ts:65 expects `of(1).divideBy(2).millis` to be `0.5`. The
code (src/index.ts:49, src/index.ts:71) gives 1, and the model follows the
code: `TimeSpanScenarios.ScalingRounds`.

The unit-granular operations are specified by what their result means, not by
the steps they take:

- `FloorFor(d, u)` is the multiple of `Weight(u)` that has the sign of `d`,
  with magnitude at most `|d|` and within one unit of `|d|`.
- `CeilFor(d, u)` is the same, with magnitude at least `|d|`.
- `RoundFor(d, u)` is the same, with magnitude nearest `|d|`; a tie goes up.

The `*Unique` lemmas show that each of these contracts pins the result down.
The `*ByDivision` lemmas tie each result to a whole-number division.

## Model

| member | source | states |
|---|---|---|
| `Numerics.Round` | src/index.ts:49 | `Math.round(x)` is the integer `m` with `m - 1/2 <= x < m + 1/2` |
| `Numerics.RoundTiesUp` | src/index.ts:49 | a tie `k + 1/2` rounds to `k + 1`, toward +infinity, also for negative `k` |
| `Numerics.RoundExactly` | src/index.ts:49 | `Math.round` leaves `x` unchanged exactly when `x` is whole |
| `Numerics.RoundOfInteger` | src/index.ts:49 | rounding a whole number gives it back |
| `Numerics.Floor` | src/index.ts:78 | `Math.floor(x)` is the integer `k` with `k <= x < k + 1` |
| `Numerics.Ceil` | src/index.ts:88 | `Math.ceil(x)` is the integer `k` with `k - 1 < x <= k` |
| `Numerics.Abs` | src/index.ts:92 | `Math.abs(x)` is non-negative and is `x` or `-x` |
| `TimeSpans.Of` | src/index.ts:47-61 | a number is rounded to nearest; a span is copied; a record gives the rounded weighted sum of its fields, an absent field counting 0 |
| `TimeSpans.OrZero` | src/index.ts:53 | a present field reads as its value and an absent one as 0 |
| `TimeSpans.OfWholeFields` | src/index.ts:53-59 | for whole-number fields the record is exactly `millis + 1000*seconds + 60000*minutes + 3600000*hours + 86400000*days`, with no rounding |
| `TimeSpans.Single` | src/index.ts:79 | `{ [u]: n }` sets field `u` to `n`, leaves every other field at 0, and weighs `n * Weight(u)` |
| `TimeSpans.OfSingleWhole` | src/index.ts:79 | `of({ [u]: n })` for a whole `n` is exactly `n * Weight(u)` milliseconds |
| `TimeSpans.OneWeek` | src/index.ts:12 | `oneWeek` is `of({ days: 7 })`, which is exactly 604800000 ms |
| `TimeSpans.OneDay` | src/index.ts:13 | `oneDay` is `of({ days: 1 })`, which is exactly 86400000 ms |
| `TimeSpans.OneHour` | src/index.ts:14 | `oneHour` is `of({ hours: 1 })`, which is exactly 3600000 ms |
| `TimeSpans.HalfHour` | src/index.ts:15 | `halfHour` is `of({ minutes: 30 })`, which is exactly 1800000 ms |
| `TimeSpans.FiveMinutes` | src/index.ts:16 | `fiveMinutes` is `of({ minutes: 5 })`, which is exactly 300000 ms |
| `TimeSpans.OneMinute` | src/index.ts:17 | `oneMinute` is `of({ minutes: 1 })`, which is exactly 60000 ms |
| `TimeSpans.HalfMinute` | src/index.ts:18 | `halfMinute` is `of({ seconds: 30 })`, which is exactly 30000 ms |
| `TimeSpans.OneSecond` | src/index.ts:19 | `oneSecond` is `of({ seconds: 1 })`, which is exactly 1000 ms |
| `TimeSpans.Between` | src/index.ts:27-31 | the span is `Round(future) - Round(past)`: the constructor rounds `future` and `minus` rounds `past` |
| `TimeSpans.Since` | src/index.ts:23 | `since(past)` is `now` minus `past`, each rounded, with the clock reading `now` passed in |
| `TimeSpans.Until` | src/index.ts:25 | `until(future)` is `future` minus `now`, each rounded, with the clock reading `now` passed in |
| `TimeSpans.BetweenIsDifference` | src/index.ts:27-31 | for whole epoch milliseconds `between(p, f).millis == f - p` |
| `TimeSpans.IsNegative` | src/index.ts:35 | `isNegative` holds exactly when `millis < 0`, that is when the negated span is above zero |
| `TimeSpans.IsPositive` | src/index.ts:37 | `isPositive` is `!isNegative`, so it holds exactly when `millis >= 0` |
| `TimeSpans.PositiveIsNotNegative` | src/index.ts:35-37 | `isNegative` is `isLessThan(0)` and `isPositive` its negation; exactly one of the two holds, and zero is positive and not negative |
| `TimeSpans.FallThrough` | src/index.ts:97-109 | the fall-through switch entered at case `u` divides its input by exactly `Weight(u)` (24·60·60·1000 for days, and so on) |
| `TimeSpans.As` | src/index.ts:96-111 | `as(u)` is `millis / Weight(u)`, not truncated |
| `TimeSpans.InDays` | src/index.ts:39 | `days` times 86400000 is `millis` |
| `TimeSpans.InHours` | src/index.ts:41 | `hours` times 3600000 is `millis` |
| `TimeSpans.InMinutes` | src/index.ts:43 | `minutes` times 60000 is `millis` |
| `TimeSpans.InSeconds` | src/index.ts:45 | `seconds` times 1000 is `millis` |
| `TimeSpans.AsExactly` | src/index.ts:96-111 | for any span and real `n`, `as(u)` is `n` exactly when `n * Weight(u)` equals the span's `millis` |
| `TimeSpans.OfSingleExactly` | src/index.ts:53-59 | `of({ [u]: n })` keeps `n * Weight(u)` milliseconds unchanged exactly when that product is whole |
| `TimeSpans.AsOfSingle` | src/index.ts:96-111 | for any real `n`, building `{ [u]: n }` and reading it back with `as(u)` gives `n` exactly when `n * Weight(u)` is whole: `of({ hours: 0.5 }).hours` is 0.5, but `of({ millis: 0.5 }).millis` is 1 |
| `TimeSpans.IsEqualTo` | src/index.ts:63 | `isEqualTo(x)` compares `millis` with `x` after the constructor, so it holds exactly when `new TimeSpan(x)` is the same span, that is when `minus(x)` is zero |
| `TimeSpans.IsGreaterThan` | src/index.ts:65 | `isGreaterThan(x)` holds exactly when `millis` exceeds that of `new TimeSpan(x)`, that is when `minus(x)` is above zero |
| `TimeSpans.IsLessThan` | src/index.ts:67 | `isLessThan(x)` holds exactly when `millis` is below that of `new TimeSpan(x)`, that is when `minus(x)` is negative |
| `TimeSpans.Trichotomy` | src/index.ts:63-67 | exactly one of `isLessThan`, `isEqualTo` and `isGreaterThan` holds |
| `TimeSpans.GreaterIsConverseOfLess` | src/index.ts:65-67 | `a.isGreaterThan(b)` exactly when `b.isLessThan(a)`, and `isEqualTo` is symmetric |
| `TimeSpans.MultiplyBy` | src/index.ts:69 | the result is `millis * factor` rounded to nearest |
| `TimeSpans.MultiplyByWhole` | src/index.ts:69 | multiplying by a whole factor is exact |
| `TimeSpans.DivideBy` | src/index.ts:71 | the result is `millis / factor` rounded to nearest, so it is never fractional |
| `TimeSpans.Plus` | src/index.ts:73 | the result is exactly `millis` plus the argument after the argument's own rounding |
| `TimeSpans.Minus` | src/index.ts:75 | the result is exactly `millis` minus the argument after the argument's own rounding |
| `TimeSpans.MinusSelf` | src/index.ts:75 | a span minus itself is zero |
| `TimeSpans.PlusThenMinus` | src/index.ts:73-75 | `d.plus(x).minus(x) == d` for every argument `x` |
| `TimeSpans.MinusNegated` | src/index.ts:73-75 | subtracting `-x`, given as a span or as a number, is adding `x` |
| `TimeSpans.AsAbsolute` | src/index.ts:92 | the result is never negative and is `d` or its negation |
| `TimeSpans.AbsoluteProperties` | src/index.ts:92 | `asAbsolute` is idempotent, leaves a non-negative span unchanged and ignores the sign |
| `TimeSpans.Negate` | src/index.ts:94 | the result and `d` add to zero |
| `TimeSpans.NegateInvolution` | src/index.ts:94 | negating twice restores the span |
| `TimeSpans.Rebuild` | src/index.ts:79 | `{ [u]: millis < 0 ? -span : span }` is `span` units long, a multiple of the unit, with the sign of the original |
| `TimeSpans.FloorFor` | src/index.ts:77-80 | the result is the multiple of `Weight(u)` with the sign of `d` and magnitude in `(abs(d) - Weight(u), abs(d)]`: truncation toward zero |
| `TimeSpans.RoundFor` | src/index.ts:82-85 | the result is the multiple of `Weight(u)` with the sign of `d` whose magnitude is nearest `abs(d)`, a tie going up in magnitude |
| `TimeSpans.CeilFor` | src/index.ts:87-90 | the result is the multiple of `Weight(u)` with the sign of `d` and magnitude in `[abs(d), abs(d) + Weight(u))` |
| `TimeSpans.FloorForUnique` | src/index.ts:77-80 | no span other than `floorFor(u)` meets its contract |
| `TimeSpans.RoundForUnique` | src/index.ts:82-85 | no span other than `roundFor(u)` meets its contract |
| `TimeSpans.CeilForUnique` | src/index.ts:87-90 | no span other than `ceilFor(u)` meets its contract |
| `TimeSpans.FloorForByDivision` | src/index.ts:77-80 | `floorFor(u)` is `sign(d) * (abs(millis) div w) * w` |
| `TimeSpans.HalfUp` | src/index.ts:83 | `(2a + w) div (2w)` is `a / w` rounded to nearest, a tie going up |
| `TimeSpans.RoundForByDivision` | src/index.ts:82-85 | `roundFor(u)` is `sign(d) * HalfUp(abs(millis), w) * w` |
| `TimeSpans.CeilDiv` | src/index.ts:88 | `(a + w - 1) div w` is `a / w` rounded up |
| `TimeSpans.CeilForByDivision` | src/index.ts:87-90 | `ceilFor(u)` is `sign(d) * CeilDiv(abs(millis), w) * w` |
| `TimeSpans.FloorCeilBracket` | src/index.ts:77-90 | `abs(floorFor(u)) <= abs(d) <= abs(ceilFor(u))`, and the two are at most one unit apart |
| `TimeSpans.GranularFixedPoint` | src/index.ts:77-90 | a span that is already a whole number of units is unchanged by all three |
| `TimeSpans.GranularIdempotent` | src/index.ts:77-90 | applying `floorFor`, `roundFor` or `ceilFor` twice is the same as once |
| `TimeSpans.FloorForOddSymmetry` | src/index.ts:77-80 | `floorFor(u)` of `-d` is `-(d.floorFor(u))` |
| `TimeSpans.RoundForOddSymmetry` | src/index.ts:82-85 | `roundFor(u)` of `-d` is `-(d.roundFor(u))` |
| `TimeSpans.CeilForOddSymmetry` | src/index.ts:87-90 | `ceilFor(u)` of `-d` is `-(d.ceilFor(u))` |
| `TimeSpanScenarios.ScenarioLengths` | tests/TimeSpan.test.ts:5-7 | the three test spans are 90061001, 131430500 and 172799999 ms |
| `TimeSpanScenarios.OneWeekTotals` | tests/TimeSpan.test.ts:69-75 | one week is 7 days, 168 hours, 10080 minutes, 604800 seconds and 604800000 ms |
| `TimeSpanScenarios.ConstantComparisons` | tests/TimeSpan.test.ts:11-27 | one hour is less than a day, equal to itself and greater than a minute, and none of the other comparisons among them hold |
| `TimeSpanScenarios.SignOfSmallSpans` | tests/TimeSpan.test.ts:29-37 | `of(0)` is positive and not negative; `of(-1)` is negative and not positive |
| `TimeSpanScenarios.AbsoluteAndNegateOfOne` | tests/TimeSpan.test.ts:39-47 | the absolute value of ±1 ms is 1, and negation swaps 1 and -1 |
| `TimeSpanScenarios.PlusMinusOfOneDay` | tests/TimeSpan.test.ts:49-57 | a day plus or minus a day, or minus or plus its negated millisecond count, is two days or zero |
| `TimeSpanScenarios.ScalingRounds` | tests/TimeSpan.test.ts:59-67 | a day times 5 is exact; a day over 3 is `Round(86400000/3)`; 1 ms over 3 is 0 and 1 ms over 2 is 1 |
| `TimeSpanScenarios.FloorForAllMinusOne` | tests/TimeSpan.test.ts:77-84 | 1 ms short of two days floors to one day, 47 hours, two days less a minute and two days less a second |
| `TimeSpanScenarios.RoundForOneOfAll` | tests/TimeSpan.test.ts:87-94 | rounding 1d1h1m1s1ms keeps the leading parts |
| `TimeSpanScenarios.RoundForHalfOfAll` | tests/TimeSpan.test.ts:96-103 | rounding 1d12h30m30s500ms sends each remainder of at least half a unit up; the seconds case is an exact tie |
| `TimeSpanScenarios.RoundForAllMinusOne` | tests/TimeSpan.test.ts:105-112 | 1 ms short of two days rounds to two days in days, hours, minutes and seconds |
| `TimeSpanScenarios.CeilForOneOfAll` | tests/TimeSpan.test.ts:115-124 | ceiling 1d1h1m1s1ms bumps the last part kept |
| `TimeSpanScenarios.ClockScenarios` | tests/TimeSpan.test.ts:126-143 | with the clock fixed, `until(tomorrow)` and `since(yesterday)` are 1 day and `between(yesterday, tomorrow)` is 2 days |

## Left out

- JavaScript numbers are exact reals here. NaN and Infinity inputs, negative
  zero, and precision loss are not modelled. Precision is lost in the
  successive float divisions of `as` and in large products and sums.
- TimeSpans.DivideBy: requires a non-zero factor. In the source, dividing by
  zero produces Infinity or NaN milliseconds, which the model has no value for.
- `Date.now()` is not modelled. `Since` and `Until` take the clock reading as
  a parameter.
- `Date` arguments to `since`, `until` and `between` (`getTime()`) are not
  modelled. Timestamps are epoch milliseconds, given as numbers.
- The optional record fields are `Option<real>`. A field that is present but
  holds `null` or a non-number is not modelled.
- The `Proxy` naming helper and the Jest test runner of the test file are not
  part of this model.
