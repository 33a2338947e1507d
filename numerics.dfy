/** JavaScript's Math.abs, Math.floor, Math.ceil and Math.round, taken over exact
    reals instead of IEEE-754 doubles. */
module Numerics {

  /** `m` is what Math.round gives for `x`: the nearest integer, where a tie goes
      to the larger neighbour (toward +infinity, also for negative `x`). */
  ghost predicate RoundsTo(x: real, m: int) {
    m as real - 0.5 <= x < m as real + 0.5
  }

  /** Math.abs on a number. */
  function Abs(x: real): (r: real)
    ensures r >= 0.0
    ensures r == x || r == -x
  {
    if x < 0.0 then -x else x
  }

  /** Math.abs on a whole number of milliseconds. */
  function IntAbs(n: int): (r: nat)
    ensures r == n || r == -n
    ensures r as real == Abs(n as real)
  {
    if n < 0 then -n else n
  }

  /** Math.floor: the largest integer not above `x`. */
  function Floor(x: real): (r: int)
    ensures r as real <= x < r as real + 1.0
  {
    x.Floor
  }

  /** Math.ceil: the smallest integer not below `x`. */
  function Ceil(x: real): (r: int)
    ensures r as real - 1.0 < x <= r as real
  {
    -((-x).Floor)
  }

  /** Math.round, which is floor(x + 1/2). */
  function Round(x: real): (r: int)
    ensures RoundsTo(x, r)
  {
    (x + 0.5).Floor
  }

  /** Only one integer is within the rounding window of `x`. */
  lemma RoundsToUnique(x: real, m: int, n: int)
    requires RoundsTo(x, m) && RoundsTo(x, n)
    ensures m == n
  {
  }

  /** Rounding a whole number gives it back. */
  lemma RoundOfInteger(n: int)
    ensures Round(n as real) == n
  {
  }

  /** Rounding leaves `x` where it is exactly when `x` is whole. */
  lemma RoundExactly(x: real, m: int)
    requires RoundsTo(x, m)
    ensures x == m as real <==> x.Floor as real == x
  {
    if x.Floor as real == x {
      RoundsToUnique(x, m, x.Floor);
    }
  }

  /** A tie rounds up, toward +infinity: Math.round(-2.5) is -2, not -3. */
  lemma RoundTiesUp(k: int)
    ensures Round(k as real + 0.5) == k + 1
  {
  }

  /** Scaling `k <= a / w < k + 1` by `w > 0`: `k * w <= a < k * w + w`. */
  lemma FloorScaled(a: nat, w: nat, k: int)
    requires w > 0
    requires k as real <= a as real / w as real < k as real + 1.0
    ensures k * w <= a < k * w + w
  {
    var K, W, A := k as real, w as real, a as real;
    QuotientBounds(A, W, K, K + 1.0);
    assert (K + 1.0) * W == K * W + W;
    CastMul(k, w);
  }

  /** Scaling `k - 1 < a / w <= k` by `w > 0`: `k * w - w < a <= k * w`. */
  lemma CeilScaled(a: nat, w: nat, k: int)
    requires w > 0
    requires k as real - 1.0 < a as real / w as real <= k as real
    ensures k * w - w < a <= k * w
  {
    var K, W, A := k as real, w as real, a as real;
    QuotientBoundsAbove(A, W, K - 1.0, K);
    assert (K - 1.0) * W == K * W - W;
    CastMul(k, w);
  }

  /** Scaling `k - 1/2 <= a / w < k + 1/2` by `2 * w > 0`:
      `2 * k * w - w <= 2 * a < 2 * k * w + w`. */
  lemma RoundScaled(a: nat, w: nat, k: int)
    requires w > 0
    requires k as real - 0.5 <= a as real / w as real < k as real + 0.5
    ensures 2 * k * w - w <= 2 * a < 2 * k * w + w
  {
    var K, W, A := k as real, w as real, a as real;
    QuotientBounds(A, W, K - 0.5, K + 0.5);
    assert (K - 0.5) * W == K * W - 0.5 * W;
    assert (K + 0.5) * W == K * W + 0.5 * W;
    CastMul(k, w);
    assert 2 * k * w == 2 * (k * w);
  }

  /** Scaling `lo <= a / w < hi` by `w > 0`. */
  lemma QuotientBounds(a: real, w: real, lo: real, hi: real)
    requires w > 0.0 && lo <= a / w < hi
    ensures lo * w <= a < hi * w
  {
    var x := a / w;
    assert x * w == a;
    MulMonotone(lo, x, w);
    MulStrict(x, hi, w);
  }

  /** Scaling `lo < a / w <= hi` by `w > 0`. */
  lemma QuotientBoundsAbove(a: real, w: real, lo: real, hi: real)
    requires w > 0.0 && lo < a / w <= hi
    ensures lo * w < a <= hi * w
  {
    var x := a / w;
    assert x * w == a;
    MulStrict(lo, x, w);
    MulMonotone(x, hi, w);
  }

  lemma CastMul(k: int, w: int)
    ensures (k * w) as real == k as real * w as real
  {
  }

  lemma MulMonotone(x: real, y: real, c: real)
    requires x <= y && c > 0.0
    ensures x * c <= y * c
  {
  }

  lemma MulCancel(x: real, y: real, c: real)
    requires c > 0.0 && x * c == y * c
    ensures x == y
  {
    if x < y {
      MulStrict(x, y, c);
    } else if y < x {
      MulStrict(y, x, c);
    }
  }

  lemma MulStrict(x: real, y: real, c: real)
    requires x < y && c > 0.0
    ensures x * c < y * c
  {
  }

  /** `n` whole copies of `w`, for `n >= 1`, are at least `w`. */
  lemma {:induction false} MulAtLeast(n: int, w: nat)
    requires n >= 1
    ensures n * w >= w
  {
    if n > 1 {
      MulAtLeast(n - 1, w);
      assert n * w == (n - 1) * w + w;
    }
  }

  /** Euclidean division is unique: `q * w + r` with `0 <= r < w` has quotient `q`
      and remainder `r`. */
  lemma DivModUnique(a: int, w: nat, q: int, r: int)
    requires w > 0 && 0 <= r < w && a == q * w + r
    ensures a / w == q && a % w == r
  {
    var q', r' := a / w, a % w;
    assert a == q' * w + r';
    if q' > q {
      assert (q' - q) * w == q' * w - q * w;
      MulAtLeast(q' - q, w);
    } else if q > q' {
      assert (q - q') * w == q * w - q' * w;
      MulAtLeast(q - q', w);
    }
  }

  /** A multiple of `w` leaves no remainder. */
  lemma MultipleHasNoRemainder(k: int, w: nat)
    requires w > 0
    ensures (k * w) % w == 0
  {
    DivModUnique(k * w, w, k, 0);
  }

  /** Two multiples of `w` that are less than `w` apart are equal. */
  lemma MultiplesApart(a: int, b: int, w: nat)
    requires w > 0 && a % w == 0 && b % w == 0
    requires a <= b < a + w
    ensures a == b
  {
    var p, q := a / w, b / w;
    assert a == p * w && b == q * w;
    if p < q {
      assert (q - p) * w == q * w - p * w;
      MulAtLeast(q - p, w);
    }
  }
}
