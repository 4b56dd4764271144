/** The two pieces of JavaScript number semantics the gallery relies on:
    the truncating remainder operator `%` and `Math.round`. */
module JsMath {

  /** Euclidean division is unique: a quotient and a remainder in [0, n) that
      rebuild `x` are Dafny's own `/` and `%`. */
  lemma {:induction false} DivModUnique(x: int, n: int, q: int, r: int)
    requires n > 0 && 0 <= r < n && x == q * n + r
    ensures x / n == q && x % n == r
  {
    var q', r' := x / n, x % n;
    assert (q' - q) * n == r - r' by {
      assert x == q' * n + r';
      assert (q' - q) * n == q' * n - q * n;
    }
    if q' > q {
      MulAtLeast(q' - q, n);
    } else if q' < q {
      MulAtLeast(q - q', n);
    }
  }

  /** A positive multiple of `n` is at least `n`. */
  lemma MulAtLeast(d: int, n: int)
    requires d >= 1 && n > 0
    ensures d * n >= n
  {
    assert d * n == (d - 1) * n + n;
  }

  /** Adding a multiple of `n` does not change the Euclidean remainder. */
  lemma {:induction false} ModShift(x: int, k: int, n: int)
    requires n > 0
    ensures (x + k * n) % n == x % n
  {
    DivModUnique(x + k * n, n, x / n + k, x % n);
  }

  /** JavaScript's `a % n` for a positive divisor: the remainder of truncating
      division, which takes the sign of the dividend (so `-1 % 3` is `-1`). */
  function JsRem(a: int, n: int): (r: int)
    requires n > 0
    ensures -n < r < n
    ensures a >= 0 ==> r >= 0
    ensures a <= 0 ==> r <= 0
    ensures r % n == a % n
  {
    if a >= 0 then a % n
    else
      var q, m := (-a) / n, (-a) % n;
      ModShift(-m, -q, n);
      assert a == -m + (-q) * n;
      -m
  }

  /** An index already in [0, n) is its own remainder. */
  lemma ModInRange(i: int, n: int)
    requires n > 0
    ensures 0 <= i < n ==> i % n == i
  {
    if 0 <= i < n {
      DivModUnique(i, n, 0, i);
    }
  }

  /** Reducing before adding `k` does not change the Euclidean remainder. */
  lemma ModAddMod(x: int, k: int, n: int)
    requires n > 0
    ensures (x % n + k) % n == (x + k) % n
  {
    ModShift(x % n + k, x / n, n);
    assert x % n + k + (x / n) * n == x + k;
  }

  /** `Math.round(num / den)` computed exactly on the rational `num / den`: the
      nearest integer, with halves going up (towards positive infinity) as
      JavaScript specifies. */
  function Round(num: int, den: int): (r: int)
    requires den > 0
    ensures r * (2 * den) <= 2 * num + den < (r + 1) * (2 * den)
    ensures num >= 0 ==> r >= 0
  {
    (2 * num + den) / (2 * den)
  }
}
