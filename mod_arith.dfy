/**
 * Integer helpers shared by the three components: `Min`/`Max`, and facts about
 * Dafny's `%` used by the two ring structures. The solver does not find those on its
 * own once the divisor is a variable, so each is proved from the defining equation
 * `x == (x / n) * n + x % n`.
 */
module ModArith {

  function Min(a: int, b: int): (m: int) { if a < b then a else b }

  function Max(a: int, b: int): (m: int) { if a < b then b else a }

  /**
   * Reduction of an index that is at most one lap past `n`: the value of `x % n`
   * (ModWrap) without the division, which keeps the ring proofs linear.
   */
  function Wrap(x: int, n: int): (y: int)
    requires n > 0 && 0 <= x < 2 * n
    ensures 0 <= y < n
  {
    if x < n then x else x - n
  }

  /** An index that has gone at most one lap past `n` wraps by one subtraction. */
  lemma ModWrap(x: int, n: int)
    requires n > 0 && 0 <= x < 2 * n
    ensures x % n == Wrap(x, n)
  {
  }

  lemma MulAtLeast(d: int, n: int)
    requires d >= 1 && n > 0
    ensures d * n >= n
  {
  }

  /** Quotient and remainder are unique. */
  lemma ModUnique(x: int, n: int, q: int, r: int)
    requires n > 0 && 0 <= r < n && x == q * n + r
    ensures x % n == r && x / n == q
  {
    var q', r' := x / n, x % n;
    assert x == q' * n + r';
    var d := q - q';
    assert d * n == r' - r by {
      assert q * n - q' * n == (q - q') * n;
    }
    if d > 0 {
      MulAtLeast(d, n);
    } else if d < 0 {
      MulAtLeast(-d, n);
    }
  }

  /** Stepping a reduced index by one and reducing again is stepping the unreduced one. */
  lemma ModNext(x: int, n: int)
    requires n > 0
    ensures (x % n + 1) % n == (x + 1) % n
  {
    var q, r := x / n, x % n;
    assert x == q * n + r;
    ModWrap(r + 1, n);
    if r + 1 < n {
      ModUnique(x + 1, n, q, r + 1);
    } else {
      assert x + 1 == (q + 1) * n + 0;
      ModUnique(x + 1, n, q + 1, 0);
    }
  }

  /** Fewer than `n` steps apart never land on the same slot. */
  lemma ModDistinct(x: int, y: int, n: int)
    requires n > 0 && x < y < x + n
    ensures x % n != y % n
  {
    var q, r, k := x / n, x % n, y - x;
    assert y == q * n + (r + k);
    if r + k < n {
      ModUnique(y, n, q, r + k);
    } else {
      assert y == (q + 1) * n + (r + k - n);
      ModUnique(y, n, q + 1, r + k - n);
    }
  }

  /**
   * Non-negative distance from `from` forward to `to` round a ring of `n` slots, the
   * C's `(to - from + n) % n`.
   */
  function Dist(from: int, to: int, n: int): (d: int)
    requires 0 <= from < n && 0 <= to < n
    ensures 0 <= d < n
    ensures (from + d) % n == to
  {
    ModWrap(to - from + n, n);
    ModWrap(from + Wrap(to - from + n, n), n);
    Wrap(to - from + n, n)
  }

  /** One more step of `w` is `w` further on. */
  lemma MulPrev(x: int, w: int)
    ensures (x - 1) * w == x * w - w
  {
  }

  lemma MulNext(x: int, w: int)
    ensures (x + 1) * w == x * w + w
  {
  }
}
