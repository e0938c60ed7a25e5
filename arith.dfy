/** Facts about multiplication, quotient and remainder that the solver does not
    find unaided once the divisor is a variable (the chunk width). */
module Arithmetic {

  /** Division by a then by b is division by a * b. */
  lemma DivDiv(x: nat, a: nat, b: nat)
    requires a > 0 && b > 0
    ensures (x / a) / b == x / (a * b)
  {
    var q, r := x / (a * b), x % (a * b);
    var s, t := r / a, r % a;
    assert x == q * (a * b) + r && r < a * b;
    assert r == s * a + t && 0 <= t < a;
    assert x == (q * b + s) * a + t by {
      assert q * (a * b) == (q * b) * a;
    }
    DivUnique(x, a, q * b + s, t);
    assert s < b by {
      if s >= b {
        MulStep(b - 1, s, a);
      }
    }
    DivUnique(x / a, b, q, s);
  }

  /** Raising a factor by at least one raises a product by at least the other factor. */
  lemma MulStep(p: int, q: int, a: int)
    requires p < q && a >= 0
    ensures p * a + a <= q * a
  {
    assert q * a - p * a - a == (q - p - 1) * a;
  }

  /** The quotient is determined by any decomposition x == d * a + m with 0 <= m < a. */
  lemma DivUnique(x: int, a: int, d: int, m: int)
    requires a > 0 && x == d * a + m && 0 <= m < a
    ensures x / a == d
  {
    var d', m' := x / a, x % a;
    assert x == d' * a + m' && 0 <= m' < a;
    if d' < d {
      MulStep(d', d, a);
    } else if d' > d {
      MulStep(d, d', a);
    }
  }

  /** A multiple of w leaves no remainder and has quotient k. */
  lemma MulMod(k: int, w: int)
    requires w > 0
    ensures (k * w) / w == k && (k * w) % w == 0
  {
    DivUnique(k * w, w, k, 0);
  }

  /** A non-empty multiple of w holds at least one chunk of w, and what
      follows the first chunk is again a multiple of w, one chunk shorter. */
  lemma ChunkTail(n: int, w: int)
    requires w > 0 && n > 0 && n % w == 0
    ensures n >= w && (n - w) % w == 0 && (n - w) / w == n / w - 1
  {
    var q := n / w;
    assert n == q * w;
    if q < 1 {
      MulStep(q, 1, w);
    }
    assert n - w == (q - 1) * w;
    MulMod(q - 1, w);
  }

  /** The sum of two multiples of w is a multiple of w. */
  lemma ModAdd(m: int, n: int, w: int)
    requires w > 0 && m % w == 0 && n % w == 0
    ensures (m + n) % w == 0
  {
    var p, q := m / w, n / w;
    assert m == p * w && n == q * w;
    assert m + n == (p + q) * w;
    MulMod(p + q, w);
  }

  /** From one whole chunk before the end of a run of whole chunks to the next. */
  lemma ChunkStep(i: int, n: int, w: int)
    requires w > 0 && 0 <= i < n && i % w == 0 && n % w == 0
    ensures i + w <= n && (i + w) % w == 0
  {
    ChunkTail(n - i, w) by {
      assert i == (i / w) * w && n == (n / w) * w;
      assert n - i == (n / w - i / w) * w;
      MulMod(n / w - i / w, w);
    }
    MulMod(1, w);
    ModAdd(i, w, w);
  }

  /** The distance between two multiples of w is a multiple of w. */
  lemma ModSub(i: int, n: int, w: int)
    requires w > 0 && i % w == 0 && n % w == 0
    ensures (n - i) % w == 0
  {
    var p, q := i / w, n / w;
    assert i == p * w && n == q * w;
    assert n - i == (q - p) * w;
    MulMod(q - p, w);
  }
}
