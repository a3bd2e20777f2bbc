/**
 Arithmetic of fixed-width unsigned counters: powers of two, masking, and differences taken
 modulo 2^w. The lock-free primitives keep their counters in machine words that wrap around.

 Counters are numbers here, reduced wherever the source's would wrap; a mask is a power of two less
 one. What the proofs above need of division is that quotient and remainder are unique, so that a
 remainder is known once some quotient is given that leaves it.
 */
module WordArith {

  function Pow2(n: nat): (r: nat)
    ensures r >= 1
    ensures n > 0 ==> r >= 2 && r % 2 == 0
  {
    if n == 0 then 1 else 2 * Pow2(n - 1)
  }

  /** The `&` of two unsigned words, bit by bit. */
  function BitAnd(x: nat, y: nat): nat {
    if x == 0 || y == 0 then 0
    else (if x % 2 == 1 && y % 2 == 1 then 1 else 0) + 2 * BitAnd(x / 2, y / 2)
  }

  /** Masking with a power of two less one is reduction modulo that power of two. */
  lemma {:induction false} MaskIsMod(x: nat, n: nat)
    ensures BitAnd(x, Pow2(n) - 1) == x % Pow2(n)
  {
    if x == 0 || n == 0 {
    } else {
      var p := Pow2(n - 1);
      assert (Pow2(n) - 1) % 2 == 1 && (Pow2(n) - 1) / 2 == p - 1;
      MaskIsMod(x / 2, n - 1);
      if p == 1 {
        assert BitAnd(x / 2, p - 1) == 0;
      }
      DoubleMod(x, p);
    }
  }

  lemma DoubleMod(x: nat, p: nat)
    requires p > 0
    ensures x % (2 * p) == x % 2 + 2 * ((x / 2) % p)
  {
    var h, q := x / 2, x / 2 / p;
    assert h == q * p + h % p;
    assert x == q * (2 * p) + (x % 2 + 2 * (h % p)) by {
      assert q * (2 * p) == 2 * (q * p);
    }
    ModUnique(x, 2 * p, q, x % 2 + 2 * (h % p));
  }

  /** Quotient and remainder are unique. */
  lemma ModUnique(x: int, m: nat, q: int, r: int)
    requires 0 <= r < m && x == q * m + r
    ensures x % m == r
  {
    var q', r' := x / m, x % m;
    assert x == q' * m + r';
    assert (q - q') * m == r' - r by {
      assert (q - q') * m == q * m - q' * m;
    }
    if q > q' {
      assert (q - q') * m >= m by { MulAtLeast(q - q', m); }
    } else if q < q' {
      assert (q' - q) * m >= m by { MulAtLeast(q' - q, m); }
    }
  }

  lemma MulAtLeast(a: int, m: nat)
    requires a >= 1
    ensures a * m >= m
  {
    assert a * m == m + (a - 1) * m;
  }

  /** Adding before or after wrapping makes no difference. */
  lemma WrapAdd(x: int, d: int, m: nat)
    requires m > 0
    ensures (x % m + d) % m == (x + d) % m
  {
    var q := x / m;
    var y := x % m + d;
    assert x == q * m + x % m;
    assert x + d == (q + y / m) * m + y % m by {
      assert (q + y / m) * m == q * m + y / m * m;
    }
    ModUnique(x + d, m, q + y / m, y % m);
  }

  /** The wrapped difference of two counters is the true one, as long as that is below m. */
  lemma WrapSub(b: nat, f: nat, m: nat)
    requires f <= b < f + m
    ensures (b % m - f % m) % m == b - f
    ensures b % m == f % m <==> b == f
  {
    WrapAdd(b, -(f % m), m);
    var q := f / m;
    assert f == q * m + f % m;
    assert b - f % m == q * m + (b - f);
    ModUnique(b - f % m, m, q, b - f);
    if b % m == f % m {
      assert (b % m - f % m) % m == 0;
    }
  }

  /** A ring index computed from a wrapped counter, when the ring size divides the modulus. */
  lemma WrapThenMod(x: nat, m: nat, n: nat, q: nat)
    requires n > 0 && m == q * n && m > 0
    ensures (x % m) % n == x % n
  {
    var a := x / m;
    assert x == a * m + x % m;
    var y := x % m;
    assert y == y / n * n + y % n;
    assert x == (a * q + y / n) * n + y % n by {
      assert a * m == a * (q * n) == a * q * n;
      assert (a * q + y / n) * n == a * q * n + y / n * n;
    }
    ModUnique(x, n, a * q + y / n, y % n);
  }

  /** Fewer than n consecutive counters fall on distinct ring indices. */
  lemma RingDistinct(i: nat, j: nat, n: nat)
    requires i < j < i + n
    ensures i % n != j % n
  {
    WrapSub(j, i, n);
  }

  lemma MulDouble(x: nat, y: nat)
    ensures 2 * (x * y) == (2 * x) * y
  {
  }

  lemma {:induction false} Pow2Add(a: nat, b: nat)
    ensures Pow2(a + b) == Pow2(a) * Pow2(b)
  {
    if a > 0 {
      Pow2Add(a - 1, b);
      var x, y := Pow2(a - 1), Pow2(b);
      assert Pow2(a) == 2 * x && Pow2(a + b) == 2 * (x * y) by {
        assert a + b - 1 == a - 1 + b;
      }
      MulDouble(x, y);
    }
  }

  lemma AtLeastTwice(x: nat, y: nat)
    requires x >= 2
    ensures x * y >= 2 * y
  {
  }

  lemma Pow2Less(k: nat, w: nat)
    requires k < w
    ensures 2 * Pow2(k) <= Pow2(w)
    ensures Pow2(w) == Pow2(w - k) * Pow2(k)
  {
    Pow2Add(w - k, k);
    var x, y := Pow2(w - k), Pow2(k);
    hide Pow2;
    AtLeastTwice(x, y);
  }

  lemma Pow2AtMost(k: nat, w: nat)
    requires w <= k
    ensures Pow2(w) <= Pow2(k)
    ensures Pow2(k) == Pow2(k - w) * Pow2(w)
  {
    Pow2Add(k - w, w);
    MulAtLeast(Pow2(k - w), Pow2(w));
  }
}
