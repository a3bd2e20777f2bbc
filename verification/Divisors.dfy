/**
 Divisibility of natural numbers: what a prime divides, and the primes of 2^32 - 1.

 A prime that divides a product divides one of the factors; the proof replaces the smaller factor by
 its remainder, which is smaller still. The period of the CRC has the factors 3, 5, 17, 257 and 65537,
 which are the five known primes of the form 2^(2^k) + 1. That the largest is prime is a matter of
 trying all numbers up to its root, sixteen at a time.
 */
module Divisors {
  import opened WordArith

  predicate Divides(d: nat, n: nat)
    requires d > 0
  {
    n % d == 0
  }

  predicate Prime(p: nat) {
    p > 1 && forall d :: 1 < d < p ==> !Divides(d, p)
  }

  lemma MultipleDivides(d: nat, k: nat)
    requires d > 0
    ensures Divides(d, k * d)
  {
    ModUnique(k * d, d, k, 0);
  }

  lemma QuotientOf(d: nat, n: nat) returns (k: nat)
    requires d > 0 && Divides(d, n)
    ensures n == k * d
  {
    k := n / d;
  }

  lemma SumDivides(d: nat, a: nat, b: nat)
    requires d > 0 && Divides(d, a)
    ensures Divides(d, a + b) <==> Divides(d, b)
  {
    var k := QuotientOf(d, a);
    var q, r := b / d, b % d;
    assert a + b == (k + q) * d + r;
    ModUnique(a + b, d, k + q, r);
  }

  lemma ProductDivides(d: nat, a: nat, b: nat)
    requires d > 0 && Divides(d, a)
    ensures Divides(d, a * b)
  {
    var k := QuotientOf(d, a);
    assert a * b == (k * b) * d;
    MultipleDivides(d, k * b);
  }

  /** A prime that divides a product of a smaller number and b divides b. */
  lemma {:induction false} SmallFactor(p: nat, a: nat, b: nat)
    requires Prime(p) && 0 < a < p && Divides(p, a * b)
    ensures Divides(p, b)
  {
    if a > 1 {
      var k, r := p / a, p % a;
      assert !Divides(a, p);
      assert p * b == (k * (a * b)) + r * b by { assert p == k * a + r; }
      MultipleDivides(p, b);
      ProductDivides(p, a * b, k);
      SumDivides(p, k * (a * b), r * b);
      SmallFactor(p, r, b);
    }
  }

  /** A prime divides a product exactly if it divides a factor. */
  lemma PrimeFactor(p: nat, a: nat, b: nat)
    requires Prime(p) && Divides(p, a * b)
    ensures Divides(p, a) || Divides(p, b)
  {
    var k, r := a / p, a % p;
    if r != 0 {
      assert a * b == (k * b) * p + r * b by { assert a == k * p + r; }
      MultipleDivides(p, k * b);
      SumDivides(p, (k * b) * p, r * b);
      SmallFactor(p, r, b);
    }
  }

  /** What a prime and a number without it both divide, their product divides. */
  lemma BothDivide(p: nat, m: nat, n: nat)
    requires Prime(p) && m > 0 && !Divides(p, m) && Divides(m, n) && Divides(p, n)
    ensures m * p > 0 && Divides(m * p, n)
  {
    var k := QuotientOf(m, n);
    PrimeFactor(p, k, m);
    var j := QuotientOf(p, k);
    assert n == j * (m * p);
    MultipleDivides(m * p, j);
  }

  // ---- primes ----

  predicate NoneOfSixteen(n: nat, d: nat)
    requires d > 0
  {
    && n % d != 0 && n % (d + 1) != 0 && n % (d + 2) != 0 && n % (d + 3) != 0
    && n % (d + 4) != 0 && n % (d + 5) != 0 && n % (d + 6) != 0 && n % (d + 7) != 0
    && n % (d + 8) != 0 && n % (d + 9) != 0 && n % (d + 10) != 0 && n % (d + 11) != 0
    && n % (d + 12) != 0 && n % (d + 13) != 0 && n % (d + 14) != 0 && n % (d + 15) != 0
  }

  lemma EachTried()
    ensures NoneOfSixteen(65537, 2) && NoneOfSixteen(65537, 18) && NoneOfSixteen(65537, 34) && NoneOfSixteen(65537, 50)
    ensures NoneOfSixteen(65537, 66) && NoneOfSixteen(65537, 82) && NoneOfSixteen(65537, 98) && NoneOfSixteen(65537, 114)
    ensures NoneOfSixteen(65537, 130) && NoneOfSixteen(65537, 146) && NoneOfSixteen(65537, 162) && NoneOfSixteen(65537, 178)
    ensures NoneOfSixteen(65537, 194) && NoneOfSixteen(65537, 210) && NoneOfSixteen(65537, 226) && NoneOfSixteen(65537, 242)
  {
  }

  /** The j-th sixteen numbers from 2 on. */
  predicate Tried(j: nat) {
    NoneOfSixteen(65537, 16 * j + 2)
  }

  lemma TriedFirst()
    ensures Tried(0) && Tried(1) && Tried(2) && Tried(3) && Tried(4) && Tried(5) && Tried(6) && Tried(7)
    ensures Tried(8) && Tried(9) && Tried(10) && Tried(11) && Tried(12) && Tried(13) && Tried(14) && Tried(15)
  {
    hide NoneOfSixteen;
    EachTried();
  }

  lemma AllTried(j: nat)
    requires j < 16
    ensures Tried(j)
  {
    hide Tried;
    TriedFirst();
  }

  lemma FermatTried(d: nat)
    requires 2 <= d <= 257
    ensures !Divides(d, 65537)
  {
    hide NoneOfSixteen, Divides;
    var j := (d - 2) / 16;
    AllTried(j);
    Remaining(65537, 16 * j + 2, d);
  }

  lemma Remaining(n: nat, low: nat, d: nat)
    requires 0 < low <= d < low + 16 && NoneOfSixteen(n, low)
    ensures !Divides(d, n)
  {
    var r := d - low;
    assert d == low + r;
  }

  lemma TooLarge(e: nat, d: nat, root: nat)
    requires e > root && d > root
    ensures e * d >= (root + 1) * (root + 1)
  {
    var x, y := e - root - 1, d - root - 1;
    assert e * d == (root + 1) * (root + 1) + (root + 1) * x + (root + 1) * y + x * y;
  }

  /** A number with no divisor up to its root is prime. */
  lemma PrimeUpToRoot(p: nat, root: nat)
    requires p > 1 && (root + 1) * (root + 1) > p
    requires forall d :: 2 <= d <= root ==> !Divides(d, p)
    ensures Prime(p)
  {
    forall d | 1 < d < p ensures !Divides(d, p) {
      if Divides(d, p) && d > root {
        var e := QuotientOf(d, p);
        if e > root {
          TooLarge(e, d, root);
        }
        SmallerDivides(e, d);
      }
    }
  }

  lemma SmallerDivides(e: nat, d: nat)
    requires e > 0
    ensures Divides(e, e * d)
  {
    MultipleDivides(e, d);
  }

  lemma FermatPrimes()
    ensures Prime(3) && Prime(5) && Prime(17) && Prime(257) && Prime(65537)
  {
    forall d | 2 <= d <= 256 ensures !Divides(d, 65537) {
      FermatTried(d);
    }
    PrimeUpToRoot(65537, 256);
    PrimeUpToRoot(257, 16);
    PrimeUpToRoot(17, 4);
  }
}
