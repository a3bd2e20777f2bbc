/**
 Unsigned machine words, from their lowest bit up: the bitwise operations, shifts as repeated
 doubling and halving, and the laws that masking needs.

 The operations of the language are used here only, in laws about one or two words at a time. Above
 them the operations are hidden and only these laws are used, because a proof that shows the solver
 many of them at once, or mixes them with arithmetic, is out of its reach. Proofs about all the bits of
 a word go from a word to its half and its lowest bit.
 */
module Words {

  type Word = bv64

  function And(a: Word, b: Word): Word { a & b }

  function Or(a: Word, b: Word): Word { a | b }

  function Not(a: Word): Word { !a }

  function Half(x: Word): Word { x >> 1 }

  function Double(x: Word): Word { x << 1 }

  predicate Odd(x: Word) { x & 1 == 1 }

  /** x << n */
  function Shl(x: Word, n: nat): Word {
    if n == 0 then x else Double(Shl(x, n - 1))
  }

  /** x >> n */
  function Shr(x: Word, n: nat): Word {
    if n == 0 then x else Shr(Half(x), n - 1)
  }

  lemma HalfIsLess(x: Word)
    requires x != 0
    ensures Half(x) < x
  {
  }

  lemma ZeroHalf(x: Word)
    ensures Half(x) == 0 && !Odd(x) <==> x == 0
  {
  }

  /** The bitwise operations work on the halves and on the lowest bits. */
  lemma Halves(a: Word, b: Word)
    ensures Half(Or(a, b)) == Or(Half(a), Half(b)) && Half(And(a, b)) == And(Half(a), Half(b))
    ensures Odd(Or(a, b)) <==> Odd(a) || Odd(b)
    ensures Odd(And(a, b)) <==> Odd(a) && Odd(b)
  {
    HalfOr(a, b);
    HalfAnd(a, b);
    OddOr(a, b);
    OddAnd(a, b);
    hide *;
  }

  lemma HalfOr(a: Word, b: Word)
    ensures Half(Or(a, b)) == Or(Half(a), Half(b))
  {
  }

  lemma HalfAnd(a: Word, b: Word)
    ensures Half(And(a, b)) == And(Half(a), Half(b))
  {
  }

  lemma OddOr(a: Word, b: Word)
    ensures Odd(Or(a, b)) <==> Odd(a) || Odd(b)
  {
  }

  lemma OddAnd(a: Word, b: Word)
    ensures Odd(And(a, b)) <==> Odd(a) && Odd(b)
  {
  }

  lemma Zeros(a: Word)
    ensures Or(a, 0) == Or(0, a) == a && And(a, 0) == And(0, a) == 0
  {
  }

  lemma SplitBy(a: Word, b: Word)
    ensures Or(And(a, b), And(a, Not(b))) == a
    ensures And(And(a, b), And(a, Not(b))) == 0
  {
  }

  lemma HalfOfOnes(x: Word)
    requires Odd(x)
    ensures And(x, x + 1) == 0 <==> And(Half(x), Half(x) + 1) == 0
    ensures !Odd(Half(x)) ==> (And(Half(x), Half(x) + 1) == 0 <==> Half(x) == 0)
  {
  }

  lemma UpAndDown(v: Word, m: Word)
    ensures Half(And(Double(v), m)) == And(v, Half(m))
  {
  }

  /** Shifting up, masking and shifting down again keeps what the mask shifted down keeps. */
  lemma {:induction false} ShiftMaskShift(v: Word, m: Word, n: nat)
    ensures Shr(And(Shl(v, n), m), n) == And(v, Shr(m, n))
    decreases n
  {
    hide And, Half, Double;
    if n > 0 {
      UpAndDown(Shl(v, n - 1), m);
      ShiftMaskShift(v, Half(m), n - 1);
    }
  }

  lemma AndTwice(x: Word, m: Word)
    ensures And(And(x, m), m) == And(x, m) && And(And(x, m), Not(m)) == 0
  {
  }

  lemma WrittenPart(reg: Word, m: Word, e: Word)
    requires And(e, m) == e
    ensures And(Or(And(reg, Not(m)), e), m) == e
  {
  }

  /** The lowest bit and the rest make up a word. */
  lemma SameHalves(x: Word, y: Word)
    requires Half(x) == Half(y) && (Odd(x) <==> Odd(y))
    ensures x == y
  {
  }

  lemma OrZero(a: Word, b: Word)
    ensures Or(a, b) == 0 <==> a == 0 && b == 0
  {
  }

  lemma Covered(a: Word, b: Word, m: Word, n: Word)
    requires And(a, Not(m)) == 0 && And(b, Not(n)) == 0
    ensures And(Or(a, b), Not(Or(m, n))) == 0
  {
  }

  lemma InsideApart(ms: Word, es: Word, m: Word)
    requires And(ms, m) == 0 && And(es, Not(ms)) == 0
    ensures And(es, Not(m)) == es
  {
  }

  lemma ClearBoth(reg: Word, a: Word, b: Word)
    ensures And(And(reg, Not(a)), Not(b)) == And(reg, Not(Or(a, b)))
  {
  }

  lemma OrAssociates(a: Word, b: Word, c: Word)
    ensures Or(Or(a, b), c) == Or(a, Or(b, c))
  {
  }

  lemma NothingModified(reg: Word)
    ensures Or(And(reg, Not(0)), 0) == reg
  {
  }

  lemma WriteElsewhere(reg: Word, m: Word, e: Word, k: Word)
    requires And(m, k) == 0 && And(e, m) == e
    ensures And(Or(And(reg, Not(m)), e), k) == And(reg, k)
  {
  }

  lemma AndCommutes(a: Word, b: Word)
    ensures And(a, b) == And(b, a)
  {
  }

  lemma NothingOfRest(m: Word)
    ensures And(m, Not(m)) == 0
  {
  }

  lemma SameOnOr(x: Word, y: Word, a: Word, b: Word)
    requires And(x, a) == And(y, a) && And(x, b) == And(y, b)
    ensures And(x, Or(a, b)) == And(y, Or(a, b))
  {
  }

  lemma SameEverywhere(x: Word, y: Word, m: Word)
    requires And(x, m) == And(y, m) && And(x, Not(m)) == And(y, Not(m))
    ensures x == y
  {
  }

  lemma AndSelf(a: Word)
    ensures And(a, a) == a
  {
  }
}

/** The numbers that words stand for. */
module WordValues {
  import opened WordArith
  import opened Words

  /** The number that a word stands for. */
  function Value(x: Word): nat {
    if x == 0 then 0
    else
      HalfIsLess(x);
      (if Odd(x) then 1 else 0) + 2 * Value(Half(x))
  }

  /** The number of zeros below the lowest one. */
  function CountrZero(x: Word): (n: nat)
    requires x != 0
    ensures Odd(Shr(x, n))
  {
    if Odd(x) then 0
    else
      HalfIsLess(x);
      ZeroHalf(x);
      1 + CountrZero(Half(x))
  }

  /** The number of ones below the lowest zero. */
  function TrailingOnes(x: Word): nat {
    if !Odd(x) then 0
    else
      ZeroHalf(x);
      HalfIsLess(x);
      1 + TrailingOnes(Half(x))
  }

  lemma ValueStep(x: Word)
    ensures Value(x) == (if Odd(x) then 1 else 0) + 2 * Value(Half(x))
    ensures Value(0) == 0
  {
    ZeroHalf(x);
  }

  lemma {:induction false} ValueZero(x: Word)
    ensures Value(x) == 0 ==> x == 0
    decreases x
  {
    if x != 0 && !Odd(x) {
      HalfIsLess(x);
      ZeroHalf(x);
      ValueZero(Half(x));
      hide Half, Odd;
    }
  }

  lemma {:induction false} ValueOrAnd(a: Word, b: Word)
    ensures Value(Or(a, b)) + Value(And(a, b)) == Value(a) + Value(b)
    decreases Value(a)
  {
    hide Value, And, Or, Half, Odd;
    ValueStep(a);
    ValueStep(b);
    ValueStep(Or(a, b));
    ValueStep(And(a, b));
    if Value(a) == 0 {
      ValueZero(a);
      Zeros(b);
    } else {
      ValueOrAnd(Half(a), Half(b));
      Halves(a, b);
    }
  }

  lemma {:induction false} Distribute(a: Word, b: Word, m: Word)
    ensures And(Or(a, b), m) == Or(And(a, m), And(b, m))
    decreases Value(a)
  {
    hide And, Or, Half, Odd, Value;
    ValueStep(a);
    if Value(a) == 0 {
      ValueZero(a);
      Zeros(b);
      Zeros(m);
      Zeros(And(b, m));
    } else {
      Distribute(Half(a), Half(b), Half(m));
      Halves(a, b);
      Halves(Or(a, b), m);
      Halves(a, m);
      Halves(b, m);
      Halves(And(a, m), And(b, m));
      SameHalves(And(Or(a, b), m), Or(And(a, m), And(b, m)));
    }
  }

  lemma OrApart(a: Word, b: Word, m: Word)
    ensures And(Or(a, b), m) == 0 <==> And(a, m) == 0 && And(b, m) == 0
  {
    Distribute(a, b, m);
    OrZero(And(a, m), And(b, m));
    hide And, Or;
  }

  lemma OneMore(reg: Word, ms: Word, es: Word, m: Word, e: Word)
    requires And(ms, m) == 0 && And(es, Not(ms)) == 0
    ensures Or(And(Or(And(reg, Not(ms)), es), Not(m)), e) == Or(And(reg, Not(Or(ms, m))), Or(es, e))
  {
    hide And, Or, Not;
    Distribute(And(reg, Not(ms)), es, Not(m));
    InsideApart(ms, es, m);
    ClearBoth(reg, ms, m);
    OrAssociates(And(And(reg, Not(ms)), Not(m)), es, e);
  }

  /** A word of a register of w bits. */
  predicate Fits(x: Word, w: nat) {
    Value(x) < Pow2(w)
  }

  lemma {:induction false} OrFits(a: Word, b: Word, w: nat)
    requires Fits(a, w) && Fits(b, w)
    ensures Fits(Or(a, b), w)
    decreases w
  {
    hide Value, And, Or, Half, Odd;
    ValueStep(a);
    ValueStep(b);
    ValueStep(Or(a, b));
    Halves(a, b);
    if w == 0 {
      ValueZero(a);
      ValueZero(b);
      Zeros(a);
    } else {
      OrFits(Half(a), Half(b), w - 1);
    }
  }

  lemma AndFits(a: Word, b: Word, w: nat)
    requires Fits(a, w)
    ensures Fits(And(a, b), w)
  {
    SplitBy(a, b);
    ValueOrAnd(And(a, b), And(a, Not(b)));
    hide And, Or, Not;
    ValueStep(0);
  }

  /** Masking with n ones is reduction modulo 2^n. */
  lemma {:induction false} AndOnes(v: Word, ones: Word, n: nat)
    requires Value(ones) == Pow2(n) - 1
    ensures Value(And(v, ones)) == Value(v) % Pow2(n)
    decreases n
  {
    hide Value, And, Or, Half, Odd;
    ValueStep(v);
    ValueStep(ones);
    ValueStep(And(v, ones));
    Halves(v, ones);
    if n == 0 {
      ValueZero(ones);
      Zeros(v);
      assert Pow2(0) == 1;
    } else {
      AndOnes(Half(v), Half(ones), n - 1);
      ReduceByHalves(Value(v), Value(Half(v)), Pow2(n - 1));
    }
  }

  lemma ReduceByHalves(x: nat, h: nat, p: nat)
    requires p > 0 && h == x / 2
    ensures x % (2 * p) == x % 2 + 2 * (h % p)
  {
    DoubleMod(x, p);
  }

  /** Shifting down takes the joined bits of both apart ... */
  lemma {:induction false} ShrAnd(a: Word, b: Word, n: nat)
    ensures Shr(And(a, b), n) == And(Shr(a, n), Shr(b, n))
    decreases n
  {
    hide And, Half;
    if n > 0 {
      Halves(a, b);
      ShrAnd(Half(a), Half(b), n - 1);
    }
  }

  /** ... and divides. */
  lemma {:induction false} ShrDivides(x: Word, n: nat)
    ensures Value(Shr(x, n)) == Value(x) / Pow2(n)
    decreases n
  {
    hide Value, Half, Odd;
    if n > 0 {
      ValueStep(x);
      ShrDivides(Half(x), n - 1);
      DivideByHalves(Value(x), Pow2(n - 1));
    }
  }

  lemma DivideByHalves(x: nat, p: nat)
    requires p > 0
    ensures x / (2 * p) == x / 2 / p
  {
    var (h, q) := (x / 2, x / 2 / p);
    assert h == q * p + h % p;
    assert x == q * (2 * p) + (x % 2 + 2 * (h % p)) by {
      assert q * (2 * p) == 2 * (q * p);
    }
    ModUnique(x, 2 * p, q, x % 2 + 2 * (h % p));
    var d := x / (2 * p);
    assert x == d * (2 * p) + x % (2 * p);
    assert d * (2 * p) == q * (2 * p);
    SameQuotient(d, q, 2 * p);
  }

  lemma SameQuotient(d: int, q: int, m: nat)
    requires m > 0 && d * m == q * m
    ensures d == q
  {
    assert (d - q) * m == d * m - q * m && (q - d) * m == q * m - d * m;
    if d > q {
      MulAtLeast(d - q, m);
    } else if d < q {
      MulAtLeast(q - d, m);
    }
  }

  /** The zeros below the lowest one are a power of two. */
  lemma {:induction false} CountrZeroFactor(x: Word)
    requires x != 0
    ensures Value(x) == Value(Shr(x, CountrZero(x))) * Pow2(CountrZero(x))
    decreases Value(x)
  {
    hide Value, Half, Odd;
    ValueStep(x);
    ValueZero(x);
    if !Odd(x) {
      ValueStep(Half(x));
      assert Half(x) != 0;
      CountrZeroFactor(Half(x));
      var (v, p) := (Value(Shr(x, CountrZero(x))), Pow2(CountrZero(Half(x))));
      assert v * (2 * p) == 2 * (v * p);
    }
  }

  lemma {:induction false} OnesExactly(x: Word)
    requires Odd(x)
    ensures And(x, x + 1) == 0 <==> Value(x) == Pow2(TrailingOnes(x)) - 1
    decreases Value(x)
  {
    HalfOfOnes(x);
    hide Value, And, Odd, Half;
    var y := Half(x);
    ValueStep(x);
    ValueZero(y);
    assert TrailingOnes(x) == 1 + TrailingOnes(y);
    if Odd(y) {
      OnesExactly(y);
    } else {
      assert TrailingOnes(y) == 0;
    }
  }

  lemma {:induction false} OnesWidth(x: Word, n: nat)
    requires Value(x) == Pow2(n) - 1
    ensures TrailingOnes(x) == n
    decreases n
  {
    hide Value, Half, Odd;
    ValueStep(x);
    if n > 0 {
      OnesWidth(Half(x), n - 1);
    }
  }

  lemma SmallMod(x: nat, m: nat)
    requires x < m
    ensures x % m == x
  {
  }
}
