/**
 How long the CRC takes to come round: turning is multiplication by x in the field of 2^32 elements, x
 generates its units, and so the remainder returns after 2^32 - 1 turns and not before.
 */
module CrcPeriod {
  import opened Bytes
  import opened Crc32
  import opened CrcBits
  import opened Divisors
  import opened WordArith

  const PERIOD: nat := 0xFFFF_FFFF

  // ---- turns ----

  lemma {:induction false} TurnsAdd(x: bv32, a: nat, b: nat)
    ensures Turns(x, a + b) == Turns(Turns(x, a), b)
    decreases b
  {
    hide Shift;
    if b > 0 {
      TurnsAdd(x, a, b - 1);
    }
  }

  lemma {:induction false} TurnsLinear(x: bv32, y: bv32, n: nat)
    ensures Turns(Xor(x, y), n) == Xor(Turns(x, n), Turns(y, n))
  {
    hide Shift, Xor;
    if n > 0 {
      TurnsLinear(x, y, n - 1);
      ShiftLinear(Turns(x, n - 1), Turns(y, n - 1));
    }
  }

  lemma ZeroTurn()
    ensures Shift(0) == 0
  {
  }

  lemma {:induction false} ZeroTurns(n: nat)
    ensures Turns(0, n) == 0
  {
    ZeroTurn();
    hide Shift;
    if n > 0 {
      ZeroTurns(n - 1);
    }
  }

  // ---- remainders as polynomials ----

  /** The polynomial 1: the highest bit is the lowest power. */
  const UNIT: bv32 := 0x8000_0000

  /** One turn, and y if the lowest power occurs in x, without a branch. */
  function Turn(y: bv32): bv32 {
    (y >> 1) ^ (POLYNOMIAL & (0 - (y & 1)))
  }

  function Masked(y: bv32, bit: bv32): bv32 {
    y & (0 - bit)
  }

  function Part(x: bv32, y: bv32): bv32 {
    Masked(y, x >> 31)
  }

  function Mul8(x: bv32, y: bv32): bv32 {
    var (x1, y1) := (Up(x), Turn(y));
    var (x2, y2) := (Up(x1), Turn(y1));
    var (x3, y3) := (Up(x2), Turn(y2));
    var (x4, y4) := (Up(x3), Turn(y3));
    var (x5, y5) := (Up(x4), Turn(y4));
    var (x6, y6) := (Up(x5), Turn(y5));
    Xor(Part(x, y), Xor(Part(x1, y1), Xor(Part(x2, y2), Xor(Part(x3, y3),
    Xor(Part(x4, y4), Xor(Part(x5, y5), Xor(Part(x6, y6), Part(Up(x6), Turn(y6)))))))))
  }

  function Turn8(y: bv32): bv32 {
    Turn(Turn(Turn(Turn(Turn(Turn(Turn(Turn(y))))))))
  }

  /** The product of two polynomials, reduced. */
  function Mul(x: bv32, y: bv32): bv32 {
    var (x1, y1) := (Up8(x), Turn8(y));
    var (x2, y2) := (Up8(x1), Turn8(y1));
    Xor(Mul8(x, y), Xor(Mul8(x1, y1), Xor(Mul8(x2, y2), Mul8(Up8(x2), Turn8(y2)))))
  }

  lemma TurnIsShift(y: bv32)
    ensures Turn(y) == Shift(y)
  {
    hide Shift;
    ShiftByMask(y);
  }

  lemma Turn8IsTurns(y: bv32)
    ensures Turn8(y) == Turns(y, 8)
  {
    EightTurns(y);
    hide Turn, Shift, Turns;
    var (y1, y2) := (Shift(y), Shift(Shift(y)));
    var (y3, y4) := (Shift(y2), Shift(Shift(y2)));
    var (y5, y6) := (Shift(y4), Shift(Shift(y4)));
    TurnIsShift(y);
    TurnIsShift(y1);
    TurnIsShift(y2);
    TurnIsShift(y3);
    TurnIsShift(y4);
    TurnIsShift(y5);
    TurnIsShift(y6);
    TurnIsShift(Shift(y6));
  }

  lemma PartIs(x: bv32, y: bv32)
    ensures Part(x, y) == if x < UNIT then 0 else y
  {
    TopOrNot(x);
    MaskedIs(y);
    hide Masked;
  }

  lemma TopOrNot(x: bv32)
    ensures x >> 31 == if x < 0x8000_0000 then 0 else 1
  {
  }

  lemma MaskedIs(y: bv32)
    ensures Masked(y, 0) == 0 && Masked(y, 1) == y
  {
  }

  lemma UpEightTimes(x: bv32)
    ensures Up(Up(Up(Up(Up(Up(Up(Up(x)))))))) == Up8(x)
  {
  }

  lemma UpAway(x: bv32)
    ensures Up8(Up8(Up8(Up8(x)))) == 0
  {
  }

  /** x to the power n. */
  function Power(n: nat): bv32 {
    Turns(UNIT, n)
  }

  lemma Split(x: bv32)
    ensures x == Xor(Part(x, UNIT), Shift(Up(x)))
  {
    UpIsEven(x);
    SplitBits(x);
  }

  lemma UpIsEven(x: bv32)
    ensures Even(Up(x))
  {
  }

  lemma SplitBits(x: bv32)
    ensures x == Xor(Part(x, UNIT), Down(Up(x)))
  {
    if x < UNIT {
      UpAndDown(x);
      XorLaws(x, 0, 0);
      XorCommutes(0, x);
    } else {
      TopBit(x);
    }
    hide Xor, Up, Down;
  }

  lemma TopBit(x: bv32)
    requires x >= 0x8000_0000
    ensures x == Xor(0x8000_0000, Down(Up(x)))
  {
  }

  /** The lowest power of x goes its way, and the others are one turn ahead. */
  lemma TurnsSplit(x: bv32, n: nat)
    ensures Turns(x, n) == Xor(Part(x, Power(n)), Turns(Up(x), n + 1))
  {
    Split(x);
    PartIs(x, UNIT);
    PartIs(x, Power(n));
    hide Shift, Xor, Up, Part;
    TurnsLinear(Part(x, UNIT), Shift(Up(x)), n);
    TurnsFirst(Up(x), n + 1);
    ZeroTurns(n);
  }

  lemma XorOfNine(a0: bv32, a1: bv32, a2: bv32, a3: bv32, a4: bv32, a5: bv32, a6: bv32, a7: bv32, rest: bv32)
    ensures Xor(a0, Xor(a1, Xor(a2, Xor(a3, Xor(a4, Xor(a5, Xor(a6, Xor(a7, rest)))))))) ==
            Xor(Xor(a0, Xor(a1, Xor(a2, Xor(a3, Xor(a4, Xor(a5, Xor(a6, a7))))))), rest)
  {
    hide Xor;
    var s6 := Xor(a6, a7);
    var (s5, s4) := (Xor(a5, s6), Xor(a4, Xor(a5, s6)));
    var (s3, s2) := (Xor(a3, s4), Xor(a2, Xor(a3, s4)));
    XorLaws(a6, a7, rest);
    XorLaws(a5, s6, rest);
    XorLaws(a4, s5, rest);
    XorLaws(a3, s4, rest);
    XorLaws(a2, s3, rest);
    XorLaws(a1, s2, rest);
    XorLaws(a0, Xor(a1, s2), rest);
  }

  lemma PowerTurned(n: nat)
    ensures Turn(Power(n)) == Power(n + 1)
  {
    TurnIsShift(Power(n));
    hide Turn, Shift;
  }

  lemma TurnsSplit8(x: bv32, n: nat)
    ensures Turns(x, n) == Xor(Mul8(x, Power(n)), Turns(Up8(x), n + 8))
  {
    UpEightTimes(x);
    hide Turn, Xor, Up, Part, Power;
    var (x1, x2) := (Up(x), Up(Up(x)));
    var (x3, x4) := (Up(x2), Up(Up(x2)));
    var (x5, x6) := (Up(x4), Up(Up(x4)));
    var x7 := Up(x6);
    forall m: nat {
      PowerTurned(m);
    }
    TurnsSplit(x, n);
    TurnsSplit(x1, n + 1);
    TurnsSplit(x2, n + 2);
    TurnsSplit(x3, n + 3);
    TurnsSplit(x4, n + 4);
    TurnsSplit(x5, n + 5);
    TurnsSplit(x6, n + 6);
    TurnsSplit(x7, n + 7);
    XorOfNine(Part(x, Power(n)), Part(x1, Power(n + 1)), Part(x2, Power(n + 2)), Part(x3, Power(n + 3)),
              Part(x4, Power(n + 4)), Part(x5, Power(n + 5)), Part(x6, Power(n + 6)), Part(x7, Power(n + 7)),
              Turns(Up(x7), n + 8));
  }

  lemma PowerTurned8(n: nat)
    ensures Turn8(Power(n)) == Power(n + 8)
  {
    hide Turn8, Turns;
    Turn8IsTurns(Power(n));
    TurnsAdd(UNIT, n, 8);
  }

  /** Turning is multiplication with a power of x. */
  lemma TurnsAreProduct(x: bv32, n: nat)
    ensures Turns(x, n) == Mul(x, Power(n))
  {
    UpAway(x);
    hide Turn8, Xor, Up8, Mul8, Power;
    PowerTurned8(n);
    PowerTurned8(n + 8);
    PowerTurned8(n + 16);
    var (x1, x2) := (Up8(x), Up8(Up8(x)));
    var x3 := Up8(x2);
    TurnsSplit8(x, n);
    TurnsSplit8(x1, n + 8);
    TurnsSplit8(x2, n + 16);
    TurnsSplit8(x3, n + 24);
    ZeroTurns(n + 32);
    XorOfFive(Mul8(x, Power(n)), Mul8(x1, Power(n + 8)), Mul8(x2, Power(n + 16)), Mul8(x3, Power(n + 24)));
  }

  lemma XorOfFive(a0: bv32, a1: bv32, a2: bv32, a3: bv32)
    ensures Xor(a0, Xor(a1, Xor(a2, Xor(a3, 0)))) == Xor(a0, Xor(a1, Xor(a2, a3)))
  {
  }

  /** Powers add in products. */
  lemma PowersMultiply(a: nat, b: nat)
    ensures Power(a + b) == Mul(Power(a), Power(b))
  {
    hide Mul, Turns;
    TurnsAdd(UNIT, a, b);
    TurnsAreProduct(Power(a), b);
  }

  // ---- powers of two ----

  lemma Squares0()
    ensures Mul(0x4000_0000, 0x4000_0000) == 0x2000_0000
    ensures Mul(0x2000_0000, 0x2000_0000) == 0x0800_0000
    ensures Mul(0x0800_0000, 0x0800_0000) == 0x0080_0000
    ensures Mul(0x0080_0000, 0x0080_0000) == 0x0000_8000
  {
  }

  lemma Squares4()
    ensures Mul(0x0000_8000, 0x0000_8000) == 0xEDB8_8320
    ensures Mul(0xEDB8_8320, 0xEDB8_8320) == 0xB1E6_B092
    ensures Mul(0xB1E6_B092, 0xB1E6_B092) == 0xA06A_2517
    ensures Mul(0xA06A_2517, 0xA06A_2517) == 0xED62_7DAE
  {
  }

  lemma Squares8()
    ensures Mul(0xED62_7DAE, 0xED62_7DAE) == 0x88D1_4467
    ensures Mul(0x88D1_4467, 0x88D1_4467) == 0xD7BB_FE6A
    ensures Mul(0xD7BB_FE6A, 0xD7BB_FE6A) == 0xEC44_7F11
    ensures Mul(0xEC44_7F11, 0xEC44_7F11) == 0x8E7E_A170
  {
  }

  lemma Squares12()
    ensures Mul(0x8E7E_A170, 0x8E7E_A170) == 0x6427_800E
    ensures Mul(0x6427_800E, 0x6427_800E) == 0x4D47_BAE0
    ensures Mul(0x4D47_BAE0, 0x4D47_BAE0) == 0x09FE_548F
    ensures Mul(0x09FE_548F, 0x09FE_548F) == 0x8385_2D0F
  {
  }

  lemma Squares16()
    ensures Mul(0x8385_2D0F, 0x8385_2D0F) == 0x3036_2F1A
    ensures Mul(0x3036_2F1A, 0x3036_2F1A) == 0x7B5A_9CC3
    ensures Mul(0x7B5A_9CC3, 0x7B5A_9CC3) == 0x31FE_C169
    ensures Mul(0x31FE_C169, 0x31FE_C169) == 0x9FEC_022A
  {
  }

  lemma Squares20()
    ensures Mul(0x9FEC_022A, 0x9FEC_022A) == 0x6C8D_EDC4
    ensures Mul(0x6C8D_EDC4, 0x6C8D_EDC4) == 0x15D6_874D
    ensures Mul(0x15D6_874D, 0x15D6_874D) == 0x5FDE_7A4E
    ensures Mul(0x5FDE_7A4E, 0x5FDE_7A4E) == 0xBAD9_0E37
  {
  }

  lemma Squares24()
    ensures Mul(0xBAD9_0E37, 0xBAD9_0E37) == 0x2E4E_5EEF
    ensures Mul(0x2E4E_5EEF, 0x2E4E_5EEF) == 0x4EAB_A214
    ensures Mul(0x4EAB_A214, 0x4EAB_A214) == 0xA8A4_72C0
    ensures Mul(0xA8A4_72C0, 0xA8A4_72C0) == 0x429A_969E
  {
  }

  lemma Squares28()
    ensures Mul(0x429A_969E, 0x429A_969E) == 0x148D_302A
    ensures Mul(0x148D_302A, 0x148D_302A) == 0xC40B_A6D0
    ensures Mul(0xC40B_A6D0, 0xC40B_A6D0) == 0xC4E2_2C3C
    ensures Mul(0xC4E2_2C3C, 0xC4E2_2C3C) == 0x4000_0000
  {
  }

  lemma Doubled(n: nat, v: bv32, w: bv32)
    requires Power(n) == v && Mul(v, v) == w
    ensures Power(2 * n) == w
  {
    hide Mul, Power;
    PowersMultiply(n, n);
  }

  lemma PowerOne()
    ensures Power(1) == 0x4000_0000 && Power(0) == UNIT
  {
    assert Turns(UNIT, 1) == Shift(Turns(UNIT, 0));
  }

  lemma Powers0()
    ensures Power(0x2) == 0x2000_0000 && Power(0x4) == 0x0800_0000
    ensures Power(0x8) == 0x0080_0000 && Power(0x10) == 0x0000_8000
    ensures Power(0x20) == 0xEDB8_8320 && Power(0x40) == 0xB1E6_B092
    ensures Power(0x80) == 0xA06A_2517 && Power(0x100) == 0xED62_7DAE
  {
    PowerOne();
    hide Power, Mul;
    Squares0();
    Squares4();
    Doubled(0x1, 0x4000_0000, 0x2000_0000);
    Doubled(0x2, 0x2000_0000, 0x0800_0000);
    Doubled(0x4, 0x0800_0000, 0x0080_0000);
    Doubled(0x8, 0x0080_0000, 0x0000_8000);
    Doubled(0x10, 0x0000_8000, 0xEDB8_8320);
    Doubled(0x20, 0xEDB8_8320, 0xB1E6_B092);
    Doubled(0x40, 0xB1E6_B092, 0xA06A_2517);
    Doubled(0x80, 0xA06A_2517, 0xED62_7DAE);
  }

  lemma Powers8()
    ensures Power(0x200) == 0x88D1_4467 && Power(0x400) == 0xD7BB_FE6A
    ensures Power(0x800) == 0xEC44_7F11 && Power(0x1000) == 0x8E7E_A170
    ensures Power(0x2000) == 0x6427_800E && Power(0x4000) == 0x4D47_BAE0
    ensures Power(0x8000) == 0x09FE_548F && Power(0x1_0000) == 0x8385_2D0F
  {
    Powers0();
    hide Power, Mul;
    Squares8();
    Squares12();
    Doubled(0x100, 0xED62_7DAE, 0x88D1_4467);
    Doubled(0x200, 0x88D1_4467, 0xD7BB_FE6A);
    Doubled(0x400, 0xD7BB_FE6A, 0xEC44_7F11);
    Doubled(0x800, 0xEC44_7F11, 0x8E7E_A170);
    Doubled(0x1000, 0x8E7E_A170, 0x6427_800E);
    Doubled(0x2000, 0x6427_800E, 0x4D47_BAE0);
    Doubled(0x4000, 0x4D47_BAE0, 0x09FE_548F);
    Doubled(0x8000, 0x09FE_548F, 0x8385_2D0F);
  }

  lemma Powers16()
    ensures Power(0x2_0000) == 0x3036_2F1A && Power(0x4_0000) == 0x7B5A_9CC3
    ensures Power(0x8_0000) == 0x31FE_C169 && Power(0x10_0000) == 0x9FEC_022A
    ensures Power(0x20_0000) == 0x6C8D_EDC4 && Power(0x40_0000) == 0x15D6_874D
    ensures Power(0x80_0000) == 0x5FDE_7A4E && Power(0x100_0000) == 0xBAD9_0E37
  {
    Powers8();
    hide Power, Mul;
    Squares16();
    Squares20();
    Doubled(0x1_0000, 0x8385_2D0F, 0x3036_2F1A);
    Doubled(0x2_0000, 0x3036_2F1A, 0x7B5A_9CC3);
    Doubled(0x4_0000, 0x7B5A_9CC3, 0x31FE_C169);
    Doubled(0x8_0000, 0x31FE_C169, 0x9FEC_022A);
    Doubled(0x10_0000, 0x9FEC_022A, 0x6C8D_EDC4);
    Doubled(0x20_0000, 0x6C8D_EDC4, 0x15D6_874D);
    Doubled(0x40_0000, 0x15D6_874D, 0x5FDE_7A4E);
    Doubled(0x80_0000, 0x5FDE_7A4E, 0xBAD9_0E37);
  }

  lemma Powers24()
    ensures Power(0x200_0000) == 0x2E4E_5EEF && Power(0x400_0000) == 0x4EAB_A214
    ensures Power(0x800_0000) == 0xA8A4_72C0 && Power(0x1000_0000) == 0x429A_969E
    ensures Power(0x2000_0000) == 0x148D_302A && Power(0x4000_0000) == 0xC40B_A6D0
    ensures Power(0x8000_0000) == 0xC4E2_2C3C && Power(0x1_0000_0000) == 0x4000_0000
  {
    Powers16();
    hide Power, Mul;
    Squares24();
    Squares28();
    Doubled(0x100_0000, 0xBAD9_0E37, 0x2E4E_5EEF);
    Doubled(0x200_0000, 0x2E4E_5EEF, 0x4EAB_A214);
    Doubled(0x400_0000, 0x4EAB_A214, 0xA8A4_72C0);
    Doubled(0x800_0000, 0xA8A4_72C0, 0x429A_969E);
    Doubled(0x1000_0000, 0x429A_969E, 0x148D_302A);
    Doubled(0x2000_0000, 0x148D_302A, 0xC40B_A6D0);
    Doubled(0x4000_0000, 0xC40B_A6D0, 0xC4E2_2C3C);
    Doubled(0x8000_0000, 0xC4E2_2C3C, 0x4000_0000);
  }

  lemma Products0()
    ensures Mul(0xBAD9_0E37, 0xED62_7DAE) == 0x4630_D51A
    ensures Mul(0x4000_0000, 0x8385_2D0F) == 0xAC7A_15A7
    ensures Mul(0xED62_7DAE, 0x4000_0000) == 0x76B1_3ED7
    ensures Mul(0xBAD9_0E37, 0x8385_2D0F) == 0xB806_1574
    ensures Mul(0xB806_1574, 0x76B1_3ED7) == 0x316B_5BA1
  {
  }

  lemma Products1()
    ensures Mul(0x8E7E_A170, 0x0000_8000) == 0x8EEE_64F6
    ensures Mul(0x429A_969E, 0x9FEC_022A) == 0xFC3A_DC78
    ensures Mul(0xFC3A_DC78, 0x8EEE_64F6) == 0x0C28_3CA0
    ensures Mul(0x316B_5BA1, 0x0C28_3CA0) == 0x3D43_6701
  {
  }

  lemma Products2()
    ensures Mul(0x0800_0000, 0xB1E6_B092) == 0x3070_4BC1
    ensures Mul(0xD7BB_FE6A, 0x4D47_BAE0) == 0x913D_3AB9
    ensures Mul(0x7B5A_9CC3, 0x15D6_874D) == 0x49DC_175B
    ensures Mul(0x4EAB_A214, 0xC40B_A6D0) == 0xC9C5_716C
  {
  }

  lemma Products3()
    ensures Mul(0x3070_4BC1, 0x913D_3AB9) == 0x2FCB_B278
    ensures Mul(0x49DC_175B, 0xC9C5_716C) == 0x8F61_BFD4
    ensures Mul(0x2FCB_B278, 0x8F61_BFD4) == 0xBD43_6701
    ensures Mul(0x3D43_6701, 0xBD43_6701) == 0xC736_EB52
  {
  }

  lemma Times(m: nat, v: bv32, n: nat, w: bv32, p: bv32)
    requires Power(m) == v && Power(n) == w && Mul(v, w) == p
    ensures Power(m + n) == p
  {
    hide Mul, Power;
    PowersMultiply(m, n);
  }

  /** The powers that decide: each PERIOD / p, less than its prime's share of the period. */
  lemma Deciding0()
    ensures Power(0x1_0001) == 0xAC7A_15A7 && Power(0x0100_0100) == 0x4630_D51A
    ensures Power(0x0101_0101) == 0x316B_5BA1 && Power(0x1010_1010) == 0x0C28_3CA0
    ensures Power(0x1111_1111) == 0x3D43_6701
  {
    hide Power, Mul;
    PowerOne();
    Powers0();
    Powers8();
    Powers16();
    Powers24();
    Products0();
    Products1();
    Times(0x1, 0x4000_0000, 0x1_0000, 0x8385_2D0F, 0xAC7A_15A7);
    Times(0x100_0000, 0xBAD9_0E37, 0x100, 0xED62_7DAE, 0x4630_D51A);
    Times(0x100, 0xED62_7DAE, 0x1, 0x4000_0000, 0x76B1_3ED7);
    Times(0x100_0000, 0xBAD9_0E37, 0x1_0000, 0x8385_2D0F, 0xB806_1574);
    Times(0x101_0000, 0xB806_1574, 0x101, 0x76B1_3ED7, 0x316B_5BA1);
    Times(0x1000, 0x8E7E_A170, 0x10, 0x0000_8000, 0x8EEE_64F6);
    Times(0x1000_0000, 0x429A_969E, 0x10_0000, 0x9FEC_022A, 0xFC3A_DC78);
    Times(0x1010_0000, 0xFC3A_DC78, 0x1010, 0x8EEE_64F6, 0x0C28_3CA0);
    Times(0x101_0101, 0x316B_5BA1, 0x1010_1010, 0x0C28_3CA0, 0x3D43_6701);
  }

  lemma Deciding1()
    ensures Power(0x4444_4444) == 0xBD43_6701 && Power(0x5555_5555) == 0xC736_EB52
  {
    hide Power, Mul;
    Powers0();
    Powers8();
    Powers16();
    Powers24();
    Products2();
    Products3();
    Deciding0();
    Times(0x4, 0x0800_0000, 0x40, 0xB1E6_B092, 0x3070_4BC1);
    Times(0x400, 0xD7BB_FE6A, 0x4000, 0x4D47_BAE0, 0x913D_3AB9);
    Times(0x4_0000, 0x7B5A_9CC3, 0x40_0000, 0x15D6_874D, 0x49DC_175B);
    Times(0x400_0000, 0x4EAB_A214, 0x4000_0000, 0xC40B_A6D0, 0xC9C5_716C);
    Times(0x44, 0x3070_4BC1, 0x4400, 0x913D_3AB9, 0x2FCB_B278);
    Times(0x44_0000, 0x49DC_175B, 0x4400_0000, 0xC9C5_716C, 0x8F61_BFD4);
    Times(0x4444, 0x2FCB_B278, 0x4444_0000, 0x8F61_BFD4, 0xBD43_6701);
    Times(0x1111_1111, 0x3D43_6701, 0x4444_4444, 0xBD43_6701, 0xC736_EB52);
  }

  // ---- the period ----

  /** After n turns the remainder is back. */
  predicate Returns(n: nat) {
    Power(n) == UNIT
  }

  lemma SameAgain(a: nat, b: nat)
    ensures Power(a + b) == Power(b) <==> Returns(a)
  {
    TurnsAdd(UNIT, a, b);
    if Power(a + b) == Power(b) {
      TurnsInjective(Power(a), UNIT, b);
    }
    hide Turns;
  }

  lemma PeriodReturns()
    ensures Returns(PERIOD)
  {
    hide Power;
    Powers24();
    PowerOne();
    SameAgain(PERIOD, 1);
  }

  /** It is not back after the period divided by any of its primes. */
  lemma NoneReturns()
    ensures !Returns(0x5555_5555) && !Returns(0x3333_3333) && !Returns(0x0F0F_0F0F)
    ensures !Returns(0x00FF_00FF) && !Returns(0xFFFF)
  {
    hide Power, Returns;
    PowerOne();
    Powers8();
    Deciding0();
    Deciding1();
    ReturnsIs(0x5555_5555);
    SameAgain(0x3333_3333, 0x1111_1111);
    SameAgain(0x0F0F_0F0F, 0x0101_0101);
    SameAgain(0x00FF_00FF, 0x1_0001);
    SameAgain(0xFFFF, 1);
  }

  lemma ReturnsIs(n: nat)
    ensures Returns(n) <==> Power(n) == UNIT
  {
  }

  lemma ReturnsAdd(a: nat, b: nat)
    requires Returns(a)
    ensures Returns(a + b) <==> Returns(b)
  {
    hide Power;
    SameAgain(a, b);
  }

  lemma {:induction false} ReturnsMultiple(a: nat, k: nat)
    requires Returns(a)
    ensures Returns(k * a)
  {
    hide Returns;
    if k == 0 {
      NothingReturns();
    } else {
      ReturnsMultiple(a, k - 1);
      assert k * a == a + (k - 1) * a;
      ReturnsAdd(a, (k - 1) * a);
    }
  }

  lemma NothingReturns()
    ensures Returns(0)
  {
  }

  lemma {:induction false} LeastReturn(n: nat) returns (o: nat)
    requires n > 0 && Returns(n)
    ensures 0 < o <= n && Returns(o) && forall k :: 0 < k < o ==> !Returns(k)
  {
    hide Returns;
    o := n;
    if k :| 0 < k < n && Returns(k) {
      o := LeastReturn(k);
    }
  }

  lemma LeastDivides(o: nat, n: nat)
    requires o > 0 && Returns(o) && Returns(n) && forall k :: 0 < k < o ==> !Returns(k)
    ensures Divides(o, n)
  {
    hide Returns;
    var q, r := n / o, n % o;
    ReturnsMultiple(o, q);
    assert n == q * o + r;
    ReturnsAdd(q * o, r);
  }

  /** p has no share in the quotient of the period by a shorter one. */
  lemma NotInQuotient(p: nat, rest: nat, q: nat, o: nat)
    requires p > 1 && p * rest == q * o && !Returns(rest) && Returns(o)
    ensures !Divides(p, q)
  {
    hide Returns;
    if Divides(p, q) {
      var j := QuotientOf(p, q);
      ReturnsMultiple(o, j);
      SameFactor(p, rest, j * o) by { assert q * o == p * (j * o); }
    }
  }

  lemma SameFactor(p: nat, a: nat, b: nat)
    requires p > 0 && p * a == p * b
    ensures a == b
  {
  }

  lemma InPeriod(p: nat, rest: nat, q: nat, o: nat)
    requires Prime(p) && p * rest == PERIOD == q * o && !Returns(rest) && Returns(o)
    ensures Divides(p, o)
  {
    hide Returns, Prime;
    assert p > 1 by { assert Prime(p); PrimeAboveOne(p); }
    NotInQuotient(p, rest, q, o);
    MultipleDivides(p, rest);
    PrimeFactor(p, q, o);
  }

  lemma PrimeAboveOne(p: nat)
    requires Prime(p)
    ensures p > 1
  {
  }

  lemma OnlyPeriod(o: nat, q: nat)
    requires o > 0 && Returns(o) && PERIOD == q * o
    ensures o >= PERIOD
  {
    hide Returns, Prime;
    NoneReturns();
    FermatPrimes();
    InPeriod(3, 0x5555_5555, q, o);
    InPeriod(5, 0x3333_3333, q, o);
    InPeriod(17, 0x0F0F_0F0F, q, o);
    InPeriod(257, 0x00FF_00FF, q, o);
    InPeriod(65537, 0xFFFF, q, o);
    BothDivide(5, 3, o);
    BothDivide(17, 15, o);
    BothDivide(257, 255, o);
    BothDivide(65537, 65535, o);
  }

  /** The remainder 1 is back after exactly the multiples of 2^32 - 1 turns. */
  lemma PeriodExactly(n: nat)
    ensures Returns(n) <==> n % PERIOD == 0
  {
    hide Returns;
    PeriodReturns();
    var o := LeastReturn(PERIOD);
    LeastDivides(o, PERIOD);
    var q := QuotientOf(o, PERIOD);
    OnlyPeriod(o, q);
    if Returns(n) {
      LeastDivides(o, n);
    } else {
      ReturnsMultiple(PERIOD, n / PERIOD);
    }
  }

  // ---- all ones ----

  predicate Fixed(y: bv32, n: nat) {
    Turns(y, n) == y
  }

  lemma FixedTurn(y: bv32, n: nat)
    requires Fixed(y, n)
    ensures Fixed(Turn(y), n)
  {
    TurnIsShift(y);
    TurnsFirst(y, n + 1);
    hide Turn, Shift;
  }

  lemma FixedXor(x: bv32, y: bv32, n: nat)
    requires Fixed(x, n) && Fixed(y, n)
    ensures Fixed(Xor(x, y), n)
  {
    TurnsLinear(x, y, n);
    hide Xor, Turns;
  }

  lemma FixedPart(x: bv32, y: bv32, n: nat)
    requires Fixed(y, n)
    ensures Fixed(Part(x, y), n) && Fixed(Turn(y), n)
  {
    PartIs(x, y);
    hide Part, Turns;
    ZeroTurns(n);
    FixedTurn(y, n);
  }

  lemma FixedMul8(x: bv32, y: bv32, n: nat)
    requires Fixed(y, n)
    ensures Fixed(Mul8(x, y), n) && Fixed(Turn8(y), n)
  {
    hide Fixed, Turn, Part, Xor, Up;
    var (x1, y1, x2, y2) := (Up(x), Turn(y), Up(Up(x)), Turn(Turn(y)));
    var (x3, y3, x4, y4) := (Up(x2), Turn(y2), Up(Up(x2)), Turn(Turn(y2)));
    var (x5, y5, x6, y6) := (Up(x4), Turn(y4), Up(Up(x4)), Turn(Turn(y4)));
    FixedPart(x, y, n);
    FixedPart(x1, y1, n);
    FixedPart(x2, y2, n);
    FixedPart(x3, y3, n);
    FixedPart(x4, y4, n);
    FixedPart(x5, y5, n);
    FixedPart(x6, y6, n);
    FixedPart(Up(x6), Turn(y6), n);
    var s6 := Xor(Part(x6, y6), Part(Up(x6), Turn(y6)));
    var (s5, s4) := (Xor(Part(x5, y5), s6), Xor(Part(x4, y4), Xor(Part(x5, y5), s6)));
    var (s3, s2) := (Xor(Part(x3, y3), s4), Xor(Part(x2, y2), Xor(Part(x3, y3), s4)));
    FixedXor(Part(x6, y6), Part(Up(x6), Turn(y6)), n);
    FixedXor(Part(x5, y5), s6, n);
    FixedXor(Part(x4, y4), s5, n);
    FixedXor(Part(x3, y3), s4, n);
    FixedXor(Part(x2, y2), s3, n);
    FixedXor(Part(x1, y1), s2, n);
    FixedXor(Part(x, y), Xor(Part(x1, y1), s2), n);
  }

  /** What comes back with y comes back with its multiples. */
  lemma FixedMul(x: bv32, y: bv32, n: nat)
    requires Fixed(y, n)
    ensures Fixed(Mul(x, y), n)
  {
    hide Fixed, Turn8, Xor, Mul8, Up8;
    var (x1, y1) := (Up8(x), Turn8(y));
    var (x2, y2) := (Up8(x1), Turn8(y1));
    FixedMul8(x, y, n);
    FixedMul8(x1, y1, n);
    FixedMul8(x2, y2, n);
    FixedMul8(Up8(x2), Turn8(y2), n);
    var s2 := Xor(Mul8(x2, y2), Mul8(Up8(x2), Turn8(y2)));
    FixedXor(Mul8(x2, y2), Mul8(Up8(x2), Turn8(y2)), n);
    FixedXor(Mul8(x1, y1), s2, n);
    FixedXor(Mul8(x, y), Xor(Mul8(x1, y1), s2), n);
  }

  lemma OnesInverse()
    ensures Mul(0xE572_48CE, ONES) == UNIT
  {
  }

  lemma OnesTurned(n: nat)
    ensures Turns(ONES, n) == Mul(ONES, Power(n)) && Turns(ONES, 0) == ONES
  {
    TurnsAreProduct(ONES, n);
    hide Mul, Power;
  }

  /** The starting value comes back with the remainder 1, and not before. */
  lemma OnesReturn(n: nat)
    ensures Turns(ONES, n) == ONES <==> n % PERIOD == 0
  {
    hide Mul, Turns;
    PeriodExactly(n);
    OnesTurned(n);
    OnesTurned(0);
    PowerOne();
    if Fixed(ONES, n) {
      OnesInverse();
      FixedMul(0xE572_48CE, ONES, n);
    }
  }

  lemma {:induction false} ZerosTurn(c: bv32, z: seq<Byte>)
    requires forall i :: 0 <= i < |z| ==> z[i] == 0
    ensures FeedAll(c, z) == Turns(c, 8 * |z|)
    decreases |z|
  {
    hide Xor, Shift, Shift8;
    if z != [] {
      XorLaws(c, 0, 0);
      EightTurns(c);
      hide Turns;
      assert Feed(c, 0) == Shift8(Xor(c, 0));
      ZerosTurn(Turns(c, 8), z[1..]);
      TurnsAdd(c, 8, 8 * |z[1..]|);
    }
  }

  lemma EighthOfPeriod(n: nat)
    ensures (8 * n) % PERIOD == 0 <==> n % PERIOD == 0
  {
    if (8 * n) % PERIOD == 0 {
      var q := 8 * n / PERIOD;
      assert n == (0x2000_0000 * q - n) * PERIOD;
      ModUnique(n, PERIOD, 0x2000_0000 * q - n, 0);
    } else {
      if n % PERIOD == 0 {
        ModUnique(8 * n, PERIOD, 8 * (n / PERIOD), 0);
      }
    }
  }

  /** The checksum of zeros is zero exactly if their number is a multiple of 2^32 - 1. */
  lemma ZerosPassExactly(z: seq<Byte>)
    requires forall i :: 0 <= i < |z| ==> z[i] == 0
    ensures Crc(z) == 0 <==> |z| % PERIOD == 0
  {
    ZerosTurn(ONES, z);
    OnesReturn(8 * |z|);
    EighthOfPeriod(|z|);
    XorLaws(ONES, ONES, ONES);
    if Crc(z) == 0 {
      XorCancels(FeedAll(ONES, z), ONES, ONES);
    }
    hide Xor, FeedAll, Turns;
  }

  // ---- two bits ----

  lemma LastPower()
    ensures Power(31) == 1
  {
    TurnsOf31();
  }

  lemma TurnsOf31()
    ensures Turns(UNIT, 31) == 1
  {
    hide Turns;
    EightTurns(UNIT);
    EightTurns(0x0080_0000);
    EightTurns(0x8000);
    TurnsAdd(UNIT, 8, 8);
    TurnsAdd(UNIT, 16, 8);
    TurnsAdd(UNIT, 24, 7);
    BytesDown();
    SevenDown();
  }

  lemma BytesDown()
    ensures Shift8(UNIT) == 0x0080_0000 && Shift8(0x0080_0000) == 0x8000 && Shift8(0x8000) == 0x80
  {
  }

  lemma SevenDown()
    ensures Turns(0x80, 7) == 1
  {
    assert Turns(0x80, 1) == 0x40;
    assert Turns(0x80, 2) == 0x20;
    assert Turns(0x80, 3) == 0x10;
    assert Turns(0x80, 4) == 8;
    assert Turns(0x80, 5) == 4;
    assert Turns(0x80, 6) == 2;
  }

  /** The lowest bit of a remainder is back with the remainder 1. */
  lemma LowestBitReturns(d: nat)
    ensures Turns(1, d) == 1 <==> d % PERIOD == 0
  {
    PeriodExactly(d);
    hide Turns, Returns;
    LastPower();
    SameAgain(d, 31);
    TurnsAdd(UNIT, 31, d);
  }

  /** Equal bits turn a difference. */
  lemma {:induction false} DifferenceTurns(c: bv32, d: bv32, w: seq<bool>)
    ensures Xor(FeedBits(c, w), FeedBits(d, w)) == Turns(Xor(c, d), |w|)
    decreases |w|
  {
    hide Xor, Shift;
    if w != [] {
      var b := BitWord(w[0]);
      DifferenceTurns(FeedBit(c, w[0]), FeedBit(d, w[0]), w[1..]);
      ShiftLinear(Xor(c, b), Xor(d, b));
      XorTwice(c, d, b);
      TurnsFirst(Xor(c, d), |w|);
    }
  }

  lemma OtherBit(c: bv32, x: bool)
    ensures Xor(FeedBit(c, x), FeedBit(c, !x)) == Turns(1, 1)
  {
    FlippedBit(c, x);
    ShiftLinear(Xor(c, BitWord(x)), Xor(c, BitWord(!x)));
    hide Xor, Shift, BitWord;
    assert Turns(1, 1) == Shift(Turns(1, 0));
  }

  lemma FlippedBit(c: bv32, x: bool)
    ensures Xor(Xor(c, BitWord(x)), Xor(c, BitWord(!x))) == 1
  {
  }

  /** A second difference undoes a first that is 1 by then, and no other. */
  lemma SecondBit(c: bv32, d: bv32, y: bool)
    ensures FeedBit(c, y) == FeedBit(d, !y) <==> Xor(c, d) == 1
  {
    if FeedBit(c, y) == FeedBit(d, !y) {
      ShiftInjective(Xor(c, BitWord(y)), Xor(d, BitWord(!y)));
    }
    EqualAfterFlip(c, d, y);
    hide Shift, Xor, BitWord;
  }

  lemma EqualAfterFlip(c: bv32, d: bv32, y: bool)
    ensures Xor(c, BitWord(y)) == Xor(d, BitWord(!y)) <==> Xor(c, d) == 1
  {
    var b := BitWord(y);
    OppositeBit(y);
    OneApart(c, d);
    hide Xor, BitWord;
    XorTwice(d, b, 1);
    if Xor(c, b) == Xor(d, Xor(b, 1)) {
      XorCancels(c, Xor(d, 1), b);
    }
  }

  lemma OppositeBit(y: bool)
    ensures BitWord(!y) == Xor(BitWord(y), 1)
  {
  }

  lemma OneApart(c: bv32, d: bv32)
    ensures c == Xor(d, 1) <==> Xor(c, d) == 1
  {
    hide Xor;
    XorLaws(c, d, 0);
    XorLaws(d, 1, 0);
    XorLaws(1, d, 0);
    XorCommutes(1, d);
  }

  lemma TwoBitsFed(c: bv32, x: bool, m: seq<bool>, y: bool, after: seq<bool>)
    ensures FeedBits(c, [x] + m + [y] + after) == FeedBits(c, [!x] + m + [!y] + after) <==> (|m| + 1) % PERIOD == 0
  {
    hide Shift, Xor, Turns, FeedBit;
    var (c1, d1) := (FeedBit(c, x), FeedBit(c, !x));
    var (c2, d2) := (FeedBits(c1, m), FeedBits(d1, m));
    FedInOrder(c, x, m, y, after);
    FedInOrder(c, !x, m, !y, after);
    OtherBit(c, x);
    DifferenceTurns(c1, d1, m);
    TurnsAdd(1, 1, |m|);
    SecondBit(c2, d2, y);
    LowestBitReturns(|m| + 1);
    if FeedBits(FeedBit(c2, y), after) == FeedBits(FeedBit(d2, !y), after) {
      SameBitsInjective(FeedBit(c2, y), FeedBit(d2, !y), after);
    }
  }

  lemma FedInOrder(c: bv32, x: bool, m: seq<bool>, y: bool, after: seq<bool>)
    ensures FeedBits(c, [x] + m + [y] + after) == FeedBits(FeedBit(FeedBits(FeedBit(c, x), m), y), after)
  {
    hide FeedBit;
    FeedBitsConcat(c, [x] + m + [y], after);
    FeedBitsConcat(c, [x] + m, [y]);
    FeedBitsConcat(c, [x], m);
    OneFed(c, x);
    OneFed(FeedBits(FeedBit(c, x), m), y);
  }

  lemma OneFed(c: bv32, x: bool)
    ensures FeedBits(c, [x]) == FeedBit(c, x)
  {
    hide FeedBit;
    assert [x][1..] == [];
    assert FeedBits(FeedBit(c, x), []) == FeedBit(c, x);
  }

  /** a and b differ in exactly the bits i and j. */
  ghost predicate DifferAt(a: seq<Byte>, b: seq<Byte>, i: nat, j: nat)
    requires |a| == |b|
  {
    && i < j < 8 * |a|
    && forall k :: 0 <= k < 8 * |a| ==> (Bits(a)[k] != Bits(b)[k] <==> k == i || k == j)
  }

  lemma PartsOfBits(u: seq<bool>, v: seq<bool>, i: nat, j: nat)
    requires |u| == |v| && i < j < |u|
    requires forall k :: 0 <= k < |u| ==> (u[k] != v[k] <==> k == i || k == j)
    ensures u == u[..i] + ([u[i]] + u[i + 1..j] + [u[j]] + u[j + 1..])
    ensures v == u[..i] + ([!u[i]] + u[i + 1..j] + [!u[j]] + u[j + 1..])
  {
    FiveParts(u, i, j);
    FiveParts(v, i, j);
    assert v[..i] == u[..i];
    assert v[i + 1..j] == u[i + 1..j];
    assert v[j + 1..] == u[j + 1..];
    assert v[i] == !u[i] && v[j] == !u[j];
  }

  lemma FiveParts(u: seq<bool>, i: nat, j: nat)
    requires i < j < |u|
    ensures u == u[..i] + ([u[i]] + u[i + 1..j] + [u[j]] + u[j + 1..])
  {
    assert u[i..] == [u[i]] + u[i + 1..j] + [u[j]] + u[j + 1..];
  }

  /** Two wrong bits go unnoticed exactly if they are a multiple of 2^32 - 1 apart. */
  lemma TwoBitsDetectedExactly(a: seq<Byte>, b: seq<Byte>, i: nat, j: nat)
    requires |a| == |b| && DifferAt(a, b, i, j)
    ensures Crc(a) == Crc(b) <==> (j - i) % PERIOD == 0
  {
    var (u, v) := (Bits(a), Bits(b));
    PartsOfBits(u, v, i, j);
    hide Bits, FeedAll, FeedBits, Xor;
    FeedAllIsBits(ONES, a);
    FeedAllIsBits(ONES, b);
    var (m, after) := (u[i + 1..j], u[j + 1..]);
    FeedBitsConcat(ONES, u[..i], [u[i]] + m + [u[j]] + after);
    FeedBitsConcat(ONES, u[..i], [!u[i]] + m + [!u[j]] + after);
    TwoBitsFed(FeedBits(ONES, u[..i]), u[i], m, u[j], after);
    if Crc(a) == Crc(b) {
      XorCancels(FeedAll(ONES, a), FeedAll(ONES, b), ONES);
    }
  }
}
