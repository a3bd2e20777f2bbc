/**
 How a difference between two strings shows in their checksums. The difference of the checksums is
 linear in that of the strings, and depends on nothing else. For a difference of up to four bytes it is
 the sum of what each byte leaves after as many turns as follow it; what one byte leaves is the sum of
 what its bits leave, eight constants for each number of turns. Some bytes of such a sum are zero only
 for the byte zero, and that is what decides how short a difference must be.
 */
module CrcKernel {
  import opened Bytes
  import opened Crc32

  // ---- the checksum of a difference ----

  function Zeros(n: nat): (z: seq<Byte>)
    ensures |z| == n
  {
    seq(n, _ => 0)
  }

  function Diff(a: seq<Byte>, b: seq<Byte>): (d: seq<Byte>)
    requires |a| == |b|
    ensures |d| == |a| && forall i :: 0 <= i < |a| ==> d[i] == a[i] ^ b[i]
  {
    seq(|a|, i requires 0 <= i < |a| => a[i] ^ b[i])
  }

  lemma SameBytes(x: Byte, y: Byte)
    ensures x ^ y == 0 <==> x == y
  {
  }

  lemma DiffZero(a: seq<Byte>, b: seq<Byte>)
    requires |a| == |b|
    ensures Diff(a, b) == Zeros(|a|) <==> a == b
  {
    forall i | 0 <= i < |a| ensures a[i] ^ b[i] == 0 <==> a[i] == b[i] {
      SameBytes(a[i], b[i]);
    }
    if Diff(a, b) == Zeros(|a|) {
      assert forall i :: 0 <= i < |a| ==> Diff(a, b)[i] == Zeros(|a|)[i];
    }
  }

  /** The remainder that a string leaves from 0. */
  function Syndrome(e: seq<Byte>): bv32 {
    FeedAll(0, e)
  }

  lemma FeedLinear(c: bv32, d: bv32, x: Byte, y: Byte)
    ensures Xor(Feed(c, x), Feed(d, y)) == Feed(Xor(c, d), x ^ y)
  {
    WidenXor(x, y);
    hide Shift8, Xor;
    var (u, v) := (x as bv32, y as bv32);
    Shift8Linear(Xor(c, u), Xor(d, v));
    XorLaws(c, u, Xor(d, v));
    XorLaws(u, d, v);
    XorCommutes(u, d);
    XorLaws(d, u, v);
    XorLaws(c, d, Xor(u, v));
  }

  lemma WidenXor(x: Byte, y: Byte)
    ensures (x ^ y) as bv32 == Xor(x as bv32, y as bv32)
  {
  }

  lemma {:induction false} FeedDifference(c: bv32, d: bv32, a: seq<Byte>, b: seq<Byte>)
    requires |a| == |b|
    ensures Xor(FeedAll(c, a), FeedAll(d, b)) == FeedAll(Xor(c, d), Diff(a, b))
    decreases |a|
  {
    hide Feed, Xor;
    if a != [] {
      FeedLinear(c, d, a[0], b[0]);
      FeedDifference(Feed(c, a[0]), Feed(d, b[0]), a[1..], b[1..]);
      assert Diff(a, b)[1..] == Diff(a[1..], b[1..]);
    }
  }

  /** Whatever stands before them, the checksums of two strings differ by the syndrome of their
      difference. */
  lemma CrcDifference(before: seq<Byte>, a: seq<Byte>, b: seq<Byte>)
    requires |a| == |b|
    ensures Xor(Crc(before + a), Crc(before + b)) == Syndrome(Diff(a, b))
  {
    hide FeedAll, Xor;
    var c := FeedAll(ONES, before);
    FeedConcat(ONES, before, a);
    FeedConcat(ONES, before, b);
    FeedDifference(c, c, a, b);
    XorTwice(FeedAll(c, a), FeedAll(c, b), ONES);
    XorLaws(c, c, c);
  }

  lemma ZeroFeeds()
    ensures Feed(0, 0) == 0
  {
  }

  /** Zeros in front leave no trace. */
  lemma {:induction false} LeadingZeros(n: nat, e: seq<Byte>)
    ensures Syndrome(Zeros(n) + e) == Syndrome(e)
  {
    hide Feed;
    if n == 0 {
      assert Zeros(0) + e == e;
    } else {
      ZeroFeeds();
      var s := Zeros(n) + e;
      assert s[1..] == Zeros(n - 1) + e;
      LeadingZeros(n - 1, e);
    }
  }

  lemma XorBytes(v: bv32, w: bv32)
    ensures forall i :: 0 <= i < 4 ==> ToBytes(Xor(v, w))[i] == ToBytes(v)[i] ^ ToBytes(w)[i]
  {
  }

  /** Equal bytes of two words are zero in their sum. */
  lemma SameAndZero(v: bv32, w: bv32)
    ensures forall i :: 0 <= i < 4 ==> (ToBytes(v)[i] == ToBytes(w)[i] <==> ToBytes(Xor(v, w))[i] == 0)
  {
    XorBytes(v, w);
    forall i | 0 <= i < 4 ensures ToBytes(v)[i] == ToBytes(w)[i] <==> ToBytes(Xor(v, w))[i] == 0 {
      SameBytes(ToBytes(v)[i], ToBytes(w)[i]);
    }
  }

  predicate AllZero(e: seq<Byte>) {
    forall i :: 0 <= i < |e| ==> e[i] == 0
  }

  lemma PaddedZero(pad: seq<Byte>, e: seq<Byte>)
    requires AllZero(pad + e)
    ensures e == Zeros(|e|)
  {
    assert forall i :: 0 <= i < |e| ==> (pad + e)[|pad| + i] == e[i];
  }

  function Padded(size: nat, e: seq<Byte>): (v: seq<Byte>)
    requires |e| <= size
    ensures |v| == size
  {
    Zeros(size - |e|) + e
  }

  lemma PaddedDiff(size: nat, a: seq<Byte>, b: seq<Byte>)
    requires |a| == |b| <= size
    ensures Diff(Padded(size, a), Padded(size, b)) == Zeros(size - |a|) + Diff(a, b)
  {
    SameBytes(0, 0);
  }

  lemma SyndromeOfFour(u: seq<Byte>)
    requires |u| == 4
    ensures Syndrome(u) == Shift32(Word(u))
  {
    FeedFour(0, u);
    ZeroPlus(Word(u));
  }

  // ---- one byte, turned n times eight bits ----

  function Turned(x: Byte, n: nat): bv32 {
    if n == 0 then x as bv32 else Shift8(Turned(x, n - 1))
  }

  function Bit(x: Byte, m: Byte, v: bv32): bv32 {
    if x & m == 0 then 0 else v
  }

  /** The sum of the words whose bits are set in x. */
  function Combine(x: Byte, v0: bv32, v1: bv32, v2: bv32, v3: bv32, v4: bv32, v5: bv32, v6: bv32, v7: bv32): bv32 {
    Xor(Four(x, 1, 2, 4, 8, v0, v1, v2, v3), Four(x, 16, 32, 64, 128, v4, v5, v6, v7))
  }

  function Four(x: Byte, m0: Byte, m1: Byte, m2: Byte, m3: Byte, v0: bv32, v1: bv32, v2: bv32, v3: bv32): bv32 {
    Xor(Xor(Xor(Bit(x, m0, v0), Bit(x, m1, v1)), Bit(x, m2, v2)), Bit(x, m3, v3))
  }

  lemma FourTurned(x: Byte, m0: Byte, m1: Byte, m2: Byte, m3: Byte, v0: bv32, v1: bv32, v2: bv32, v3: bv32)
    ensures Shift8(Four(x, m0, m1, m2, m3, v0, v1, v2, v3)) ==
            Four(x, m0, m1, m2, m3, Shift8(v0), Shift8(v1), Shift8(v2), Shift8(v3))
  {
    hide Shift8, Xor, Bit;
    var (a, b, c, d) := (Bit(x, m0, v0), Bit(x, m1, v1), Bit(x, m2, v2), Bit(x, m3, v3));
    Shift8Linear(a, b);
    Shift8Linear(Xor(a, b), c);
    Shift8Linear(Xor(Xor(a, b), c), d);
    BitTurned(x, m0, v0);
    BitTurned(x, m1, v1);
    BitTurned(x, m2, v2);
    BitTurned(x, m3, v3);
  }

  lemma BitTurned(x: Byte, m: Byte, v: bv32)
    ensures Shift8(Bit(x, m, v)) == Bit(x, m, Shift8(v))
  {
    ZeroTurned();
    hide Shift8;
  }

  lemma ZeroTurned()
    ensures Shift8(0) == 0
  {
  }

  lemma CombineTurned(x: Byte, v0: bv32, v1: bv32, v2: bv32, v3: bv32, v4: bv32, v5: bv32, v6: bv32, v7: bv32)
    ensures Shift8(Combine(x, v0, v1, v2, v3, v4, v5, v6, v7)) ==
            Combine(x, Shift8(v0), Shift8(v1), Shift8(v2), Shift8(v3), Shift8(v4), Shift8(v5), Shift8(v6), Shift8(v7))
  {
    hide Shift8, Xor, Four;
    var low, high := Four(x, 1, 2, 4, 8, v0, v1, v2, v3), Four(x, 16, 32, 64, 128, v4, v5, v6, v7);
    FourTurned(x, 1, 2, 4, 8, v0, v1, v2, v3);
    FourTurned(x, 16, 32, 64, 128, v4, v5, v6, v7);
    Shift8Linear(low, high);
  }

  lemma ByteIsCombined(x: Byte)
    ensures x as bv32 == Combine(x, 1, 2, 4, 8, 16, 32, 64, 128)
  {
  }

  // The constants follow from one another by single turns.

  lemma Chain0()
    ensures Shift(0x80) == 0x40 && Shift(0x40) == 0x20
    ensures Shift(0x20) == 0x10 && Shift(0x10) == 0x8
    ensures Shift(0x8) == 0x4 && Shift(0x4) == 0x2
    ensures Shift(0x2) == 0x1 && Shift(0x1) == 0xEDB8_8320
  {
  }

  lemma Chain1()
    ensures Shift(0xEDB8_8320) == 0x76DC_4190 && Shift(0x76DC_4190) == 0x3B6E_20C8
    ensures Shift(0x3B6E_20C8) == 0x1DB7_1064 && Shift(0x1DB7_1064) == 0x0EDB_8832
    ensures Shift(0x0EDB_8832) == 0x076D_C419 && Shift(0x076D_C419) == 0xEE0E_612C
    ensures Shift(0xEE0E_612C) == 0x7707_3096 && Shift(0x7707_3096) == 0x3B83_984B
  {
  }

  lemma Chain2()
    ensures Shift(0x3B83_984B) == 0xF079_4F05 && Shift(0xF079_4F05) == 0x9584_24A2
    ensures Shift(0x9584_24A2) == 0x4AC2_1251 && Shift(0x4AC2_1251) == 0xC8D9_8A08
    ensures Shift(0xC8D9_8A08) == 0x646C_C504 && Shift(0x646C_C504) == 0x3236_6282
    ensures Shift(0x3236_6282) == 0x191B_3141 && Shift(0x191B_3141) == 0xE135_1B80
  {
  }

  lemma Chain3()
    ensures Shift(0xE135_1B80) == 0x709A_8DC0 && Shift(0x709A_8DC0) == 0x384D_46E0
    ensures Shift(0x384D_46E0) == 0x1C26_A370 && Shift(0x1C26_A370) == 0x0E13_51B8
    ensures Shift(0x0E13_51B8) == 0x0709_A8DC && Shift(0x0709_A8DC) == 0x0384_D46E
    ensures Shift(0x0384_D46E) == 0x01C2_6A37 && Shift(0x01C2_6A37) == 0xED59_B63B
  {
  }

  lemma Chain4()
    ensures Shift(0xED59_B63B) == 0x9B14_583D && Shift(0x9B14_583D) == 0xA032_AF3E
    ensures Shift(0xA032_AF3E) == 0x5019_579F && Shift(0x5019_579F) == 0xC5B4_28EF
    ensures Shift(0xC5B4_28EF) == 0x8F62_9757 && Shift(0x8F62_9757) == 0xAA09_C88B
    ensures Shift(0xAA09_C88B) == 0xB8BC_6765
  {
  }

  /** A byte turned 8 times is a sum of eight constants. */
  lemma TurnedSum1(x: Byte)
    ensures Turned(x, 1) ==
            Combine(x, 0x7707_3096, 0xEE0E_612C, 0x076D_C419, 0x0EDB_8832,
                    0x1DB7_1064, 0x3B6E_20C8, 0x76DC_4190, 0xEDB8_8320)
  {
    ByteIsCombined(x);
    Chain0();
    Chain1();
    assert Turned(x, 0) == x as bv32;
    hide Shift, Combine;
    CombineTurned(x, 1, 2, 4, 8, 16, 32, 64, 128);
  }

  /** A byte turned 16 times is a sum of eight constants. */
  lemma TurnedSum2(x: Byte)
    ensures Turned(x, 2) ==
            Combine(x, 0x191B_3141, 0x3236_6282, 0x646C_C504, 0xC8D9_8A08,
                    0x4AC2_1251, 0x9584_24A2, 0xF079_4F05, 0x3B83_984B)
  {
    TurnedSum1(x);
    Chain1();
    Chain2();
    hide Shift, Combine;
    CombineTurned(x, 0x7707_3096, 0xEE0E_612C, 0x076D_C419, 0x0EDB_8832, 0x1DB7_1064, 0x3B6E_20C8, 0x76DC_4190, 0xEDB8_8320);
  }

  /** A byte turned 24 times is a sum of eight constants. */
  lemma TurnedSum3(x: Byte)
    ensures Turned(x, 3) ==
            Combine(x, 0x01C2_6A37, 0x0384_D46E, 0x0709_A8DC, 0x0E13_51B8,
                    0x1C26_A370, 0x384D_46E0, 0x709A_8DC0, 0xE135_1B80)
  {
    TurnedSum2(x);
    Chain2();
    Chain3();
    hide Shift, Combine;
    CombineTurned(x, 0x191B_3141, 0x3236_6282, 0x646C_C504, 0xC8D9_8A08, 0x4AC2_1251, 0x9584_24A2, 0xF079_4F05, 0x3B83_984B);
  }

  /** A byte turned 32 times is a sum of eight constants. */
  lemma TurnedSum4(x: Byte)
    ensures Turned(x, 4) ==
            Combine(x, 0xB8BC_6765, 0xAA09_C88B, 0x8F62_9757, 0xC5B4_28EF,
                    0x5019_579F, 0xA032_AF3E, 0x9B14_583D, 0xED59_B63B)
  {
    TurnedSum3(x);
    Chain3();
    Chain4();
    hide Shift, Combine;
    CombineTurned(x, 0x01C2_6A37, 0x0384_D46E, 0x0709_A8DC, 0x0E13_51B8, 0x1C26_A370, 0x384D_46E0, 0x709A_8DC0, 0xE135_1B80);
  }

  // ---- syndromes of up to four bytes ----

  lemma SyndromeAppend(e: seq<Byte>, x: Byte)
    ensures Syndrome(e + [x]) == Xor(Shift8(Syndrome(e)), Turned(x, 1))
  {
    hide FeedAll, Shift8, Xor;
    FeedConcat(0, e, [x]);
    FeedOne(Syndrome(e), x);
    Shift8Linear(Syndrome(e), x as bv32);
    assert Turned(x, 0) == x as bv32;
  }

  lemma OneByte(a: Byte)
    ensures Syndrome([a]) == Turned(a, 1)
  {
    FeedOne(0, a);
    ZeroPlus(a as bv32);
    hide FeedAll, Shift8, Xor;
    assert Turned(a, 0) == a as bv32;
  }

  lemma ZeroPlus(x: bv32)
    ensures Xor(0, x) == x && Xor(x, 0) == x
  {
  }

  lemma TwoBytes(a: Byte, b: Byte)
    ensures Syndrome([a, b]) == Xor(Turned(a, 2), Turned(b, 1))
  {
    hide Syndrome, Shift8, Xor;
    OneByte(a);
    SyndromeAppend([a], b);
    assert [a] + [b] == [a, b];
  }

  lemma ThreeBytes(a: Byte, b: Byte, c: Byte)
    ensures Syndrome([a, b, c]) == Xor(Xor(Turned(a, 3), Turned(b, 2)), Turned(c, 1))
  {
    hide Syndrome, Shift8, Xor;
    TwoBytes(a, b);
    SyndromeAppend([a, b], c);
    assert [a, b] + [c] == [a, b, c];
    Shift8Linear(Turned(a, 2), Turned(b, 1));
  }

  lemma FourBytes(a: Byte, b: Byte, c: Byte, d: Byte)
    ensures Syndrome([a, b, c, d]) == Xor(Xor(Xor(Turned(a, 4), Turned(b, 3)), Turned(c, 2)), Turned(d, 1))
  {
    hide Syndrome, Shift8, Xor;
    ThreeBytes(a, b, c);
    SyndromeAppend([a, b, c], d);
    assert [a, b, c] + [d] == [a, b, c, d];
    Shift8Linear(Xor(Turned(a, 3), Turned(b, 2)), Turned(c, 1));
    Shift8Linear(Turned(a, 3), Turned(b, 2));
  }

  lemma NothingTurned()
    ensures forall n: nat :: n <= 4 ==> Turned(0, n) == 0
  {
    ZeroTurned();
    hide Shift8;
    assert Turned(0, 0) == 0 && Turned(0, 1) == 0 && Turned(0, 2) == 0 && Turned(0, 3) == 0 && Turned(0, 4) == 0;
  }

  // ---- which bytes decide ----

  lemma Sum1Top(x: Byte)
    requires Combine(x, 0x7707_3096, 0xEE0E_612C, 0x076D_C419, 0x0EDB_8832,
                      0x1DB7_1064, 0x3B6E_20C8, 0x76DC_4190, 0xEDB8_8320)
             & 0xFF00_0000 == 0
    ensures x == 0
  {
  }

  lemma Sum1Middle(x: Byte)
    requires Combine(x, 0x7707_3096, 0xEE0E_612C, 0x076D_C419, 0x0EDB_8832,
                      0x1DB7_1064, 0x3B6E_20C8, 0x76DC_4190, 0xEDB8_8320)
             & 0xFF_FF00 == 0
    ensures x == 0
  {
  }

  lemma Sum3Lowest(x: Byte)
    requires Combine(x, 0x01C2_6A37, 0x0384_D46E, 0x0709_A8DC, 0x0E13_51B8,
                      0x1C26_A370, 0x384D_46E0, 0x709A_8DC0, 0xE135_1B80)
             & 0xFF == 0
    ensures x == 0
  {
  }

  lemma Sum3Second(x: Byte)
    requires Combine(x, 0x01C2_6A37, 0x0384_D46E, 0x0709_A8DC, 0x0E13_51B8,
                      0x1C26_A370, 0x384D_46E0, 0x709A_8DC0, 0xE135_1B80)
             & 0xFF00 == 0
    ensures x == 0
  {
  }

  lemma Sum4Lowest(x: Byte)
    requires Combine(x, 0xB8BC_6765, 0xAA09_C88B, 0x8F62_9757, 0xC5B4_28EF,
                      0x5019_579F, 0xA032_AF3E, 0x9B14_583D, 0xED59_B63B)
             & 0xFF == 0
    ensures x == 0
  {
  }

  lemma Sums43Low(x: Byte, y: Byte)
    requires (Combine(x, 0xB8BC_6765, 0xAA09_C88B, 0x8F62_9757, 0xC5B4_28EF,
                      0x5019_579F, 0xA032_AF3E, 0x9B14_583D, 0xED59_B63B)
              ^ Combine(y, 0x01C2_6A37, 0x0384_D46E, 0x0709_A8DC, 0x0E13_51B8,
                      0x1C26_A370, 0x384D_46E0, 0x709A_8DC0, 0xE135_1B80))
             & 0xFF_FFFF == 0
    ensures x == 0 && y == 0
  {
  }

  lemma Sums32Low(x: Byte, y: Byte)
    requires (Combine(y, 0x191B_3141, 0x3236_6282, 0x646C_C504, 0xC8D9_8A08,
                      0x4AC2_1251, 0x9584_24A2, 0xF079_4F05, 0x3B83_984B)
              ^ Combine(x, 0x01C2_6A37, 0x0384_D46E, 0x0709_A8DC, 0x0E13_51B8,
                      0x1C26_A370, 0x384D_46E0, 0x709A_8DC0, 0xE135_1B80))
             & 0xFFFF == 0
    ensures x == 0 && y == 0
  {
  }

  lemma ByteZero(w: bv32)
    ensures ToBytes(w)[0] == 0 <==> w & 0xFF == 0
    ensures ToBytes(w)[1] == 0 <==> w & 0xFF00 == 0
    ensures ToBytes(w)[2] == 0 <==> w & 0xFF_0000 == 0
    ensures ToBytes(w)[3] == 0 <==> w & 0xFF00_0000 == 0
  {
  }

  lemma MaskJoins(w: bv32)
    ensures w & 0xFF == 0 && w & 0xFF00 == 0 ==> w & 0xFFFF == 0
    ensures w & 0xFFFF == 0 && w & 0xFF_0000 == 0 ==> w & 0xFF_FFFF == 0
    ensures w & 0xFF00 == 0 && w & 0xFF_0000 == 0 ==> w & 0xFF_FF00 == 0
  {
  }

  lemma XorIs(a: bv32, b: bv32)
    ensures Xor(a, b) == a ^ b && Xor(a, b) == b ^ a
  {
  }

  /** The last byte decides the top byte ... */
  lemma LastByteDecides(x: Byte)
    requires ToBytes(Turned(x, 1))[3] == 0
    ensures x == 0
  {
    TurnedSum1(x);
    var w := Turned(x, 1);
    ByteZero(w);
    MaskJoins(w);
    hide ToBytes, Turned, Combine;
    Sum1Top(x);
  }

  /** ... and the two middle ones. */
  lemma MiddleDecides(x: Byte)
    requires ToBytes(Turned(x, 1))[1] == 0 && ToBytes(Turned(x, 1))[2] == 0
    ensures x == 0
  {
    TurnedSum1(x);
    var w := Turned(x, 1);
    ByteZero(w);
    MaskJoins(w);
    hide ToBytes, Turned, Combine;
    Sum1Middle(x);
  }

  /** The last but two decides each of the lowest two ... */
  lemma ThirdFromEnd(x: Byte)
    requires ToBytes(Turned(x, 3))[0] == 0 || ToBytes(Turned(x, 3))[1] == 0
    ensures x == 0
  {
    TurnedSum3(x);
    var w := Turned(x, 3);
    ByteZero(w);
    MaskJoins(w);
    hide ToBytes, Turned, Combine;
    if w & 0xFF == 0 {
      Sum3Lowest(x);
    } else {
      Sum3Second(x);
    }
  }

  /** ... the one before it the lowest ... */
  lemma FourthFromEnd(x: Byte)
    requires ToBytes(Turned(x, 4))[0] == 0
    ensures x == 0
  {
    TurnedSum4(x);
    var w := Turned(x, 4);
    ByteZero(w);
    MaskJoins(w);
    hide ToBytes, Turned, Combine;
    Sum4Lowest(x);
  }

  /** ... both together the lowest three ... */
  lemma FourthAndThird(x: Byte, y: Byte)
    requires var w := ToBytes(Xor(Turned(x, 4), Turned(y, 3))); w[0] == 0 && w[1] == 0 && w[2] == 0
    ensures x == 0 && y == 0
  {
    TurnedSum4(x);
    TurnedSum3(y);
    var w := Xor(Turned(x, 4), Turned(y, 3));
    ByteZero(w);
    MaskJoins(w);
    XorIs(Turned(x, 4), Turned(y, 3));
    hide ToBytes, Turned, Combine, Xor;
    Sums43Low(x, y);
  }

  /** ... and the last but two with the last but one the lowest two. */
  lemma ThirdAndSecond(x: Byte, y: Byte)
    requires var w := ToBytes(Xor(Turned(x, 3), Turned(y, 2))); w[0] == 0 && w[1] == 0
    ensures x == 0 && y == 0
  {
    TurnedSum3(x);
    TurnedSum2(y);
    var w := Xor(Turned(x, 3), Turned(y, 2));
    ByteZero(w);
    MaskJoins(w);
    XorIs(Turned(x, 3), Turned(y, 2));
    hide ToBytes, Turned, Combine, Xor;
    Sums32Low(x, y);
  }

  // ---- turning back ----

  /** A turn whose result leaves the top bit clear was a plain move. */
  lemma ShiftBack(a: bv32)
    requires Fits31(Shift(a))
    ensures a == Up(Shift(a))
  {
  }

  lemma Shift8Back(z: bv32)
    requires Fits24(Shift8(z))
    ensures z == Up8(Shift8(z))
  {
    var w := Shift8(z);
    UpEight(w);
    hide Shift, Up, Up8, Fits24, Fits31;
    var z1 := Shift(z);
    var z2 := Shift(z1);
    var z3 := Shift(z2);
    var z4 := Shift(z3);
    var z5 := Shift(z4);
    var z6 := Shift(z5);
    var z7 := Shift(z6);
    assert Shift(z7) == w;
    ShiftBack(z7);
    ShiftBack(z6);
    ShiftBack(z5);
    ShiftBack(z4);
    ShiftBack(z3);
    ShiftBack(z2);
    ShiftBack(z1);
    ShiftBack(z);
  }

  lemma Small(w: bv32)
    ensures ToBytes(w)[3] == 0 ==> Fits24(w)
    ensures ToBytes(w)[3] == 0 && ToBytes(w)[2] == 0 ==> w < 0x1_0000
    ensures ToBytes(w)[3] == 0 && ToBytes(w)[2] == 0 && ToBytes(w)[1] == 0 ==> w < 0x100
  {
  }

  /** The state before the last byte b, when what it leaves is v. */
  lemma BeforeLast(a: Byte, b: Byte)
    ensures var v := Xor(Turned(a, 2), Turned(b, 1));
            Fits24(v) ==> Turned(a, 1) == Xor(Up8(v), b as bv32)
  {
    var v := Xor(Turned(a, 2), Turned(b, 1));
    hide Shift8, Xor, Fits24, Up8;
    assert Turned(b, 0) == b as bv32;
    Shift8Linear(Turned(a, 1), b as bv32);
    if Fits24(v) {
      Shift8Back(Xor(Turned(a, 1), b as bv32));
      XorLaws(Turned(a, 1), b as bv32, 0);
    }
  }

  /** Two bytes whose syndrome has only its lowest two bytes are none ... */
  lemma OnlyLowestTwo(a: Byte, b: Byte)
    requires Xor(Turned(a, 2), Turned(b, 1)) < 0x1_0000
    ensures a == 0 && b == 0 && Xor(Turned(a, 2), Turned(b, 1)) == 0
  {
    var v := Xor(Turned(a, 2), Turned(b, 1));
    BeforeLast(a, b);
    TwoFit(v, b);
    assert Turned(a, 0) == a as bv32;
    assert Turned(a, 1) == Shift8(a as bv32);
    hide Turned, Shift8;
    Shift8Back(a as bv32);
    hide Xor, Up8;
    TwoNone(v, a, b);
  }

  lemma TwoFit(v: bv32, b: Byte)
    requires v < 0x1_0000
    ensures Fits24(v) && Fits24(Xor(Up8(v), b as bv32))
  {
  }

  lemma TwoNone(v: bv32, a: Byte, b: Byte)
    requires v < 0x1_0000 && a as bv32 == Up8(Xor(Up8(v), b as bv32))
    ensures v == 0 && a == 0 && b == 0
  {
  }

  /** ... and so are two with only the third ... */
  lemma OnlyThird(a: Byte, b: Byte)
    requires var w := ToBytes(Xor(Turned(a, 2), Turned(b, 1))); w[0] == 0 && w[1] == 0 && w[3] == 0
    ensures a == 0 && b == 0
  {
    var v := Xor(Turned(a, 2), Turned(b, 1));
    Small(v);
    BeforeLast(a, b);
    ThirdMoved(v, b);
    hide Turned, ToBytes, Xor, Up8;
    MiddleDecides(a);
    NothingTurned();
    ThirdNone(v, b);
  }

  lemma ThirdMoved(v: bv32, b: Byte)
    requires ToBytes(v)[0] == 0 && ToBytes(v)[1] == 0
    ensures var u := ToBytes(Xor(Up8(v), b as bv32)); u[1] == 0 && u[2] == 0
  {
  }

  lemma ThirdNone(v: bv32, b: Byte)
    requires Xor(Up8(v), b as bv32) == 0
    ensures b == 0
  {
  }

  /** ... and three with only the lowest. */
  lemma OnlyLowest(a: Byte, b: Byte, c: Byte)
    requires var w := ToBytes(Xor(Xor(Turned(a, 3), Turned(b, 2)), Turned(c, 1)));
             w[1] == 0 && w[2] == 0 && w[3] == 0
    ensures a == 0 && b == 0 && c == 0
  {
    var v := Xor(Turned(a, 2), Turned(b, 1));
    var w := Xor(Xor(Turned(a, 3), Turned(b, 2)), Turned(c, 1));
    Small(w);
    LowestFits(w, c);
    hide ToBytes, Up8, Fits24;
    assert Turned(c, 0) == c as bv32;
    ThreeLast(a, b, c);
    hide Turned, Xor;
    OnlyLowestTwo(a, b);
    ThirdNone(w, c);
  }

  lemma LowestFits(w: bv32, c: Byte)
    requires w < 0x100
    ensures Fits24(w) && Xor(Up8(w), c as bv32) < 0x1_0000
  {
  }

  lemma ThreeLast(a: Byte, b: Byte, c: Byte)
    requires Fits24(Xor(Xor(Turned(a, 3), Turned(b, 2)), Turned(c, 1)))
    ensures Xor(Turned(a, 2), Turned(b, 1)) ==
            Xor(Up8(Xor(Xor(Turned(a, 3), Turned(b, 2)), Turned(c, 1))), c as bv32)
  {
    hide Shift8, Xor, Fits24, Up8;
    var v := Xor(Turned(a, 2), Turned(b, 1));
    assert Turned(c, 0) == c as bv32;
    Shift8Linear(Turned(a, 2), Turned(b, 1));
    Shift8Linear(v, c as bv32);
    Shift8Back(Xor(v, c as bv32));
    XorLaws(v, c as bv32, 0);
  }

  // ---- what mixtures can pass ----

  /** e has only its bytes from `low` up to, not including, `high`, as far as the word goes. */
  predicate Within(w: bv32, low: nat, high: nat) {
    forall i :: 0 <= i < 4 && !(low <= i < high) ==> ToBytes(w)[i] == 0
  }

  /** ... and has none of them. */
  predicate Without(w: bv32, low: nat, high: nat) {
    forall i :: 0 <= i < 4 && low <= i < high ==> ToBytes(w)[i] == 0
  }

  lemma LastAlone(x: seq<Byte>)
    requires x != [] && AllZero(x[..|x| - 1]) && ToBytes(Syndrome(x))[3] == 0
    ensures AllZero(x)
  {
    hide Syndrome, ToBytes;
    var n := |x| - 1;
    assert x == Zeros(n) + [x[n]] by {
      assert forall i :: 0 <= i < n ==> x[..n][i] == x[i];
    }
    LeadingZeros(n, [x[n]]);
    OneByte(x[n]);
    LastByteDecides(x[n]);
  }

  /** x is a difference behind n bytes, y one within them. If the syndrome of x stays within the bytes
      [low, high), high <= 3, and that of y without them, then one of the two is no difference: for up
      to three bytes, and for four if low is 0. */
  lemma RepairKernel(x: seq<Byte>, y: seq<Byte>, n: nat, low: nat, high: nat)
    requires |x| == |y| && (|x| <= 3 || (|x| == 4 && low == 0)) && 0 < n < |x| && low < high <= 3
    requires AllZero(x[..n]) && AllZero(y[n..])
    requires Within(Syndrome(x), low, high) && Without(Syndrome(y), low, high)
    ensures AllZero(x) || AllZero(y)
  {
    hide Syndrome, ToBytes;
    if n == |x| - 1 {
      LastAlone(x);
    } else if |x| == 3 {
      assert x == [0, x[1], x[2]] by { assert x[..n][0] == 0; }
      assert y == [y[0], 0, 0] by { assert y[n..][0] == 0 && y[n..][1] == 0; }
      ThreeKernel(x[1], x[2], y[0], low, high);
    } else if n == 1 {
      assert y == [y[0], 0, 0, 0] by { assert y[n..][0] == 0 && y[n..][1] == 0 && y[n..][2] == 0; }
      FourBytes(y[0], 0, 0, 0);
      FourAlone(y[0]);
      FourthFromEnd(y[0]);
    } else {
      assert x == [0, 0, x[2], x[3]] by { assert x[..n][0] == 0 && x[..n][1] == 0; }
      assert y == [y[0], y[1], 0, 0] by { assert y[n..][0] == 0 && y[n..][1] == 0; }
      FourKernel(x[2], x[3], y[0], y[1], high);
    }
  }

  lemma FourAlone(a: Byte)
    ensures Xor(Xor(Xor(Turned(a, 4), Turned(0, 3)), Turned(0, 2)), Turned(0, 1)) == Turned(a, 4)
  {
    NothingTurned();
    hide Turned, Xor;
    XorLaws(Turned(a, 4), 0, 0);
  }

  lemma ThreeKernel(x1: Byte, x2: Byte, y0: Byte, low: nat, high: nat)
    requires low < high <= 3
    requires Within(Syndrome([0, x1, x2]), low, high) && Without(Syndrome([y0, 0, 0]), low, high)
    ensures (x1 == 0 && x2 == 0) || y0 == 0
  {
    hide Syndrome, ToBytes;
    if low < 2 {
      ThreeBytes(y0, 0, 0);
      NothingTurned();
      hide Turned, Xor;
      XorLaws(Turned(y0, 3), 0, 0);
      assert ToBytes(Turned(y0, 3))[low] == 0;
      ThirdFromEnd(y0);
    } else {
      TwoOfThree(x1, x2);
      OnlyThird(x1, x2);
    }
  }

  lemma TwoOfThree(a: Byte, b: Byte)
    ensures Syndrome([0, a, b]) == Xor(Turned(a, 2), Turned(b, 1))
  {
    LeadingZeros(1, [a, b]);
    assert Zeros(1) + [a, b] == [0, a, b];
    hide Syndrome;
    TwoBytes(a, b);
  }

  lemma FourKernel(x2: Byte, x3: Byte, y0: Byte, y1: Byte, high: nat)
    requires 0 < high <= 3
    requires Within(Syndrome([0, 0, x2, x3]), 0, high) && Without(Syndrome([y0, y1, 0, 0]), 0, high)
    ensures (x2 == 0 && x3 == 0) || (y0 == 0 && y1 == 0)
  {
    hide Syndrome, ToBytes;
    if high <= 2 {
      LeadingZeros(2, [x2, x3]);
      assert Zeros(2) + [x2, x3] == [0, 0, x2, x3];
      TwoBytes(x2, x3);
      var w := Xor(Turned(x2, 2), Turned(x3, 1));
      Small(w);
      hide Turned, Xor;
      OnlyLowestTwo(x2, x3);
    } else {
      FourBytes(y0, y1, 0, 0);
      NothingTurned();
      hide Turned, Xor;
      XorLaws(Xor(Turned(y0, 4), Turned(y1, 3)), 0, 0);
      FourthAndThird(y0, y1);
    }
  }

  /** x is a difference before the last byte, z any, both of three bytes. If the syndrome of x is
      without the lowest `high` bytes, and that of z within them, one of the two is no difference. */
  lemma SetsKernel(x: seq<Byte>, z: seq<Byte>, high: nat)
    requires |x| == |z| == 3 && x[2] == 0 && 0 < high < 4
    requires Without(Syndrome(x), 0, high) && Within(Syndrome(z), 0, high)
    ensures AllZero(x) || AllZero(z)
  {
    hide Syndrome, ToBytes;
    if high == 1 {
      assert z == [z[0], z[1], z[2]];
      ThreeBytes(z[0], z[1], z[2]);
      hide Turned, Xor;
      OnlyLowest(z[0], z[1], z[2]);
    } else {
      assert x == [x[0], x[1], 0];
      ThreeBytes(x[0], x[1], 0);
      NothingTurned();
      hide Turned, Xor;
      XorLaws(Xor(Turned(x[0], 3), Turned(x[1], 2)), 0, 0);
      ThirdAndSecond(x[0], x[1]);
    }
  }
}
