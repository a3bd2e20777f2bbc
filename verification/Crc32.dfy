/**
 The reflected CRC-32 of section 3.2.9 of IEEE 802.3, as nvm.hpp computes it bit by bit, and
 what it detects. Bit-level facts are proved once, in small lemmas; above them the operations
 are hidden, and only their algebra is used.
 */
module Crc32 {
  import opened Bytes

  const POLYNOMIAL: bv32 := 0xEDB8_8320
  const ONES: bv32 := 0xFFFF_FFFF

  function Xor(a: bv32, b: bv32): bv32 {
    a ^ b
  }

  function Down(x: bv32): bv32 {
    x >> 1
  }

  predicate Even(x: bv32) {
    x & 1 == 0
  }

  /** One turn of the inner loop. */
  function Shift(crc: bv32): bv32 {
    if Even(crc) then Down(crc) else Xor(Down(crc), POLYNOMIAL)
  }

  function Shift8(crc: bv32): bv32 {
    Shift(Shift(Shift(Shift(Shift(Shift(Shift(Shift(crc))))))))
  }

  function Feed(crc: bv32, b: Byte): bv32 {
    Shift8(Xor(crc, b as bv32))
  }

  function FeedAll(crc: bv32, bytes: seq<Byte>): bv32
    decreases |bytes|
  {
    if bytes == [] then crc else FeedAll(Feed(crc, bytes[0]), bytes[1..])
  }

  /** The checksum of a byte string. */
  function Crc(bytes: seq<Byte>): bv32 {
    Xor(FeedAll(ONES, bytes), ONES)
  }

  // ---- bits ----

  /** The source selects the polynomial by the mask -(crc & 1), all ones for an odd crc. */
  lemma ShiftByMask(crc: bv32)
    ensures Shift(crc) == (crc >> 1) ^ (POLYNOMIAL & (0 - (crc & 1)))
  {
    OddOrEven(crc);
    MaskNone(crc >> 1);
    MaskAll(POLYNOMIAL);
  }

  lemma OddOrEven(crc: bv32)
    ensures crc & 1 == 0 || crc & 1 == 1
    ensures (0 as bv32) - 0 == 0 && (0 as bv32) - 1 == 0xFFFF_FFFF
  {
  }

  lemma MaskNone(x: bv32)
    ensures x ^ (POLYNOMIAL & 0) == x
  {
  }

  lemma MaskAll(p: bv32)
    ensures p & 0xFFFF_FFFF == p
  {
  }

  /** The turn can be undone: the top bit of the result tells whether the polynomial went in. */
  lemma ShiftInjective(a: bv32, b: bv32)
    requires Shift(a) == Shift(b)
    ensures a == b
  {
  }

  lemma XorLaws(a: bv32, b: bv32, c: bv32)
    ensures Xor(Xor(a, b), c) == Xor(a, Xor(b, c))
    ensures Xor(a, 0) == a && Xor(a, a) == 0
    ensures Xor(Xor(a, b), b) == a
  {
  }

  lemma XorCancels(a: bv32, b: bv32, c: bv32)
    requires Xor(a, c) == Xor(b, c) || Xor(c, a) == Xor(c, b)
    ensures a == b
  {
  }

  lemma ShiftLinear(a: bv32, b: bv32)
    ensures Shift(Xor(a, b)) == Xor(Shift(a), Shift(b))
  {
    DownXor(a, b);
    EvenXor(a, b);
    XorTwice(Down(a), Down(b), POLYNOMIAL);
    hide Xor, Down, Even;
  }

  lemma DownXor(a: bv32, b: bv32)
    ensures Down(Xor(a, b)) == Xor(Down(a), Down(b))
  {
  }

  lemma EvenXor(a: bv32, b: bv32)
    ensures Even(Xor(a, b)) <==> (Even(a) <==> Even(b))
  {
  }

  lemma XorTwice(x: bv32, y: bv32, p: bv32)
    ensures Xor(Xor(x, p), Xor(y, p)) == Xor(x, y)
    ensures Xor(Xor(x, p), y) == Xor(Xor(x, y), p)
    ensures Xor(x, Xor(y, p)) == Xor(Xor(x, y), p)
  {
    hide Xor;
    XorLaws(x, y, p);
    XorLaws(x, p, y);
    XorLaws(Xor(x, p), y, p);
    XorLaws(Xor(x, y), p, p);
    XorCommutes(y, p);
  }

  lemma XorCommutes(a: bv32, b: bv32)
    ensures Xor(a, b) == Xor(b, a)
  {
  }

  function Up(y: bv32): bv32 {
    y << 1
  }

  /** y moved up by one byte, and whether it fits. */
  function Up8(y: bv32): bv32 {
    y << 8
  }

  predicate Fits24(y: bv32) {
    y < 0x0100_0000
  }

  predicate Fits31(y: bv32) {
    y < 0x8000_0000
  }

  /** Bits above the lowest move down without meeting the polynomial. */
  lemma ShiftPasses(a: bv32, y: bv32)
    requires Fits31(y)
    ensures Shift(Xor(a, Up(y))) == Xor(Shift(a), y)
  {
    DownXor(a, Up(y));
    EvenXor(a, Up(y));
    UpAndDown(y);
    XorTwice(Down(a), y, POLYNOMIAL);
    hide Xor, Down, Even, Up;
  }

  lemma UpAndDown(y: bv32)
    requires Fits31(y)
    ensures Down(Up(y)) == y && Even(Up(y))
  {
  }

  lemma UpEight(y: bv32)
    requires Fits24(y)
    ensures Up8(y) == Up(Up(Up(Up(Up(Up(Up(Up(y))))))))
    ensures Fits31(y) && Fits31(Up(y)) && Fits31(Up(Up(y))) && Fits31(Up(Up(Up(y)))) && Fits31(Up(Up(Up(Up(y)))))
    ensures Fits31(Up(Up(Up(Up(Up(y)))))) && Fits31(Up(Up(Up(Up(Up(Up(y)))))))
    ensures Fits31(Up(Up(Up(Up(Up(Up(Up(y))))))))
  {
  }

  // ---- eight turns ----

  lemma Shift8Injective(a: bv32, b: bv32)
    requires Shift8(a) == Shift8(b)
    ensures a == b
  {
    hide Shift;
    var a1, b1 := Shift(a), Shift(b);
    var a2, b2 := Shift(a1), Shift(b1);
    var a3, b3 := Shift(a2), Shift(b2);
    var a4, b4 := Shift(a3), Shift(b3);
    var a5, b5 := Shift(a4), Shift(b4);
    var a6, b6 := Shift(a5), Shift(b5);
    ShiftInjective(Shift(a6), Shift(b6));
    ShiftInjective(a6, b6);
    ShiftInjective(a5, b5);
    ShiftInjective(a4, b4);
    ShiftInjective(a3, b3);
    ShiftInjective(a2, b2);
    ShiftInjective(a1, b1);
    ShiftInjective(a, b);
  }

  lemma Shift8Linear(a: bv32, b: bv32)
    ensures Shift8(Xor(a, b)) == Xor(Shift8(a), Shift8(b))
  {
    hide Shift, Xor;
    var a1, b1 := Shift(a), Shift(b);
    var a2, b2 := Shift(a1), Shift(b1);
    var a3, b3 := Shift(a2), Shift(b2);
    var a4, b4 := Shift(a3), Shift(b3);
    var a5, b5 := Shift(a4), Shift(b4);
    var a6, b6 := Shift(a5), Shift(b5);
    ShiftLinear(a, b);
    ShiftLinear(a1, b1);
    ShiftLinear(a2, b2);
    ShiftLinear(a3, b3);
    ShiftLinear(a4, b4);
    ShiftLinear(a5, b5);
    ShiftLinear(a6, b6);
    ShiftLinear(Shift(a6), Shift(b6));
  }

  /** Eight turns let 24 bits through. */
  lemma Shift8Passes(a: bv32, y: bv32)
    requires Fits24(y)
    ensures Shift8(Xor(a, Up8(y))) == Xor(Shift8(a), y)
  {
    hide Shift, Xor, Up, Up8, Fits24, Fits31;
    UpEight(y);
    var y1 := Up(y);
    var y2 := Up(y1);
    var y3 := Up(y2);
    var y4 := Up(y3);
    var y5 := Up(y4);
    var y6 := Up(y5);
    var a1 := Shift(a);
    var a2 := Shift(a1);
    var a3 := Shift(a2);
    var a4 := Shift(a3);
    var a5 := Shift(a4);
    var a6 := Shift(a5);
    ShiftPasses(a, Up(y6));
    ShiftPasses(a1, y6);
    ShiftPasses(a2, y5);
    ShiftPasses(a3, y4);
    ShiftPasses(a4, y3);
    ShiftPasses(a5, y2);
    ShiftPasses(a6, y1);
    ShiftPasses(Shift(a6), y);
  }

  // ---- four bytes are one word ----

  function Shift32(crc: bv32): bv32 {
    Shift8(Shift8(Shift8(Shift8(crc))))
  }

  function Join(low: Byte, high: bv32): bv32 {
    Xor(low as bv32, Up8(high))
  }

  /** Four bytes as a word, the first byte lowest. */
  function Word(u: seq<Byte>): bv32
    requires |u| == 4
  {
    Join(u[0], Join(u[1], Join(u[2], u[3] as bv32)))
  }

  lemma FeedAhead(crc: bv32, low: Byte, high: bv32)
    requires Fits24(high)
    ensures Xor(Feed(crc, low), high) == Shift8(Xor(crc, Join(low, high)))
  {
    hide Shift8, Xor, Up8, Fits24;
    Shift8Passes(Xor(crc, low as bv32), high);
    XorLaws(crc, low as bv32, Up8(high));
  }

  lemma SmallWords(b1: Byte, b2: Byte, b3: Byte)
    ensures Fits24(b3 as bv32) && Fits24(Join(b2, b3 as bv32)) && Fits24(Join(b1, Join(b2, b3 as bv32)))
  {
  }

  /** Feeding four bytes is adding one word and turning 32 times. */
  lemma FeedFour(crc: bv32, u: seq<Byte>)
    requires |u| == 4
    ensures FeedAll(crc, u) == Shift32(Xor(crc, Word(u)))
  {
    hide Shift8, Xor, Join, Fits24;
    SmallWords(u[1], u[2], u[3]);
    var w2 := Join(u[2], u[3] as bv32);
    var c1 := Feed(crc, u[0]);
    var c2 := Feed(c1, u[1]);
    FeedAhead(c2, u[2], u[3] as bv32);
    FeedAhead(c1, u[1], w2);
    FeedAhead(crc, u[0], Join(u[1], w2));
    assert u[1..][1..] == u[2..] && u[2..][1..] == u[3..] && u[3..][1..] == [];
    var c3 := Feed(c2, u[2]);
    assert FeedAll(crc, u) == FeedAll(c1, u[1..]) == FeedAll(c2, u[2..]) == FeedAll(c3, u[3..]);
    assert FeedAll(c3, u[3..]) == FeedAll(Feed(c3, u[3]), []) == Shift8(Xor(c3, u[3] as bv32));
  }

  lemma WordInjective(u: seq<Byte>, v: seq<Byte>)
    requires |u| == |v| == 4 && Word(u) == Word(v)
    ensures u == v
  {
    hide Word;
    WordBytes(u);
    WordBytes(v);
  }

  lemma WordBytes(u: seq<Byte>)
    requires |u| == 4
    ensures var w := Word(u);
            && u[0] == (w & 0xFF) as Byte && u[1] == ((w >> 8) & 0xFF) as Byte
            && u[2] == ((w >> 16) & 0xFF) as Byte && u[3] == (w >> 24) as Byte
  {
  }

  // ---- what the checksum detects ----

  lemma {:induction false} FeedConcat(crc: bv32, a: seq<Byte>, b: seq<Byte>)
    ensures FeedAll(crc, a + b) == FeedAll(FeedAll(crc, a), b)
    decreases |a|
  {
    hide Feed;
    if a == [] {
      assert a + b == b;
    } else {
      assert (a + b)[0] == a[0] && (a + b)[1..] == a[1..] + b;
      FeedConcat(Feed(crc, a[0]), a[1..], b);
    }
  }

  /** Equal bytes keep unequal remainders apart. */
  lemma {:induction false} FeedSameInjective(c: bv32, d: bv32, bytes: seq<Byte>)
    requires FeedAll(c, bytes) == FeedAll(d, bytes)
    ensures c == d
    decreases |bytes|
  {
    hide Shift8, Xor;
    if bytes != [] {
      var b := bytes[0] as bv32;
      FeedSameInjective(Feed(c, bytes[0]), Feed(d, bytes[0]), bytes[1..]);
      Shift8Injective(Xor(c, b), Xor(d, b));
      XorCancels(c, d, b);
    }
  }

  /** From one remainder, different strings of one length up to four bytes lead to different
      remainders. */
  lemma ShortStringsApart(crc: bv32, u: seq<Byte>, v: seq<Byte>)
    requires |u| == |v| <= 4 && FeedAll(crc, u) == FeedAll(crc, v)
    ensures u == v
  {
    hide Shift8, Xor, Word, FeedAll;
    var pad: seq<Byte> := seq(4 - |u|, _ => 0);
    var u', v' := u + pad, v + pad;
    FeedConcat(crc, u, pad);
    FeedConcat(crc, v, pad);
    FeedFour(crc, u');
    FeedFour(crc, v');
    Shift32Injective(Xor(crc, Word(u')), Xor(crc, Word(v')));
    XorCancels(Word(u'), Word(v'), crc);
    WordInjective(u', v');
    assert u == u'[..|u|] && v == v'[..|v|];
  }

  lemma Shift32Injective(a: bv32, b: bv32)
    requires Shift32(a) == Shift32(b)
    ensures a == b
  {
    hide Shift8;
    Shift8Injective(Shift8(Shift8(Shift8(a))), Shift8(Shift8(Shift8(b))));
    Shift8Injective(Shift8(Shift8(a)), Shift8(Shift8(b)));
    Shift8Injective(Shift8(a), Shift8(b));
    Shift8Injective(a, b);
  }

  /** Two strings of the same length that differ, and only within four consecutive bytes, never
      have the same checksum, whatever surrounds those bytes. */
  lemma BurstDetected(a: seq<Byte>, b: seq<Byte>, start: nat, end: nat)
    requires |a| == |b| && start <= end <= |a| && end - start <= 4
    requires forall i :: 0 <= i < |a| && !(start <= i < end) ==> a[i] == b[i]
    requires a != b
    ensures Crc(a) != Crc(b)
  {
    hide FeedAll, Xor;
    if Crc(a) == Crc(b) {
      XorCancels(FeedAll(ONES, a), FeedAll(ONES, b), ONES);
      var pre, u, v, post := a[..start], a[start..end], b[start..end], a[end..];
      assert a == pre + (u + post);
      assert b[..start] == pre && b[end..] == post;
      assert b == pre + (v + post);
      var c := FeedAll(ONES, pre);
      FeedConcat(ONES, pre, u + post);
      FeedConcat(ONES, pre, v + post);
      FeedConcat(c, u, post);
      FeedConcat(c, v, post);
      FeedSameInjective(FeedAll(c, u), FeedAll(c, v), post);
      ShortStringsApart(c, u, v);
      assert false;
    }
  }

  /** Five bytes are one too many: the polynomial itself, written as a byte string, leaves the
      remainder that five zero bytes leave, from every starting value. */
  const CODEWORD: seq<Byte> := [0x41, 0x06, 0x71, 0xDB, 0x01]
  const ZEROS: seq<Byte> := [0, 0, 0, 0, 0]

  lemma CodewordUndetected(crc: bv32)
    ensures FeedAll(crc, CODEWORD) == FeedAll(crc, ZEROS)
  {
    hide Shift8, Xor, Word, FeedAll, Feed, Shift32;
    var k: seq<Byte> := [0x41, 0x06, 0x71, 0xDB];
    var z: seq<Byte> := [0, 0, 0, 0];
    assert CODEWORD == k + [0x01] && ZEROS == z + [0];
    FeedConcat(crc, k, [0x01]);
    FeedConcat(crc, z, [0]);
    FeedFour(crc, k);
    FeedFour(crc, z);
    CodewordWords();
    XorLaws(crc, 0, 0);
    Shift32Linear(crc, 0xDB71_0641);
    CodewordTurns();
    LastByte(Shift32(crc));
  }

  /** ... wherever they stand in a longer string. */
  lemma PaddedCodeword(before: seq<Byte>, after: seq<Byte>)
    ensures Crc(before + (CODEWORD + after)) == Crc(before + (ZEROS + after))
  {
    hide FeedAll, Xor;
    var c := FeedAll(ONES, before);
    FeedConcat(ONES, before, CODEWORD + after);
    FeedConcat(ONES, before, ZEROS + after);
    FeedConcat(c, CODEWORD, after);
    FeedConcat(c, ZEROS, after);
    CodewordUndetected(c);
  }

  function Top(w: bv32): bv32 {
    w >> 24
  }

  /** Another lowest bit in the last byte is another top byte of the checksum. */
  lemma LastByteReachesTop(before: seq<Byte>, x: Byte)
    ensures Top(Crc(before + [x ^ 1])) != Top(Crc(before + [x]))
  {
    var c := FeedAll(ONES, before);
    var r := Xor(c, x as bv32);
    FeedConcat(ONES, before, [x]);
    FeedConcat(ONES, before, [x ^ 1]);
    FlippedByte(c, x);
    OneTurned();
    FeedOne(c, x);
    FeedOne(c, x ^ 1);
    hide FeedAll, Feed, Shift8, Xor;
    Shift8Linear(r, 1);
    TopFlips(Shift8(r));
  }

  lemma FeedOne(c: bv32, x: Byte)
    ensures FeedAll(c, [x]) == Shift8(Xor(c, x as bv32))
  {
    hide Shift8, Xor;
    assert [x][1..] == [];
    assert FeedAll(Feed(c, x), []) == Feed(c, x);
  }

  lemma FlippedByte(c: bv32, x: Byte)
    ensures Xor(c, (x ^ 1) as bv32) == Xor(Xor(c, x as bv32), 1)
  {
  }

  lemma OneTurned()
    ensures Shift8(1) == 0x7707_3096
  {
  }

  lemma TopFlips(r: bv32)
    ensures Top(Xor(Xor(r, 0x7707_3096), ONES)) != Top(Xor(r, ONES))
  {
  }

  lemma CodewordWords()
    ensures Word([0x41, 0x06, 0x71, 0xDB]) == 0xDB71_0641 && Word([0, 0, 0, 0]) == 0
  {
  }

  lemma LastByte(r: bv32)
    ensures FeedAll(Xor(r, 1), [0x01]) == FeedAll(r, [0])
  {
    hide Shift8, Xor;
    XorLaws(r, 1, 1);
    assert FeedAll(Xor(r, 1), [0x01]) == Feed(Xor(r, 1), 0x01) == Shift8(Xor(Xor(r, 1), 1));
    assert FeedAll(r, [0]) == Feed(r, 0) == Shift8(Xor(r, 0));
  }

  lemma Shift32Linear(a: bv32, b: bv32)
    ensures Shift32(Xor(a, b)) == Xor(Shift32(a), Shift32(b))
  {
    hide Shift8, Xor;
    Shift8Linear(a, b);
    Shift8Linear(Shift8(a), Shift8(b));
    Shift8Linear(Shift8(Shift8(a)), Shift8(Shift8(b)));
    Shift8Linear(Shift8(Shift8(Shift8(a))), Shift8(Shift8(Shift8(b))));
  }

  lemma CodewordTurns()
    ensures Shift32(0xDB71_0641) == 1
  {
    assert Shift8(0xDB71_0641) == 0x0100_0000;
    assert Shift8(0x0100_0000) == 0x0001_0000;
    assert Shift8(0x0001_0000) == 0x0100;
    assert Shift8(0x0100) == 1;
  }

  // ---- what the checksum is ----

  lemma NothingIsZero()
    ensures Crc([]) == 0
  {
    XorLaws(ONES, 0, 0);
    hide Xor;
  }

  lemma WordOfBytes(w: bv32)
    ensures Word(ToBytes(w)) == w
  {
  }

  lemma OnesTurned32()
    ensures Xor(Shift32(ONES), ONES) == 0x2144_DF1C
  {
    assert Shift8(0xFFFF_FFFF) == 0x2DFD_1072;
    assert Shift8(0x2DFD_1072) == 0xBE26_ED00;
    assert Shift8(0xBE26_ED00) == 0x00BE_26ED;
    assert Shift8(0x00BE_26ED) == 0xDEBB_20E3;
  }

  /** A string followed by its own checksum, lowest byte first, leaves the same residue whatever it is. */
  lemma ChecksumAppended(b: seq<Byte>)
    ensures Crc(b + ToBytes(Crc(b))) == 0x2144_DF1C
  {
    hide FeedAll, Shift32, Word, Xor, ToBytes;
    var c := FeedAll(ONES, b);
    FeedConcat(ONES, b, ToBytes(Crc(b)));
    FeedFour(c, ToBytes(Crc(b)));
    WordOfBytes(Crc(b));
    XorLaws(c, c, ONES);
    XorLaws(ONES, 0, 0);
    XorCommutes(0, ONES);
    OnesTurned32();
  }

  /** Four bytes are the checksum of what stands before them exactly if the whole leaves that residue. */
  lemma ResidueExactly(b: seq<Byte>, w: seq<Byte>)
    requires |w| == 4
    ensures Crc(b + w) == 0x2144_DF1C <==> w == ToBytes(Crc(b))
  {
    hide FeedAll, Xor, ToBytes;
    ChecksumAppended(b);
    var c := FeedAll(ONES, b);
    FeedConcat(ONES, b, w);
    FeedConcat(ONES, b, ToBytes(Crc(b)));
    if Crc(b + w) == 0x2144_DF1C {
      XorCancels(FeedAll(c, w), FeedAll(c, ToBytes(Crc(b))), ONES);
      ShortStringsApart(c, w, ToBytes(Crc(b)));
    }
  }

  /** The digits 1 to 9. */
  const DIGITS: seq<Byte> := [0x31, 0x32, 0x33, 0x34, 0x35, 0x36, 0x37, 0x38, 0x39]

  lemma DigitTurns()
    ensures Shift32(Xor(ONES, Word([0x31, 0x32, 0x33, 0x34]))) == 0x641C_1F5C
    ensures Shift32(Xor(0x641C_1F5C, Word([0x35, 0x36, 0x37, 0x38]))) == 0x651F_2550
    ensures Xor(Shift8(Xor(0x651F_2550, 0x39)), ONES) == 0xCBF4_3926
  {
  }

  /** The check value by which CRC-32 is identified. */
  lemma CheckValue()
    ensures Crc(DIGITS) == 0xCBF4_3926
  {
    DigitTurns();
    hide FeedAll, Shift32, Shift8, Word, Xor;
    var (a, b) := ([0x31 as Byte, 0x32, 0x33, 0x34], [0x35 as Byte, 0x36, 0x37, 0x38]);
    assert DIGITS == a + (b + [0x39]);
    FeedConcat(ONES, a, b + [0x39]);
    FeedFour(ONES, a);
    FeedConcat(0x641C_1F5C, b, [0x39]);
    FeedFour(0x641C_1F5C, b);
    FeedOne(0x651F_2550, 0x39);
  }

  // ---- the loops ----

  method Update(crc: bv32, b: Byte) returns (r: bv32)
    ensures r == Feed(crc, b)
  {
    r := crc ^ (b as bv32);
    ghost var r0 := r;
    for i := 0 to 8
      invariant r == Turns(r0, i)
    {
      ShiftByMask(r);
      r := (r >> 1) ^ (POLYNOMIAL & (0 - (r & 1)));
    }
    EightTurns(r0);
  }

  function Turns(crc: bv32, n: nat): bv32 {
    if n == 0 then crc else Shift(Turns(crc, n - 1))
  }

  lemma EightTurns(crc: bv32)
    ensures Turns(crc, 8) == Shift8(crc)
  {
    hide Shift;
    assert Turns(crc, 1) == Shift(crc);
    assert Turns(crc, 3) == Shift(Shift(Turns(crc, 1)));
    assert Turns(crc, 5) == Shift(Shift(Turns(crc, 3)));
    assert Turns(crc, 7) == Shift(Shift(Turns(crc, 5)));
  }

  /** crc32 over the bytes of a hash and a value. */
  method Compute(hash: seq<Byte>, value: seq<Byte>) returns (crc: bv32)
    ensures crc == Crc(hash + value)
  {
    hide Feed;
    crc := ONES;
    for i := 0 to |hash|
      invariant crc == FeedAll(ONES, hash[..i])
    {
      FeedConcat(ONES, hash[..i], [hash[i]]);
      assert hash[..i + 1] == hash[..i] + [hash[i]];
      crc := Update(crc, hash[i]);
    }
    assert hash[..|hash|] == hash && hash + value[..0] == hash;
    for i := 0 to |value|
      invariant crc == FeedAll(ONES, hash + value[..i])
    {
      FeedConcat(ONES, hash + value[..i], [value[i]]);
      assert hash + value[..i + 1] == hash + value[..i] + [value[i]];
      crc := Update(crc, value[i]);
    }
    assert value[..|value|] == value;
    crc := Xor(crc, ONES);
  }
}
