/**
 What the CRC detects, counted in bits: the byte-wise computation taken one bit at a time, lowest bit
 first, and bursts of consecutive bits at any offset.
 */
module CrcBits {
  import opened Bytes
  import opened Crc32

  // ---- bits ----

  function BitWord(b: bool): bv32 {
    if b then 1 else 0
  }

  function BitsOf(x: Byte): (u: seq<bool>)
    ensures |u| == 8
  {
    [x & 1 != 0, x & 2 != 0, x & 4 != 0, x & 8 != 0, x & 16 != 0, x & 32 != 0, x & 64 != 0, x & 128 != 0]
  }

  function Bits(bytes: seq<Byte>): (u: seq<bool>)
    ensures |u| == 8 * |bytes|
  {
    if bytes == [] then [] else BitsOf(bytes[0]) + Bits(bytes[1..])
  }

  function FeedBit(crc: bv32, b: bool): bv32 {
    Shift(Xor(crc, BitWord(b)))
  }

  function FeedBits(crc: bv32, u: seq<bool>): bv32
    decreases |u|
  {
    if u == [] then crc else FeedBits(FeedBit(crc, u[0]), u[1..])
  }

  /** Bits as a word, the first one lowest. */
  function Pack(u: seq<bool>): bv32 {
    if u == [] then 0 else Xor(BitWord(u[0]), Up(Pack(u[1..])))
  }

  // ---- words that leave room above them ----

  /** y can move up m times without losing a bit. */
  predicate Room(y: bv32, m: nat)
    decreases m
  {
    m == 0 || (Fits31(y) && Room(Up(y), m - 1))
  }

  lemma {:induction false} RoomLess(y: bv32, m: nat, k: nat)
    requires Room(y, m) && k <= m
    ensures Room(y, k)
    decreases m
  {
    if k > 0 {
      RoomLess(Up(y), m - 1, k - 1);
    }
  }

  lemma UpXor(x: bv32, y: bv32)
    ensures Up(Xor(x, y)) == Xor(Up(x), Up(y))
    ensures Fits31(x) && Fits31(y) ==> Fits31(Xor(x, y))
  {
  }

  lemma {:induction false} RoomXor(x: bv32, y: bv32, m: nat)
    requires Room(x, m) && Room(y, m)
    ensures Room(Xor(x, y), m)
    decreases m
  {
    hide Xor, Up, Fits31;
    if m > 0 {
      UpXor(x, y);
      RoomXor(Up(x), Up(y), m - 1);
    }
  }

  lemma {:induction false} RoomEight(y: bv32, m: nat)
    requires Fits24(y) && Room(Up8(y), m)
    ensures Room(y, 8 + m)
  {
    UpEight(y);
    hide Up, Up8, Fits24, Fits31;
    var y1 := Up(y);
    var y2 := Up(y1);
    var y3 := Up(y2);
    var y4 := Up(y3);
    var y5 := Up(y4);
    var y6 := Up(y5);
    var y7 := Up(y6);
    assert Room(y7, m + 1);
    assert Room(y6, m + 2);
    assert Room(y5, m + 3);
    assert Room(y4, m + 4);
    assert Room(y3, m + 5);
    assert Room(y2, m + 6);
    assert Room(y1, m + 7);
  }

  lemma {:induction false} RoomBit(b: bool, m: nat)
    requires m <= 31
    ensures Room(BitWord(b), m)
  {
    if b {
      PowersOfByte();
      RoomSeven();
      RoomEight(0x1_0000, 7);
      RoomEight(0x100, 15);
      RoomEight(1, 23);
      RoomLess(1, 31, m);
    } else if m > 0 {
      assert Up(0) == 0 && Fits31(0);
      RoomBit(b, m - 1);
    }
  }

  lemma PowersOfByte()
    ensures Up8(1) == 0x100 && Up8(0x100) == 0x1_0000 && Up8(0x1_0000) == 0x100_0000
    ensures Fits24(1) && Fits24(0x100) && Fits24(0x1_0000)
  {
  }

  lemma RoomSeven()
    ensures Room(0x100_0000, 7)
  {
    assert Up(0x100_0000) == 0x200_0000 && Up(0x200_0000) == 0x400_0000 && Up(0x400_0000) == 0x800_0000;
    assert Up(0x800_0000) == 0x1000_0000 && Up(0x1000_0000) == 0x2000_0000 && Up(0x2000_0000) == 0x4000_0000;
    assert Room(0x4000_0000, 1);
    assert Room(0x2000_0000, 2);
    assert Room(0x1000_0000, 3);
    assert Room(0x800_0000, 4);
    assert Room(0x400_0000, 5);
    assert Room(0x200_0000, 6);
  }

  lemma {:induction false} PackRoom(u: seq<bool>)
    requires |u| <= 32
    ensures Room(Pack(u), 32 - |u|)
  {
    if u != [] {
      var rest := Pack(u[1..]);
      PackRoom(u[1..]);
      hide Xor, Up, Fits31, BitWord;
      assert Room(rest, 33 - |u|);
      RoomBit(u[0], 32 - |u|);
      RoomXor(BitWord(u[0]), Up(rest), 32 - |u|);
    } else {
      ZeroRoom(32);
    }
  }

  lemma {:induction false} ZeroRoom(m: nat)
    ensures Room(0, m)
  {
    if m > 0 {
      assert Up(0) == 0 && Fits31(0);
      ZeroRoom(m - 1);
    }
  }

  /** Up to 32 bits are told apart by their word. */
  lemma {:induction false} PackInjective(u: seq<bool>, v: seq<bool>)
    requires |u| == |v| <= 32 && Pack(u) == Pack(v)
    ensures u == v
  {
    if u != [] {
      var x, y := Pack(u[1..]), Pack(v[1..]);
      PackRoom(u[1..]);
      PackRoom(v[1..]);
      LowestBit(u[0], x);
      LowestBit(v[0], y);
      UpAndDown(x);
      UpAndDown(y);
      hide Xor, Up, Fits31, BitWord, Pack;
      PackInjective(u[1..], v[1..]);
      assert u == [u[0]] + u[1..] && v == [v[0]] + v[1..];
    }
  }

  lemma LowestBit(b: bool, y: bv32)
    requires Fits31(y)
    ensures Even(Xor(BitWord(b), Up(y))) <==> !b
    ensures Down(Xor(BitWord(b), Up(y))) == y
  {
  }

  // ---- bits fed one by one ----

  lemma {:induction false} TurnsFirst(crc: bv32, n: nat)
    requires n > 0
    ensures Turns(crc, n) == Turns(Shift(crc), n - 1)
  {
    if n > 1 {
      TurnsFirst(crc, n - 1);
    }
  }

  lemma {:induction false} TurnsInjective(a: bv32, b: bv32, n: nat)
    requires Turns(a, n) == Turns(b, n)
    ensures a == b
  {
    if n > 0 {
      ShiftInjective(Turns(a, n - 1), Turns(b, n - 1));
      hide Shift;
      TurnsInjective(a, b, n - 1);
    }
  }

  /** Up to 32 bits have the effect of one added word and as many turns. */
  lemma {:induction false} FeedPacked(crc: bv32, u: seq<bool>)
    requires |u| <= 32
    ensures FeedBits(crc, u) == Turns(Xor(crc, Pack(u)), |u|)
    decreases |u|
  {
    if u == [] {
      XorLaws(crc, 0, 0);
    } else {
      var b, rest := BitWord(u[0]), Pack(u[1..]);
      PackRoom(u[1..]);
      hide Shift, Xor, Up, Fits31, BitWord;
      FeedPacked(FeedBit(crc, u[0]), u[1..]);
      ShiftPasses(Xor(crc, b), rest);
      XorLaws(crc, b, Up(rest));
      TurnsFirst(Xor(crc, Pack(u)), |u|);
    }
  }

  lemma ByteIsPacked(x: Byte)
    ensures Pack(BitsOf(x)) == x as bv32
  {
    var u := BitsOf(x);
    var (b0, b1, b2, b3) := (BitWord(u[0]), BitWord(u[1]), BitWord(u[2]), BitWord(u[3]));
    var (b4, b5, b6, b7) := (BitWord(u[4]), BitWord(u[5]), BitWord(u[6]), BitWord(u[7]));
    assert Pack(u[7..]) == Xor(b7, Up(Pack([]))) by { assert u[7..][1..] == []; }
    assert Pack(u[6..]) == Xor(b6, Up(Pack(u[7..])));
    assert Pack(u[5..]) == Xor(b5, Up(Pack(u[6..])));
    assert Pack(u[4..]) == Xor(b4, Up(Pack(u[5..])));
    assert Pack(u[3..]) == Xor(b3, Up(Pack(u[4..])));
    assert Pack(u[2..]) == Xor(b2, Up(Pack(u[3..])));
    assert Pack(u[1..]) == Xor(b1, Up(Pack(u[2..])));
    hide Pack;
    ByteBits(x);
  }

  lemma ByteBits(x: Byte)
    ensures var u := BitsOf(x);
            Xor(BitWord(u[0]), Up(Xor(BitWord(u[1]), Up(Xor(BitWord(u[2]), Up(Xor(BitWord(u[3]),
            Up(Xor(BitWord(u[4]), Up(Xor(BitWord(u[5]), Up(Xor(BitWord(u[6]), Up(Xor(BitWord(u[7]), Up(0))))))))))))))))
            == x as bv32
  {
  }

  /** A byte is its eight bits. */
  lemma FeedIsBits(crc: bv32, x: Byte)
    ensures Feed(crc, x) == FeedBits(crc, BitsOf(x))
  {
    hide Shift, Shift8, Xor, Turns, BitsOf;
    FeedPacked(crc, BitsOf(x));
    ByteIsPacked(x);
    EightTurns(Xor(crc, x as bv32));
  }

  lemma {:induction false} FeedBitsConcat(crc: bv32, u: seq<bool>, v: seq<bool>)
    ensures FeedBits(crc, u + v) == FeedBits(FeedBits(crc, u), v)
    decreases |u|
  {
    hide FeedBit;
    if u == [] {
      assert u + v == v;
    } else {
      assert (u + v)[0] == u[0] && (u + v)[1..] == u[1..] + v;
      FeedBitsConcat(FeedBit(crc, u[0]), u[1..], v);
    }
  }

  /** A byte string is its bits. */
  lemma {:induction false} FeedAllIsBits(crc: bv32, bytes: seq<Byte>)
    ensures FeedAll(crc, bytes) == FeedBits(crc, Bits(bytes))
    decreases |bytes|
  {
    hide Feed, FeedBit, BitsOf;
    if bytes != [] {
      FeedIsBits(crc, bytes[0]);
      FeedBitsConcat(crc, BitsOf(bytes[0]), Bits(bytes[1..]));
      FeedAllIsBits(Feed(crc, bytes[0]), bytes[1..]);
    }
  }

  lemma FeedBitInjective(c: bv32, d: bv32, b: bool)
    requires FeedBit(c, b) == FeedBit(d, b)
    ensures c == d
  {
    hide Shift, Xor;
    ShiftInjective(Xor(c, BitWord(b)), Xor(d, BitWord(b)));
    XorCancels(c, d, BitWord(b));
  }

  lemma {:induction false} SameBitsInjective(c: bv32, d: bv32, u: seq<bool>)
    requires FeedBits(c, u) == FeedBits(d, u)
    ensures c == d
    decreases |u|
  {
    hide FeedBit;
    if u != [] {
      SameBitsInjective(FeedBit(c, u[0]), FeedBit(d, u[0]), u[1..]);
      FeedBitInjective(c, d, u[0]);
    }
  }

  /** From one remainder, different strings of up to 32 bits lead to different remainders. */
  lemma ShortBitsApart(crc: bv32, u: seq<bool>, v: seq<bool>)
    requires |u| == |v| <= 32 && FeedBits(crc, u) == FeedBits(crc, v)
    ensures u == v
  {
    hide Xor, Turns, Pack, FeedBits;
    FeedPacked(crc, u);
    FeedPacked(crc, v);
    TurnsInjective(Xor(crc, Pack(u)), Xor(crc, Pack(v)), |u|);
    XorCancels(Pack(u), Pack(v), crc);
    PackInjective(u, v);
  }

  // ---- bursts ----

  /** a and b differ only within the n bits from `first` on. */
  ghost predicate DifferWithin(a: seq<Byte>, b: seq<Byte>, first: nat, n: nat)
    requires |a| == |b|
  {
    forall j :: 0 <= j < 8 * |a| && !(first <= j < first + n) ==> Bits(a)[j] == Bits(b)[j]
  }

  lemma {:induction false} BitsInjective(a: seq<Byte>, b: seq<Byte>)
    requires |a| == |b| && Bits(a) == Bits(b)
    ensures a == b
  {
    if a != [] {
      assert Bits(a)[..8] == BitsOf(a[0]) && Bits(b)[..8] == BitsOf(b[0]);
      assert Bits(a)[8..] == Bits(a[1..]) && Bits(b)[8..] == Bits(b[1..]);
      SameByte(a[0], b[0]);
      hide BitsOf;
      BitsInjective(a[1..], b[1..]);
      assert a == [a[0]] + a[1..] && b == [b[0]] + b[1..];
    }
  }

  lemma SameByte(x: Byte, y: Byte)
    requires BitsOf(x) == BitsOf(y)
    ensures x == y
  {
    hide BitsOf;
    ByteIsPacked(x);
    ByteIsPacked(y);
  }

  lemma SameBitsOutside(u: seq<bool>, v: seq<bool>, start: nat, end: nat)
    requires |u| == |v| && start <= end <= |u|
    requires forall j :: 0 <= j < |u| && !(start <= j < end) ==> u[j] == v[j]
    ensures u == u[..start] + u[start..end] + u[end..]
    ensures v == u[..start] + v[start..end] + u[end..]
  {
  }

  lemma BitStringsApart(crc: bv32, u: seq<bool>, v: seq<bool>, start: nat, end: nat)
    requires |u| == |v| && start <= end <= |u| && end - start <= 32
    requires forall j :: 0 <= j < |u| && !(start <= j < end) ==> u[j] == v[j]
    requires FeedBits(crc, u) == FeedBits(crc, v)
    ensures u == v
  {
    hide FeedBits;
    SameBitsOutside(u, v, start, end);
    var (before, m, n, after) := (u[..start], u[start..end], v[start..end], u[end..]);
    FeedBitsConcat(crc, before + m, after);
    FeedBitsConcat(crc, before + n, after);
    FeedBitsConcat(crc, before, m);
    FeedBitsConcat(crc, before, n);
    SameBitsInjective(FeedBits(crc, before + m), FeedBits(crc, before + n), after);
    ShortBitsApart(FeedBits(crc, before), m, n);
  }

  /** Two strings of one length that differ, and only within 32 consecutive bits at any offset, have
      different checksums, whatever surrounds the burst. */
  lemma BitBurstDetected(a: seq<Byte>, b: seq<Byte>, first: nat)
    requires |a| == |b| && a != b && DifferWithin(a, b, first, 32)
    ensures Crc(a) != Crc(b)
  {
    hide FeedAll, FeedBits, Xor, Bits;
    if Crc(a) == Crc(b) {
      var u, v := Bits(a), Bits(b);
      var start := if first < |u| then first else |u|;
      var end := if first + 32 < |u| then first + 32 else |u|;
      XorCancels(FeedAll(ONES, a), FeedAll(ONES, b), ONES);
      FeedAllIsBits(ONES, a);
      FeedAllIsBits(ONES, b);
      BitStringsApart(ONES, u, v, start, end);
      BitsInjective(a, b);
    }
  }

  ghost predicate DetectsBursts(n: nat) {
    forall a: seq<Byte>, b: seq<Byte>, first: nat ::
      |a| == |b| && a != b && DifferWithin(a, b, first, n) ==> Crc(a) != Crc(b)
  }

  /** The polynomial is 33 bits long: bursts of n bits are detected exactly for n up to 32. */
  lemma BurstsDetectedExactly(n: nat)
    ensures DetectsBursts(n) <==> n <= 32
  {
    if n <= 32 {
      forall a: seq<Byte>, b: seq<Byte>, first: nat | |a| == |b| && a != b && DifferWithin(a, b, first, n)
        ensures Crc(a) != Crc(b)
      {
        BitBurstDetected(a, b, first);
      }
    } else {
      CodewordBits();
      PaddedCodeword([], []);
      assert [] + (CODEWORD + []) == CODEWORD && [] + (ZEROS + []) == ZEROS;
      assert CODEWORD[0] != ZEROS[0];
      hide Bits, Crc;
      assert DifferWithin(CODEWORD, ZEROS, 0, n);
    }
  }

  lemma CodewordBits()
    ensures forall j :: 33 <= j < 40 ==> Bits(CODEWORD)[j] == Bits(ZEROS)[j]
  {
    var c, z := CODEWORD, ZEROS;
    LastByteBits(c);
    LastByteBits(z);
    assert BitsOf(1)[1..] == BitsOf(0)[1..];
  }

  lemma LastByteBits(s: seq<Byte>)
    requires |s| == 5
    ensures Bits(s)[32..] == BitsOf(s[4])
  {
    hide BitsOf;
    assert Bits(s)[8..] == Bits(s[1..]);
    assert Bits(s[1..])[8..] == Bits(s[2..]);
    assert Bits(s[2..])[8..] == Bits(s[3..]);
    assert Bits(s[3..])[8..] == Bits(s[4..]);
    assert Bits(s[4..]) == BitsOf(s[4]) + Bits(s[5..]);
  }
}
