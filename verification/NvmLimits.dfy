/**
 How far a record of the registry carries when a second set is interrupted over what an interrupted
 first one left.
 */
module NvmLimits {
  import opened Wrappers
  import opened Bytes
  import opened Crc32
  import opened CrcKernel
  import opened NvmLayout
  import opened NvmRecord
  import opened NvmRegistry

  /** The record of v2 over the record of v1 over that of v0, cut after k2 and k1 bytes. */
  function CutTwice(hash: bv32, v0: seq<Byte>, v1: seq<Byte>, k1: nat, v2: seq<Byte>, k2: nat): (r: seq<Byte>)
    requires |v0| == |v1| == |v2| && k1 <= |v2| + 8 && k2 <= |v2| + 8
    ensures |r| == |v2| + 8
  {
    Record(hash, v2)[..k2] + Cut(hash, v0, v1, k1)[k2..]
  }

  predicate OneOfThree(r: Result<seq<Byte>, Error>, v0: seq<Byte>, v1: seq<Byte>, v2: seq<Byte>) {
    r == Ok(v0) || r == Ok(v1) || r == Ok(v2) || r == Err(CrcMismatch)
  }

  /** Two sets in a row, each cut anywhere, read as one of the three values or a mismatch. */
  ghost predicate TwoSetsSafe(hash: bv32, size: nat) {
    forall v0: seq<Byte>, v1: seq<Byte>, v2: seq<Byte>, k1: nat, k2: nat ::
      |v0| == |v1| == |v2| == size && k1 <= size + 8 && k2 <= size + 8 ==>
        OneOfThree(Decode(hash, size, CutTwice(hash, v0, v1, k1, v2, k2)), v0, v1, v2)
  }

  /** The parts of the record after both sets. */
  lemma PartsTwice(hash: bv32, v0: seq<Byte>, v1: seq<Byte>, k1: nat, v2: seq<Byte>, k2: nat)
    requires |v0| == |v1| == |v2| && k1 <= |v2| + 8 && k2 <= |v2| + 8
    ensures var (r, size) := (CutTwice(hash, v0, v1, k1, v2, k2), |v2|);
            && r[..4] == ToBytes(hash)
            && r[4..4 + size] == Mixed(Mixed(v0, v1, k1 - 4), v2, k2 - 4)
            && r[4 + size..] ==
                 Mixed(Mixed(ToBytes(Checksum(hash, v0)), ToBytes(Checksum(hash, v1)), k1 - 4 - size),
                       ToBytes(Checksum(hash, v2)), k2 - 4 - size)
  {
    hide Record, ToBytes, Checksum, CutTwice, Mixed;
    var (r, size) := (CutTwice(hash, v0, v1, k1, v2, k2), |v2|);
    var (a, b, c) := (Record(hash, v0), Record(hash, v1), Record(hash, v2));
    CutTwiceMixes(hash, v0, v1, k1, v2, k2);
    PartsOfRecord(hash, v0);
    PartsOfRecord(hash, v1);
    PartsOfRecord(hash, v2);
    SliceTwice(a, b, c, k1, k2, 0, 4);
    SliceTwice(a, b, c, k1, k2, 4, 4 + size);
    SliceTwice(a, b, c, k1, k2, 4 + size, size + 8);
    SameTwice(ToBytes(hash), k1, k2);
    FullSlices(r, size);
  }

  lemma FullSlices(r: seq<Byte>, size: nat)
    requires |r| == size + 8
    ensures r[..4] == r[0..4] && r[4 + size..] == r[4 + size..size + 8]
  {
  }

  lemma CutTwiceMixes(hash: bv32, v0: seq<Byte>, v1: seq<Byte>, k1: nat, v2: seq<Byte>, k2: nat)
    requires |v0| == |v1| == |v2| && k1 <= |v2| + 8 && k2 <= |v2| + 8
    ensures CutTwice(hash, v0, v1, k1, v2, k2) ==
            Mixed(Mixed(Record(hash, v0), Record(hash, v1), k1), Record(hash, v2), k2)
  {
    hide Record;
  }

  lemma PartsOfRecord(hash: bv32, v: seq<Byte>)
    ensures var r := Record(hash, v);
            && r[0..4] == ToBytes(hash) && r[4..4 + |v|] == v
            && r[4 + |v|..|v| + 8] == ToBytes(Checksum(hash, v))
  {
    hide ToBytes, Checksum;
  }

  lemma SliceTwice(a: seq<Byte>, b: seq<Byte>, c: seq<Byte>, k1: nat, k2: nat, low: nat, high: nat)
    requires |a| == |b| == |c| && low <= high <= |a|
    ensures Mixed(Mixed(a, b, k1), c, k2)[low..high] ==
            Mixed(Mixed(a[low..high], b[low..high], k1 - low), c[low..high], k2 - low)
  {
    hide Mixed;
    SliceMixed(a, b, k1, low, high);
    SliceMixed(Mixed(a, b, k1), c, k2, low, high);
  }

  lemma SameTwice(a: seq<Byte>, k1: int, k2: int)
    ensures Mixed(Mixed(a, a, k1), a, k2) == a
  {
    SameMixed(a, k1);
    SameMixed(a, k2);
    hide Mixed;
  }

  /** What reading makes of data m with stored bytes w. */
  lemma DecodeParts(hash: bv32, m: seq<Byte>, r: seq<Byte>)
    requires |r| == |m| + 8 && r[..4] == ToBytes(hash) && r[4..4 + |m|] == m
    ensures Decode(hash, |m|, r) ==
            if r[4 + |m|..] == ToBytes(Checksum(hash, m)) then Ok(m) else Err(CrcMismatch)
  {
    hide ToBytes, FromBytes, Checksum;
    WordRoundTrip(hash);
    BytesRoundTrip(r[4 + |m|..]);
    WordRoundTrip(Checksum(hash, m));
  }

  lemma ChecksumDifference(hash: bv32, a: seq<Byte>, b: seq<Byte>)
    requires |a| == |b|
    ensures Xor(Checksum(hash, a), Checksum(hash, b)) == Syndrome(Diff(a, b))
  {
    CrcDifference(ToBytes(hash), a, b);
  }

  lemma ChecksumApart(hash: bv32, a: seq<Byte>, b: seq<Byte>)
    requires |a| == |b| <= 4 && Checksum(hash, a) == Checksum(hash, b)
    ensures a == b
  {
    hide Crc, ToBytes;
    var h := ToBytes(hash);
    assert |h| == 4 && (h + a)[4..] == a && (h + b)[4..] == b;
    if a != b {
      BurstDetected(h + a, h + b, 4, 4 + |a|);
    }
  }

  /** The case that matters: the first set stopped in the checksum, the second in the data. */
  lemma MixtureDetected(hash: bv32, v0: seq<Byte>, v1: seq<Byte>, m: seq<Byte>, n: nat)
    requires 0 < |v0| == |v1| == |m| <= 3 && 0 < n < 4 && m[|m| - 1] == v1[|m| - 1]
    requires ToBytes(Checksum(hash, m)) ==
             Mixed(ToBytes(Checksum(hash, v0)), ToBytes(Checksum(hash, v1)), n)
    ensures m == v0 || m == v1
  {
    var (x, z) := (Diff(m, v1), Diff(m, v0));
    MixtureSyndrome(hash, v0, v1, m, n);
    var pad := Zeros(3 - |m|);
    LeadingZeros(3 - |m|, x);
    LeadingZeros(3 - |m|, z);
    hide Syndrome, ToBytes, Checksum, Mixed, Within, Without;
    SameBytes(m[|m| - 1], v1[|m| - 1]);
    SetsKernel(pad + x, pad + z, n);
    hide Diff;
    if AllZero(pad + x) {
      PaddedZero(pad, x);
      DiffZero(m, v1);
    } else {
      PaddedZero(pad, z);
      DiffZero(m, v0);
    }
  }

  lemma MixtureSyndrome(hash: bv32, v0: seq<Byte>, v1: seq<Byte>, m: seq<Byte>, n: nat)
    requires |v0| == |v1| == |m| && 0 < n < 4
    requires ToBytes(Checksum(hash, m)) ==
             Mixed(ToBytes(Checksum(hash, v0)), ToBytes(Checksum(hash, v1)), n)
    ensures Without(Syndrome(Diff(m, v1)), 0, n) && Within(Syndrome(Diff(m, v0)), 0, n)
  {
    var (c, c0, c1) := (Checksum(hash, m), Checksum(hash, v0), Checksum(hash, v1));
    ChecksumDifference(hash, m, v1);
    ChecksumDifference(hash, m, v0);
    MixedAt(ToBytes(c0), ToBytes(c1), n);
    hide ToBytes, Checksum, Xor, Diff, Syndrome, Mixed;
    SameAndZero(c, c1);
    SameAndZero(c, c0);
  }

  lemma TwoSetsUpToThree(hash: bv32, v0: seq<Byte>, v1: seq<Byte>, k1: nat, v2: seq<Byte>, k2: nat)
    requires |v0| == |v1| == |v2| <= 3 && k1 <= |v2| + 8 && k2 <= |v2| + 8
    ensures OneOfThree(Decode(hash, |v2|, CutTwice(hash, v0, v1, k1, v2, k2)), v0, v1, v2)
  {
    var size := |v2|;
    var r := CutTwice(hash, v0, v1, k1, v2, k2);
    PartsTwice(hash, v0, v1, k1, v2, k2);
    hide ToBytes, Checksum, CutTwice, Mixed, Decode;
    var m := Mixed(Mixed(v0, v1, k1 - 4), v2, k2 - 4);
    DecodeParts(hash, m, r);
    if r[4 + size..] == ToBytes(Checksum(hash, m)) {
      PassingValue(hash, v0, v1, k1, v2, k2);
    }
  }

  lemma PassingValue(hash: bv32, v0: seq<Byte>, v1: seq<Byte>, k1: nat, v2: seq<Byte>, k2: nat)
    requires |v0| == |v1| == |v2| <= 3 && k1 <= |v2| + 8 && k2 <= |v2| + 8
    requires ToBytes(Checksum(hash, Mixed(Mixed(v0, v1, k1 - 4), v2, k2 - 4))) ==
             Mixed(Mixed(ToBytes(Checksum(hash, v0)), ToBytes(Checksum(hash, v1)), k1 - 4 - |v2|),
                   ToBytes(Checksum(hash, v2)), k2 - 4 - |v2|)
    ensures var m := Mixed(Mixed(v0, v1, k1 - 4), v2, k2 - 4);
            m == v0 || m == v1 || m == v2
  {
    hide ToBytes, Checksum, Mixed;
    if |v2| == 0 {
      assert Mixed(Mixed(v0, v1, k1 - 4), v2, k2 - 4) == v0;
    } else if k2 >= 4 + |v2| {
      AllNew(Mixed(v0, v1, k1 - 4), v2, k2 - 4);
    } else {
      PassingMixture(hash, v0, v1, k1, v2, k2);
    }
  }

  lemma PassingMixture(hash: bv32, v0: seq<Byte>, v1: seq<Byte>, k1: nat, v2: seq<Byte>, k2: nat)
    requires 0 < |v0| == |v1| == |v2| <= 3 && k1 <= |v2| + 8 && k2 < 4 + |v2|
    requires ToBytes(Checksum(hash, Mixed(Mixed(v0, v1, k1 - 4), v2, k2 - 4))) ==
             Mixed(Mixed(ToBytes(Checksum(hash, v0)), ToBytes(Checksum(hash, v1)), k1 - 4 - |v2|),
                   ToBytes(Checksum(hash, v2)), k2 - 4 - |v2|)
    ensures var m := Mixed(Mixed(v0, v1, k1 - 4), v2, k2 - 4);
            m == v0 || m == v1
  {
    var size := |v2|;
    var (c0, c1, c2) := (ToBytes(Checksum(hash, v0)), ToBytes(Checksum(hash, v1)), ToBytes(Checksum(hash, v2)));
    var first := Mixed(v0, v1, k1 - 4);
    var m := Mixed(first, v2, k2 - 4);
    AllNew(v0, v1, k1 - 4);
    AllNew(first, v2, k2 - 4);
    AllNew(c0, c1, k1 - 4 - size);
    AllNew(Mixed(c0, c1, k1 - 4 - size), c2, k2 - 4 - size);
    hide ToBytes, Checksum, Mixed;
    if k1 <= 4 + size {
      SameChecksum(hash, m, v0);
    } else if k1 == size + 8 {
      SameChecksum(hash, m, v1);
    } else {
      MixtureDetected(hash, v0, v1, m, k1 - 4 - size);
    }
  }

  lemma SameChecksum(hash: bv32, a: seq<Byte>, b: seq<Byte>)
    requires |a| == |b| <= 4 && ToBytes(Checksum(hash, a)) == ToBytes(Checksum(hash, b))
    ensures a == b
  {
    hide ToBytes, Checksum;
    WordRoundTrip(Checksum(hash, a));
    WordRoundTrip(Checksum(hash, b));
    ChecksumApart(hash, a, b);
  }

  // ---- four bytes are too many ----

  const FIRST: seq<Byte> := [0xEA, 0x00, 0x5C, 0x63]
  const SECOND: seq<Byte> := [0x4F, 0x01, 0x5D, 0x62]
  const MIXTURE: seq<Byte> := [0x4F, 0x01, 0x5C, 0x63]

  lemma MixtureSyndromes()
    ensures Syndrome(MIXTURE) == 0xE6 && Syndrome([0xA5, 0x01, 0, 0]) == 0x7B77_8300
  {
    SyndromeOfFour(MIXTURE);
    SyndromeOfFour([0xA5, 0x01, 0, 0]);
    MixtureWords();
    hide Syndrome, Shift32, Word;
    MixtureTurned();
  }

  lemma MixtureWords()
    ensures Word(MIXTURE) == 0x635C_014F && Word([0xA5, 0x01, 0, 0]) == 0x01A5
  {
  }

  lemma MixtureTurned()
    ensures Shift32(0x635C_014F) == 0xE6 && Shift32(0x01A5) == 0x7B77_8300
  {
  }

  lemma MixtureBytes()
    ensures forall i :: 1 <= i < 4 ==> ToBytes(0xE6)[i] == 0
    ensures ToBytes(0x7B77_8300)[0] == 0
  {
  }

  /** For every size from four bytes on, zeros, two values and two cuts that read as neither of the
      three: the mixture agrees with zeros in all but the lowest byte of the checksum, and in that one
      with the first value. */
  lemma TwoSetsCanTear(hash: bv32, size: nat)
    requires size >= 4
    ensures var (v0, v1, v2, m) := (Zeros(size), Padded(size, FIRST), Padded(size, SECOND), Padded(size, MIXTURE));
            && Decode(hash, size, CutTwice(hash, v0, v1, size + 5, v2, size + 2)) == Ok(m)
            && m != v0 && m != v1 && m != v2
  {
    PaddedApart(size);
    var (v0, v1, v2, m) := (Zeros(size), Padded(size, FIRST), Padded(size, SECOND), Padded(size, MIXTURE));
    var r := CutTwice(hash, v0, v1, size + 5, v2, size + 2);
    PartsTwice(hash, v0, v1, size + 5, v2, size + 2);
    hide ToBytes, Checksum, CutTwice, Mixed, Padded;
    DecodeParts(hash, m, r);
    MixturePasses(hash, size);
  }

  lemma PaddedApart(size: nat)
    requires size >= 4
    ensures var (v0, v1, v2, m) := (Zeros(size), Padded(size, FIRST), Padded(size, SECOND), Padded(size, MIXTURE));
            && m != v0 && m != v1 && m != v2
            && Mixed(Mixed(v0, v1, size + 1), v2, size - 2) == m
  {
    var (v0, v1, v2, m) := (Zeros(size), Padded(size, FIRST), Padded(size, SECOND), Padded(size, MIXTURE));
    assert m[size - 4] == 0x4F && v0[size - 4] == 0 && v1[size - 4] == 0xEA && m[size - 2] == 0x5C && v2[size - 2] == 0x5D;
    AllNew(v0, v1, size + 1);
    assert Mixed(v1, v2, size - 2) == m;
  }

  lemma MixturePasses(hash: bv32, size: nat)
    requires size >= 4
    ensures var (v0, v1, v2, m) := (Zeros(size), Padded(size, FIRST), Padded(size, SECOND), Padded(size, MIXTURE));
            Mixed(Mixed(ToBytes(Checksum(hash, v0)), ToBytes(Checksum(hash, v1)), 1), ToBytes(Checksum(hash, v2)), -2) ==
            ToBytes(Checksum(hash, m))
  {
    hide ToBytes, Checksum, Xor, Syndrome, Diff, Padded, Mixed;
    var (v0, v1, v2, m) := (Zeros(size), Padded(size, FIRST), Padded(size, SECOND), Padded(size, MIXTURE));
    ChecksumDifference(hash, m, v0);
    ChecksumDifference(hash, m, v1);
    MixtureDiffs(size);
    LeadingZeros(size - 4, MIXTURE);
    LeadingZeros(size - 4, [0xA5, 0x01, 0, 0]);
    MixtureSyndromes();
    var (c, c0, c1) := (Checksum(hash, m), Checksum(hash, v0), Checksum(hash, v1));
    LowestOfFirst(c, c0, c1);
    AllNew(Mixed(ToBytes(c0), ToBytes(c1), 1), ToBytes(Checksum(hash, v2)), -2);
  }

  lemma LowestOfFirst(c: bv32, c0: bv32, c1: bv32)
    requires Xor(c, c0) == 0xE6 && Xor(c, c1) == 0x7B77_8300
    ensures Mixed(ToBytes(c0), ToBytes(c1), 1) == ToBytes(c)
  {
    MixtureBytes();
    MixedAt(ToBytes(c0), ToBytes(c1), 1);
    hide ToBytes, Xor, Mixed;
    SameAndZero(c, c0);
    SameAndZero(c, c1);
  }

  lemma MixtureDiffs(size: nat)
    requires size >= 4
    ensures Diff(Padded(size, MIXTURE), Zeros(size)) == Zeros(size - 4) + MIXTURE
    ensures Diff(Padded(size, MIXTURE), Padded(size, FIRST)) == Zeros(size - 4) + [0xA5, 0x01, 0, 0]
  {
    PaddedDiff(size, MIXTURE, [0, 0, 0, 0]);
    PaddedDiff(size, MIXTURE, FIRST);
    MixtureXors();
    assert Zeros(size) == Padded(size, [0, 0, 0, 0]);
  }

  lemma MixtureXors()
    ensures Diff(MIXTURE, [0, 0, 0, 0]) == MIXTURE && Diff(MIXTURE, FIRST) == [0xA5, 0x01, 0, 0]
  {
  }

  /** Two interrupted sets in a row are safe exactly for values of up to three bytes. */
  lemma TwoSetsSafeExactlyUpToThree(hash: bv32, size: nat)
    ensures TwoSetsSafe(hash, size) <==> size <= 3
  {
    if size <= 3 {
      forall v0: seq<Byte>, v1: seq<Byte>, v2: seq<Byte>, k1: nat, k2: nat
        | |v0| == |v1| == |v2| == size && k1 <= size + 8 && k2 <= size + 8
        ensures OneOfThree(Decode(hash, size, CutTwice(hash, v0, v1, k1, v2, k2)), v0, v1, v2)
      {
        TwoSetsUpToThree(hash, v0, v1, k1, v2, k2);
      }
    } else {
      TwoSetsCanTear(hash, size);
      var (v0, v1, v2) := (Zeros(size), Padded(size, FIRST), Padded(size, SECOND));
      assert !OneOfThree(Decode(hash, size, CutTwice(hash, v0, v1, size + 5, v2, size + 2)), v0, v1, v2);
    }
  }

  // ---- in the registry's memory ----

  lemma RecordAfterSet(l: Layout, mem: seq<Byte>, i: nat, value: seq<Byte>, k: nat)
    requires Fits(l, mem) && i < |l.params| && |value| == l.params[i].size && k <= |value| + OVERHEAD
    ensures l.OffsetOf(i) + l.params[i].size + OVERHEAD <= |mem|
    ensures RecordAt(l, SetUpTo(l, mem, i, value, k), i) ==
            Record(l.params[i].hash, value)[..k] + RecordAt(l, mem, i)[k..]
  {
    hide Record;
    l.Frames(i, i + 1);
    WrittenSlice(mem, l.OffsetOf(i), Record(l.params[i].hash, value), k);
  }

  /** Two sets of one parameter in a row, each stopped at any byte: for values of up to three bytes,
      get returns one of the three values or a mismatch. */
  lemma TwoInterruptedSets(l: Layout, mem: seq<Byte>, i: nat, v1: seq<Byte>, k1: nat, v2: seq<Byte>, k2: nat)
    requires Fits(l, mem) && i < |l.params| && |v1| == |v2| == l.params[i].size <= 3
    requires k1 <= |v1| + OVERHEAD && k2 <= |v2| + OVERHEAD && Lookup(l, mem, i).Ok?
    ensures OneOfThree(Lookup(l, SetUpTo(l, SetUpTo(l, mem, i, v1, k1), i, v2, k2), i),
                       Lookup(l, mem, i).value, v1, v2)
  {
    hide Decode, Record, SetUpTo, RecordAt;
    var p := l.params[i];
    var mem1 := SetUpTo(l, mem, i, v1, k1);
    RecordAfterSet(l, mem, i, v1, k1);
    RecordAfterSet(l, mem1, i, v2, k2);
    var r := RecordAt(l, mem, i);
    DecodedIsRecord(p.hash, p.size, r);
    DecodedSize(p.hash, p.size, r);
    TwoSetsUpToThree(p.hash, Lookup(l, mem, i).value, v1, k1, v2, k2);
  }
}
