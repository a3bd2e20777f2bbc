/**
 One record of the registry as a byte string: what a complete one is, what reading one back
 gives, and what is left when the writing of a new one over an old one stops at some byte.
 */
module NvmRecord {
  import opened Wrappers
  import opened Bytes
  import opened Crc32
  import CrcPeriod

  datatype Error = Timeout | BusError | InvalidArgument | AccessDenied | HashMismatch | CrcMismatch

  function Checksum(hash: bv32, value: seq<Byte>): bv32 {
    Crc(ToBytes(hash) + value)
  }

  function Record(hash: bv32, value: seq<Byte>): (r: seq<Byte>)
    ensures |r| == |value| + 8
  {
    ToBytes(hash) + value + ToBytes(Checksum(hash, value))
  }

  /** What get makes of a record's bytes. */
  function Decode(hash: bv32, size: nat, r: seq<Byte>): Result<seq<Byte>, Error>
    requires |r| == size + 8
  {
    if FromBytes(r[..4]) != hash then Err(HashMismatch)
    else if FromBytes(r[4 + size..]) != Checksum(hash, r[4..4 + size]) then Err(CrcMismatch)
    else Ok(r[4..4 + size])
  }

  lemma DecodeRecord(hash: bv32, value: seq<Byte>)
    ensures Decode(hash, |value|, Record(hash, value)) == Ok(value)
  {
    hide ToBytes, FromBytes, Checksum;
    var r := Record(hash, value);
    WordRoundTrip(hash);
    WordRoundTrip(Checksum(hash, value));
    assert r[..4] == ToBytes(hash) && r[4..4 + |value|] == value;
    assert r[4 + |value|..] == ToBytes(Checksum(hash, value));
  }

  /** Only the record of v decodes to v. */
  lemma DecodedIsRecord(hash: bv32, size: nat, r: seq<Byte>)
    requires |r| == size + 8 && Decode(hash, size, r).Ok?
    ensures r == Record(hash, Decode(hash, size, r).value)
  {
    hide ToBytes, FromBytes, Checksum;
    BytesRoundTrip(r[..4]);
    BytesRoundTrip(r[4 + size..]);
    assert r == r[..4] + r[4..4 + size] + r[4 + size..];
  }

  /** The bytes alone decide what is read: the hash must be there, and the whole must leave the residue of
      a string with its checksum. */
  lemma ReadsExactly(hash: bv32, size: nat, r: seq<Byte>)
    requires |r| == size + 8
    ensures Decode(hash, size, r) ==
            if r[..4] != ToBytes(hash) then Err(HashMismatch)
            else if Crc(r) != 0x2144_DF1C then Err(CrcMismatch)
            else Ok(r[4..4 + size])
  {
    hide ToBytes, FromBytes, Crc;
    WordRoundTrip(hash);
    BytesRoundTrip(r[..4]);
    BytesRoundTrip(r[4 + size..]);
    WordRoundTrip(Checksum(hash, r[4..4 + size]));
    ResidueExactly(r[..4] + r[4..4 + size], r[4 + size..]);
    assert r == (r[..4] + r[4..4 + size]) + r[4 + size..];
  }

  /** One record byte by byte: hash and checksum with the lowest byte first. */
  lemma RecordOfDigits()
    ensures Record(0x3433_3231, [0x35, 0x36, 0x37, 0x38, 0x39]) == DIGITS + [0x26, 0x39, 0xF4, 0xCB]
  {
    WordsOfDigits();
    CheckValue();
    hide ToBytes, Crc;
    assert DIGITS == [0x31, 0x32, 0x33, 0x34] + [0x35, 0x36, 0x37, 0x38, 0x39];
  }

  lemma WordsOfDigits()
    ensures ToBytes(0x3433_3231) == [0x31, 0x32, 0x33, 0x34] && ToBytes(0xCBF4_3926) == [0x26, 0x39, 0xF4, 0xCB]
  {
  }

  /** What reading zeros gives: as good as always a mismatch. */
  lemma ZerosRead(hash: bv32, size: nat, r: seq<Byte>)
    requires |r| == size + 8 && forall i :: 0 <= i < |r| ==> r[i] == 0
    ensures Decode(hash, size, r) ==
            if hash != 0 then Err(HashMismatch)
            else if (size + 4) % 0xFFFF_FFFF != 0 then Err(CrcMismatch)
            else Ok(r[4..4 + size])
  {
    var z := ToBytes(0) + r[4..4 + size];
    ZeroBytes();
    hide Crc, FromBytes;
    assert r[..4] == [0, 0, 0, 0] && r[4 + size..] == [0, 0, 0, 0];
    CrcPeriod.ZerosPassExactly(z);
  }

  /** The record of `new` over the record of `old`, cut after k bytes. */
  function Cut(hash: bv32, old_: seq<Byte>, new_: seq<Byte>, k: nat): (r: seq<Byte>)
    requires |old_| == |new_| && k <= |new_| + 8
    ensures |r| == |new_| + 8
  {
    Record(hash, new_)[..k] + Record(hash, old_)[k..]
  }

  /** The three parts of a cut record. */
  lemma CutParts(hash: bv32, old_: seq<Byte>, new_: seq<Byte>, k: nat)
    requires |old_| == |new_| && k <= |new_| + 8
    ensures var r := Cut(hash, old_, new_, k);
            var size := |new_|;
            && r[..4] == ToBytes(hash)
            && (k <= 4 ==> r[4..4 + size] == old_)
            && (4 <= k <= 4 + size ==> r[4..4 + size] == new_[..k - 4] + old_[k - 4..])
            && (k >= 4 + size ==> r[4..4 + size] == new_)
            && (k <= 4 + size ==> r[4 + size..] == ToBytes(Checksum(hash, old_)))
  {
    hide ToBytes, Checksum;
    var n, o := Record(hash, new_), Record(hash, old_);
    var r, size := Cut(hash, old_, new_, k), |new_|;
    assert forall i :: 0 <= i < |r| ==> r[i] == if i < k then n[i] else o[i];
    assert r[..4] == ToBytes(hash);
    assert k <= 4 ==> r[4..4 + size] == old_;
    assert 4 <= k <= 4 + size ==> r[4..4 + size] == new_[..k - 4] + old_[k - 4..];
    assert k >= 4 + size ==> r[4..4 + size] == new_;
    assert k <= 4 + size ==> r[4 + size..] == ToBytes(Checksum(hash, old_));
  }

  /** A value whose first j <= 4 bytes are new and whose other bytes are old does not pass the
      old checksum, unless it is the old value. */
  lemma PartialValueDetected(hash: bv32, old_: seq<Byte>, new_: seq<Byte>, j: nat)
    requires |old_| == |new_| && j <= |new_| && j <= 4
    requires Checksum(hash, new_[..j] + old_[j..]) == Checksum(hash, old_)
    ensures new_[..j] + old_[j..] == old_
  {
    hide Crc, ToBytes;
    var h := ToBytes(hash);
    var mixed := new_[..j] + old_[j..];
    assert |h| == 4 && (h + mixed)[4..] == mixed && (h + old_)[4..] == old_;
    if mixed != old_ {
      BurstDetected(h + mixed, h + old_, 4, 4 + j);
    }
  }

  /** The outcomes a cut may have: the old value, the new one, or a reported mismatch. */
  predicate NotTorn(r: Result<seq<Byte>, Error>, old_: seq<Byte>, new_: seq<Byte>) {
    r == Ok(old_) || r == Ok(new_) || r == Err(CrcMismatch)
  }

  /** Stopping the writes of set at any byte is never observed as a torn value, for values of up
      to five bytes; no assumption about collisions is needed. */
  lemma CutNotTorn(hash: bv32, old_: seq<Byte>, new_: seq<Byte>, k: nat)
    requires |old_| == |new_| <= 5 && k <= |new_| + 8
    ensures NotTorn(Decode(hash, |new_|, Cut(hash, old_, new_, k)), old_, new_)
  {
    hide ToBytes, FromBytes, Checksum, Cut;
    var size := |new_|;
    CutParts(hash, old_, new_, k);
    WordRoundTrip(hash);
    WordRoundTrip(Checksum(hash, old_));
    if 4 <= k < 4 + size {
      var mixed := new_[..k - 4] + old_[k - 4..];
      if Checksum(hash, mixed) == Checksum(hash, old_) {
        PartialValueDetected(hash, old_, new_, k - 4);
      }
    }
  }

  /** Six bytes are too many: five of them can form the polynomial. */
  function TornOld(size: nat): seq<Byte>
    requires size >= 6
  {
    seq(size, _ => 0)
  }

  function TornNew(size: nat): seq<Byte>
    requires size >= 6
  {
    CODEWORD + seq(size - 5, _ => 1)
  }

  function TornMix(size: nat): seq<Byte>
    requires size >= 6
  {
    CODEWORD + seq(size - 5, _ => 0)
  }

  lemma CutCanTear(hash: bv32, size: nat)
    requires size >= 6
    ensures |TornOld(size)| == |TornNew(size)| == size
    ensures Decode(hash, size, Cut(hash, TornOld(size), TornNew(size), 9)) == Ok(TornMix(size))
    ensures TornMix(size) != TornOld(size) && TornMix(size) != TornNew(size)
  {
    var o, n, m := TornOld(size), TornNew(size), TornMix(size);
    assert o[0] == 0 && m[0] == 0x41 && m[5] == 0 && n[5] == 1;
    CutCanTearBytes(hash, size);
  }

  lemma CutCanTearBytes(hash: bv32, size: nat)
    requires size >= 6
    ensures |TornOld(size)| == |TornNew(size)| == size
    ensures Decode(hash, size, Cut(hash, TornOld(size), TornNew(size), 9)) == Ok(TornMix(size))
  {
    hide ToBytes, FromBytes, Checksum, Cut;
    var o, n, m := TornOld(size), TornNew(size), TornMix(size);
    CutParts(hash, o, n, 9);
    assert n[..5] + o[5..] == m;
    WordRoundTrip(hash);
    WordRoundTrip(Checksum(hash, o));
    MixPasses(hash, size);
  }

  lemma MixPasses(hash: bv32, size: nat)
    requires size >= 6
    ensures Checksum(hash, TornMix(size)) == Checksum(hash, TornOld(size))
  {
    var rest := seq(size - 5, _ => 0 as Byte);
    PaddedCodeword(ToBytes(hash), rest);
    hide ToBytes, Crc;
    assert TornOld(size) == ZEROS + rest;
  }

  ghost predicate SafeSize(hash: bv32, size: nat) {
    forall old_: seq<Byte>, new_: seq<Byte>, k: nat ::
      |old_| == |new_| == size && k <= size + 8 ==>
        NotTorn(Decode(hash, size, Cut(hash, old_, new_, k)), old_, new_)
  }

  /** The sizes for which an interrupted set is never observed torn are exactly those up to 5. */
  lemma SafeExactlyUpToFive(hash: bv32, size: nat)
    ensures SafeSize(hash, size) <==> size <= 5
  {
    if size <= 5 {
      forall old_: seq<Byte>, new_: seq<Byte>, k: nat | |old_| == |new_| == size && k <= size + 8
        ensures NotTorn(Decode(hash, size, Cut(hash, old_, new_, k)), old_, new_)
      {
        CutNotTorn(hash, old_, new_, k);
      }
    } else {
      CutCanTear(hash, size);
      assert !NotTorn(Decode(hash, size, Cut(hash, TornOld(size), TornNew(size), 9)), TornOld(size), TornNew(size));
    }
  }
}
