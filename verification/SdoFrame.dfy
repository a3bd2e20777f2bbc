/**
 Expedited SDO frames on the wire (section 7.2.4 of CiA 301): the bit-fields of the source's
 structures as eight bytes, lowest bits and bytes first.
 */
module SdoFrame {
  import opened Bytes

  datatype Sdo = Sdo(sizeIndicated: bool, expedited: bool, emptyBytes: bv2, reserved: bool, cs: bv3,
                     index: bv16, subindex: bv8, data: seq<Byte>) {
    predicate Valid() {
      |data| == 4
    }
  }

  const CLIENT_INIT_WRITE: bv3 := 1
  const SERVER_INIT_WRITE: bv3 := 3
  const CLIENT_INIT_READ: bv3 := 2
  const SERVER_INIT_READ: bv3 := 2
  const ABORT: bv3 := 4

  function Bit(b: bool): Byte {
    if b then 1 else 0
  }

  function Control(s: Sdo): Byte {
    Bit(s.sizeIndicated) | (Bit(s.expedited) << 1) | ((s.emptyBytes as Byte) << 2)
    | (Bit(s.reserved) << 4) | ((s.cs as Byte) << 5)
  }

  function Encode(s: Sdo): (p: seq<Byte>)
    requires s.Valid()
    ensures |p| == 8
  {
    [Control(s), (s.index & 0xFF) as Byte, (s.index >> 8) as Byte, s.subindex] + s.data
  }

  function Decode(p: seq<Byte>): (s: Sdo)
    requires |p| == 8
    ensures s.Valid()
  {
    Sdo(p[0] & 1 != 0, p[0] & 2 != 0, ((p[0] >> 2) & 3) as bv2, p[0] & 16 != 0, (p[0] >> 5) as bv3,
        (p[1] as bv16) | ((p[2] as bv16) << 8), p[3], p[4..])
  }

  lemma ControlRoundTrip(s: Sdo)
    ensures var c := Control(s);
            && (c & 1 != 0) == s.sizeIndicated && (c & 2 != 0) == s.expedited
            && ((c >> 2) & 3) as bv2 == s.emptyBytes && (c & 16 != 0) == s.reserved && (c >> 5) as bv3 == s.cs
  {
  }

  lemma IndexRoundTrip(i: bv16)
    ensures (((i & 0xFF) as Byte) as bv16) | ((((i >> 8) as Byte) as bv16) << 8) == i
  {
  }

  /** Decoding undoes encoding ... */
  lemma DecodeEncode(s: Sdo)
    requires s.Valid()
    ensures Decode(Encode(s)) == s
  {
    ControlRoundTrip(s);
    IndexRoundTrip(s.index);
    assert Encode(s)[4..] == s.data;
  }

  /** ... and encoding undoes decoding: the two formats carry the same bits. */
  lemma EncodeDecode(p: seq<Byte>)
    requires |p| == 8
    ensures Encode(Decode(p)) == p
  {
    IndexOfBytes(p[0], p[1], p[2]);
    var s := Decode(p);
    assert Control(s) == p[0] by { ControlOfDecoded(p); }
    assert p == [p[0], p[1], p[2], p[3]] + p[4..];
  }

  lemma ControlOfDecoded(p: seq<Byte>)
    requires |p| == 8
    ensures Control(Decode(p)) == p[0]
  {
  }

  lemma IndexOfBytes(b0: Byte, b1: Byte, b2: Byte)
    ensures var i := (b1 as bv16) | ((b2 as bv16) << 8); (i & 0xFF) as Byte == b1 && (i >> 8) as Byte == b2
  {
  }

  // ---- the layout, in numbers ----

  lemma ControlByBits(c: Byte)
    ensures c as nat ==
            (if c & 1 != 0 then 1 else 0) + (if c & 2 != 0 then 2 else 0) + 4 * (((c >> 2) & 3) as bv2) as nat
            + (if c & 16 != 0 then 16 else 0) + 32 * ((c >> 5) as bv3) as nat
  {
  }

  lemma IndexInNumbers(b1: Byte, b2: Byte)
    ensures ((b1 as bv16) | ((b2 as bv16) << 8)) as nat == b1 as nat + 256 * b2 as nat
  {
  }

  /** Where each field is: the control byte from its lowest bit up, the index with its low byte first, the
      subindex, and the data. */
  lemma DecodedLayout(p: seq<Byte>)
    requires |p| == 8
    ensures var s := Decode(p);
            && p[0] as nat == (if s.sizeIndicated then 1 else 0) + (if s.expedited then 2 else 0)
                              + 4 * s.emptyBytes as nat + (if s.reserved then 16 else 0) + 32 * s.cs as nat
            && s.index as nat == p[1] as nat + 256 * p[2] as nat
            && s.subindex == p[3] && s.data == p[4..8]
  {
    ControlByBits(p[0]);
    IndexInNumbers(p[1], p[2]);
  }

  lemma EncodedLayout(s: Sdo)
    requires s.Valid()
    ensures var p := Encode(s);
            && p[0] as nat == (if s.sizeIndicated then 1 else 0) + (if s.expedited then 2 else 0)
                              + 4 * s.emptyBytes as nat + (if s.reserved then 16 else 0) + 32 * s.cs as nat
            && p[1] as nat + 256 * p[2] as nat == s.index as nat
            && p[3] == s.subindex && p[4..8] == s.data
  {
    hide Decode, Encode;
    DecodeEncode(s);
    DecodedLayout(Encode(s));
  }

  datatype AbortCode = InvalidCs | UnsupportedAccess | ReadFromWriteOnly | WriteToReadOnly | ObjectNotFound
                     | DataTypeMismatch | NoDataAvailable
  {
    function Code(): bv32 {
      match this
      case InvalidCs => 0x0504_0001
      case UnsupportedAccess => 0x0601_0000
      case ReadFromWriteOnly => 0x0601_0001
      case WriteToReadOnly => 0x0601_0002
      case ObjectNotFound => 0x0602_0000
      case DataTypeMismatch => 0x0607_0010
      case NoDataAvailable => 0x0800_0024
    }
  }

  /** abort_sdo has the layout of an expedited frame whose data is the error code. */
  function AbortFrame(index: bv16, subindex: bv8, code: AbortCode): (s: Sdo)
    ensures s.Valid() && s.cs == ABORT
  {
    Sdo(false, false, 0, false, ABORT, index, subindex, ToBytes(code.Code()))
  }
}
