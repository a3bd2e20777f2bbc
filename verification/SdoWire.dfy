/**
 SDO requests and answers as the bytes on the bus: which answer each request gets, with its literal
 command, address and code.
 */
module SdoWire {
  import opened Wrappers
  import opened Bytes
  import opened SdoFrame
  import opened ObjectDictionary
  import opened SdoServer

  /** What a request of eight bytes does to the variables, and the eight bytes sent back. */
  function Exchange(d: seq<Entry>, vars: Variables, p: seq<Byte>): (r: (Variables, seq<Byte>))
    requires |p| == 8 && Fits(d, vars)
    ensures |r.1| == 8 && Fits(d, r.0) && |r.0| == |vars|
  {
    RespondKeepsTypes(d, vars, Decode(p));
    var a := Respond(d, vars, Decode(p));
    (a.vars, Payload(Decode(p), a.result))
  }

  /** The command specifier: the three highest bits of the first byte. */
  function Command(p: seq<Byte>): nat
    requires |p| == 8
  {
    p[0] as nat / 32
  }

  /** The key a request names: index with its low byte first, then the subindex. */
  function Address(p: seq<Byte>): Key
    requires |p| == 8
  {
    Key(p[1] as nat + 256 * p[2] as nat, p[3] as nat)
  }

  /** The key in the data of a restore request. */
  function Target(p: seq<Byte>): Key
    requires |p| == 8
  {
    Key(p[4] as nat + 256 * p[5] as nat, p[6] as nat)
  }

  /** A write to 0x1011:4. */
  predicate AsksForRestore(p: seq<Byte>)
    requires |p| == 8
  {
    Command(p) == 1 && p[1..4] == [0x11, 0x10, 0x04]
  }

  /** Entry i is the first with this key. */
  predicate First(d: seq<Entry>, key: Key, i: nat) {
    i < |d| && d[i].key == key && forall k :: 0 <= k < i ==> d[k].key != key
  }

  /** An abort carries the address of its request, and the error code with its low byte first. */
  predicate Aborts(p: seq<Byte>, answer: seq<Byte>, code: seq<Byte>)
    requires |p| == 8
  {
    answer == [0x80] + p[1..4] + code
  }

  // ---- requests as frames ----

  lemma CommandBits(c: Byte)
    ensures (c >> 5) as bv3 == 1 <==> c as nat / 32 == 1
    ensures (c >> 5) as bv3 == 2 <==> c as nat / 32 == 2
    ensures (c >> 5) as bv3 == 4 <==> c as nat / 32 == 4
  {
    CommandRange(c);
  }

  lemma CommandRange(c: Byte)
    ensures (c >> 5) as bv3 == 1 <==> 32 <= c as nat < 64
    ensures (c >> 5) as bv3 == 2 <==> 64 <= c as nat < 96
    ensures (c >> 5) as bv3 == 4 <==> 128 <= c as nat < 160
  {
  }

  lemma RestoreAddress(b1: Byte, b2: Byte, b3: Byte)
    ensures b1 as nat + 256 * b2 as nat == 0x1011 && b3 as nat == 4 <==> b1 == 0x11 && b2 == 0x10 && b3 == 0x04
  {
  }

  lemma AddressOf(p: seq<Byte>)
    requires |p| == 8
    ensures KeyOf(Decode(p)) == Address(p) && Decode(p).data == p[4..8] && TargetOf(p[4..8]) == Target(p)
  {
    hide Decode;
    DecodedLayout(p);
    TargetInNumbers(p[4..8]);
  }

  lemma TargetInNumbers(data: seq<Byte>)
    requires |data| == 4
    ensures TargetOf(data) == Key(data[0] as nat + 256 * data[1] as nat, data[2] as nat)
  {
    IndexInNumbers(data[0], data[1]);
  }

  lemma CommandOf(p: seq<Byte>)
    requires |p| == 8
    ensures var s := Decode(p);
            && (s.cs == 1 <==> Command(p) == 1) && (s.cs == 2 <==> Command(p) == 2) && (s.cs == 4 <==> Command(p) == 4)
            && (IsRestore(s) <==> AsksForRestore(p))
  {
    CommandBits(p[0]);
    RestoreAddress(p[1], p[2], p[3]);
    AddressOf(p);
    hide TargetOf;
    assert p[1..4] == [p[1], p[2], p[3]];
  }

  // ---- answers as bytes ----

  /** The bytes of any frame that answers p, after its first. */
  lemma Echo(p: seq<Byte>, s: Sdo)
    requires |p| == 8 && s.Valid() && s.index == Decode(p).index && s.subindex == Decode(p).subindex
    ensures Encode(s) == [Control(s)] + p[1..4] + s.data
  {
    IndexOfBytes(p[0], p[1], p[2]);
    assert p[1..4] == [p[1], p[2], p[3]];
  }

  lemma Codes()
    ensures ToBytes(InvalidCs.Code()) == [0x01, 0x00, 0x04, 0x05]
    ensures ToBytes(UnsupportedAccess.Code()) == [0x00, 0x00, 0x01, 0x06]
    ensures ToBytes(ReadFromWriteOnly.Code()) == [0x01, 0x00, 0x01, 0x06]
    ensures ToBytes(WriteToReadOnly.Code()) == [0x02, 0x00, 0x01, 0x06]
    ensures ToBytes(ObjectNotFound.Code()) == [0x00, 0x00, 0x02, 0x06]
    ensures ToBytes(DataTypeMismatch.Code()) == [0x10, 0x00, 0x07, 0x06]
    ensures ToBytes(NoDataAvailable.Code()) == [0x24, 0x00, 0x00, 0x08]
  {
  }

  lemma AbortBytes(p: seq<Byte>, code: AbortCode)
    requires |p| == 8
    ensures Aborts(p, Payload(Decode(p), Err(code)), ToBytes(code.Code()))
  {
    var s := Decode(p);
    var f := AbortFrame(s.index, s.subindex, code);
    Echo(p, f);
    assert Control(f) == 0x80;
  }

  lemma WrittenBytes(p: seq<Byte>)
    requires |p| == 8
    ensures Payload(Decode(p), Ok(WriteReply(Decode(p)))) == [0x60] + p[1..4] + [0, 0, 0, 0]
  {
    var f := WriteReply(Decode(p));
    Echo(p, f);
    assert Control(f) == 0x60;
  }

  /** The first byte of a positive answer to a read, by the declared type. */
  function ReadCommand(t: ValueType): Byte {
    match t
    case Boolean => 0x4F
    case Int8 => 0x4F
    case UInt8 => 0x4F
    case Int16 => 0x4B
    case UInt16 => 0x4B
    case _ => 0x43
  }

  lemma ReadBytes(p: seq<Byte>, t: ValueType, data: seq<Byte>)
    requires |p| == 8 && |data| == 4
    ensures var s := Decode(p);
            Payload(s, Ok(Sdo(true, true, EmptyBytes(t.Size()), false, SERVER_INIT_READ, s.index, s.subindex, data))) ==
            [ReadCommand(t)] + p[1..4] + data
  {
    var s := Decode(p);
    var f := Sdo(true, true, EmptyBytes(t.Size()), false, SERVER_INIT_READ, s.index, s.subindex, data);
    Echo(p, f);
    ReadControl(f, t);
  }

  lemma ReadControl(f: Sdo, t: ValueType)
    requires f.sizeIndicated && f.expedited && !f.reserved && f.cs == 2 && f.emptyBytes == EmptyBytes(t.Size())
    ensures Control(f) == ReadCommand(t)
  {
    assert EmptyBytes(1) == 3 && EmptyBytes(2) == 2 && EmptyBytes(4) == 0;
  }

  // ---- which answer ----

  lemma FirstFound(d: seq<Entry>, key: Key, i: nat)
    requires First(d, key, i)
    ensures Lookup(d, key) == Some(i)
  {
  }

  /** A request for a key that no entry has. */
  lemma MissingAnswer(d: seq<Entry>, vars: Variables, p: seq<Byte>)
    requires |p| == 8 && Fits(d, vars) && Command(p) != 4 && !AsksForRestore(p)
    requires forall k :: 0 <= k < |d| ==> d[k].key != Address(p)
    ensures var (after, answer) := Exchange(d, vars, p);
            after == vars && Aborts(p, answer, [0x00, 0x00, 0x02, 0x06])
  {
    hide Decode, Payload, Lookup, Fits, IsRestore, Aborts;
    AddressOf(p);
    CommandOf(p);
    Codes();
    AbortBytes(p, ObjectNotFound);
  }

  /** A read request for an entry: refused with a code by permission or for want of an accessor, otherwise
      the value's bytes, zero-padded. */
  lemma ReadAnswer(d: seq<Entry>, vars: Variables, p: seq<Byte>, i: nat)
    requires |p| == 8 && Fits(d, vars) && Command(p) == 2 && First(d, Address(p), i)
    ensures var (o, (after, answer)) := (d[i].obj, Exchange(d, vars, p));
            && after == vars
            && (o.access == WriteOnly ==> Aborts(p, answer, [0x01, 0x00, 0x01, 0x06]))
            && (o.access != WriteOnly && o.read.NoAccessor? ==> Aborts(p, answer, [0x00, 0x00, 0x01, 0x06]))
            && (o.access != WriteOnly && o.read.Variable? ==>
                  answer == [ReadCommand(o.dataType)] + p[1..4] + ToRaw(vars[o.read.id]))
  {
    hide Decode, Payload, Lookup, IsRestore, Aborts, ToRaw;
    AddressOf(p);
    CommandOf(p);
    FirstFound(d, Address(p), i);
    Codes();
    var o := d[i].obj;
    if o.access == WriteOnly {
      AbortBytes(p, ReadFromWriteOnly);
    } else if o.read.NoAccessor? {
      AbortBytes(p, UnsupportedAccess);
    } else {
      ReadBytes(p, o.dataType, ToRaw(vars[o.read.id]));
    }
  }

  /** A write request for an entry. */
  lemma WriteAnswer(d: seq<Entry>, vars: Variables, p: seq<Byte>, i: nat)
    requires |p| == 8 && Fits(d, vars) && Command(p) == 1 && !AsksForRestore(p) && First(d, Address(p), i)
    ensures var (o, (after, answer)) := (d[i].obj, Exchange(d, vars, p));
            if o.access in {ReadOnly, Constant} then
              after == vars && Aborts(p, answer, [0x02, 0x00, 0x01, 0x06])
            else if o.write.NoAccessor? then
              after == vars && Aborts(p, answer, [0x00, 0x00, 0x01, 0x06])
            else if vars[o.write.id].kind != o.dataType.Carrier() then
              after == vars && Aborts(p, answer, [0x10, 0x00, 0x07, 0x06])
            else
              && after == vars[o.write.id := MakeValue(p[4..8], o.dataType)]
              && answer == [0x60] + p[1..4] + [0, 0, 0, 0]
  {
    hide Decode, Payload, Lookup, IsRestore, Aborts, MakeValue;
    AddressOf(p);
    CommandOf(p);
    FirstFound(d, Address(p), i);
    Codes();
    WrittenBytes(p);
    AbortBytes(p, WriteToReadOnly);
    AbortBytes(p, UnsupportedAccess);
    AbortBytes(p, DataTypeMismatch);
  }

  /** Any other command for an entry. */
  lemma OtherAnswer(d: seq<Entry>, vars: Variables, p: seq<Byte>, i: nat)
    requires |p| == 8 && Fits(d, vars) && Command(p) !in {1, 2, 4} && First(d, Address(p), i)
    ensures var (after, answer) := Exchange(d, vars, p);
            after == vars && Aborts(p, answer, [0x01, 0x00, 0x04, 0x05])
  {
    hide Decode, Payload, Lookup, Fits, Aborts;
    AddressOf(p);
    CommandOf(p);
    FirstFound(d, Address(p), i);
    Codes();
    AbortBytes(p, InvalidCs);
  }

  /** A request to restore the default of the entry whose key is in its data. */
  lemma RestoreAnswer(d: seq<Entry>, vars: Variables, p: seq<Byte>, i: nat)
    requires |p| == 8 && Fits(d, vars) && AsksForRestore(p) && First(d, Target(p), i)
    ensures var (o, (after, answer)) := (d[i].obj, Exchange(d, vars, p));
            if o.access in {ReadOnly, Constant} then
              after == vars && Aborts(p, answer, [0x02, 0x00, 0x01, 0x06])
            else if o.default.None? then
              after == vars && Aborts(p, answer, [0x24, 0x00, 0x00, 0x08])
            else if o.write.NoAccessor? then
              after == vars && Aborts(p, answer, [0x00, 0x00, 0x01, 0x06])
            else if vars[o.write.id].kind != o.default.value.kind then
              after == vars && Aborts(p, answer, [0x10, 0x00, 0x07, 0x06])
            else
              after == vars[o.write.id := o.default.value] && answer == [0x60] + p[1..4] + [0, 0, 0, 0]
  {
    hide Decode, Payload, Lookup, IsRestore, Aborts, AsksForRestore;
    AddressOf(p);
    CommandOf(p);
    FirstFound(d, Target(p), i);
    Codes();
    WrittenBytes(p);
    AbortBytes(p, WriteToReadOnly);
    AbortBytes(p, NoDataAvailable);
    AbortBytes(p, UnsupportedAccess);
    AbortBytes(p, DataTypeMismatch);
  }

  lemma RestoreMissing(d: seq<Entry>, vars: Variables, p: seq<Byte>)
    requires |p| == 8 && Fits(d, vars) && AsksForRestore(p)
    requires forall k :: 0 <= k < |d| ==> d[k].key != Target(p)
    ensures var (after, answer) := Exchange(d, vars, p);
            after == vars && Aborts(p, answer, [0x00, 0x00, 0x02, 0x06])
  {
    hide Decode, Payload, Lookup, Fits, IsRestore, Aborts, AsksForRestore;
    AddressOf(p);
    CommandOf(p);
    Codes();
    AbortBytes(p, ObjectNotFound);
  }

  /** A number written and read back, byte by byte: w writes and r reads a readable and writable entry
      whose variable has its declared type. */
  lemma NumberComesBack(d: seq<Entry>, vars: Variables, w: seq<Byte>, r: seq<Byte>, i: nat)
    requires |w| == |r| == 8 && Fits(d, vars) && Command(w) == 1 && Command(r) == 2 && w[1..4] == r[1..4]
    requires !AsksForRestore(w) && First(d, Address(w), i)
    requires var o := d[i].obj;
             && o.access == ReadWrite && o.read.Variable? && o.write == o.read
             && vars[o.read.id].kind == o.dataType.Carrier()
    ensures var (after, reply) := Exchange(d, vars, w);
            var (t, answer) := (d[i].obj.dataType, Exchange(d, after, r).1);
            && reply == [0x60] + w[1..4] + [0, 0, 0, 0]
            && (t.UInt8? || t.Int8? ==> answer == [0x4F] + w[1..4] + [w[4], 0, 0, 0])
            && (t.UInt16? || t.Int16? ==> answer == [0x4B] + w[1..4] + [w[4], w[5], 0, 0])
            && (t.UInt32? || t.Int32? || t.Float32? || t.Exec? ==> answer == [0x43] + w[1..4] + [w[4], w[5], w[6], w[7]])
            && (t.Boolean? ==> answer == [0x4F] + w[1..4] + [if w[4] != 0 then 1 else 0, 0, 0, 0])
  {
    hide Exchange, MakeValue, ToRaw, AsksForRestore, Address, Command;
    SameAddress(w, r);
    WriteAnswer(d, vars, w, i);
    ReadAnswer(d, Exchange(d, vars, w).0, r, i);
    BytesKept(w[4..8]);
  }

  lemma SameAddress(w: seq<Byte>, r: seq<Byte>)
    requires |w| == |r| == 8 && w[1..4] == r[1..4]
    ensures Address(w) == Address(r)
  {
    assert w[1..4][0] == r[1..4][0] && w[1..4][1] == r[1..4][1] && w[1..4][2] == r[1..4][2];
  }

  /** The bytes of a request that come back, by the type of the entry. */
  lemma BytesKept(data: seq<Byte>)
    requires |data| == 4
    ensures forall t: ValueType ::
              var raw := ToRaw(MakeValue(data, t));
              && (t.UInt8? || t.Int8? ==> raw == [data[0], 0, 0, 0])
              && (t.UInt16? || t.Int16? ==> raw == [data[0], data[1], 0, 0])
              && (t.UInt32? || t.Int32? || t.Float32? || t.Exec? ==> raw == data == [data[0], data[1], data[2], data[3]])
              && (t.Boolean? ==> raw == [if data[0] != 0 then 1 else 0, 0, 0, 0])
  {
    assert data == [data[0], data[1], data[2], data[3]];
  }
}
