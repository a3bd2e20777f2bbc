/**
 The CANopen object dictionary: typed values and their raw four bytes, entries ordered by index
 and subindex, and the search among them.
 */
module ObjectDictionary {
  import opened Wrappers
  import opened Bytes
  import opened Sorting
  import opened WordArith

  // ---- values ----

  datatype ValueType = Boolean | Int8 | Int16 | Int32 | UInt8 | UInt16 | UInt32 | Float32 | Exec | Text {
    function Size(): (n: nat)
      ensures 1 <= n <= 4
    {
      match this
      case Boolean => 1
      case Int8 => 1
      case Int16 => 2
      case Int32 => 4
      case UInt8 => 1
      case UInt16 => 2
      case UInt32 => 4
      case Float32 => 4
      case Exec => 4
      case Text => 4
    }

    /** The alternative of od_value that values of this declared type travel in. */
    function Carrier(): ValueType {
      if Exec? || Text? then UInt32 else this
    }
  }

  /** A value of one of od_value's alternatives, as its bytes in memory. */
  datatype Value = Value(kind: ValueType, bytes: seq<Byte>) {
    predicate Valid() {
      && kind == kind.Carrier()
      && |bytes| == kind.Size()
      && (kind.Boolean? ==> bytes[0] == 0 || bytes[0] == 1)
    }
  }

  /** make_od_value: the declared type decides how many of the four bytes count. */
  function MakeValue(raw: seq<Byte>, t: ValueType): (v: Value)
    requires |raw| == 4
    ensures v.Valid() && v.kind == t.Carrier()
  {
    match t
    case Boolean => Value(Boolean, [if raw[0] != 0 then 1 else 0])
    case Text => Value(UInt32, [0, 0, 0, 0])
    case _ => Value(t.Carrier(), raw[..t.Size()])
  }

  function ToRaw(v: Value): (raw: seq<Byte>)
    requires v.Valid()
    ensures |raw| == 4
  {
    v.bytes + seq(4 - v.kind.Size(), _ => 0)
  }

  /** The bytes of a request that a value of type t keeps. */
  function Kept(raw: seq<Byte>, t: ValueType): (r: seq<Byte>)
    requires |raw| == 4
    ensures |r| == 4
  {
    if t.Boolean? then [if raw[0] != 0 then 1 else 0, 0, 0, 0]
    else raw[..t.Size()] + seq(4 - t.Size(), _ => 0)
  }

  /** Typed and back: the low bytes come back, padded with zeros; booleans become 0 or 1. */
  lemma RawRoundTrip(raw: seq<Byte>, t: ValueType)
    requires |raw| == 4 && !t.Text?
    ensures ToRaw(MakeValue(raw, t)) == Kept(raw, t)
  {
  }

  /** Back and typed: every value survives the four bytes. */
  lemma ValueRoundTrip(v: Value)
    requires v.Valid()
    ensures MakeValue(ToRaw(v), v.kind) == v
  {
  }

  /** The number that bytes stand for, the lowest first. */
  function Number(bytes: seq<Byte>): nat {
    if bytes == [] then 0 else bytes[0] as nat + 256 * Number(bytes[1..])
  }

  lemma NumberOfOne(b: Byte)
    ensures Number([b]) == b as nat
  {
    assert [b][1..] == [];
  }

  lemma NumberOfTwo(s: seq<Byte>)
    requires |s| == 2
    ensures Number(s) == s[0] as nat + 256 * s[1] as nat
  {
    assert s[1..] == [s[1]];
    NumberOfOne(s[1]);
  }

  lemma NumberOfFour(s: seq<Byte>)
    requires |s| == 4
    ensures Number(s) == s[0] as nat + 256 * s[1] as nat + 0x1_0000 * Number(s[2..])
  {
    assert s[1..][1..] == s[2..];
  }

  lemma LowBytes(s: seq<Byte>)
    requires |s| == 4
    ensures Number(s[..1]) == Number(s) % 0x100 && Number(s[..2]) == Number(s) % 0x1_0000 && s[..4] == s
  {
    hide Number;
    NumberOfOne(s[0]);
    NumberOfTwo(s[..2]);
    NumberOfFour(s);
    assert s[..1] == [s[0]];
    LowPart(s[0] as nat, s[1] as nat, Number(s[2..]));
  }

  lemma LowPart(a: nat, b: nat, h: nat)
    requires a < 256 && b < 256
    ensures (a + 256 * b + 0x1_0000 * h) % 0x100 == a && (a + 256 * b + 0x1_0000 * h) % 0x1_0000 == a + 256 * b
  {
    var x := a + 256 * b + 0x1_0000 * h;
    ModUnique(x, 0x100, b + 256 * h, a);
    ModUnique(x, 0x1_0000, h, a + 256 * b);
  }

  lemma {:induction false} ZerosAdd(s: seq<Byte>, n: nat)
    ensures Number(s + seq(n, _ => 0)) == Number(s)
  {
    var z: seq<Byte> := seq(n, _ => 0);
    if s != [] {
      assert (s + z)[1..] == s[1..] + z;
      ZerosAdd(s[1..], n);
    } else if n > 0 {
      assert (s + z)[1..] == s + seq(n - 1, _ => 0);
      ZerosAdd(s, n - 1);
    }
  }

  /** A number in a request is reduced to the range of the declared type, and is the same again in a
      response; a boolean is whether its byte is not zero, and text is no number. */
  lemma NumbersReduced(raw: seq<Byte>, t: ValueType)
    requires |raw| == 4
    ensures var n := Number(MakeValue(raw, t).bytes);
            && (t.UInt8? || t.Int8? ==> n == Number(raw) % 0x100)
            && (t.UInt16? || t.Int16? ==> n == Number(raw) % 0x1_0000)
            && (t.UInt32? || t.Int32? || t.Float32? || t.Exec? ==> n == Number(raw))
            && (t.Boolean? ==> n == if raw[0] != 0 then 1 else 0)
            && (t.Text? ==> n == 0)
            && MakeValue(raw, t).kind == (if t.Exec? || t.Text? then UInt32 else t)
            && Number(ToRaw(MakeValue(raw, t))) == n
  {
    hide Number;
    var v := MakeValue(raw, t);
    ZerosAdd(v.bytes, 4 - v.kind.Size());
    LowBytes(raw);
    NumberOfOne(if raw[0] != 0 then 1 else 0);
    NumberOfFour([0, 0, 0, 0]);
    NumberOfTwo([0, 0, 0, 0][2..]);
  }

  // ---- entries ----

  datatype Key = Key(index: nat, subindex: nat)

  datatype Access = ReadWrite | ReadOnly | WriteOnly | Constant

  /** How an entry's value is reached: not at all, or as the variable numbered `id`. */
  datatype Accessor = NoAccessor | Variable(id: nat)

  datatype Object = Object(access: Access, dataType: ValueType, default: Option<Value>,
                           read: Accessor, write: Accessor) {
    predicate Readable() {
      !access.WriteOnly?
    }

    predicate Writable() {
      access.ReadWrite? || access.WriteOnly?
    }
  }

  datatype Entry = Entry(key: Key, obj: Object)

  predicate Less(a: Key, b: Key) {
    a.index < b.index || (a.index == b.index && a.subindex < b.subindex)
  }

  predicate Before(a: Entry, b: Entry) {
    Less(a.key, b.key)
  }

  /** Index and subindex together, as one number, are in ascending order. */
  lemma KeysAreNumbers(a: Key, b: Key)
    requires a.subindex < 0x100 && b.subindex < 0x100
    ensures Less(a, b) <==> 0x100 * a.index + a.subindex < 0x100 * b.index + b.subindex
    ensures 0x100 * a.index + a.subindex == 0x100 * b.index + b.subindex ==> a == b
  {
  }

  predicate Strict(d: seq<Entry>) {
    forall i, j :: 0 <= i < j < |d| ==> Less(d[i].key, d[j].key)
  }

  /** With distinct keys there is one sorted dictionary, however it is sorted. */
  lemma OneSorting(d: seq<Entry>, s: seq<Entry>)
    requires Ascending(Before, s) && multiset(s) == multiset(d) && Strict(Sorted(Before, d))
    ensures s == Sorted(Before, d)
  {
    SortedAscending(Before, d);
    SortedUnique(Before, Sorted(Before, d), s);
  }

  /** The check made after sorting: neighbours have different keys. */
  predicate NoAdjacentDuplicates(d: seq<Entry>) {
    forall i :: 0 <= i < |d| - 1 ==> d[i].key != d[i + 1].key
  }

  /** In an ascending dictionary it is enough to compare neighbours. */
  lemma AdjacentCheckSuffices(d: seq<Entry>)
    requires Ascending(Before, d)
    ensures NoAdjacentDuplicates(d) <==> Strict(d)
    ensures Strict(d) <==> forall i, j :: 0 <= i < j < |d| ==> d[i].key != d[j].key
  {
    if NoAdjacentDuplicates(d) {
      forall i, j | 0 <= i < j < |d| ensures Less(d[i].key, d[j].key) {
        StrictBetween(d, i, j);
      }
    }
  }

  lemma StrictBetween(d: seq<Entry>, i: nat, j: nat)
    requires Ascending(Before, d) && NoAdjacentDuplicates(d) && i < j < |d|
    ensures Less(d[i].key, d[j].key)
  {
    assert d[i].key != d[i + 1].key && !Less(d[i + 1].key, d[i].key);
    assert i + 1 < j ==> !Less(d[j].key, d[i + 1].key);
  }

  /** The first place of a key, by looking at every entry. */
  function Lookup(d: seq<Entry>, key: Key): (r: Option<nat>)
    ensures r.Some? ==> r.value < |d| && d[r.value].key == key
    ensures r.Some? ==> forall i :: 0 <= i < r.value ==> d[i].key != key
    ensures r.None? ==> forall i :: 0 <= i < |d| ==> d[i].key != key
  {
    if d == [] then None
    else
      match Lookup(d[..|d| - 1], key)
      case Some(i) => Some(i)
      case None => if d[|d| - 1].key == key then Some(|d| - 1) else None
  }

  /** lower_bound: the first entry not below the key, found by halving. */
  method LowerBound(d: array<Entry>, key: Key) returns (r: nat)
    requires Ascending(Before, d[..])
    ensures r <= d.Length
    ensures forall i :: 0 <= i < r ==> Less(d[i].key, key)
    ensures forall i :: r <= i < d.Length ==> !Less(d[i].key, key)
  {
    r := 0;
    var count: nat := d.Length;
    while count > 0
      invariant r + count <= d.Length
      invariant forall i :: 0 <= i < r ==> Less(d[i].key, key)
      invariant forall i :: r + count <= i < d.Length ==> !Less(d[i].key, key)
    {
      var half := count / 2;
      ghost var m := d[r + half];
      assert forall i :: 0 <= i < r + half ==> !Less(m.key, d[..][i].key);
      assert forall i :: r + half < i < d.Length ==> !Less(d[..][i].key, m.key);
      if Less(d[r + half].key, key) {
        r, count := r + half + 1, count - half - 1;
      } else {
        count := half;
      }
    }
  }

  /** find: an entry exactly when its key exists, and the first one with it. */
  method Find(d: array<Entry>, key: Key) returns (r: Option<nat>)
    requires Ascending(Before, d[..])
    ensures r == Lookup(d[..], key)
  {
    var i := LowerBound(d, key);
    var s := Lookup(d[..], key);
    assert forall j :: 0 <= j < i ==> d[..][j].key != key;
    if i == d.Length || d[i].key != key {
      assert forall j :: 0 <= j < d.Length ==> d[..][j].key != key;
      return None;
    }
    assert d[..][i].key == key;
    return Some(i);
  }

  /** With distinct keys, that entry is the only one. */
  lemma LookupUnique(d: seq<Entry>, i: nat)
    requires Strict(d) && i < |d|
    ensures Lookup(d, d[i].key) == Some(i)
  {
    var r := Lookup(d, d[i].key);
    assert d[r.value].key == d[i].key;
  }
}
