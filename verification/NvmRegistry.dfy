/**
 The parameter registry over a byte-addressed storage that may fail, or stop, at any byte.
 The methods are those of registry; the lemmas say that in the absence of faults it is a map
 from parameters to values, and what an interrupted set leaves behind.
 */
module NvmRegistry {
  import opened Bytes
  import opened Crc32
  import opened NvmLayout
  import opened NvmRecord
  import opened Wrappers

  // ---- storage ----

  /** How one operation of the backend turns out; a failing write has stored `cut` bytes. */
  datatype Outcome = Done | Failed(error: Error, cut: nat)

  /** The k-th of the operations to come. */
  function Upcoming(plan: seq<Outcome>, k: nat): Outcome {
    if k < |plan| then plan[k] else Done
  }

  /** The error of a series of so many operations that stops at its first fault, if there is one ... */
  function FirstError(plan: seq<Outcome>, calls: nat): Option<Error> {
    if calls == 0 || plan == [] then None
    else if plan[0].Failed? then Some(plan[0].error)
    else FirstError(plan[1..], calls - 1)
  }

  /** ... and the plan afterwards. */
  function Rest(plan: seq<Outcome>, calls: nat): seq<Outcome> {
    if calls == 0 || plan == [] then plan
    else if plan[0].Failed? then plan[1..]
    else Rest(plan[1..], calls - 1)
  }

  /** What a series meets: the fault at place i, if all operations before it succeed ... */
  lemma {:induction false} FaultMet(plan: seq<Outcome>, calls: nat, i: nat)
    requires i < calls && i < |plan| && plan[i].Failed? && forall j :: 0 <= j < i ==> plan[j].Done?
    ensures FirstError(plan, calls) == Some(plan[i].error) && Rest(plan, calls) == plan[i + 1..]
  {
    if i > 0 {
      FaultMet(plan[1..], calls - 1, i - 1);
    }
  }

  /** ... and none if all succeed. */
  lemma {:induction false} NoFaultMet(plan: seq<Outcome>, calls: nat)
    requires forall j :: 0 <= j < calls && j < |plan| ==> plan[j].Done?
    ensures FirstError(plan, calls) == None && Rest(plan, calls) == if calls <= |plan| then plan[calls..] else []
  {
    if calls > 0 && plan != [] {
      NoFaultMet(plan[1..], calls - 1);
    }
  }

  lemma {:induction false} TwoSeries(plan: seq<Outcome>, a: nat, b: nat)
    ensures FirstError(plan, a).None? ==>
              FirstError(plan, a + b) == FirstError(Rest(plan, a), b) && Rest(plan, a + b) == Rest(Rest(plan, a), b)
    ensures FirstError(plan, a).Some? ==>
              FirstError(plan, a + b) == FirstError(plan, a) && Rest(plan, a + b) == Rest(plan, a)
  {
    if a > 0 && plan != [] && plan[0].Done? {
      TwoSeries(plan[1..], a - 1, b);
    }
  }

  lemma SeriesOfNone(plan: seq<Outcome>)
    ensures FirstError(plan, 0) == None && Rest(plan, 0) == plan
  {
  }

  /** How a series of operations turned out. */
  predicate Reported<T>(plan: seq<Outcome>, calls: nat, r: Result<T, Error>) {
    FirstError(plan, calls) == match r case Ok(_) => None case Err(e) => Some(e)
  }

  lemma OneCall(plan: seq<Outcome>)
    ensures FirstError(plan, 1) == match Upcoming(plan, 0) case Done => None case Failed(e, _) => Some(e)
    ensures Rest(plan, 1) == if plan == [] then [] else plan[1..]
  {
    if plan != [] && plan[0].Done? {
      assert FirstError(plan[1..], 0) == None && Rest(plan[1..], 0) == plan[1..];
    }
  }

  /** A backend whose operations turn out as planned; with no plan left they succeed. */
  class Storage {
    const bytes: array<Byte>
    var plan: seq<Outcome>

    constructor (capacity: nat, plan: seq<Outcome>)
      ensures fresh(bytes) && bytes.Length == capacity && this.plan == plan
    {
      bytes := new Byte[capacity](_ => 0);
      this.plan := plan;
    }

    /** No operation to come will fail. */
    predicate FaultFree()
      reads this
    {
      forall i :: 0 <= i < |plan| ==> plan[i] == Done
    }

    method Next() returns (o: Outcome)
      modifies this
      ensures o == Upcoming(old(plan), 0) && plan == if old(plan) == [] then [] else old(plan)[1..]
    {
      if plan == [] {
        return Done;
      }
      o := plan[0];
      plan := plan[1..];
    }

    method Read(addr: nat, n: nat) returns (r: Result<seq<Byte>, Error>)
      requires addr + n <= bytes.Length
      modifies this
      ensures r == match Upcoming(old(plan), 0)
                   case Done => Ok(bytes[addr..addr + n])
                   case Failed(error, _) => Err(error)
      ensures plan == if old(plan) == [] then [] else old(plan)[1..]
    {
      var o := Next();
      if o.Failed? {
        return Err(o.error);
      }
      return Ok(bytes[addr..addr + n]);
    }

    /** Stores the bytes in order, one at a time. */
    method Write(addr: nat, data: seq<Byte>) returns (r: Result<(), Error>, ghost n: nat)
      requires addr + |data| <= bytes.Length
      modifies this, bytes
      ensures n <= |data| && (r.Ok? ==> n == |data|)
      ensures bytes[..] == Written(old(bytes[..]), addr, data, n)
      ensures Reported(old(plan), 1, r) && plan == Rest(old(plan), 1)
      ensures old(FaultFree()) ==> r.Ok? && FaultFree()
    {
      var o := Next();
      hide Written;
      WrittenNone(bytes[..], addr, data);
      var count := if o.Done? || o.cut > |data| then |data| else o.cut;
      for i := 0 to count
        invariant bytes[..] == Written(old(bytes[..]), addr, data, i)
        invariant plan == (if old(plan) == [] then [] else old(plan)[1..])
      {
        WrittenStep(old(bytes[..]), addr, data, i);
        bytes[addr + i] := data[i];
      }
      r := if o.Done? then Ok(()) else Err(o.error);
      OneCall(old(plan));
      return r, count;
    }
  }

  // ---- the registry on memory as a byte string ----

  ghost predicate Fits(l: Layout, mem: seq<Byte>) {
    l.HashesDistinct() && l.DefaultsFit() && l.End() <= |mem|
  }

  function RecordAt(l: Layout, mem: seq<Byte>, i: nat): (r: seq<Byte>)
    requires i < |l.params| && l.OffsetOf(i) + l.params[i].size + OVERHEAD <= |mem|
    ensures |r| == l.params[i].size + 8
  {
    mem[l.OffsetOf(i)..l.OffsetOf(i) + l.params[i].size + OVERHEAD]
  }

  lemma UpToEnd(s: seq<Byte>, x: nat)
    requires x <= |s|
    ensures s[x..] == s[x..|s|]
  {
  }

  lemma SliceOfSlice(s: seq<Byte>, low: nat, high: nat, x: nat, y: nat)
    requires low <= high <= |s| && x <= y <= high - low
    ensures s[low..high][x..y] == s[low + x..low + y]
  {
    var a := s[low..high];
    forall j | 0 <= j < y - x ensures a[x..y][j] == s[low + x..low + y][j] {
      assert a[x + j] == s[low + x + j];
    }
  }

  lemma PartsOfSlice(mem: seq<Byte>, off: nat, size: nat)
    requires off + size + 8 <= |mem|
    ensures var r := mem[off..off + size + 8];
            && r[..4] == mem[off..off + 4]
            && r[4..4 + size] == mem[off + 4..off + 4 + size]
            && r[4 + size..] == mem[off + 4 + size..off + 8 + size]
  {
    SliceOfSlice(mem, off, off + size + 8, 0, 4);
    SliceOfSlice(mem, off, off + size + 8, 4, 4 + size);
    SliceOfSlice(mem, off, off + size + 8, 4 + size, size + 8);
    UpToEnd(mem[off..off + size + 8], 4 + size);
  }

  lemma RecordParts(l: Layout, mem: seq<Byte>, i: nat)
    requires i < |l.params| && l.OffsetOf(i) + l.params[i].size + OVERHEAD <= |mem|
    ensures var (off, size, r) := (l.OffsetOf(i), l.params[i].size, RecordAt(l, mem, i));
            && r[..4] == mem[off..off + 4]
            && r[4..4 + size] == mem[off + 4..off + 4 + size]
            && r[4 + size..] == mem[off + 4 + size..off + 8 + size]
  {
    hide Layout.OffsetOf;
    var off, size := l.OffsetOf(i), l.params[i].size;
    var r := RecordAt(l, mem, i);
    var whole := mem[off..off + size + 8];
    assert r == whole;
    PartsOfSlice(mem, off, size);
    assert r[..4] == whole[..4] && r[4..4 + size] == whole[4..4 + size] && r[4 + size..] == whole[4 + size..];
  }

  ghost function Lookup(l: Layout, mem: seq<Byte>, i: nat): Result<seq<Byte>, Error>
    requires Fits(l, mem) && i < |l.params|
  {
    l.Frames(i, i + 1);
    Decode(l.params[i].hash, l.params[i].size, RecordAt(l, mem, i))
  }

  /** Memory after a set of parameter i that got as far as k bytes. */
  ghost function SetUpTo(l: Layout, mem: seq<Byte>, i: nat, value: seq<Byte>, k: nat): (m: seq<Byte>)
    requires Fits(l, mem) && i < |l.params| && |value| == l.params[i].size && k <= |value| + OVERHEAD
    ensures |m| == |mem|
  {
    l.Frames(i, i + 1);
    Written(mem, l.OffsetOf(i), Record(l.params[i].hash, value), k)
  }

  ghost function SetWhole(l: Layout, mem: seq<Byte>, i: nat, value: seq<Byte>): (m: seq<Byte>)
    requires Fits(l, mem) && i < |l.params| && |value| == l.params[i].size
    ensures |m| == |mem|
  {
    SetUpTo(l, mem, i, value, |value| + OVERHEAD)
  }

  ghost function ResetFirst(l: Layout, mem: seq<Byte>, n: nat): (m: seq<Byte>)
    requires Fits(l, mem) && n <= |l.params|
    ensures |m| == |mem|
  {
    if n == 0 then mem else SetWhole(l, ResetFirst(l, mem, n - 1), n - 1, l.params[n - 1].default)
  }

  function Erased(l: Layout, mem: seq<Byte>, n: nat): seq<Byte>
    requires l.base + n <= |mem|
  {
    mem[..l.base] + seq(n, _ => 0) + mem[l.base + n..]
  }

  // ---- the registry object ----

  class Registry {
    const storage: Storage
    const l: Layout

    ghost predicate Valid()
      reads storage.bytes
    {
      Fits(l, storage.bytes[..])
    }

    constructor (storage: Storage, l: Layout)
      requires l.HashesDistinct() && l.DefaultsFit() && l.End() <= storage.bytes.Length
      ensures Valid() && this.storage == storage && this.l == l
    {
      this.storage := storage;
      this.l := l;
    }

    method Get(i: nat) returns (r: Result<seq<Byte>, Error>)
      requires Valid() && i < |l.params|
      modifies storage
      ensures old(storage.FaultFree()) ==> r == Lookup(l, storage.bytes[..], i) && storage.FaultFree()
      ensures r.Ok? ==> r == Lookup(l, storage.bytes[..], i)
      ensures var (p, off) := (old(storage.plan), l.OffsetOf(i));
              && off + 4 <= storage.bytes.Length
              && r == if Upcoming(p, 0).Failed? then Err(Upcoming(p, 0).error)
                      else if FromBytes(storage.bytes[off..off + 4]) != l.params[i].hash then Err(HashMismatch)
                      else if Upcoming(p, 1).Failed? then Err(Upcoming(p, 1).error)
                      else if Upcoming(p, 2).Failed? then Err(Upcoming(p, 2).error)
                      else Lookup(l, storage.bytes[..], i)
    {
      hide Crc, FromBytes, ToBytes, RecordAt, Layout.OffsetOf;
      l.Frames(i, i + 1);
      var p := l.params[i];
      var off := OffsetOf(l, i);
      RecordParts(l, storage.bytes[..], i);
      ghost var mem := storage.bytes[..];
      var h := storage.Read(off, 4);
      if h.Err? { return Err(h.error); }
      assert h.value == mem[off..off + 4];
      if FromBytes(h.value) != p.hash { return Err(HashMismatch); }
      var val := storage.Read(off + 4, p.size);
      if val.Err? { return Err(val.error); }
      assert val.value == mem[off + 4..off + 4 + p.size];
      var stored := storage.Read(off + 4 + p.size, 4);
      if stored.Err? { return Err(stored.error); }
      assert stored.value == mem[off + 4 + p.size..off + 8 + p.size];
      var crc := Compute(ToBytes(p.hash), val.value);
      if FromBytes(stored.value) != crc { return Err(CrcMismatch); }
      return Ok(val.value);
    }
  
    /** A set, whatever goes wrong during it, leaves a prefix of the new record over the old
        bytes; it succeeds only with the whole record written. */
    method Set(i: nat, val: seq<Byte>) returns (r: Result<(), Error>, ghost k: nat)
      requires Valid() && i < |l.params| && |val| == l.params[i].size
      modifies storage, storage.bytes
      ensures Valid()
      ensures k <= |val| + OVERHEAD && (r.Ok? ==> k == |val| + OVERHEAD)
      ensures storage.bytes[..] == SetUpTo(l, old(storage.bytes[..]), i, val, k)
      ensures Reported(old(storage.plan), 3, r) && storage.plan == Rest(old(storage.plan), 3)
      ensures old(storage.FaultFree()) ==> r.Ok? && storage.FaultFree()
    {
      hide Crc, Written, Record, ToBytes, FirstError, Rest;
      TwoSeries(storage.plan, 1, 2);
      TwoSeries(Rest(storage.plan, 1), 1, 1);
      l.Frames(i, i + 1);
      var p := l.params[i];
      var off := OffsetOf(l, i);
      ghost var mem0 := storage.bytes[..];
      var r1, n1 := storage.Write(off, ToBytes(p.hash));
      ghost var mem1 := storage.bytes[..];
      WrittenNone(mem1, off + 4, val);
      WrittenNone(mem1, off + 4 + p.size, ToBytes(Checksum(p.hash, val)));
      WrittenParts(mem0, mem1, mem1, mem1, off, p.hash, val, n1, 0, 0);
      if r1.Err? { return r1, n1; }
      var r2, n2 := storage.Write(off + 4, val);
      ghost var mem2 := storage.bytes[..];
      WrittenNone(mem2, off + 4 + p.size, ToBytes(Checksum(p.hash, val)));
      WrittenParts(mem0, mem1, mem2, mem2, off, p.hash, val, 4, n2, 0);
      if r2.Err? { return r2, 4 + n2; }
      var crc := Compute(ToBytes(p.hash), val);
      var r3, n3 := storage.Write(off + 4 + p.size, ToBytes(crc));
      WrittenParts(mem0, mem1, mem2, storage.bytes[..], off, p.hash, val, 4, p.size, n3);
      return r3, 4 + p.size + n3;
    }

    method Reset(i: nat) returns (r: Result<(), Error>, ghost k: nat)
      requires Valid() && i < |l.params|
      modifies storage, storage.bytes
      ensures Valid()
      ensures k <= l.params[i].size + OVERHEAD && (r.Ok? ==> k == l.params[i].size + OVERHEAD)
      ensures storage.bytes[..] == SetUpTo(l, old(storage.bytes[..]), i, l.params[i].default, k)
      ensures Reported(old(storage.plan), 3, r) && storage.plan == Rest(old(storage.plan), 3)
      ensures old(storage.FaultFree()) ==> r.Ok? && storage.FaultFree()
    {
      r, k := Set(i, l.params[i].default);
    }

    /** Resets the parameters in order and stops at the first error: the first n are whole, the
        next is cut at k bytes, the others are untouched. */
    method ResetAll() returns (r: Result<(), Error>, ghost n: nat, ghost k: nat)
      requires Valid()
      modifies storage, storage.bytes
      ensures Valid()
      ensures n <= |l.params| && (r.Ok? ==> n == |l.params|)
      ensures Reported(old(storage.plan), 3 * |l.params|, r)
      ensures r.Ok? ==> storage.bytes[..] == ResetFirst(l, old(storage.bytes[..]), |l.params|)
      ensures r.Err? ==>
                && n < |l.params| && k <= l.params[n].size + OVERHEAD
                && storage.bytes[..] ==
                     SetUpTo(l, ResetFirst(l, old(storage.bytes[..]), n), n, l.params[n].default, k)
      ensures old(storage.FaultFree()) ==> r.Ok? && storage.FaultFree()
    {
      hide SetUpTo, Written, Layout.OffsetOf, FirstError, Rest;
      SeriesOfNone(storage.plan);
      r, n, k := Ok(()), 0, 0;
      for i := 0 to |l.params|
        invariant Valid() && n <= i && (r.Ok? ==> n == i)
        invariant r.Ok? ==> storage.bytes[..] == ResetFirst(l, old(storage.bytes[..]), i)
        invariant r.Err? ==>
                    && n < |l.params| && k <= l.params[n].size + OVERHEAD
                    && storage.bytes[..] ==
                         SetUpTo(l, ResetFirst(l, old(storage.bytes[..]), n), n, l.params[n].default, k)
        invariant old(storage.FaultFree()) ==> r.Ok? && storage.FaultFree()
        invariant Reported(old(storage.plan), 3 * i, r) && storage.plan == Rest(old(storage.plan), 3 * i)
      {
        TwoSeries(old(storage.plan), 3 * i, 3);
        if r.Ok? {
          r, k := Reset(i);
          n := if r.Ok? then i + 1 else i;
        }
      }
    }

    /** Clears the records byte by byte and stops at the first error. */
    method Erase() returns (r: Result<(), Error>, ghost n: nat)
      requires Valid()
      modifies storage, storage.bytes
      ensures Valid()
      ensures l.base + n <= l.End() && (r.Ok? ==> l.base + n == l.End())
      ensures Reported(old(storage.plan), l.End() - l.base, r)
      ensures storage.bytes[..] == Erased(l, old(storage.bytes[..]), n)
      ensures old(storage.FaultFree()) ==> r.Ok? && storage.FaultFree()
    {
      hide Written, Erased, FirstError, Rest;
      SeriesOfNone(storage.plan);
      var size := Size(l);
      n := 0;
      ErasedNone(l, storage.bytes[..]);
      for off := l.base to l.base + size
        invariant n == off - l.base
        invariant FirstError(old(storage.plan), n) == None && storage.plan == Rest(old(storage.plan), n)
        invariant storage.bytes[..] == Erased(l, old(storage.bytes[..]), n)
        invariant old(storage.FaultFree()) ==> storage.FaultFree()
      {
        TwoSeries(old(storage.plan), n, 1);
        TwoSeries(old(storage.plan), n + 1, size - n - 1);
        var w, c := storage.Write(off, [0]);
        ErasedStep(l, old(storage.bytes[..]), n, c);
        n := n + c;
        if w.Err? { return w, n; }
      }
      return Ok(()), n;
    }
  }

  lemma ErasedNone(l: Layout, mem: seq<Byte>)
    requires l.base <= |mem|
    ensures Erased(l, mem, 0) == mem
  {
  }

  lemma ErasedStep(l: Layout, mem: seq<Byte>, n: nat, c: nat)
    requires c <= 1 && l.base + n + 1 <= |mem|
    ensures |Erased(l, mem, n)| == |mem|
    ensures Written(Erased(l, mem, n), l.base + n, [0], c) == Erased(l, mem, n + c)
  {
    var m := Erased(l, mem, n);
    if c == 0 {
      WrittenNone(m, l.base + n, [0]);
    } else {
      WrittenAt(m, l.base + n, [0], 1);
      hide Written;
      assert Written(m, l.base + n, [0], 1) == Erased(l, mem, n + 1);
    }
  }

  lemma RecordAtIndex(hash: bv32, val: seq<Byte>)
    ensures var (h, c, rec) := (ToBytes(hash), ToBytes(Checksum(hash, val)), Record(hash, val));
            && |rec| == |val| + 8
            && forall j :: 0 <= j < |rec| ==>
                 rec[j] == if j < 4 then h[j] else if j < 4 + |val| then val[j - 4] else c[j - 4 - |val|]
  {
    hide Checksum, ToBytes;
  }

  /** The three writes of set, one after the other, make one write of the record. */
  lemma WrittenParts(mem0: seq<Byte>, mem1: seq<Byte>, mem2: seq<Byte>, mem3: seq<Byte>,
                     off: nat, hash: bv32, val: seq<Byte>, n1: nat, n2: nat, n3: nat)
    requires off + |val| + 8 <= |mem0|
    requires n1 <= 4 && n2 <= |val| && n3 <= 4 && (n2 > 0 ==> n1 == 4) && (n3 > 0 ==> n1 == 4 && n2 == |val|)
    requires mem1 == Written(mem0, off, ToBytes(hash), n1)
    requires mem2 == Written(mem1, off + 4, val, n2)
    requires mem3 == Written(mem2, off + 4 + |val|, ToBytes(Checksum(hash, val)), n3)
    ensures mem3 == Written(mem0, off, Record(hash, val), n1 + n2 + n3)
  {
    hide Checksum, ToBytes, Record, Written;
    var h, c, rec := ToBytes(hash), ToBytes(Checksum(hash, val)), Record(hash, val);
    RecordAtIndex(hash, val);
    WrittenAt(mem0, off, h, n1);
    WrittenAt(mem1, off + 4, val, n2);
    WrittenAt(mem2, off + 4 + |val|, c, n3);
    WrittenAt(mem0, off, rec, n1 + n2 + n3);
    assert mem3 == Written(mem0, off, rec, n1 + n2 + n3);
  }

  // ---- a fault-free registry is a map ----

  /** A set leaves every byte outside its own record alone. */
  lemma SetStaysInFrame(l: Layout, mem: seq<Byte>, i: nat, value: seq<Byte>, k: nat)
    requires Fits(l, mem) && i < |l.params| && |value| == l.params[i].size && k <= |value| + OVERHEAD
    ensures l.base <= l.OffsetOf(i) && l.OffsetOf(i) + l.params[i].size + OVERHEAD <= l.End() <= |mem|
    ensures var m := SetUpTo(l, mem, i, value, k);
            forall j :: 0 <= j < |mem| && !(l.OffsetOf(i) <= j < l.OffsetOf(i) + l.params[i].size + OVERHEAD)
              ==> m[j] == mem[j]
  {
    hide Record;
    l.Frames(i, i + 1);
  }

  /** The records of the other parameters are among those bytes. */
  lemma SetKeepsRecord(l: Layout, mem: seq<Byte>, i: nat, value: seq<Byte>, k: nat, j: nat)
    requires Fits(l, mem) && i < |l.params| && |value| == l.params[i].size && k <= |value| + OVERHEAD
    requires j < |l.params| && j != i
    ensures l.OffsetOf(j) + l.params[j].size + OVERHEAD <= |mem|
    ensures RecordAt(l, SetUpTo(l, mem, i, value, k), j) == RecordAt(l, mem, j)
  {
    hide SetUpTo, Fits;
    SetStaysInFrame(l, mem, i, value, k);
    RecordsApart(l, i, j);
    SameSlice(SetUpTo(l, mem, i, value, k), mem, l.OffsetOf(j), l.OffsetOf(j) + l.params[j].size + OVERHEAD);
  }

  lemma RecordsApart(l: Layout, i: nat, j: nat)
    requires i < |l.params| && j < |l.params| && j != i
    ensures l.OffsetOf(j) + l.params[j].size + OVERHEAD <= l.End()
    ensures || l.OffsetOf(j) + l.params[j].size + OVERHEAD <= l.OffsetOf(i)
            || l.OffsetOf(i) + l.params[i].size + OVERHEAD <= l.OffsetOf(j)
  {
    l.Frames(j, j + 1);
    if i < j {
      l.Frames(i, j);
    } else {
      l.Frames(j, i);
    }
  }

  lemma SameSlice(a: seq<Byte>, b: seq<Byte>, low: nat, high: nat)
    requires |a| == |b| && low <= high <= |a| && forall x :: low <= x < high ==> a[x] == b[x]
    ensures a[low..high] == b[low..high]
  {
  }

  /** A whole set stores the record of its value. */
  lemma SetStoresRecord(l: Layout, mem: seq<Byte>, i: nat, value: seq<Byte>)
    requires Fits(l, mem) && i < |l.params| && |value| == l.params[i].size
    ensures l.OffsetOf(i) + l.params[i].size + OVERHEAD <= |mem|
    ensures RecordAt(l, SetWhole(l, mem, i, value), i) == Record(l.params[i].hash, value)
    ensures Lookup(l, SetWhole(l, mem, i, value), i) == Ok(value)
  {
    hide Record, Decode;
    l.Frames(i, i + 1);
    var rec := Record(l.params[i].hash, value);
    assert RecordAt(l, SetWhole(l, mem, i, value), i) == rec;
    DecodeRecord(l.params[i].hash, value);
  }

  datatype Operation = SetTo(i: nat, value: seq<Byte>) | ResetOne(i: nat) | ResetEvery

  ghost predicate Allowed(l: Layout, op: Operation) {
    match op
    case SetTo(i, v) => i < |l.params| && |v| == l.params[i].size
    case ResetOne(i) => i < |l.params|
    case ResetEvery => true
  }

  ghost function Apply(l: Layout, mem: seq<Byte>, op: Operation): (m: seq<Byte>)
    requires Fits(l, mem) && Allowed(l, op)
    ensures |m| == |mem|
  {
    match op
    case SetTo(i, v) => SetWhole(l, mem, i, v)
    case ResetOne(i) => SetWhole(l, mem, i, l.params[i].default)
    case ResetEvery => ResetFirst(l, mem, |l.params|)
  }

  ghost function ApplyAll(l: Layout, mem: seq<Byte>, ops: seq<Operation>): (m: seq<Byte>)
    requires Fits(l, mem) && forall op <- ops :: Allowed(l, op)
    ensures |m| == |mem|
  {
    if ops == [] then mem else Apply(l, ApplyAll(l, mem, ops[..|ops| - 1]), ops[|ops| - 1])
  }

  ghost function DefaultsUpTo(l: Layout, n: nat): map<nat, seq<Byte>>
    requires n <= |l.params|
  {
    map i: nat | 0 <= i < n :: l.params[i].default
  }

  /** What the operations mean on a plain map. */
  ghost function Effect(l: Layout, m: map<nat, seq<Byte>>, op: Operation): map<nat, seq<Byte>>
    requires Allowed(l, op)
  {
    match op
    case SetTo(i, v) => m[i := v]
    case ResetOne(i) => m[i := l.params[i].default]
    case ResetEvery => DefaultsUpTo(l, |l.params|)
  }

  ghost function EffectAll(l: Layout, ops: seq<Operation>): map<nat, seq<Byte>>
    requires forall op <- ops :: Allowed(l, op)
  {
    if ops == [] then map[] else Effect(l, EffectAll(l, ops[..|ops| - 1]), ops[|ops| - 1])
  }

  /** mem agrees with the map m: the parameters in it read back as there, and every other byte is
      as in `before`. */
  ghost predicate Represents(l: Layout, before: seq<Byte>, mem: seq<Byte>, m: map<nat, seq<Byte>>)
    requires Fits(l, before)
  {
    && |mem| == |before|
    && (forall i <- m :: i < |l.params| && Lookup(l, mem, i) == Ok(m[i]))
    && (forall i :: 0 <= i < |l.params| && i !in m ==> SameRecord(l, before, mem, i))
    && (forall j :: 0 <= j < |mem| && !(l.base <= j < l.End()) ==> mem[j] == before[j])
  }

  ghost predicate SameRecord(l: Layout, before: seq<Byte>, mem: seq<Byte>, i: nat)
    requires Fits(l, before) && |mem| == |before| && i < |l.params|
  {
    l.Frames(i, i + 1);
    RecordAt(l, mem, i) == RecordAt(l, before, i)
  }

  lemma SetRefines(l: Layout, before: seq<Byte>, mem: seq<Byte>, m: map<nat, seq<Byte>>, i: nat, value: seq<Byte>)
    requires Fits(l, before) && Represents(l, before, mem, m)
    requires i < |l.params| && |value| == l.params[i].size
    ensures Represents(l, before, SetWhole(l, mem, i, value), m[i := value])
  {
    hide Decode, SetUpTo, RecordAt;
    SetStoresRecord(l, mem, i, value);
    SetStaysInFrame(l, mem, i, value, |value| + OVERHEAD);
    var mem' := SetWhole(l, mem, i, value);
    forall j | 0 <= j < |l.params| && j != i
      ensures Lookup(l, mem', j) == Lookup(l, mem, j)
      ensures SameRecord(l, before, mem, j) ==> SameRecord(l, before, mem', j)
    {
      SetKeepsRecord(l, mem, i, value, |value| + OVERHEAD, j);
    }
  }

  lemma {:induction false} ResetAllRefines(l: Layout, before: seq<Byte>, mem: seq<Byte>, m: map<nat, seq<Byte>>, n: nat)
    requires Fits(l, before) && Fits(l, mem) && Represents(l, before, mem, m) && n <= |l.params|
    ensures Represents(l, before, ResetFirst(l, mem, n),
                       m + DefaultsUpTo(l, n))
  {
    hide Decode, SetUpTo, RecordAt, Represents;
    if n == 0 {
      assert m + DefaultsUpTo(l, n) == m;
    } else {
      var m' := m + DefaultsUpTo(l, n - 1);
      ResetAllRefines(l, before, mem, m, n - 1);
      SetRefines(l, before, ResetFirst(l, mem, n - 1), m', n - 1, l.params[n - 1].default);
      assert m'[n - 1 := l.params[n - 1].default] == m + DefaultsUpTo(l, n);
    }
  }

  /** Defaults for every parameter leave nothing of an earlier map. */
  lemma DefaultsCover(l: Layout, mem: seq<Byte>, before: seq<Byte>, m: map<nat, seq<Byte>>)
    requires Fits(l, before) && Represents(l, before, mem, m)
    ensures m + DefaultsUpTo(l, |l.params|) == DefaultsUpTo(l, |l.params|)
  {
  }

  /** Over any sequence of fault-free operations the registry is the map they describe: get of
      each parameter set so far returns the last value given, and the records of the others and
      all memory outside [base, base + size) are as they were. */
  lemma {:induction false} RegistryRefinesMap(l: Layout, mem: seq<Byte>, ops: seq<Operation>)
    requires Fits(l, mem) && forall op <- ops :: Allowed(l, op)
    ensures Represents(l, mem, ApplyAll(l, mem, ops), EffectAll(l, ops))
    decreases |ops|
  {
    hide Decode, SetUpTo, RecordAt;
    if ops != [] {
      var most, op := ops[..|ops| - 1], ops[|ops| - 1];
      assert op in ops;
      RegistryRefinesMap(l, mem, most);
      var now, m := ApplyAll(l, mem, most), EffectAll(l, most);
      match op
      case SetTo(i, v) => SetRefines(l, mem, now, m, i, v);
      case ResetOne(i) => SetRefines(l, mem, now, m, i, l.params[i].default);
      case ResetEvery =>
        ResetAllRefines(l, mem, now, m, |l.params|);
        DefaultsCover(l, now, mem, m);
    }
  }

  /** The first n bytes of the records are zero, and all others as they were. */
  lemma ErasedAt(l: Layout, mem: seq<Byte>, n: nat)
    requires l.base + n <= |mem|
    ensures var m := Erased(l, mem, n);
            |m| == |mem| && forall j :: 0 <= j < |mem| ==> m[j] == if l.base <= j < l.base + n then 0 else mem[j]
  {
  }

  lemma ErasedHash(l: Layout, m: seq<Byte>, i: nat)
    requires i < |l.params| && l.base <= l.OffsetOf(i) && l.OffsetOf(i) + l.params[i].size + OVERHEAD <= l.End() <= |m|
    requires forall j :: l.base <= j < l.End() ==> m[j] == 0
    ensures RecordAt(l, m, i)[..4] == [0, 0, 0, 0]
  {
    hide Layout.OffsetOf, RecordAt;
    RecordParts(l, m, i);
    var off := l.OffsetOf(i);
    assert m[off] == m[off + 1] == m[off + 2] == m[off + 3] == 0;
    assert m[off..off + 4] == [0, 0, 0, 0];
  }

  /** An erase makes exactly the parameters with a non-zero hash unreadable by hash. */
  lemma ErasedIsForeign(l: Layout, mem: seq<Byte>, i: nat)
    requires Fits(l, mem) && i < |l.params|
    ensures l.base <= l.End()
    ensures var m := Erased(l, mem, l.End() - l.base);
            |m| == |mem| && (Lookup(l, m, i) == Err(HashMismatch) <==> l.params[i].hash != 0)
  {
    l.Frames(i, i + 1);
    hide Checksum, Erased, Layout.OffsetOf, RecordAt;
    ErasedAt(l, mem, l.End() - l.base);
    ErasedHash(l, Erased(l, mem, l.End() - l.base), i);
    ZeroBytes();
  }

  lemma ErasedRecord(l: Layout, m: seq<Byte>, i: nat)
    requires i < |l.params| && l.base <= l.OffsetOf(i) && l.OffsetOf(i) + l.params[i].size + OVERHEAD <= l.End() <= |m|
    requires forall j :: l.base <= j < l.End() ==> m[j] == 0
    ensures forall k :: 0 <= k < |RecordAt(l, m, i)| ==> RecordAt(l, m, i)[k] == 0
  {
    hide Layout.OffsetOf, Layout.End;
  }

  /** After an erase every parameter is missing: by its hash, or, if that is zero, by its checksum, unless
      its size and hash together are a multiple of 2^32 - 1 bytes. */
  lemma ErasedReads(l: Layout, mem: seq<Byte>, i: nat)
    requires Fits(l, mem) && i < |l.params|
    ensures l.base <= l.End()
    ensures var m := Erased(l, mem, l.End() - l.base);
            && |m| == |mem|
            && (l.params[i].hash != 0 ==> Lookup(l, m, i) == Err(HashMismatch))
            && (l.params[i].hash == 0 && (l.params[i].size + 4) % 0xFFFF_FFFF != 0 ==> Lookup(l, m, i) == Err(CrcMismatch))
            && (l.params[i].hash == 0 && (l.params[i].size + 4) % 0xFFFF_FFFF == 0 ==> Lookup(l, m, i).Ok?)
  {
    l.Frames(i, i + 1);
    hide Decode, Erased, Layout.OffsetOf, RecordAt;
    ErasedAt(l, mem, l.End() - l.base);
    var m := Erased(l, mem, l.End() - l.base);
    ErasedRecord(l, m, i);
    ZerosRead(l.params[i].hash, l.params[i].size, RecordAt(l, m, i));
  }

  /** A set stopped at any byte: get of that parameter returns the old value, the new one or a
      checksum mismatch, if values have at most five bytes; all other parameters read as before. */
  lemma InterruptedSet(l: Layout, mem: seq<Byte>, i: nat, value: seq<Byte>, k: nat)
    requires Fits(l, mem) && i < |l.params| && |value| == l.params[i].size && k <= |value| + OVERHEAD
    requires Lookup(l, mem, i).Ok? && l.params[i].size <= 5
    ensures NotTorn(Lookup(l, SetUpTo(l, mem, i, value, k), i), Lookup(l, mem, i).value, value)
    ensures forall j :: 0 <= j < |l.params| && j != i ==>
              Lookup(l, SetUpTo(l, mem, i, value, k), j) == Lookup(l, mem, j)
  {
    hide Decode, Record;
    l.Frames(i, i + 1);
    forall j | 0 <= j < |l.params| && j != i
      ensures Lookup(l, SetUpTo(l, mem, i, value, k), j) == Lookup(l, mem, j)
    {
      SetKeepsRecord(l, mem, i, value, k, j);
    }
    var p := l.params[i];
    DecodedIsRecord(p.hash, p.size, RecordAt(l, mem, i));
    var old_ := Lookup(l, mem, i).value;
    DecodedSize(p.hash, p.size, RecordAt(l, mem, i));
    assert RecordAt(l, SetUpTo(l, mem, i, value, k), i) == Cut(p.hash, old_, value, k);
    CutNotTorn(p.hash, old_, value, k);
  }

  lemma DecodedSize(hash: bv32, size: nat, r: seq<Byte>)
    requires |r| == size + 8 && Decode(hash, size, r).Ok?
    ensures |Decode(hash, size, r).value| == size
  {
  }
}
