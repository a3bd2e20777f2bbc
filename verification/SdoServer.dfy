/**
 The SDO server (section 7.2.4 of CiA 301): requests answered from the object dictionary, and
 answers queued for a bus that may refuse them.
 */
module SdoServer {
  import opened Wrappers
  import opened SdoFrame
  import opened ObjectDictionary
  import opened Sorting
  import Q = InplaceQueue
  import RingSlots

  // ---- answering one request ----

  /** The variables behind the dictionary, by number. */
  type Variables = seq<Value>

  datatype Answer = Answer(vars: Variables, result: Result<Sdo, AbortCode>)

  predicate EntryFits(e: Entry, vars: Variables) {
    && (e.obj.read.Variable? ==> e.obj.read.id < |vars|)
    && (e.obj.write.Variable? ==> e.obj.write.id < |vars|)
    && (e.obj.default.Some? ==> e.obj.default.value.Valid())
  }

  predicate Fits(d: seq<Entry>, vars: Variables) {
    (forall i :: 0 <= i < |d| ==> EntryFits(d[i], vars)) && (forall i :: 0 <= i < |vars| ==> vars[i].Valid())
  }

  const RESTORE_DEFAULT := Key(0x1011, 4)

  function KeyOf(s: Sdo): Key {
    Key(s.index as nat, s.subindex as nat)
  }

  /** The key a restore request carries in its data. */
  function TargetOf(data: seq<bv8>): Key
    requires |data| == 4
  {
    Key(((data[0] as bv16) | ((data[1] as bv16) << 8)) as nat, data[2] as nat)
  }

  function ReadObject(o: Object, vars: Variables): Result<Value, AbortCode>
    requires o.read.Variable? ==> o.read.id < |vars|
  {
    match o.read
    case NoAccessor => Err(UnsupportedAccess)
    case Variable(id) => Ok(vars[id])
  }

  /** od_write_var stores a value only of the variable's own type. */
  function WriteObject(o: Object, vars: Variables, v: Value): (Variables, Result<(), AbortCode>)
    requires o.write.Variable? ==> o.write.id < |vars|
  {
    match o.write
    case NoAccessor => (vars, Err(UnsupportedAccess))
    case Variable(id) =>
      if vars[id].kind == v.kind then (vars[id := v], Ok(())) else (vars, Err(DataTypeMismatch))
  }

  function EmptyBytes(size: nat): bv2
    requires size <= 4
  {
    ((4 - size) % 4) as bv2
  }

  function WriteReply(request: Sdo): Sdo {
    Sdo(false, false, 0, false, SERVER_INIT_WRITE, request.index, request.subindex, [0, 0, 0, 0])
  }

  function ReadExpedited(o: Object, vars: Variables, request: Sdo): Result<Sdo, AbortCode>
    requires o.read.Variable? ==> o.read.id < |vars| && vars[o.read.id].Valid()
  {
    if !o.Readable() then Err(ReadFromWriteOnly)
    else
      match ReadObject(o, vars)
      case Err(code) => Err(code)
      case Ok(v) => Ok(Sdo(true, true, EmptyBytes(o.dataType.Size()), false, SERVER_INIT_READ,
                           request.index, request.subindex, ToRaw(v)))
  }

  function WriteExpedited(o: Object, vars: Variables, request: Sdo): Answer
    requires request.Valid() && (o.write.Variable? ==> o.write.id < |vars|)
  {
    if !o.Writable() then Answer(vars, Err(WriteToReadOnly))
    else
      match WriteObject(o, vars, MakeValue(request.data, o.dataType))
      case (vars', Ok(_)) => Answer(vars', Ok(WriteReply(request)))
      case (vars', Err(code)) => Answer(vars', Err(code))
  }

  /** A restore request whose target was found at `target`. */
  function RestoreDefault(d: seq<Entry>, vars: Variables, request: Sdo, target: Option<nat>): Answer
    requires request.Valid() && Fits(d, vars) && (target.Some? ==> target.value < |d|)
  {
    match target
    case None => Answer(vars, Err(ObjectNotFound))
    case Some(i) =>
      var o := d[i].obj;
      if !o.Writable() then Answer(vars, Err(WriteToReadOnly))
      else if o.default.None? then Answer(vars, Err(NoDataAvailable))
      else
        match WriteObject(o, vars, o.default.value)
        case (vars', Ok(_)) => Answer(vars', Ok(WriteReply(request)))
        case (vars', Err(code)) => Answer(vars', Err(code))
  }

  /** Any other request, whose entry was found at `entry`. */
  function ServeEntry(d: seq<Entry>, vars: Variables, request: Sdo, entry: Option<nat>): Answer
    requires request.Valid() && Fits(d, vars) && (entry.Some? ==> entry.value < |d|)
  {
    match entry
    case None => Answer(vars, Err(ObjectNotFound))
    case Some(i) =>
      if request.cs == CLIENT_INIT_READ then Answer(vars, ReadExpedited(d[i].obj, vars, request))
      else if request.cs == CLIENT_INIT_WRITE then WriteExpedited(d[i].obj, vars, request)
      else Answer(vars, Err(InvalidCs))
  }

  predicate IsRestore(request: Sdo) {
    request.cs == CLIENT_INIT_WRITE && KeyOf(request) == RESTORE_DEFAULT
  }

  /** What a request other than an abort is answered, and what it does to the variables. */
  function Respond(d: seq<Entry>, vars: Variables, request: Sdo): Answer
    requires request.Valid() && Fits(d, vars)
  {
    if IsRestore(request) then RestoreDefault(d, vars, request, Lookup(d, TargetOf(request.data)))
    else ServeEntry(d, vars, request, Lookup(d, KeyOf(request)))
  }

  /** The eight bytes sent back. */
  function Payload(request: Sdo, result: Result<Sdo, AbortCode>): (p: seq<bv8>)
    requires result.Ok? ==> result.value.Valid()
    ensures |p| == 8
  {
    match result
    case Ok(reply) => Encode(reply)
    case Err(code) => Encode(AbortFrame(request.index, request.subindex, code))
  }

  /** A request keeps the type of every variable, and what it changes comes with a positive answer;
      reads and refusals change none. */
  lemma RespondKeepsTypes(d: seq<Entry>, vars: Variables, request: Sdo)
    requires request.Valid() && Fits(d, vars)
    ensures var a := Respond(d, vars, request);
            && Fits(d, a.vars) && |a.vars| == |vars|
            && (a.result.Ok? ==> a.result.value.Valid())
            && (forall i :: 0 <= i < |vars| ==> a.vars[i].kind == vars[i].kind)
            && (a.result.Err? || request.cs != CLIENT_INIT_WRITE ==> a.vars == vars)
  {
  }

  /** A write request answered positively, then a read request for the same readable entry: the
      read returns the low bytes of what was written, padded with zeros, and the number of empty
      bytes of its type. The variable's type is the declared one, and both accessors name it. */
  lemma WriteThenRead(d: seq<Entry>, vars: Variables, i: nat, write: Sdo, read: Sdo)
    requires Strict(d) && Fits(d, vars) && i < |d| && write.Valid() && read.Valid()
    requires write.cs == CLIENT_INIT_WRITE && read.cs == CLIENT_INIT_READ
    requires KeyOf(write) == KeyOf(read) == d[i].key != RESTORE_DEFAULT
    requires var o := d[i].obj;
             && o.Readable() && o.Writable() && !o.dataType.Text?
             && o.read.Variable? && o.write == o.read && vars[o.read.id].kind == o.dataType.Carrier()
    ensures var a := Respond(d, vars, write);
            && a.result == Ok(WriteReply(write)) && Fits(d, a.vars)
            && (forall j :: 0 <= j < |vars| && j != d[i].obj.write.id ==> a.vars[j] == vars[j])
            && var b := Respond(d, a.vars, read);
               && b.vars == a.vars
               && b.result == Ok(Sdo(true, true, EmptyBytes(d[i].obj.dataType.Size()), false, SERVER_INIT_READ,
                                     read.index, read.subindex, Kept(write.data, d[i].obj.dataType)))
  {
    LookupUnique(d, i);
    RespondKeepsTypes(d, vars, write);
    RawRoundTrip(write.data, d[i].obj.dataType);
  }

  /** A restore request answered positively leaves the default to be read. */
  lemma RestoreThenRead(d: seq<Entry>, vars: Variables, i: nat, restore: Sdo, read: Sdo)
    requires Strict(d) && Fits(d, vars) && i < |d| && restore.Valid() && read.Valid()
    requires IsRestore(restore)
    requires TargetOf(restore.data) == d[i].key == KeyOf(read) && read.cs == CLIENT_INIT_READ
    requires d[i].obj.Readable() && d[i].obj.read == d[i].obj.write
    requires Respond(d, vars, restore).result.Ok?
    ensures var a := Respond(d, vars, restore);
            && Fits(d, a.vars) && d[i].obj.default.Some? && d[i].obj.default.value.Valid()
            && (forall j :: 0 <= j < |vars| && d[i].obj.write != Variable(j) ==> a.vars[j] == vars[j])
            && var b := Respond(d, a.vars, read);
               b.result.Ok? && b.result.value.data == ToRaw(d[i].obj.default.value)
  {
    LookupUnique(d, i);
    RespondKeepsTypes(d, vars, restore);
  }

  /** A restore request succeeds exactly when some entry has the requested key, is writable, has a
      default, and has a variable of the default's type. Then that variable holds the default and no
      other has changed; otherwise none has, and a missing key, and only that, is reported as such. */
  lemma RestoreRefusedExactly(d: seq<Entry>, vars: Variables, restore: Sdo)
    requires Strict(d) && Fits(d, vars) && restore.Valid()
    requires IsRestore(restore)
    ensures var a := Respond(d, vars, restore);
            && (a.result.Ok? <==>
                  exists i :: 0 <= i < |d| && d[i].key == TargetOf(restore.data) && Restorable(d[i].obj, vars))
            && (forall i :: 0 <= i < |d| && d[i].key == TargetOf(restore.data) && Restorable(d[i].obj, vars) ==>
                  a.vars == vars[d[i].obj.write.id := d[i].obj.default.value])
            && (a.result.Err? ==> a.vars == vars)
            && (a.result == Err(ObjectNotFound) <==>
                  forall i :: 0 <= i < |d| ==> d[i].key != TargetOf(restore.data))
  {
    if i :| 0 <= i < |d| && d[i].key == TargetOf(restore.data) {
      LookupUnique(d, i);
      assert forall j :: 0 <= j < |d| && d[j].key == TargetOf(restore.data) ==> j == i;
    }
  }

  predicate Restorable(o: Object, vars: Variables) {
    && o.Writable() && o.default.Some? && o.write.Variable?
    && o.write.id < |vars| && vars[o.write.id].kind == o.default.value.kind
  }

  /** Any other request is answered positively exactly for a read of a readable entry with a
      variable, or a write of a writable entry whose variable has the declared type. */
  lemma ServedExactly(d: seq<Entry>, vars: Variables, request: Sdo)
    requires Strict(d) && Fits(d, vars) && request.Valid() && !IsRestore(request)
    ensures Respond(d, vars, request).result.Ok? <==>
            exists i :: 0 <= i < |d| && d[i].key == KeyOf(request)
                        && var o := d[i].obj;
                           || (request.cs == CLIENT_INIT_READ && o.Readable() && o.read.Variable?)
                           || (request.cs == CLIENT_INIT_WRITE && o.Writable() && o.write.Variable?
                               && vars[o.write.id].kind == o.dataType.Carrier())
  {
    var r := Lookup(d, KeyOf(request));
    if i :| 0 <= i < |d| && d[i].key == KeyOf(request) {
      LookupUnique(d, i);
    }
  }

  lemma SortedFits(d: seq<Entry>, vars: Variables)
    requires Fits(d, vars)
    ensures Ascending(Before, Sorted(Before, d)) && Fits(Sorted(Before, d), vars)
  {
    var s := Sorted(Before, d);
    SortedAscending(Before, d);
    forall i | 0 <= i < |s| ensures EntryFits(s[i], vars) {
      assert s[i] in multiset(d);
    }
  }

  // ---- the server ----

  method SortInPlace(d: array<Entry>)
    modifies d
    ensures d[..] == Sorted(Before, old(d[..]))
  {
    var s := Sorted(Before, d[..]);
    hide Sorted;
    for i := 0 to d.Length
      invariant forall j :: 0 <= j < i ==> d[j] == s[j]
    {
      d[i] := s[i];
    }
    assert d[..] == s;
  }

  datatype Frame = Frame(id: nat, payload: seq<bv8>)

  /** A bus that takes or refuses each frame as planned; without a plan it takes them. */
  class Bus {
    var plan: seq<bool>
    ghost var log: seq<Frame>

    constructor (plan: seq<bool>)
      ensures this.plan == plan && log == []
    {
      this.plan := plan;
      log := [];
    }

    method Send(f: Frame) returns (taken: bool)
      modifies this
      ensures log == if taken then old(log) + [f] else old(log)
      ensures taken <==> old(plan) == [] || old(plan)[0]
      ensures plan == if old(plan) == [] then [] else old(plan)[1..]
    {
      taken := plan == [] || plan[0];
      plan := if plan == [] then [] else plan[1..];
      if taken {
        log := log + [f];
      }
    }
  }

  /** How many of n frames a bus with this plan takes before it refuses one. */
  function Taken(plan: seq<bool>, n: nat): (k: nat)
    ensures k <= n
    ensures forall i :: 0 <= i < k && i < |plan| ==> plan[i]
    ensures k < n ==> k < |plan| && !plan[k]
  {
    if n == 0 then 0
    else if plan == [] then n
    else if plan[0] then 1 + Taken(plan[1..], n - 1)
    else 0
  }

  const QUEUE_CAPACITY: nat := 16

  class Server {
    const nodeId: nat
    const bus: Bus
    const dictionary: array<Entry>
    const vars: array<Value>
    const queue: Q.Queue<seq<bv8>>
    ghost var accepted: seq<seq<bv8>>   // answers generated while the queue had room
    ghost var sent: seq<seq<bv8>>       // payloads of the frames the bus took

    /** Conservation: what was sent, then what is queued, is what was accepted. */
    ghost predicate Valid()
      reads this, bus, dictionary, vars, queue, queue.slots
    {
      && queue.Valid() && queue.slots.Length == QUEUE_CAPACITY
      && dictionary as object != vars && vars as object != queue.slots && queue.slots as object != dictionary
      && Ascending(Before, dictionary[..]) && Fits(dictionary[..], vars[..])
      && sent + queue.Contents() == accepted
    }

    /** Sorts the dictionary. The source asserts that no two keys are equal; a build without assertions
        takes any dictionary, and finds the first of the entries with a key. */
    constructor (nodeId: nat, bus: Bus, dictionary: array<Entry>, vars: array<Value>)
      requires Fits(dictionary[..], vars[..]) && dictionary as object != vars
      modifies dictionary
      ensures Valid() && fresh(queue) && fresh(queue.slots)
      ensures this.nodeId == nodeId && this.bus == bus && this.dictionary == dictionary && this.vars == vars
      ensures multiset(dictionary[..]) == multiset(old(dictionary[..])) && Ascending(Before, dictionary[..])
      ensures Strict(Sorted(Before, old(dictionary[..]))) ==> dictionary[..] == Sorted(Before, old(dictionary[..]))
      ensures accepted == sent == []
    {
      this.nodeId := nodeId;
      this.bus := bus;
      this.dictionary := dictionary;
      this.vars := vars;
      queue := new Q.Queue<seq<bv8>>(QUEUE_CAPACITY);
      accepted, sent := [], [];
      new;
      hide Fits, Strict, Ascending, Sorted;
      ghost var before := dictionary[..];
      SortInPlace(dictionary);
      SortedFits(before, vars[..]);
    }

    method TryHandle(f: Frame) returns (handled: bool)
      requires Valid() && |f.payload| == 8
      modifies this, vars, queue, queue.slots
      ensures Valid() && sent == old(sent)
      ensures handled <==> f.id == 0x600 + nodeId
      ensures !handled || Decode(f.payload).cs == ABORT ==>
                accepted == old(accepted) && queue.Contents() == old(queue.Contents()) && vars[..] == old(vars[..])
      ensures handled && Decode(f.payload).cs != ABORT ==>
                var request := Decode(f.payload);
                var a := Respond(old(dictionary[..]), old(vars[..]), request);
                && vars[..] == a.vars && dictionary[..] == old(dictionary[..])
                && (a.result.Ok? ==> a.result.value.Valid())
                && sent + queue.Contents() == accepted
                && accepted == (if |old(queue.Contents())| == 16 then old(accepted)
                                else old(accepted) + [Payload(request, a.result)])
    {
      hide RestoreDefault, ServeEntry, RingSlots.Window, RingSlots.Values, Lookup, IsRestore, Payload, Fits, Ascending;
      if f.id != 0x600 + nodeId { return false; }
      var request := Decode(f.payload);
      if request.cs == ABORT { return true; }
      ghost var d := dictionary[..];
      RespondKeepsTypes(dictionary[..], vars[..], request);
      var entry := Find(dictionary, KeyOf(request));
      var a;
      if IsRestore(request) {
        var target := Find(dictionary, TargetOf(request.data));
        a := RestoreDefault(dictionary[..], vars[..], request, target);
      } else {
        a := ServeEntry(dictionary[..], vars[..], request, entry);
      }
      var response := Payload(request, a.result);
      forall i | 0 <= i < vars.Length {
        vars[i] := a.vars[i];
      }
      assert vars[..] == a.vars;
      if queue.size != queue.slots.Length {
        queue.Push(response);
        accepted := accepted + [response];
      }
      assert dictionary[..] == d && vars[..] == a.vars;
      return true;
    }

    /** Sends queued answers in order until the queue is empty or the bus refuses one, and for no other
        reason stops; the one refused stays at the head of the queue. */
    method Drain()
      requires Valid()
      modifies this, bus, queue, queue.slots
      ensures Valid() && accepted == old(accepted)
      ensures |old(sent)| <= |sent| && sent[..|old(sent)|] == old(sent)
      ensures sent + queue.Contents() == accepted
      ensures |bus.log| - |old(bus.log)| == |sent| - |old(sent)| && bus.log[..|old(bus.log)|] == old(bus.log)
      ensures forall i :: |old(sent)| <= i < |sent| ==>
                bus.log[|old(bus.log)| + i - |old(sent)|] == Frame(0x580 + nodeId, sent[i])
      ensures |sent| - |old(sent)| == Taken(old(bus.plan), |old(queue.Contents())|)
      ensures old(bus.plan) == [] ==> queue.Contents() == []
    {
      hide RingSlots.Window, RingSlots.Values, Fits, Ascending;
      ghost var done: seq<seq<bv8>> := [];
      while queue.size != 0
        invariant Valid() && accepted == old(accepted) && sent == old(sent) + done
        invariant bus.log == old(bus.log) + Frames(done)
        invariant |done| + Taken(bus.plan, queue.size) == Taken(old(bus.plan), |old(queue.Contents())|)
        invariant old(bus.plan) == [] ==> bus.plan == []
        decreases queue.size
      {
        var payload := queue.Front();
        var taken := bus.Send(Frame(0x580 + nodeId, payload));
        if !taken { break; }
        FramesAppend(done, payload);
        MoveHead(sent, queue.Contents());
        queue.Pop();
        done := done + [payload];
        sent := sent + [payload];
      }
      assert sent[|old(sent)|..] == done;
    }

    lemma MoveHead(s: seq<seq<bv8>>, q: seq<seq<bv8>>)
      requires q != []
      ensures (s + [q[0]]) + q[1..] == s + q
    {
    }

    ghost function Frames(payloads: seq<seq<bv8>>): seq<Frame> {
      seq(|payloads|, i requires 0 <= i < |payloads| => Frame(0x580 + nodeId, payloads[i]))
    }

    lemma FramesAppend(payloads: seq<seq<bv8>>, p: seq<bv8>)
      ensures Frames(payloads + [p]) == Frames(payloads) + [Frame(0x580 + nodeId, p)]
    {
    }
  }
}
