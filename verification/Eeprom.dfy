/**
 The EEPROM storage object over a page driver that may fail, or stop, at any byte.

 The driver's calls turn out as planned: each succeeds, or fails with a status after moving some of its
 bytes. The methods are the source's, with their error counters, early exits and ignored outcomes. What
 they do to the two copies of a page is stated in the terms of EepromCopies, where the properties of the
 protocol are proved.
 */
module Eeprom {
  import opened Bytes
  import opened Crc32
  import opened EepromCopies

  datatype Status = Okay | ReadFailed | WriteFailed | ReadTimeout | WriteTimeout
                  | InvalidAddress | InvalidDataSize | DataCorrupted | NoDevice

  /** How one driver call turns out. A failing one has transferred `moved` bytes, in order. */
  datatype Outcome = Done | Failed(status: Status, moved: nat)

  /** The k-th of the calls to come. */
  function Upcoming(plan: seq<Outcome>, k: nat): Outcome {
    if k < |plan| then plan[k] else Done
  }

  /** How many of so many bytes a call transfers. */
  function Extent(o: Outcome, size: nat): (n: nat)
    ensures n <= size && (o.Done? ==> n == size) && (o.Failed? ==> n == size || n == o.moved)
  {
    if o.Done? || o.moved > size then size else o.moved
  }

  /** The status of a series of so many calls that stops at its first fault ... */
  function StatusOf(plan: seq<Outcome>, calls: nat): Status {
    if calls == 0 || plan == [] then Okay
    else if plan[0].Failed? then plan[0].status
    else StatusOf(plan[1..], calls - 1)
  }

  /** ... and the plan afterwards. */
  function Rest(plan: seq<Outcome>, calls: nat): seq<Outcome> {
    if calls == 0 || plan == [] then plan
    else if plan[0].Failed? then plan[1..]
    else Rest(plan[1..], calls - 1)
  }

  /** What a series meets: the fault at place i, if all calls before it succeed ... */
  lemma {:induction false} FaultMet(plan: seq<Outcome>, calls: nat, i: nat)
    requires i < calls && i < |plan| && plan[i].Failed? && forall j :: 0 <= j < i ==> plan[j].Done?
    ensures StatusOf(plan, calls) == plan[i].status && Rest(plan, calls) == plan[i + 1..]
  {
    if i > 0 {
      FaultMet(plan[1..], calls - 1, i - 1);
    }
  }

  /** ... and none if all succeed. */
  lemma {:induction false} NoFaultMet(plan: seq<Outcome>, calls: nat)
    requires forall j :: 0 <= j < calls && j < |plan| ==> plan[j].Done?
    ensures StatusOf(plan, calls) == Okay && Rest(plan, calls) == if calls <= |plan| then plan[calls..] else []
  {
    if calls > 0 && plan != [] {
      NoFaultMet(plan[1..], calls - 1);
    }
  }

  lemma {:induction false} TwoSeries(plan: seq<Outcome>, a: nat, b: nat)
    requires forall i :: 0 <= i < |plan| ==> plan[i].Failed? ==> plan[i].status != Okay
    ensures StatusOf(plan, a) == Okay ==>
              StatusOf(plan, a + b) == StatusOf(Rest(plan, a), b) && Rest(plan, a + b) == Rest(Rest(plan, a), b)
    ensures StatusOf(plan, a) != Okay ==> StatusOf(plan, a + b) == StatusOf(plan, a) && Rest(plan, a + b) == Rest(plan, a)
  {
    if a > 0 && plan != [] && plan[0].Done? {
      TwoSeries(plan[1..], a - 1, b);
    }
  }

  lemma OneCall(plan: seq<Outcome>)
    ensures StatusOf(plan, 1) == match Upcoming(plan, 0) case Done => Okay case Failed(e, _) => e
    ensures Rest(plan, 1) == if plan == [] then [] else plan[1..]
  {
    if plan != [] && plan[0].Done? {
      assert StatusOf(plan[1..], 0) == Okay && Rest(plan[1..], 0) == plan[1..];
    }
  }

  class Driver {
    const pageBytes: nat
    const pages: array<seq<Byte>>
    var plan: seq<Outcome>

    ghost predicate Valid()
      reads this, pages
    {
      && (forall i :: 0 <= i < pages.Length ==> |pages[i]| == pageBytes)
      && (forall i :: 0 <= i < |plan| ==> plan[i].Failed? ==> plan[i].status != Okay)
    }

    ghost predicate FaultFree()
      reads this
    {
      forall i :: 0 <= i < |plan| ==> plan[i] == Done
    }

    constructor (pageBytes: nat, pageCount: nat, plan: seq<Outcome>)
      requires forall i :: 0 <= i < |plan| ==> plan[i].Failed? ==> plan[i].status != Okay
      ensures Valid() && fresh(pages) && pages.Length == pageCount && this.pageBytes == pageBytes && this.plan == plan
    {
      this.pageBytes := pageBytes;
      pages := new seq<Byte>[pageCount](_ => seq(pageBytes, _ => 0));
      this.plan := plan;
    }

    method Next() returns (o: Outcome)
      requires Valid()
      modifies `plan
      ensures Valid() && (o.Failed? ==> o.status != Okay)
      ensures o == Upcoming(old(plan), 0) && plan == if old(plan) == [] then [] else old(plan)[1..]
    {
      if plan == [] {
        return Done;
      }
      o := plan[0];
      plan := plan[1..];
    }

    /** Reads into a buffer that held `was`; a failing read has replaced a prefix of it. */
    method Read(page: nat, offset: nat, was: seq<Byte>) returns (status: Status, now: seq<Byte>)
      requires Valid() && page < pages.Length && offset + |was| <= pageBytes
      modifies `plan
      ensures Valid() && |now| == |was|
      ensures status == Okay ==> now == pages[page][offset..offset + |was|]
      ensures status == StatusOf(old(plan), 1) && plan == Rest(old(plan), 1)
      ensures old(FaultFree()) ==> status == Okay && FaultFree()
    {
      var o := Next();
      OneCall(old(plan));
      var count := Extent(o, |was|);
      now := pages[page][offset..offset + count] + was[count..];
      status := if o.Done? then Okay else o.status;
    }

    method Write(page: nat, offset: nat, data: seq<Byte>) returns (status: Status, ghost n: nat)
      requires Valid() && page < pages.Length && offset + |data| <= pageBytes
      modifies `plan, pages
      ensures Valid()
      ensures n <= |data| && (status == Okay ==> n == |data|)
      ensures status == StatusOf(old(plan), 1) && plan == Rest(old(plan), 1)
      ensures n == Extent(Upcoming(old(plan), 0), |data|)
      ensures pages[..] == old(pages[..])[page := Written(old(pages[page]), offset, data, n)]
      ensures old(FaultFree()) ==> status == Okay && FaultFree()
    {
      var o := Next();
      OneCall(old(plan));
      var count := Extent(o, |data|);
      pages[page] := Written(pages[page], offset, data, count);
      return if o.Done? then Okay else o.status, count;
    }
  }

  /** How the reading of one copy turned out. */
  datatype CopyRead = CopyRead(status: Status, data: seq<Byte>, ok: bool, sum: bv32)

  const WORD: nat := 0x1_0000_0000

  /** ++ on a 32-bit counter. */
  function Bump(n: nat): nat {
    (n + 1) % WORD
  }

  datatype Errors = Errors(read: nat, write: nat, crcMismatch: nat, primary: nat, secondary: nat, fatal: nat)

  class Storage {
    const driver: Driver
    const crc: Checksum
    const availableBytes: nat
    const availablePages: nat
    var backup: seq<Byte>
    var errors: Errors

    ghost predicate Valid()
      reads this, driver, driver.pages
    {
      && driver.Valid()
      && availableBytes == driver.pageBytes - 4 && |backup| == availableBytes
      && 2 * availablePages <= driver.pages.Length
    }

    /** The two copies of a page. */
    ghost function CopiesOf(page: nat): Copies
      requires Valid() && page < availablePages
      reads this, driver, driver.pages
    {
      Copies(driver.pages[page], driver.pages[page + availablePages])
    }

    constructor (driver: Driver, crc: Checksum)
      requires driver.Valid() && driver.pageBytes >= 4 && driver.pages.Length >= 2
      ensures Valid() && this.driver == driver && this.crc == crc
      ensures availablePages == (driver.pages.Length - 2) / 2
      ensures errors == Errors(0, 0, 0, 0, 0, 0)
    {
      this.driver := driver;
      this.crc := crc;
      availableBytes := driver.pageBytes - 4;
      availablePages := (driver.pages.Length - 2) / 2;
      backup := seq(driver.pageBytes - 4, _ => 0);
      errors := Errors(0, 0, 0, 0, 0, 0);
    }

    /** Writes data and checksum to the primary page, then to the secondary, and stops at the
        first error: the copies end as a write cut after k bytes leaves them. Other pages keep
        their contents. */
    method Write(page: nat, data: seq<Byte>) returns (status: Status, ghost k: nat)
      requires Valid()
      modifies `errors, driver`plan, driver.pages
      ensures Valid()
      ensures page >= availablePages ==> status == InvalidAddress
      ensures page < availablePages && |data| >= availableBytes ==> status == InvalidDataSize
      ensures page >= availablePages || |data| >= availableBytes ==>
                driver.pages[..] == old(driver.pages[..]) && errors == old(errors)
      ensures page < availablePages && |data| < availableBytes ==>
                && k <= 2 * (|data| + 4) && (status == Okay ==> k == 2 * (|data| + 4))
                && CopiesOf(page) == Cut(crc, old(CopiesOf(page)), data, k)
                && (forall q :: 0 <= q < driver.pages.Length && q != page && q != page + availablePages ==>
                      driver.pages[q] == old(driver.pages[q]))
                && errors == (if status == Okay then old(errors)
                              else old(errors).(write := (old(errors).write + 1) % 0x1_0000_0000))
                && status == StatusOf(old(driver.plan), 4)
                && (old(driver.FaultFree()) ==> status == Okay && driver.FaultFree())
    {
      hide ToBytes, Overlay, StatusOf, Rest;
      TwoSeries(driver.plan, 2, 2);
      if page >= availablePages { return InvalidAddress, 0; }
      if |data| >= availableBytes { return InvalidDataSize, 0; }
      var crcBytes := ToBytes(crc(data));
      ghost var c := CopiesOf(page);
      status, k := WriteCopy(page, data, crcBytes);
      OverlayZero(c.secondary, Image(crc, data));
      if status != Okay { return status, k; }
      ghost var n := 0;
      status, n := WriteCopy(page + availablePages, data, crcBytes);
      k := |data| + 4 + n;
    }

    /** The two writes of one copy, with their error count. */
    method WriteCopy(page: nat, data: seq<Byte>, crcBytes: seq<Byte>) returns (status: Status, ghost k: nat)
      requires Valid() && page < driver.pages.Length && |data| < availableBytes && crcBytes == ToBytes(crc(data))
      modifies `errors, driver`plan, driver.pages
      ensures Valid() && k <= |data| + 4 && (status == Okay ==> k == |data| + 4)
      ensures status == StatusOf(old(driver.plan), 2) && driver.plan == Rest(old(driver.plan), 2)
      ensures driver.pages[..] ==
              old(driver.pages[..])[page := Overlay(old(driver.pages[page]), Image(crc, data), k)]
      ensures errors == (if status == Okay then old(errors) else old(errors).(write := Bump(old(errors).write)))
      ensures old(driver.FaultFree()) ==> status == Okay && driver.FaultFree()
    {
      hide ToBytes, Written, Overlay, StatusOf, Rest;
      TwoSeries(driver.plan, 1, 1);
      ghost var before, n := driver.pages[page], 0;
      status, k := driver.Write(page, 0, data);
      StoredTwice(crc, before, data, k, 0);
      if status == Okay {
        status, n := driver.Write(page, |data|, crcBytes);
        StoredTwice(crc, before, data, k, n);
        k := k + n;
      }
      if status != Okay {
        errors := errors.(write := Bump(errors.write));
      }
    }

    /** The data read, the checksum read and the test of one copy, into a buffer that held `was`. */
    method ReadCopy(page: nat, was: seq<Byte>) returns (r: CopyRead)
      requires Valid() && page < driver.pages.Length && |was| < availableBytes
      modifies `errors, driver`plan
      ensures Valid() && Reading(crc, driver.pages[page], |was|, r)
      ensures |r.data| == |was| && (r.ok ==> r.sum == crc(r.data))
      ensures errors == AfterCopy(old(errors), r)
      ensures r.status == StatusOf(old(driver.plan), 2) && driver.plan == Rest(old(driver.plan), 2)
      ensures old(driver.FaultFree()) ==> r.status == Okay && driver.FaultFree()
    {
      hide ToBytes, FromBytes, StatusOf, Rest;
      TwoSeries(driver.plan, 1, 1);
      var status, data := driver.Read(page, 0, was);
      r := CopyRead(status, data, false, 0);
      if status != Okay {
        errors := errors.(read := Bump(errors.read));
        return;
      }
      var crcBytes;
      status, crcBytes := driver.Read(page, |was|, [0, 0, 0, 0]);
      r := CopyRead(status, data, false, 0);
      if status != Okay {
        errors := errors.(read := Bump(errors.read));
        return;
      }
      ValidHolds(crc, driver.pages[page], |was|);
      r := CopyRead(status, data, crc(data) == FromBytes(crcBytes), crc(data));
      if !r.ok {
        errors := errors.(crcMismatch := Bump(errors.crcMismatch));
      }
    }

    /** Rewrites one copy. The outcomes of the two writes are ignored: n1 bytes of the data and n2 of
        the checksum are stored, whatever happened to the other. */
    method Repair(page: nat, data: seq<Byte>, sum: bv32) returns (ghost n1: nat, ghost n2: nat)
      requires Valid() && page < driver.pages.Length && |data| < availableBytes && sum == crc(data)
      modifies driver`plan, driver.pages
      ensures Valid() && n1 <= |data| && n2 <= 4
      ensures driver.pages[..] ==
              old(driver.pages[..])[page := Patched(crc, old(driver.pages[page]), data, n1, n2)]
      ensures n1 == Extent(Upcoming(old(driver.plan), 0), |data|) && n2 == Extent(Upcoming(old(driver.plan), 1), 4)
      ensures old(driver.FaultFree()) ==> driver.FaultFree() && n1 == |data| && n2 == 4
    {
      hide ToBytes, Written, Extent;
      OneCall(driver.plan);
      var status;
      status, n1 := driver.Write(page, 0, data);
      status, n2 := driver.Write(page, |data|, ToBytes(sum));
    }

    /** Reads both copies, returns one that passes and rewrites the other if that fails or
        differs. p and s are how the readings of the two copies turned out, n1 and n2 how far the
        rewriting got; the result, the copies and the error counts follow from them, whatever goes
        wrong. Other pages keep their contents. */
    method Read(page: nat, was: seq<Byte>)
      returns (status: Status, buf: seq<Byte>, ghost p: CopyRead, ghost s: CopyRead, ghost n1: nat, ghost n2: nat)
      requires Valid()
      modifies this, driver`plan, driver.pages
      ensures Valid()
      ensures page >= availablePages ==> status == InvalidAddress
      ensures page < availablePages && |was| >= availableBytes ==> status == InvalidDataSize
      ensures page >= availablePages || |was| >= availableBytes ==>
                driver.pages[..] == old(driver.pages[..]) && errors == old(errors)
      ensures forall q :: 0 <= q < driver.pages.Length && q != page && q != page + availablePages ==>
                driver.pages[q] == old(driver.pages[q])
      ensures page < availablePages && |was| < availableBytes ==>
                && Reading(crc, old(driver.pages[page]), |was|, p)
                && Reading(crc, old(driver.pages[page + availablePages]), |was|, s)
                && n1 <= |was| && n2 <= 4
                && CopiesOf(page) == RepairedCopies(crc, old(CopiesOf(page)), p, s, n1, n2)
                && errors == AfterRead(old(errors), p, s)
                && p.status == StatusOf(old(driver.plan), 2)
                && s.status == StatusOf(Rest(old(driver.plan), 2), 2)
                && (p.ok != s.ok || (p.ok && p.sum != s.sum) ==>
                      var next := Rest(Rest(old(driver.plan), 2), 2);
                      n1 == Extent(Upcoming(next, 0), |was|) && n2 == Extent(Upcoming(next, 1), 4))
                && status == (if p.ok || s.ok then Okay else if s.status == Okay then DataCorrupted else s.status)
                && buf == (if !p.ok && s.ok then s.data else p.data)
      ensures old(driver.FaultFree()) && page < availablePages && |was| < availableBytes ==>
                && CopiesOf(page) == Healed(crc, old(CopiesOf(page)), |was|)
                && (match Find(crc, old(CopiesOf(page)), |was|)
                    case Data(d) => status == Okay && buf == d
                    case Corrupted => status == DataCorrupted)
                && p.status == s.status == Okay && driver.FaultFree()
    {
      hide Reading, AfterCopy, Patched, Find, Healed, StatusOf, Rest, Extent;
      n1, n2 := 0, 0;
      p, s := CopyRead(Okay, was, false, 0), CopyRead(Okay, was, false, 0);
      if page >= availablePages { return InvalidAddress, was, p, s, 0, 0; }
      if |was| >= availableBytes { return InvalidDataSize, was, p, s, 0, 0; }
      ghost var c := CopiesOf(page);
      var other := page + availablePages;
      var primary := ReadCopy(page, was);
      buf := primary.data;
      var secondary := ReadCopy(other, backup[..|was|]);
      p, s := primary, secondary;
      ReadWhole(crc, c, |was|, p, s);
      backup := secondary.data + backup[|was|..];
      status := secondary.status;
      if primary.ok && secondary.ok && primary.sum == secondary.sum {
        status := Okay;
      } else if primary.ok {
        errors := errors.(secondary := Bump(errors.secondary));
        n1, n2 := Repair(other, buf, primary.sum);
        status := Okay;
      } else if secondary.ok {
        errors := errors.(primary := Bump(errors.primary));
        buf := secondary.data;
        n1, n2 := Repair(page, secondary.data, secondary.sum);
        status := Okay;
      } else if status == Okay {
        errors := errors.(fatal := Bump(errors.fatal));
        status := DataCorrupted;
      }
    }
  }

  /** What the reading of a copy says of its page: it passes only if the page holds the data read,
      and without an error it passes exactly then. */
  predicate Reading(crc: Checksum, page: seq<Byte>, len: nat, r: CopyRead)
    requires len + 4 <= |page|
  {
    && |r.data| == len
    && (r.ok ==> r.status == Okay && Holds(crc, page, r.data) && r.sum == crc(r.data))
    && (r.status == Okay ==> r.data == page[..len] && (r.ok <==> EepromCopies.Valid(crc, page, len)))
  }

  /** The copies afterwards: the one not returned is rewritten, unless both passed with one checksum
      or neither did. */
  function RepairedCopies(crc: Checksum, c: Copies, p: CopyRead, s: CopyRead, n1: nat, n2: nat): Copies
    requires Room(c, |p.data|) && |p.data| == |s.data| && n1 <= |p.data| && n2 <= 4
  {
    if p.ok && !(s.ok && p.sum == s.sum) then c.(secondary := Patched(crc, c.secondary, p.data, n1, n2))
    else if !p.ok && s.ok then c.(primary := Patched(crc, c.primary, s.data, n1, n2))
    else c
  }

  function Verdict(p: CopyRead, s: CopyRead): Status {
    if p.ok || s.ok then Okay else if s.status == Okay then DataCorrupted else s.status
  }

  /** The counters after the reading of one copy ... */
  function AfterCopy(e: Errors, r: CopyRead): Errors {
    if r.status != Okay then e.(read := Bump(e.read))
    else if r.ok then e
    else e.(crcMismatch := Bump(e.crcMismatch))
  }

  /** ... and of both: a copy found bad or different is counted against itself, the loss of both once,
      and not at all if an error prevented the secondary's test. */
  function AfterRead(e: Errors, p: CopyRead, s: CopyRead): Errors {
    var e2 := AfterCopy(AfterCopy(e, p), s);
    if p.ok && s.ok && p.sum == s.sum then e2
    else if p.ok then e2.(secondary := Bump(e2.secondary))
    else if s.ok then e2.(primary := Bump(e2.primary))
    else if s.status == Okay then e2.(fatal := Bump(e2.fatal))
    else e2
  }

  /** The counters in numbers: readings that failed, copies that failed their test, a copy repaired because
      it failed or differed, and the loss of both. */
  lemma CountersTell(e: Errors, p: CopyRead, s: CopyRead)
    requires (p.ok ==> p.status == Okay) && (s.ok ==> s.status == Okay)
    requires e.read < WORD && e.crcMismatch < WORD && e.primary < WORD && e.secondary < WORD && e.fatal < WORD
    ensures var n := AfterRead(e, p, s);
            && n.write == e.write
            && n.read == (e.read + (if p.status != Okay then 1 else 0) + (if s.status != Okay then 1 else 0)) % 0x1_0000_0000
            && n.crcMismatch == (e.crcMismatch + (if p.status == Okay && !p.ok then 1 else 0)
                                 + (if s.status == Okay && !s.ok then 1 else 0)) % 0x1_0000_0000
            && n.primary == (e.primary + if !p.ok && s.ok then 1 else 0) % 0x1_0000_0000
            && n.secondary == (e.secondary + if p.ok && (!s.ok || p.sum != s.sum) then 1 else 0) % 0x1_0000_0000
            && n.fatal == (e.fatal + if !p.ok && !s.ok && s.status == Okay then 1 else 0) % 0x1_0000_0000
  {
    BumpInNumbers(e.read);
    BumpInNumbers(e.crcMismatch);
    BumpInNumbers(e.primary);
    BumpInNumbers(e.secondary);
    BumpInNumbers(e.fatal);
    hide Bump;
  }

  lemma BumpInNumbers(n: nat)
    requires n < WORD
    ensures Bump(n) == (n + 1) % 0x1_0000_0000 && Bump(Bump(n)) == (n + 2) % 0x1_0000_0000 && n == n % 0x1_0000_0000
  {
  }

  /** When both readings were free of errors and the rewriting ran to its end, the outcome is that of
      the read on page contents. */
  lemma ReadWhole(crc: Checksum, c: Copies, len: nat, p: CopyRead, s: CopyRead)
    requires Room(c, len) && Reading(crc, c.primary, len, p) && Reading(crc, c.secondary, len, s)
    ensures p.status == Okay && s.status == Okay ==>
              && RepairedCopies(crc, c, p, s, len, 4) == Healed(crc, c, len)
              && (match Find(crc, c, len)
                  case Data(d) => Verdict(p, s) == Okay && (if !p.ok && s.ok then s.data else p.data) == d
                  case Corrupted => Verdict(p, s) == DataCorrupted)
  {
    hide ToBytes, Image, Overlay, Patched, EepromCopies.Valid;
    PatchedWhole(crc, c.primary, c.secondary[..len]);
    PatchedWhole(crc, c.secondary, c.primary[..len]);
    hide Holds;
  }

  /** Data returned as good is that of a copy that passed, and that copy is as it was. */
  lemma ReturnedCopyUnharmed(crc: Checksum, c: Copies, p: CopyRead, s: CopyRead, n1: nat, n2: nat)
    requires Room(c, |p.data|) && |p.data| == |s.data| && n1 <= |p.data| && n2 <= 4
    requires Reading(crc, c.primary, |p.data|, p) && Reading(crc, c.secondary, |p.data|, s)
    ensures var d := RepairedCopies(crc, c, p, s, n1, n2);
            var buf := if !p.ok && s.ok then s.data else p.data;
            && (Verdict(p, s) == Okay ==>
                  || (Holds(crc, c.primary, buf) && d.primary == c.primary)
                  || (Holds(crc, c.secondary, buf) && d.secondary == c.secondary))
            && (Verdict(p, s) != Okay ==> d == c)
  {
    hide Holds, Patched, EepromCopies.Valid;
  }

  /** The data write and the checksum write of one copy together put a prefix of its image at
      the start of the page. */
  lemma StoredTwice(crc: Checksum, page: seq<Byte>, data: seq<Byte>, n1: nat, n2: nat)
    requires |data| + 4 <= |page| && n1 <= |data| && n2 <= 4 && (n2 > 0 ==> n1 == |data|)
    ensures var first := Written(page, 0, data, n1);
            && (n2 == 0 ==> first == Overlay(page, Image(crc, data), n1))
            && Written(first, |data|, ToBytes(crc(data)), n2) == Overlay(page, Image(crc, data), n1 + n2)
  {
    hide ToBytes;
    var image := Image(crc, data);
    assert image[..n1] == data[..n1];
    if n1 == |data| {
      assert image[..n1 + n2] == data + ToBytes(crc(data))[..n2];
    }
    var first := Written(page, 0, data, n1);
    assert first == image[..n1] + page[n1..];
  }
}
