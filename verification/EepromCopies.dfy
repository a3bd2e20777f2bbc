/**
 The two-copy page protocol of the EEPROM storage, on page contents as byte strings: what one
 copy holds, what a write cut at any byte leaves, what a read makes of two copies, and what it
 leaves behind. The checksum is a parameter, as it is in the source.
 */
module EepromCopies {
  import opened Bytes
  import opened Crc32

  type Checksum = seq<Byte> -> bv32

  /** What one copy of the data looks like in a page. */
  function Image(crc: Checksum, data: seq<Byte>): (r: seq<Byte>)
    ensures |r| == |data| + 4
  {
    data + ToBytes(crc(data))
  }

  predicate Holds(crc: Checksum, page: seq<Byte>, data: seq<Byte>) {
    |data| + 4 <= |page| && page[..|data| + 4] == Image(crc, data)
  }

  /** The test the read applies to a copy. */
  predicate Valid(crc: Checksum, page: seq<Byte>, len: nat)
    requires len + 4 <= |page|
  {
    FromBytes(page[len..len + 4]) == crc(page[..len])
  }

  /** A copy passes its test exactly when it holds the data found in it. */
  lemma ValidHolds(crc: Checksum, page: seq<Byte>, len: nat)
    requires len + 4 <= |page|
    ensures Valid(crc, page, len) <==> Holds(crc, page, page[..len])
  {
    hide ToBytes, FromBytes;
    BytesRoundTrip(page[len..len + 4]);
    WordRoundTrip(crc(page[..len]));
    assert page[..len + 4] == page[..len] + page[len..len + 4];
  }

  lemma HoldsValid(crc: Checksum, page: seq<Byte>, data: seq<Byte>)
    requires Holds(crc, page, data)
    ensures Valid(crc, page, |data|) && page[..|data|] == data
  {
    hide ToBytes, FromBytes;
    WordRoundTrip(crc(data));
    assert page[..|data|] == page[..|data| + 4][..|data|];
    assert page[|data|..|data| + 4] == page[..|data| + 4][|data|..];
  }

  /** A page after the first k bytes of `image` have been written at its start. */
  function Overlay(page: seq<Byte>, image: seq<Byte>, k: nat): (r: seq<Byte>)
    requires k <= |image| <= |page|
    ensures |r| == |page|
  {
    image[..k] + page[k..]
  }

  /** The primary and the secondary copy. */
  datatype Copies = Copies(primary: seq<Byte>, secondary: seq<Byte>)

  predicate Room(c: Copies, len: nat) {
    len + 4 <= |c.primary| && len + 4 <= |c.secondary|
  }

  /** Both copies after a write of `data` that stored k bytes in all, the primary first. */
  function Cut(crc: Checksum, c: Copies, data: seq<Byte>, k: nat): (d: Copies)
    requires Room(c, |data|) && k <= 2 * (|data| + 4)
    ensures Room(d, |data|)
  {
    var n := |data| + 4;
    Copies(Overlay(c.primary, Image(crc, data), if k < n then k else n),
           Overlay(c.secondary, Image(crc, data), if k < n then 0 else k - n))
  }

  predicate InSync(crc: Checksum, c: Copies, data: seq<Byte>) {
    Holds(crc, c.primary, data) && Holds(crc, c.secondary, data)
  }

  datatype Found = Corrupted | Data(value: seq<Byte>)

  /** What a read without faults finds. */
  function Find(crc: Checksum, c: Copies, len: nat): Found
    requires Room(c, len)
  {
    if Valid(crc, c.primary, len) then Data(c.primary[..len])
    else if Valid(crc, c.secondary, len) then Data(c.secondary[..len])
    else Corrupted
  }

  /** What a read without faults leaves: the copy it did not return is rewritten, unless both
      passed with the same checksum. */
  function Healed(crc: Checksum, c: Copies, len: nat): Copies
    requires Room(c, len)
  {
    var p, s := Valid(crc, c.primary, len), Valid(crc, c.secondary, len);
    if p && !(s && crc(c.primary[..len]) == crc(c.secondary[..len])) then
      c.(secondary := Overlay(c.secondary, Image(crc, c.primary[..len]), len + 4))
    else if !p && s then
      c.(primary := Overlay(c.primary, Image(crc, c.secondary[..len]), len + 4))
    else c
  }

  // ---- one write, one read ----

  lemma OverlayHolds(crc: Checksum, page: seq<Byte>, data: seq<Byte>)
    requires |data| + 4 <= |page|
    ensures Holds(crc, Overlay(page, Image(crc, data), |data| + 4), data)
  {
    hide ToBytes;
    assert Overlay(page, Image(crc, data), |data| + 4)[..|data| + 4] == Image(crc, data);
  }

  /** A write cut anywhere leaves one copy intact: until the primary is whole the secondary is
      untouched, and from then on the primary holds the new data. */
  lemma OneCopyIntact(crc: Checksum, c: Copies, old_: seq<Byte>, new_: seq<Byte>, k: nat)
    requires |old_| == |new_| && InSync(crc, c, old_) && Room(c, |new_|) && k <= 2 * (|new_| + 4)
    ensures var d := Cut(crc, c, new_, k);
            && (k <= |new_| + 4 ==> d.secondary == c.secondary && Holds(crc, d.secondary, old_))
            && (k >= |new_| + 4 ==> Holds(crc, d.primary, new_))
            && (k == 2 * (|new_| + 4) ==> InSync(crc, d, new_))
  {
    hide ToBytes;
    OverlayHolds(crc, c.primary, new_);
    OverlayHolds(crc, c.secondary, new_);
    assert Overlay(c.secondary, Image(crc, new_), 0) == c.secondary;
  }

  /** The primary as a cut write leaves it. */
  function TornPrimary(crc: Checksum, c: Copies, new_: seq<Byte>, k: nat): seq<Byte>
    requires Room(c, |new_|) && k <= 2 * (|new_| + 4)
  {
    Cut(crc, c, new_, k).primary
  }

  /** The read after an interrupted write returns the old or the new data exactly when a torn
      primary does not pass its checksum with other data; and never reports corruption. */
  lemma ReadAfterCut(crc: Checksum, c: Copies, old_: seq<Byte>, new_: seq<Byte>, k: nat)
    requires |old_| == |new_| && InSync(crc, c, old_) && Room(c, |new_|) && k <= 2 * (|new_| + 4)
    ensures var len := |new_|;
            var d := Cut(crc, c, new_, k);
            var torn := TornPrimary(crc, c, new_, k);
            && Find(crc, d, len).Data?
            && (Find(crc, d, len).value in {old_, new_} <==>
                  (Valid(crc, torn, len) ==> torn[..len] in {old_, new_}))
            && (k >= len + 4 ==> Find(crc, d, len) == Data(new_))
  {
    hide ToBytes, Valid, Cut, Holds;
    OneCopyIntact(crc, c, old_, new_, k);
    var d := Cut(crc, c, new_, k);
    if k <= |new_| + 4 {
      HoldsValid(crc, d.secondary, old_);
    }
    if k >= |new_| + 4 {
      HoldsValid(crc, d.primary, new_);
    }
  }

  /** A read that finds data leaves two copies that pass with equal checksums, and the copy it
      returned exactly as it was. */
  lemma ReadHeals(crc: Checksum, c: Copies, len: nat)
    requires Room(c, len) && Find(crc, c, len).Data?
    ensures var h := Healed(crc, c, len);
            && Room(h, len) && Valid(crc, h.primary, len) && Valid(crc, h.secondary, len)
            && crc(h.primary[..len]) == crc(h.secondary[..len])
            && Find(crc, h, len) == Find(crc, c, len)
            && Healed(crc, h, len) == h
            && (if Valid(crc, c.primary, len) then h.primary == c.primary else h.secondary == c.secondary)
  {
    hide ToBytes, Valid, Holds;
    var p, s := c.primary[..len], c.secondary[..len];
    OverlayHolds(crc, c.secondary, p);
    HoldsValid(crc, Overlay(c.secondary, Image(crc, p), len + 4), p);
    OverlayHolds(crc, c.primary, s);
    HoldsValid(crc, Overlay(c.primary, Image(crc, s), len + 4), s);
  }

  // ---- an interrupted repair ----

  /** A page after n1 bytes of data and n2 of its checksum have been written: the read goes on to the
      checksum whatever became of the data. */
  function Patched(crc: Checksum, page: seq<Byte>, data: seq<Byte>, n1: nat, n2: nat): (r: seq<Byte>)
    requires |data| + 4 <= |page| && n1 <= |data| && n2 <= 4
    ensures |r| == |page|
  {
    Written(Written(page, 0, data, n1), |data|, ToBytes(crc(data)), n2)
  }

  lemma PatchedWhole(crc: Checksum, page: seq<Byte>, data: seq<Byte>)
    requires |data| + 4 <= |page|
    ensures Patched(crc, page, data, |data|, 4) == Overlay(page, Image(crc, data), |data| + 4)
  {
    hide ToBytes;
  }

  /** Byte by byte: new data as far as it got, new checksum as far as it got, and the rest as it was. */
  lemma PatchedAt(crc: Checksum, page: seq<Byte>, data: seq<Byte>, n1: nat, n2: nat)
    requires |data| + 4 <= |page| && n1 <= |data| && n2 <= 4
    ensures forall j :: 0 <= j < |page| ==>
              Patched(crc, page, data, n1, n2)[j] ==
              if j < n1 then data[j]
              else if |data| <= j < |data| + n2 then ToBytes(crc(data))[j - |data|]
              else page[j]
  {
    WrittenAt(page, 0, data, n1);
    WrittenAt(Written(page, 0, data, n1), |data|, ToBytes(crc(data)), n2);
    hide Written, ToBytes;
  }

  /** Healed, with its two writes cut. */
  function HealedUpTo(crc: Checksum, c: Copies, len: nat, n1: nat, n2: nat): Copies
    requires Room(c, len) && n1 <= len && n2 <= 4
  {
    var p, s := Valid(crc, c.primary, len), Valid(crc, c.secondary, len);
    if p && !(s && crc(c.primary[..len]) == crc(c.secondary[..len])) then
      c.(secondary := Patched(crc, c.secondary, c.primary[..len], n1, n2))
    else if !p && s then
      c.(primary := Patched(crc, c.primary, c.secondary[..len], n1, n2))
    else c
  }

  /** An interrupted repair leaves the copy that was returned as it was, and the next read finds
      data: the same data, unless a primary under repair passes with what it has so far. What that
      read then leaves is ReadHeals again. */
  lemma AfterInterruptedRepair(crc: Checksum, c: Copies, len: nat, n1: nat, n2: nat)
    requires Room(c, len) && Find(crc, c, len).Data? && n1 <= len && n2 <= 4
    ensures var h := HealedUpTo(crc, c, len, n1, n2);
            && Room(h, len) && Find(crc, h, len).Data?
            && (if Valid(crc, c.primary, len) then
                  h.primary == c.primary && Find(crc, h, len) == Find(crc, c, len)
                else
                  && h.secondary == c.secondary
                  && Find(crc, h, len) ==
                       if Valid(crc, h.primary, len) then Data(h.primary[..len]) else Find(crc, c, len))
            && (n1 == len && n2 == 4 ==> h == Healed(crc, c, len))
  {
    hide ToBytes, Valid, Holds, Patched, Overlay;
    PatchedWhole(crc, c.primary, c.secondary[..len]);
    PatchedWhole(crc, c.secondary, c.primary[..len]);
  }

  // ---- whole runs ----

  /** The checksum tells the two values, and what a cut leaves of one over the other, apart. */
  ghost predicate TellsApart(crc: Checksum, old_: seq<Byte>, new_: seq<Byte>)
    requires |old_| == |new_|
  {
    && (old_ != new_ ==> crc(old_) != crc(new_))
    && (forall k: nat :: k <= |new_| + 4 ==>
          var torn := Overlay(Image(crc, old_), Image(crc, new_), k);
          Valid(crc, torn, |new_|) ==> torn[..|new_|] in {old_, new_})
  }

  /** Only the image matters to the checks, not the rest of the page. */
  lemma OverlayOfImage(crc: Checksum, page: seq<Byte>, old_: seq<Byte>, new_: seq<Byte>, k: nat)
    requires |old_| == |new_| && Holds(crc, page, old_) && k <= |new_| + 4
    ensures var torn := Overlay(Image(crc, old_), Image(crc, new_), k);
            var r := Overlay(page, Image(crc, new_), k);
            && r[..|new_|] == torn[..|new_|]
            && (Valid(crc, r, |new_|) <==> Valid(crc, torn, |new_|))
  {
    hide ToBytes, FromBytes, Image;
    var torn := Overlay(Image(crc, old_), Image(crc, new_), k);
    var r := Overlay(page, Image(crc, new_), k);
    var len := |new_|;
    assert r[..len + 4] == torn by {
      assert page[..len + 4][k..] == page[k..len + 4];
    }
    assert r[..len] == r[..len + 4][..len] == torn[..len];
    assert r[len..len + 4] == r[..len + 4][len..] == torn[len..len + 4];
  }

  /** An interrupted write followed by a read without faults is atomic, and brings the copies
      back into sync. */
  lemma CutThenReadSyncs(crc: Checksum, c: Copies, old_: seq<Byte>, new_: seq<Byte>, k: nat)
    requires |old_| == |new_| && InSync(crc, c, old_) && Room(c, |new_|) && k <= 2 * (|new_| + 4)
    requires TellsApart(crc, old_, new_)
    ensures var d := Cut(crc, c, new_, k);
            && Find(crc, d, |new_|).Data?
            && Find(crc, d, |new_|).value in {old_, new_}
            && (k >= |new_| + 4 ==> Find(crc, d, |new_|).value == new_)
            && InSync(crc, Healed(crc, d, |new_|), Find(crc, d, |new_|).value)
  {
    hide ToBytes, Valid, Image, Overlay;
    var len, n := |new_|, |new_| + 4;
    var d := Cut(crc, c, new_, k);
    ReadAfterCut(crc, c, old_, new_, k);
    OneCopyIntact(crc, c, old_, new_, k);
    ReadHeals(crc, d, len);
    if k < n {
      HoldsValid(crc, d.secondary, old_);
      OverlayOfImage(crc, c.primary, old_, new_, k);
    } else {
      HoldsValid(crc, d.primary, new_);
      OverlayOfImage(crc, c.secondary, old_, new_, k - n);
    }
    var h := Healed(crc, d, len);
    ValidHolds(crc, h.primary, len);
    ValidHolds(crc, h.secondary, len);
    HealedData(crc, d, old_, new_);
  }

  lemma HealedData(crc: Checksum, d: Copies, old_: seq<Byte>, new_: seq<Byte>)
    requires |old_| == |new_| && Room(d, |new_|) && (old_ != new_ ==> crc(old_) != crc(new_))
    requires Valid(crc, d.primary, |new_|) ==> d.primary[..|new_|] in {old_, new_}
    requires Valid(crc, d.secondary, |new_|) ==> d.secondary[..|new_|] in {old_, new_}
    requires Find(crc, d, |new_|).Data?
    ensures var h := Healed(crc, d, |new_|);
            h.primary[..|new_|] == h.secondary[..|new_|] == Find(crc, d, |new_|).value
  {
    hide ToBytes, Valid;
  }

  /** One cycle of a run: a write of `data` that stores k bytes, then a read. */
  datatype Cycle = Cycle(data: seq<Byte>, k: nat)

  function AfterCycles(crc: Checksum, c: Copies, len: nat, cycles: seq<Cycle>): Copies
    requires Room(c, len)
    requires forall y <- cycles :: |y.data| == len && y.k <= 2 * (len + 4)
    ensures Room(AfterCycles(crc, c, len, cycles), len)
  {
    if cycles == [] then c
    else
      var y := cycles[|cycles| - 1];
      Healed(crc, Cut(crc, AfterCycles(crc, c, len, cycles[..|cycles| - 1]), y.data, y.k), len)
  }

  /** The data a page holds after each cycle, if writes are atomic: the new data once the primary
      is whole, otherwise possibly the old. */
  ghost predicate Atomic(initial: seq<Byte>, cycles: seq<Cycle>, result: seq<Byte>) {
    if cycles == [] then result == initial
    else
      var y := cycles[|cycles| - 1];
      result == y.data || (y.k < |y.data| + 4 && Atomic(initial, cycles[..|cycles| - 1], result))
  }

  function Values(initial: seq<Byte>, cycles: seq<Cycle>): set<seq<Byte>> {
    {initial} + set y <- cycles :: y.data
  }

  /** Any number of writes, each cut at any byte and followed by a read, keep the two copies in
      sync on data that was the outcome of atomic writes. */
  lemma {:induction false} RunsStayInSync(crc: Checksum, c: Copies, initial: seq<Byte>, cycles: seq<Cycle>)
    requires InSync(crc, c, initial) && Room(c, |initial|)
    requires forall y <- cycles :: |y.data| == |initial| && y.k <= 2 * (|initial| + 4)
    requires forall a, b :: a in Values(initial, cycles) && b in Values(initial, cycles) && |a| == |b|
               ==> TellsApart(crc, a, b)
    ensures exists result: seq<Byte> ::
              && Atomic(initial, cycles, result) && |result| == |initial| && result in Values(initial, cycles)
              && InSync(crc, AfterCycles(crc, c, |initial|, cycles), result)
  {
    hide TellsApart, InSync, Healed, Cut, Find;
    if cycles == [] {
      assert Atomic(initial, cycles, initial);
    } else {
      var most, y := cycles[..|cycles| - 1], cycles[|cycles| - 1];
      assert y in cycles && Values(initial, most) <= Values(initial, cycles) && y.data in Values(initial, cycles);
      RunsStayInSync(crc, c, initial, most);
      var before: seq<Byte> :| Atomic(initial, most, before) && |before| == |initial|
                               && before in Values(initial, most)
                               && InSync(crc, AfterCycles(crc, c, |initial|, most), before);
      var d := AfterCycles(crc, c, |initial|, most);
      CutThenReadSyncs(crc, d, before, y.data, y.k);
      assert Atomic(initial, cycles, Find(crc, Cut(crc, d, y.data, y.k), |initial|).value);
    }
  }

  // ---- CRC-32 and up to four bytes ----

  /** With CRC-32, values of up to four bytes need no assumption on the checksum. */
  lemma Crc32TellsApart(old_: seq<Byte>, new_: seq<Byte>)
    requires |old_| == |new_| <= 4
    ensures TellsApart(Crc, old_, new_)
  {
    hide Crc;
    if old_ != new_ {
      BurstDetected(old_, new_, 0, |new_|);
    }
    forall k: nat | k <= |new_| + 4
      ensures var torn := Overlay(Image(Crc, old_), Image(Crc, new_), k);
              Valid(Crc, torn, |new_|) ==> torn[..|new_|] in {old_, new_}
    {
      TornDetected(old_, new_, k);
    }
  }

  lemma TornDetected(old_: seq<Byte>, new_: seq<Byte>, k: nat)
    requires |old_| == |new_| <= 5 && k <= |new_| + 4
    ensures var torn := Overlay(Image(Crc, old_), Image(Crc, new_), k);
            Valid(Crc, torn, |new_|) ==> torn[..|new_|] in {old_, new_}
  {
    hide Crc, ToBytes, FromBytes;
    var len := |new_|;
    var torn := Overlay(Image(Crc, old_), Image(Crc, new_), k);
    var found := torn[..len];
    if k >= len {
      assert found == new_;
    } else {
      assert found == new_[..k] + old_[k..];
      assert torn[len..len + 4] == ToBytes(Crc(old_));
      WordRoundTrip(Crc(old_));
      if found != old_ {
        BurstDetected(found, old_, 0, k);
      }
    }
  }

  /** ... so every run of small writes, cut anywhere and followed by reads, is atomic. */
  lemma SmallRunsStayInSync(c: Copies, initial: seq<Byte>, cycles: seq<Cycle>)
    requires |initial| <= 4 && InSync(Crc, c, initial) && Room(c, |initial|)
    requires forall y <- cycles :: |y.data| == |initial| && y.k <= 2 * (|initial| + 4)
    ensures exists result: seq<Byte> ::
              Atomic(initial, cycles, result) && InSync(Crc, AfterCycles(Crc, c, |initial|, cycles), result)
  {
    hide TellsApart, InSync, AfterCycles, Atomic;
    forall a, b | a in Values(initial, cycles) && b in Values(initial, cycles) && |a| == |b|
      ensures TellsApart(Crc, a, b)
    {
      Crc32TellsApart(a, b);
    }
    RunsStayInSync(Crc, c, initial, cycles);
  }

  // ---- why a read must come between two interrupted writes ----

  /** Two interrupted writes with no read between them keep an intact copy, unless the first
      stopped within the secondary and the second within the primary. */
  lemma TwoCutsKeepOne(crc: Checksum, c: Copies, initial: seq<Byte>, a: seq<Byte>, b: seq<Byte>, k1: nat, k2: nat)
    requires |initial| == |a| == |b| && InSync(crc, c, initial) && Room(c, |a|)
    requires k1 <= 2 * (|a| + 4) && k2 <= 2 * (|a| + 4)
    requires k1 <= |a| + 4 || k1 == 2 * (|a| + 4) || k2 == 0 || k2 >= |a| + 4
    ensures var d := Cut(crc, Cut(crc, c, a, k1), b, k2);
            || Holds(crc, d.primary, a) || Holds(crc, d.primary, b)
            || Holds(crc, d.secondary, initial) || Holds(crc, d.secondary, a)
  {
    var c1 := Cut(crc, c, a, k1);
    OneCopyIntact(crc, c, initial, a, k1);
    OverlayHolds(crc, c1.primary, b);
    OverlayZero(c1.primary, Image(crc, b));
    OverlayZero(c1.secondary, Image(crc, b));
    hide Holds, Image, Overlay;
  }

  lemma OverlayZero(page: seq<Byte>, image: seq<Byte>)
    requires |image| <= |page|
    ensures Overlay(page, image, 0) == page
  {
  }

  /** A write interrupted while it rewrites the secondary, then another interrupted in the
      primary with no read between them: both copies are lost. */
  lemma TwoCutsLoseBoth(c: Copies)
    requires InSync(Crc, c, [0]) && Room(c, 1)
    ensures var d := Cut(Crc, Cut(Crc, c, [1], 6), [2], 1);
            Find(Crc, d, 1) == Corrupted && Healed(Crc, d, 1) == d
  {
    hide Crc, ToBytes, FromBytes;
    var d1 := Cut(Crc, c, [1], 6);
    var d := Cut(Crc, d1, [2], 1);
    BurstDetected([1], [0], 0, 1);
    BurstDetected([2], [1], 0, 1);
    WordRoundTrip(Crc([0]));
    WordRoundTrip(Crc([1]));
    assert c.secondary[1..5] == c.secondary[..5][1..] == ToBytes(Crc([0]));
    assert d.secondary[..1] == [1] && d.secondary[1..5] == c.secondary[1..5];
    assert d1.primary[..5] == Image(Crc, [1]);
    assert d1.primary[1..5] == d1.primary[..5][1..] == ToBytes(Crc([1]));
    assert d.primary[..1] == [2] && d.primary[1..5] == d1.primary[1..5];
  }
}
