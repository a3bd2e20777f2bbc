/**
 What an interrupted repair leaves with CRC-32: the read ignores the outcomes of both its writes, so
 a prefix of the data and, independently, a prefix of the checksum may have been stored.
 */
module EepromRepairs {
  import opened Bytes
  import opened Crc32
  import opened CrcKernel
  import opened EepromCopies
  import opened EepromLimits

  // After a loss of power the checksum is not begun unless the data is whole.

  /** How far a repair of len bytes may have got. */
  predicate Extent(len: nat, n1: nat, n2: nat, powerLoss: bool) {
    n1 <= len && n2 <= 4 && (powerLoss ==> n2 == 0 || n1 == len)
  }

  predicate FindsAfterRepair(c: Copies, old_: seq<Byte>, new_: seq<Byte>, k: nat, n1: nat, n2: nat)
    requires |old_| == |new_| && Room(c, |new_|) && k <= 2 * (|new_| + 4) && n1 <= |new_| && n2 <= 4
  {
    var h := HealedUpTo(Crc, Cut(Crc, c, new_, k), |new_|, n1, n2);
    var found := Find(Crc, h, |new_|);
    found == Data(old_) || found == Data(new_)
  }

  /** A write cut anywhere, a read whose repair is cut anywhere, then a read: it returns the old or
      the new data. */
  ghost predicate RepairSafe(len: nat, pageBytes: nat, powerLoss: bool)
    requires len + 4 < pageBytes
  {
    forall c: Copies, old_: seq<Byte>, new_: seq<Byte>, k: nat, n1: nat, n2: nat ::
      && OnPages(c, pageBytes) && |old_| == |new_| == len && k <= 2 * (len + 4) && InSync(Crc, c, old_)
      && Extent(len, n1, n2, powerLoss) ==>
        FindsAfterRepair(c, old_, new_, k, n1, n2)
  }

  // ---- the parts of a page ----

  /** A page passes exactly if the four bytes behind the data are its checksum. */
  lemma ValidStored(page: seq<Byte>, len: nat)
    requires len + 4 <= |page|
    ensures Valid(Crc, page, len) <==> page[len..len + 4] == ToBytes(Crc(page[..len]))
  {
    hide Crc, ToBytes, FromBytes;
    BytesRoundTrip(page[len..len + 4]);
    WordRoundTrip(Crc(page[..len]));
  }

  lemma TornParts(page: seq<Byte>, old_: seq<Byte>, new_: seq<Byte>, k: nat)
    requires |old_| == |new_| && Holds(Crc, page, old_) && k <= |new_| + 4
    ensures var (torn, len) := (Overlay(page, Image(Crc, new_), k), |new_|);
            && torn[..len] == Mixed(old_, new_, k)
            && torn[len..len + 4] == Mixed(ToBytes(Crc(old_)), ToBytes(Crc(new_)), k - len)
  {
    hide Crc, ToBytes;
    var (a, b, len) := (Image(Crc, old_), Image(Crc, new_), |new_|);
    var torn := Overlay(page, b, k);
    assert torn[..len + 4] == Mixed(a, b, k) by {
      assert page[..len + 4][k..] == a[k..];
    }
    SliceMixed(a, b, k, 0, len);
    SliceMixed(a, b, k, len, len + 4);
    assert torn[..len] == torn[..len + 4][0..len] && torn[len..len + 4] == torn[..len + 4][len..len + 4];
    assert a[0..len] == old_ && b[0..len] == new_;
  }

  lemma PatchedParts(page: seq<Byte>, data: seq<Byte>, n1: nat, n2: nat)
    requires |data| + 4 <= |page| && n1 <= |data| && n2 <= 4
    ensures var (r, len) := (Patched(Crc, page, data, n1, n2), |data|);
            && r[..len] == Mixed(page[..len], data, n1)
            && r[len..len + 4] == Mixed(page[len..len + 4], ToBytes(Crc(data)), n2)
            && r[len + 4..] == page[len + 4..]
  {
    hide Crc, ToBytes;
    WrittenAt(page, 0, data, n1);
    var first := Written(page, 0, data, n1);
    WrittenAt(first, |data|, ToBytes(Crc(data)), n2);
    hide Written;
    var r := Patched(Crc, page, data, n1, n2);
    MixedAt(page[..|data|], data, n1);
    MixedAt(page[|data|..|data| + 4], ToBytes(Crc(data)), n2);
    hide Mixed;
    assert r[..|data|] == Mixed(page[..|data|], data, n1);
  }

  // ---- what a patched torn copy can pass with ----

  lemma CrcApart(a: seq<Byte>, b: seq<Byte>)
    requires |a| == |b| <= 4 && ToBytes(Crc(a)) == ToBytes(Crc(b))
    ensures a == b
  {
    hide Crc, ToBytes;
    WordRoundTrip(Crc(a));
    WordRoundTrip(Crc(b));
    if a != b {
      BurstDetected(a, b, 0, |a|);
    }
  }

  /** If the data of the patched copy is the new data, its checksum was already whole. */
  lemma NewPassesBefore(o: seq<Byte>, n: seq<Byte>, j: int, n2: nat)
    requires |o| == |n| && Mixed(Mixed(o, n, j), o, n2) == n
    ensures Mixed(o, n, j) == n
  {
    MixedAt(o, n, j);
    MixedAt(Mixed(o, n, j), o, n2);
    hide Mixed;
    forall i | 0 <= i < |n| ensures Mixed(o, n, j)[i] == n[i] {
      assert Mixed(Mixed(o, n, j), o, n2)[i] == n[i];
    }
  }

  lemma RepairSyndromes(old_: seq<Byte>, new_: seq<Byte>, m: seq<Byte>, j: nat, n2: nat)
    requires |old_| == |new_| == |m| && n2 < j <= 3
    requires ToBytes(Crc(m)) == Mixed(Mixed(ToBytes(Crc(old_)), ToBytes(Crc(new_)), j), ToBytes(Crc(old_)), n2)
    ensures Within(Syndrome(Diff(m, old_)), n2, j) && Without(Syndrome(Diff(new_, m)), n2, j)
  {
    var (c, co, cn) := (Crc(m), Crc(old_), Crc(new_));
    PlainDifference(m, old_);
    PlainDifference(new_, m);
    hide Crc, ToBytes, Xor, Diff, Syndrome;
    MixedAt(ToBytes(co), ToBytes(cn), j);
    MixedAt(Mixed(ToBytes(co), ToBytes(cn), j), ToBytes(co), n2);
    hide Mixed;
    SameAndZero(c, co);
    SameAndZero(cn, c);
  }

  lemma PlainDifference(a: seq<Byte>, b: seq<Byte>)
    requires |a| == |b|
    ensures Xor(Crc(a), Crc(b)) == Syndrome(Diff(a, b))
  {
    CrcDifference([], a, b);
    assert [] + a == a && [] + b == b;
  }

  /** Between the two: the write stopped in the checksum, the repair in the data. */
  lemma MixtureDetected(old_: seq<Byte>, new_: seq<Byte>, j: nat, n1: nat, n2: nat)
    requires 0 < n1 < |old_| == |new_| && n2 < j <= 3 && (|old_| <= 3 || (|old_| == 4 && n2 == 0))
    requires var m := Mixed(new_, old_, n1);
             ToBytes(Crc(m)) == Mixed(Mixed(ToBytes(Crc(old_)), ToBytes(Crc(new_)), j), ToBytes(Crc(old_)), n2)
    ensures var m := Mixed(new_, old_, n1); m == old_ || m == new_
  {
    var m := Mixed(new_, old_, n1);
    MixedAt(new_, old_, n1);
    hide Crc, ToBytes, Syndrome, Within, Without, Mixed;
    RepairSyndromes(old_, new_, m, j, n2);
    DiffParts(m, old_, new_, n1);
    hide Diff, AllZero;
    RepairKernel(Diff(m, old_), Diff(new_, m), n1, n2, j);
    NoDifference(m, old_);
    NoDifference(new_, m);
  }

  lemma NoDifference(a: seq<Byte>, b: seq<Byte>)
    requires |a| == |b|
    ensures AllZero(Diff(a, b)) ==> a == b
  {
    if AllZero(Diff(a, b)) {
      assert Diff(a, b) == Zeros(|a|);
      DiffZero(a, b);
    }
  }

  lemma DiffParts(m: seq<Byte>, old_: seq<Byte>, new_: seq<Byte>, n: nat)
    requires |m| == |old_| == |new_| && n <= |m|
    requires forall i :: 0 <= i < |m| ==> m[i] == if i < n then old_[i] else new_[i]
    ensures AllZero(Diff(m, old_)[..n]) && AllZero(Diff(new_, m)[n..])
  {
    forall i | 0 <= i < |m| ensures m[i] ^ m[i] == 0 {
      SameBytes(m[i], m[i]);
    }
  }

  /** A torn copy that does not pass, patched with the old data, passes only with the old data: for up
      to three bytes, and for four after a loss of power. */
  lemma PatchDetected(old_: seq<Byte>, new_: seq<Byte>, k: nat, n1: nat, n2: nat)
    requires |old_| == |new_| && k < |new_| + 4 && Extent(|new_|, n1, n2, |new_| > 3) && |new_| <= 4
    requires var (o, n) := (ToBytes(Crc(old_)), ToBytes(Crc(new_)));
             && Mixed(o, n, k - |new_|) != ToBytes(Crc(Mixed(old_, new_, k)))
             && Mixed(Mixed(o, n, k - |new_|), o, n2) == ToBytes(Crc(Mixed(Mixed(old_, new_, k), old_, n1)))
    ensures Mixed(Mixed(old_, new_, k), old_, n1) == old_
  {
    var (o, n, len) := (ToBytes(Crc(old_)), ToBytes(Crc(new_)), |new_|);
    var (torn, j) := (Mixed(old_, new_, k), k - len);
    var m := Mixed(torn, old_, n1);
    AllNew(torn, old_, n1);
    AllNew(old_, new_, k);
    AllNew(o, n, j);
    SameMixed(o, n2);
    hide Crc, ToBytes, Mixed;
    if n1 < len {
      if k <= len {
        CrcApart(m, old_);
      } else if n1 == 0 {
        NewPassesBefore(o, n, j, n2);
      } else if n2 >= j {
        PatchedOver(o, n, j, n2);
        CrcApart(m, old_);
      } else {
        MixtureDetected(old_, new_, j, n1, n2);
        if m == new_ {
          NewPassesBefore(o, n, j, n2);
        }
      }
    }
  }

  lemma PatchedOver(o: seq<Byte>, n: seq<Byte>, j: int, n2: nat)
    requires |o| == |n| && j <= n2
    ensures Mixed(Mixed(o, n, j), o, n2) == o
  {
  }

  // ---- on the pages ----

  lemma TornPasses(page: seq<Byte>, old_: seq<Byte>, new_: seq<Byte>, k: nat)
    requires |old_| == |new_| && Holds(Crc, page, old_) && k < |new_| + 4
    ensures Valid(Crc, Overlay(page, Image(Crc, new_), k), |new_|) <==>
            Mixed(ToBytes(Crc(old_)), ToBytes(Crc(new_)), k - |new_|) == ToBytes(Crc(Mixed(old_, new_, k)))
  {
    hide Crc, ToBytes, Valid, Image, Overlay, Mixed;
    TornParts(page, old_, new_, k);
    ValidStored(Overlay(page, Image(Crc, new_), k), |new_|);
  }

  lemma PatchPasses(page: seq<Byte>, old_: seq<Byte>, new_: seq<Byte>, k: nat, n1: nat, n2: nat)
    requires |old_| == |new_| && Holds(Crc, page, old_) && k < |new_| + 4 && n1 <= |new_| && n2 <= 4
    ensures var p := Patched(Crc, Overlay(page, Image(Crc, new_), k), old_, n1, n2);
            && p[..|new_|] == Mixed(Mixed(old_, new_, k), old_, n1)
            && (Valid(Crc, p, |new_|) <==>
                  Mixed(Mixed(ToBytes(Crc(old_)), ToBytes(Crc(new_)), k - |new_|), ToBytes(Crc(old_)), n2) ==
                  ToBytes(Crc(Mixed(Mixed(old_, new_, k), old_, n1))))
  {
    hide Crc, ToBytes, Valid, Image, Patched, Mixed;
    var torn := Overlay(page, Image(Crc, new_), k);
    TornParts(page, old_, new_, k);
    hide Overlay, Holds;
    PatchedParts(torn, old_, n1, n2);
    ValidStored(Patched(Crc, torn, old_, n1, n2), |new_|);
  }

  lemma PatchedTornPasses(page: seq<Byte>, old_: seq<Byte>, new_: seq<Byte>, k: nat, n1: nat, n2: nat)
    requires |old_| == |new_| <= 4 && Holds(Crc, page, old_) && k < |new_| + 4
    requires Extent(|new_|, n1, n2, |new_| > 3)
    requires var torn := Overlay(page, Image(Crc, new_), k);
             !Valid(Crc, torn, |new_|) && Valid(Crc, Patched(Crc, torn, old_, n1, n2), |new_|)
    ensures var torn := Overlay(page, Image(Crc, new_), k);
            Patched(Crc, torn, old_, n1, n2)[..|new_|] == old_
  {
    hide Crc, ToBytes, Valid, Image, Patched, Mixed;
    TornPasses(page, old_, new_, k);
    PatchPasses(page, old_, new_, k, n1, n2);
    PatchDetected(old_, new_, k, n1, n2);
  }

  /** A read that finds the primary torn patches it from the secondary; the next one returns what the
      patched primary holds if that passes, and the old data otherwise. */
  lemma TornPrimaryPatched(c: Copies, old_: seq<Byte>, new_: seq<Byte>, k: nat, n1: nat, n2: nat)
    requires |old_| == |new_| && Room(c, |new_|) && k <= 2 * (|new_| + 4) && InSync(Crc, c, old_)
    requires n1 <= |new_| && n2 <= 4 && !Valid(Crc, Cut(Crc, c, new_, k).primary, |new_|)
    ensures k < |new_| + 4 && Cut(Crc, c, new_, k).primary == Overlay(c.primary, Image(Crc, new_), k)
    ensures var (d, len) := (Cut(Crc, c, new_, k), |new_|);
            var p := Patched(Crc, d.primary, old_, n1, n2);
            && Find(Crc, d, len) == Data(old_)
            && Find(Crc, HealedUpTo(Crc, d, len, n1, n2), len) == if Valid(Crc, p, len) then Data(p[..len]) else Data(old_)
  {
    var (d, len) := (Cut(Crc, c, new_, k), |new_|);
    hide Crc, Valid, Patched, Image, Overlay;
    OneCopyIntact(Crc, c, old_, new_, k);
    if k >= len + 4 {
      HoldsValid(Crc, d.primary, new_);
    }
    HoldsValid(Crc, d.secondary, old_);
  }

  /** An interrupted repair does not change what a read finds: for up to three bytes whatever the
      repair stored, for four after a loss of power. */
  lemma RepairKeepsFind(c: Copies, old_: seq<Byte>, new_: seq<Byte>, k: nat, n1: nat, n2: nat)
    requires |old_| == |new_| <= 4 && Room(c, |new_|) && k <= 2 * (|new_| + 4) && InSync(Crc, c, old_)
    requires Extent(|new_|, n1, n2, |new_| > 3)
    ensures var d := Cut(Crc, c, new_, k);
            Find(Crc, HealedUpTo(Crc, d, |new_|, n1, n2), |new_|) == Find(Crc, d, |new_|)
  {
    var (d, len) := (Cut(Crc, c, new_, k), |new_|);
    ReadAfterCut(Crc, c, old_, new_, k);
    AfterInterruptedRepair(Crc, d, len, n1, n2);
    hide Crc, Valid, Patched, HealedUpTo, Find, Overlay, Image;
    if !Valid(Crc, d.primary, len) {
      TornPrimaryPatched(c, old_, new_, k, n1, n2);
      if Valid(Crc, Patched(Crc, d.primary, old_, n1, n2), len) {
        PatchedTornPasses(c.primary, old_, new_, k, n1, n2);
      }
    }
  }

  // ---- where it ends ----

  /** A mixture that the patched checksum fits, over a torn copy that does not pass, is what the next
      read returns. */
  lemma RepairTears(old_: seq<Byte>, new_: seq<Byte>, pageBytes: nat, k: nat, n1: nat, n2: nat)
    requires |old_| == |new_| && |new_| + 4 < pageBytes && k < |new_| + 4 && n1 <= |new_| && n2 <= 4
    requires var (o, n) := (ToBytes(Crc(old_)), ToBytes(Crc(new_)));
             && Mixed(o, n, k - |new_|) != ToBytes(Crc(Mixed(old_, new_, k)))
             && Mixed(Mixed(o, n, k - |new_|), o, n2) == ToBytes(Crc(Mixed(Mixed(old_, new_, k), old_, n1)))
    ensures Find(Crc, HealedUpTo(Crc, Cut(Crc, Twice(old_, pageBytes), new_, k), |new_|, n1, n2), |new_|) ==
            Data(Mixed(Mixed(old_, new_, k), old_, n1))
  {
    var (c, len) := (Twice(old_, pageBytes), |new_|);
    TwiceInSync(old_, pageBytes);
    hide Crc, ToBytes, Valid, Image, Overlay, Patched, Mixed, Twice, Find, HealedUpTo;
    TornPasses(c.primary, old_, new_, k);
    PatchPasses(c.primary, old_, new_, k, n1, n2);
    assert Cut(Crc, c, new_, k).primary == Overlay(c.primary, Image(Crc, new_), k);
    hide Cut, InSync;
    TornPrimaryPatched(c, old_, new_, k, n1, n2);
  }

  const NEW4: seq<Byte> := [0x23, 0xC7, 0x13, 0x57]
  const MIX4: seq<Byte> := [0x00, 0xC7, 0x13, 0x57]
  const REST4: seq<Byte> := [0x23, 0x00, 0x00, 0x00]
  const NEW5: seq<Byte> := [0x97, 0xC7, 0x13, 0x57, 0x00]
  const MIX5: seq<Byte> := [0x00, 0xC7, 0x13, 0x57, 0x00]
  const REST5: seq<Byte> := [0x97, 0x00, 0x00, 0x00, 0x00]

  lemma Syndromes4()
    ensures Syndrome(NEW4) == 0xB287_05D0 && Syndrome(MIX4) == 0x500 && Syndrome(REST4) == 0xB287_00D0
  {
    SyndromeOfFour(NEW4);
    SyndromeOfFour(MIX4);
    SyndromeOfFour(REST4);
    Words4();
    hide Syndrome, Shift32, Word;
    Turned4();
  }

  lemma Words4()
    ensures Word(NEW4) == 0x5713_C723 && Word(MIX4) == 0x5713_C700 && Word(REST4) == 0x23
  {
  }

  lemma Turned4()
    ensures Shift32(0x5713_C723) == 0xB287_05D0 && Shift32(0x5713_C700) == 0x500 && Shift32(0x23) == 0xB287_00D0
  {
  }

  lemma Syndromes5()
    ensures Syndrome(NEW5) == 0x6326_FB05 && Syndrome(MIX5) == 0x5 && Syndrome(REST5) == 0x6326_FB00
  {
    FiveBytes([0x97, 0xC7, 0x13, 0x57]);
    FiveBytes([0x00, 0xC7, 0x13, 0x57]);
    FiveBytes([0x97, 0x00, 0x00, 0x00]);
    Words5();
    assert NEW5 == [0x97, 0xC7, 0x13, 0x57] + [0] && MIX5 == [0x00, 0xC7, 0x13, 0x57] + [0];
    assert REST5 == [0x97, 0x00, 0x00, 0x00] + [0];
    hide Syndrome, Shift32, Shift8, Word;
    Turned5();
    TurnedOnce5();
  }

  lemma FiveBytes(u: seq<Byte>)
    requires |u| == 4
    ensures Syndrome(u + [0]) == Shift8(Shift32(Word(u)))
  {
    hide Syndrome, Shift32, Shift8, Word, Xor;
    SyndromeOfFour(u);
    SyndromeAppend(u, 0);
    NothingTurned();
    XorLaws(Shift8(Syndrome(u)), 0, 0);
  }

  lemma Words5()
    ensures Word([0x97, 0xC7, 0x13, 0x57]) == 0x5713_C797 && Word([0x00, 0xC7, 0x13, 0x57]) == 0x5713_C700
    ensures Word([0x97, 0x00, 0x00, 0x00]) == 0x97
  {
  }

  lemma Turned5()
    ensures Shift32(0x5713_C797) == 0x2097_DC1D && Shift32(0x5713_C700) == 0x500 && Shift32(0x97) == 0x2097_D91D
  {
  }

  lemma TurnedOnce5()
    ensures Shift8(0x2097_DC1D) == 0x6326_FB05 && Shift8(0x500) == 0x5 && Shift8(0x2097_D91D) == 0x6326_FB00
  {
  }

  /** Checksums that differ like this: the second byte of the mixture's is new, the others are old. */
  lemma SecondIsNew(co: bv32, cn: bv32, cm: bv32)
    requires Xor(cn, co) == 0xB287_05D0 && Xor(cm, co) == 0x500 && Xor(cn, cm) == 0xB287_00D0
    ensures var (o, n) := (ToBytes(co), ToBytes(cn));
            Mixed(o, n, 2) != n && Mixed(Mixed(o, n, 2), o, 1) == ToBytes(cm)
  {
    var (o, n, m) := (ToBytes(co), ToBytes(cn), ToBytes(cm));
    Bytes4();
    MixedAt(o, n, 2);
    MixedAt(Mixed(o, n, 2), o, 1);
    hide ToBytes, Xor, Mixed;
    SameAndZero(cn, co);
    SameAndZero(cm, co);
    SameAndZero(cn, cm);
    assert Mixed(o, n, 2)[2] != n[2];
    assert Mixed(Mixed(o, n, 2), o, 1) == m;
  }

  lemma Bytes4()
    ensures ToBytes(0xB287_05D0)[2] != 0 && ToBytes(0xB287_00D0)[1] == 0
    ensures ToBytes(0x500)[0] == 0 && ToBytes(0x500)[2] == 0 && ToBytes(0x500)[3] == 0
  {
  }

  /** ... or its lowest byte is new. */
  lemma LowestIsNew(co: bv32, cn: bv32, cm: bv32)
    requires Xor(cn, co) == 0x6326_FB05 && Xor(cm, co) == 0x5 && Xor(cn, cm) == 0x6326_FB00
    ensures var (o, n) := (ToBytes(co), ToBytes(cn));
            Mixed(o, n, 1) != n && Mixed(Mixed(o, n, 1), o, 0) == ToBytes(cm)
  {
    var (o, n, m) := (ToBytes(co), ToBytes(cn), ToBytes(cm));
    Bytes5();
    MixedAt(o, n, 1);
    AllNew(Mixed(o, n, 1), o, 0);
    hide ToBytes, Xor, Mixed;
    SameAndZero(cn, co);
    SameAndZero(cm, co);
    SameAndZero(cn, cm);
    assert Mixed(o, n, 1)[1] != n[1];
    assert Mixed(o, n, 1) == m;
  }

  lemma Bytes5()
    ensures ToBytes(0x6326_FB05)[1] != 0 && ToBytes(0x6326_FB00)[0] == 0
    ensures ToBytes(0x5)[1] == 0 && ToBytes(0x5)[2] == 0 && ToBytes(0x5)[3] == 0
  {
  }

  lemma PaddedSyndrome(len: nat, a: seq<Byte>, b: seq<Byte>, e: seq<Byte>)
    requires |a| == |b| <= len && Diff(a, b) == e
    ensures Xor(Crc(Padded(len, a)), Crc(Padded(len, b))) == Syndrome(e)
  {
    hide Crc, Syndrome, Xor, Diff, Padded;
    PlainDifference(Padded(len, a), Padded(len, b));
    PaddedDiff(len, a, b);
    LeadingZeros(len - |a|, e);
  }

  lemma Diffs4()
    ensures Diff(NEW4, Zeros(4)) == NEW4 && Diff(MIX4, Zeros(4)) == MIX4 && Diff(NEW4, MIX4) == REST4
  {
  }

  lemma Diffs5()
    ensures Diff(NEW5, Zeros(5)) == NEW5 && Diff(MIX5, Zeros(5)) == MIX5 && Diff(NEW5, MIX5) == REST5
  {
  }

  lemma PaddedMixture(len: nat, e: seq<Byte>, m: seq<Byte>, k: nat)
    requires 0 < |e| == |m| <= len && m == [0] + e[1..] && len <= k
    ensures Mixed(Mixed(Zeros(len), Padded(len, e), k), Zeros(len), len - |e| + 1) == Padded(len, m)
    ensures Mixed(Zeros(len), Padded(len, e), k) == Padded(len, e) && Zeros(len) == Padded(len, Zeros(|e|))
  {
    AllNew(Zeros(len), Padded(len, e), k);
  }

  lemma NeitherOf(len: nat, e: seq<Byte>, m: seq<Byte>)
    requires 1 < |e| == |m| <= len && e[0] != m[0] && m[1] != 0
    ensures Padded(len, m) != Padded(len, e) && Padded(len, m) != Zeros(len)
  {
    var n := len - |e|;
    assert Padded(len, m)[n] == m[0] && Padded(len, e)[n] == e[0] && Padded(len, m)[n + 1] == m[1];
    assert Zeros(len)[n + 1] == 0;
  }

  /** Four bytes or more: zeros, a write of 23 C7 13 57 (behind zeros) that stops two bytes into the
      checksum, and a repair that stores one of these data bytes and one of the checksum. */
  lemma RepairCanTear(len: nat, pageBytes: nat)
    requires 4 <= len && len + 4 < pageBytes
    ensures var (old_, new_) := (Zeros(len), Padded(len, NEW4));
            && Find(Crc, HealedUpTo(Crc, Cut(Crc, Twice(old_, pageBytes), new_, len + 2), len, len - 3, 1), len) ==
               Data(Padded(len, MIX4))
            && !FindsAfterRepair(Twice(old_, pageBytes), old_, new_, len + 2, len - 3, 1)
  {
    var (old_, new_, m) := (Zeros(len), Padded(len, NEW4), Padded(len, MIX4));
    NeitherOf(len, NEW4, MIX4);
    PaddedMixture(len, NEW4, MIX4, len + 2);
    Diffs4();
    PaddedSyndrome(len, NEW4, Zeros(4), NEW4);
    PaddedSyndrome(len, MIX4, Zeros(4), MIX4);
    PaddedSyndrome(len, NEW4, MIX4, REST4);
    Syndromes4();
    hide Crc, ToBytes, Mixed, Padded, Zeros, Syndrome, Xor, Diff, Twice, Find, HealedUpTo, Cut;
    SecondIsNew(Crc(old_), Crc(new_), Crc(m));
    RepairTears(old_, new_, pageBytes, len + 2, len - 3, 1);
  }

  /** Five bytes or more, and a loss of power: zeros, a write of 97 C7 13 57 00 (behind zeros) that stops
      one byte into the checksum, and a repair that stores one of these data bytes. */
  lemma PowerLossCanTear(len: nat, pageBytes: nat)
    requires 5 <= len && len + 4 < pageBytes
    ensures var (old_, new_) := (Zeros(len), Padded(len, NEW5));
            && Find(Crc, HealedUpTo(Crc, Cut(Crc, Twice(old_, pageBytes), new_, len + 1), len, len - 4, 0), len) ==
               Data(Padded(len, MIX5))
            && !FindsAfterRepair(Twice(old_, pageBytes), old_, new_, len + 1, len - 4, 0)
  {
    var (old_, new_, m) := (Zeros(len), Padded(len, NEW5), Padded(len, MIX5));
    NeitherOf(len, NEW5, MIX5);
    PaddedMixture(len, NEW5, MIX5, len + 1);
    Diffs5();
    PaddedSyndrome(len, NEW5, Zeros(5), NEW5);
    PaddedSyndrome(len, MIX5, Zeros(5), MIX5);
    PaddedSyndrome(len, NEW5, MIX5, REST5);
    Syndromes5();
    hide Crc, ToBytes, Mixed, Padded, Zeros, Syndrome, Xor, Diff, Twice, Find, HealedUpTo, Cut;
    LowestIsNew(Crc(old_), Crc(new_), Crc(m));
    RepairTears(old_, new_, pageBytes, len + 1, len - 4, 0);
  }

  /** The sizes for which an interrupted repair is harmless are exactly those up to three bytes, and
      up to four if only the power can fail. */
  lemma RepairSafeExactly(len: nat, pageBytes: nat, powerLoss: bool)
    requires len + 4 < pageBytes
    ensures RepairSafe(len, pageBytes, powerLoss) <==> len <= if powerLoss then 4 else 3
  {
    if len <= if powerLoss then 4 else 3 {
      forall c: Copies, old_: seq<Byte>, new_: seq<Byte>, k: nat, n1: nat, n2: nat
        | && OnPages(c, pageBytes) && |old_| == |new_| == len && k <= 2 * (len + 4) && InSync(Crc, c, old_)
          && Extent(len, n1, n2, powerLoss)
        ensures FindsAfterRepair(c, old_, new_, k, n1, n2)
      {
        hide Crc, InSync, Find, HealedUpTo, Cut;
        FindsUpToFive(c, old_, new_, k);
        RepairKeepsFind(c, old_, new_, k, n1, n2);
      }
    } else {
      TwiceInSync(Zeros(len), pageBytes);
      if powerLoss {
        PowerLossCanTear(len, pageBytes);
        NotRepairSafe(Twice(Zeros(len), pageBytes), Zeros(len), Padded(len, NEW5), pageBytes, len + 1, len - 4, 0, true);
      } else {
        RepairCanTear(len, pageBytes);
        NotRepairSafe(Twice(Zeros(len), pageBytes), Zeros(len), Padded(len, NEW4), pageBytes, len + 2, len - 3, 1, false);
      }
    }
  }

  lemma NotRepairSafe(c: Copies, old_: seq<Byte>, new_: seq<Byte>, pageBytes: nat, k: nat, n1: nat, n2: nat,
                      powerLoss: bool)
    requires |new_| + 4 < pageBytes && OnPages(c, pageBytes) && |old_| == |new_| && k <= 2 * (|new_| + 4)
    requires InSync(Crc, c, old_) && Extent(|new_|, n1, n2, powerLoss) && Room(c, |new_|)
    requires !FindsAfterRepair(c, old_, new_, k, n1, n2)
    ensures !RepairSafe(|new_|, pageBytes, powerLoss)
  {
    hide Crc, InSync, FindsAfterRepair;
  }

  // ---- whole runs with interrupted repairs ----

  /** How far the repair of one read got. */
  datatype Repair = Repair(n1: nat, n2: nat)

  predicate AllWithin(repairs: seq<Repair>, len: nat, powerLoss: bool) {
    forall i :: 0 <= i < |repairs| ==> Extent(len, repairs[i].n1, repairs[i].n2, powerLoss)
  }

  /** Copies after reads whose repairs are cut. */
  function AfterReads(c: Copies, len: nat, repairs: seq<Repair>): (d: Copies)
    requires Room(c, len) && AllWithin(repairs, len, false)
    ensures Room(d, len)
  {
    if repairs == [] then c
    else
      var r := repairs[|repairs| - 1];
      HealedUpTo(Crc, AfterReads(c, len, repairs[..|repairs| - 1]), len, r.n1, r.n2)
  }

  function Most(a: nat, b: nat): nat {
    if a < b then b else a
  }

  /** Two repairs with the same data get as far as the farther of them. */
  lemma PatchedTwice(page: seq<Byte>, data: seq<Byte>, a1: nat, a2: nat, b1: nat, b2: nat)
    requires |data| + 4 <= |page| && a1 <= |data| && b1 <= |data| && a2 <= 4 && b2 <= 4
    ensures Patched(Crc, Patched(Crc, page, data, a1, a2), data, b1, b2) ==
            Patched(Crc, page, data, Most(a1, b1), Most(a2, b2))
  {
    PatchedAt(Crc, page, data, a1, a2);
    PatchedAt(Crc, Patched(Crc, page, data, a1, a2), data, b1, b2);
    PatchedAt(Crc, page, data, Most(a1, b1), Most(a2, b2));
    hide Crc, ToBytes, Patched;
    assert Patched(Crc, Patched(Crc, page, data, a1, a2), data, b1, b2) ==
           Patched(Crc, page, data, Most(a1, b1), Most(a2, b2));
  }

  /** e is d after some interrupted reads: a primary that passed is untouched; one that did not is
      patched from the secondary, which is untouched. */
  ghost predicate UnderRepair(d: Copies, e: Copies, old_: seq<Byte>)
    requires Room(d, |old_|) && Room(e, |old_|)
  {
    if Valid(Crc, d.primary, |old_|) then e.primary == d.primary
    else
      && e.secondary == d.secondary
      && exists n1: nat, n2: nat ::
           Extent(|old_|, n1, n2, |old_| > 3) && e.primary == Patched(Crc, d.primary, old_, n1, n2)
  }

  lemma NothingPatched(page: seq<Byte>, data: seq<Byte>)
    requires |data| + 4 <= |page|
    ensures Patched(Crc, page, data, 0, 0) == page
  {
    PatchedAt(Crc, page, data, 0, 0);
    hide Crc, Patched;
    assert Patched(Crc, page, data, 0, 0) == page;
  }

  /** One more interrupted read keeps it so, and finds what the first one found. */
  lemma OneMoreRead(c: Copies, old_: seq<Byte>, new_: seq<Byte>, k: nat, e: Copies, r: Repair)
    requires |old_| == |new_| <= 4 && Room(c, |new_|) && k <= 2 * (|new_| + 4) && InSync(Crc, c, old_)
    requires Room(e, |new_|) && UnderRepair(Cut(Crc, c, new_, k), e, old_)
    requires Extent(|new_|, r.n1, r.n2, |new_| > 3)
    ensures Find(Crc, e, |new_|) == Find(Crc, Cut(Crc, c, new_, k), |new_|)
    ensures Room(HealedUpTo(Crc, e, |new_|, r.n1, r.n2), |new_|)
    ensures UnderRepair(Cut(Crc, c, new_, k), HealedUpTo(Crc, e, |new_|, r.n1, r.n2), old_)
  {
    var (d, len) := (Cut(Crc, c, new_, k), |new_|);
    hide Crc, Valid, Patched, Image, Overlay, Cut;
    if !Valid(Crc, d.primary, len) {
      var n1: nat, n2: nat :| Extent(len, n1, n2, len > 3) && e.primary == Patched(Crc, d.primary, old_, n1, n2);
      PatchStaysOld(c, old_, new_, k, n1, n2);
      hide InSync;
      OneMorePatch(d, e, old_, n1, n2, r);
    } else {
      hide InSync;
    }
  }

  lemma OneMorePatch(d: Copies, e: Copies, old_: seq<Byte>, n1: nat, n2: nat, r: Repair)
    requires |old_| <= 4 && Room(d, |old_|) && Room(e, |old_|) && !Valid(Crc, d.primary, |old_|)
    requires Extent(|old_|, n1, n2, |old_| > 3) && Extent(|old_|, r.n1, r.n2, |old_| > 3)
    requires e.secondary == d.secondary && e.primary == Patched(Crc, d.primary, old_, n1, n2)
    requires Valid(Crc, d.secondary, |old_|) && d.secondary[..|old_|] == old_
    requires Valid(Crc, e.primary, |old_|) ==> e.primary[..|old_|] == old_
    ensures Find(Crc, e, |old_|) == Find(Crc, d, |old_|) && Room(HealedUpTo(Crc, e, |old_|, r.n1, r.n2), |old_|)
    ensures UnderRepair(d, HealedUpTo(Crc, e, |old_|, r.n1, r.n2), old_)
  {
    hide Crc, Valid, Patched;
    PatchedTwice(d.primary, old_, n1, n2, r.n1, r.n2);
    assert Extent(|old_|, Most(n1, r.n1), Most(n2, r.n2), |old_| > 3);
  }

  lemma PatchStaysOld(c: Copies, old_: seq<Byte>, new_: seq<Byte>, k: nat, n1: nat, n2: nat)
    requires |old_| == |new_| <= 4 && Room(c, |new_|) && k <= 2 * (|new_| + 4) && InSync(Crc, c, old_)
    requires !Valid(Crc, Cut(Crc, c, new_, k).primary, |new_|) && Extent(|new_|, n1, n2, |new_| > 3)
    ensures var (d, len) := (Cut(Crc, c, new_, k), |new_|);
            var p := Patched(Crc, d.primary, old_, n1, n2);
            && (Valid(Crc, p, len) ==> p[..len] == old_)
            && Valid(Crc, d.secondary, len) && d.secondary[..len] == old_
  {
    var d := Cut(Crc, c, new_, k);
    hide Crc, Valid, Patched, Image, Overlay;
    TornPrimaryPatched(c, old_, new_, k, n1, n2);
    OneCopyIntact(Crc, c, old_, new_, k);
    HoldsValid(Crc, d.secondary, old_);
    if Valid(Crc, Patched(Crc, d.primary, old_, n1, n2), |new_|) {
      PatchedTornPasses(c.primary, old_, new_, k, n1, n2);
    }
  }

  lemma {:induction false} ReadsKeepUnderRepair(c: Copies, old_: seq<Byte>, new_: seq<Byte>, k: nat, repairs: seq<Repair>)
    requires |old_| == |new_| <= 4 && Room(c, |new_|) && k <= 2 * (|new_| + 4) && InSync(Crc, c, old_)
    requires AllWithin(repairs, |new_|, |new_| > 3)
    ensures UnderRepair(Cut(Crc, c, new_, k), AfterReads(Cut(Crc, c, new_, k), |new_|, repairs), old_)
    decreases |repairs|
  {
    var d := Cut(Crc, c, new_, k);
    if repairs == [] {
      NothingPatched(d.primary, old_);
      assert Extent(|new_|, 0, 0, |new_| > 3);
    } else {
      var most := repairs[..|repairs| - 1];
      ReadsKeepUnderRepair(c, old_, new_, k, most);
      hide Crc, UnderRepair, Cut, HealedUpTo;
      OneMoreRead(c, old_, new_, k, AfterReads(d, |new_|, most), repairs[|repairs| - 1]);
    }
  }

  /** After a write cut anywhere, any number of reads whose repairs are cut anywhere all find the same,
      the old data or the new; and a read that completes brings both copies into sync on it. For up to
      three bytes, and for four if only the power can fail. */
  lemma ReadsAgree(c: Copies, old_: seq<Byte>, new_: seq<Byte>, k: nat, repairs: seq<Repair>)
    requires |old_| == |new_| <= 4 && Room(c, |new_|) && k <= 2 * (|new_| + 4) && InSync(Crc, c, old_)
    requires AllWithin(repairs, |new_|, |new_| > 3)
    ensures var (d, len) := (Cut(Crc, c, new_, k), |new_|);
            var e := AfterReads(d, len, repairs);
            && Find(Crc, e, len) == Find(Crc, d, len) && Find(Crc, d, len).Data?
            && Find(Crc, d, len).value in {old_, new_}
            && (k >= len + 4 ==> Find(Crc, d, len).value == new_)
            && InSync(Crc, Healed(Crc, e, len), Find(Crc, d, len).value)
  {
    var (d, len) := (Cut(Crc, c, new_, k), |new_|);
    var e := AfterReads(d, len, repairs);
    ReadAfterCut(Crc, c, old_, new_, k);
    FindsUpToFive(c, old_, new_, k);
    ReadsKeepUnderRepair(c, old_, new_, k, repairs);
    hide Crc, UnderRepair, Cut, AfterReads, InSync;
    assert Extent(len, 0, 0, len > 3);
    OneMoreRead(c, old_, new_, k, e, Repair(0, 0));
    HealsInSync(e, len);
  }

  /** With up to four bytes, a read that finds data and completes leaves both copies with it. */
  lemma HealsInSync(e: Copies, len: nat)
    requires len <= 4 && Room(e, len) && Find(Crc, e, len).Data?
    ensures InSync(Crc, Healed(Crc, e, len), Find(Crc, e, len).value)
  {
    hide Crc, Valid, Holds;
    ReadHeals(Crc, e, len);
    var h := Healed(Crc, e, len);
    hide Healed;
    ValidHolds(Crc, h.primary, len);
    ValidHolds(Crc, h.secondary, len);
    SameCrc(h.primary[..len], h.secondary[..len]);
  }

  lemma SameCrc(a: seq<Byte>, b: seq<Byte>)
    requires |a| == |b| <= 4 && Crc(a) == Crc(b)
    ensures a == b
  {
    hide Crc, ToBytes;
    CrcApart(a, b);
  }

  /** One round of a run: a write cut after k bytes, reads whose repairs are cut, and one read that
      completes. */
  datatype Round = Round(data: seq<Byte>, k: nat, repairs: seq<Repair>)

  predicate RoundOk(y: Round, len: nat, powerLoss: bool) {
    |y.data| == len && y.k <= 2 * (len + 4) && AllWithin(y.repairs, len, powerLoss)
  }

  function AfterRound(c: Copies, len: nat, y: Round): (d: Copies)
    requires Room(c, len) && RoundOk(y, len, false)
    ensures Room(d, len)
  {
    Healed(Crc, AfterReads(Cut(Crc, c, y.data, y.k), len, y.repairs), len)
  }

  function AfterRounds(c: Copies, len: nat, rounds: seq<Round>): (d: Copies)
    requires Room(c, len) && forall y <- rounds :: RoundOk(y, len, false)
    ensures Room(d, len)
  {
    if rounds == [] then c
    else
      var y := rounds[|rounds| - 1];
      assert y in rounds;
      AfterRound(AfterRounds(c, len, rounds[..|rounds| - 1]), len, y)
  }

  function Writes(rounds: seq<Round>): (w: seq<Cycle>)
    ensures |w| == |rounds|
  {
    if rounds == [] then []
    else Writes(rounds[..|rounds| - 1]) + [Cycle(rounds[|rounds| - 1].data, rounds[|rounds| - 1].k)]
  }

  /** Any number of rounds leave the copies in sync on the outcome of atomic writes: for up to three
      bytes, and for four if only the power can fail. */
  lemma {:induction false} RoundsStayInSync(c: Copies, initial: seq<Byte>, rounds: seq<Round>)
    requires |initial| <= 4 && InSync(Crc, c, initial) && Room(c, |initial|)
    requires forall y <- rounds :: RoundOk(y, |initial|, |initial| > 3)
    ensures forall y <- rounds :: RoundOk(y, |initial|, false)
    ensures exists result: seq<Byte> ::
              && Atomic(initial, Writes(rounds), result) && |result| == |initial|
              && InSync(Crc, AfterRounds(c, |initial|, rounds), result)
    decreases |rounds|
  {
    hide Crc, InSync, Cut, Find, Healed;
    if rounds == [] {
      assert Atomic(initial, Writes(rounds), initial);
    } else {
      var most, y := rounds[..|rounds| - 1], rounds[|rounds| - 1];
      assert y in rounds && forall x <- most :: x in rounds;
      RoundsStayInSync(c, initial, most);
      var before: seq<Byte> :| Atomic(initial, Writes(most), before) && |before| == |initial|
                               && InSync(Crc, AfterRounds(c, |initial|, most), before);
      var d := AfterRounds(c, |initial|, most);
      ReadsAgree(d, before, y.data, y.k, y.repairs);
      var result := Find(Crc, Cut(Crc, d, y.data, y.k), |initial|).value;
      assert Writes(rounds)[..|rounds| - 1] == Writes(most);
      assert Atomic(initial, Writes(rounds), result);
    }
  }
}
