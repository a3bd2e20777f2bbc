/**
 How far the two-copy protocol carries with CRC-32: the sizes for which one interrupted write is
 harmless, and the pairs of interrupted writes that keep a copy.
 */
module EepromLimits {
  import opened Bytes
  import opened Crc32
  import opened CrcKernel
  import CrcPeriod
  import opened EepromCopies

  /** Both copies on pages of this size; data of len bytes is accepted if len + 4 < pageBytes. */
  predicate OnPages(c: Copies, pageBytes: nat) {
    |c.primary| == |c.secondary| == pageBytes
  }

  // ---- one interrupted write ----

  predicate FindsOldOrNew(c: Copies, old_: seq<Byte>, new_: seq<Byte>, k: nat)
    requires |old_| == |new_| && Room(c, |new_|) && k <= 2 * (|new_| + 4)
  {
    var found := Find(Crc, Cut(Crc, c, new_, k), |new_|);
    found == Data(old_) || found == Data(new_)
  }

  /** The read after any interrupted write returns the old or the new data. */
  ghost predicate ReadSafe(len: nat, pageBytes: nat)
    requires len + 4 < pageBytes
  {
    forall c: Copies, old_: seq<Byte>, new_: seq<Byte>, k: nat ::
      OnPages(c, pageBytes) && |old_| == |new_| == len && k <= 2 * (len + 4) && InSync(Crc, c, old_) ==>
        FindsOldOrNew(c, old_, new_, k)
  }

  ghost predicate SyncsOnOldOrNew(c: Copies, old_: seq<Byte>, new_: seq<Byte>, k: nat)
    requires |old_| == |new_| && Room(c, |new_|) && k <= 2 * (|new_| + 4)
  {
    var healed := Healed(Crc, Cut(Crc, c, new_, k), |new_|);
    InSync(Crc, healed, old_) || InSync(Crc, healed, new_)
  }

  /** ... and leaves both copies with it. */
  ghost predicate SyncSafe(len: nat, pageBytes: nat)
    requires len + 4 < pageBytes
  {
    forall c: Copies, old_: seq<Byte>, new_: seq<Byte>, k: nat ::
      OnPages(c, pageBytes) && |old_| == |new_| == len && k <= 2 * (len + 4) && InSync(Crc, c, old_) ==>
        SyncsOnOldOrNew(c, old_, new_, k)
  }

  lemma FindsUpToFive(c: Copies, old_: seq<Byte>, new_: seq<Byte>, k: nat)
    requires |old_| == |new_| <= 5 && Room(c, |new_|) && k <= 2 * (|new_| + 4) && InSync(Crc, c, old_)
    ensures FindsOldOrNew(c, old_, new_, k)
  {
    ReadAfterCut(Crc, c, old_, new_, k);
    if k < |new_| + 4 {
      OverlayOfImage(Crc, c.primary, old_, new_, k);
      TornDetected(old_, new_, k);
    }
    hide Crc, Valid, Image, Overlay;
  }

  /** A page that holds the data, and zeros to its end. */
  function PageOf(data: seq<Byte>, pageBytes: nat): (p: seq<Byte>)
    requires |data| + 4 < pageBytes
    ensures |p| == pageBytes
  {
    Image(Crc, data) + Zeros(pageBytes - |data| - 4)
  }

  function Twice(data: seq<Byte>, pageBytes: nat): (c: Copies)
    requires |data| + 4 < pageBytes
    ensures OnPages(c, pageBytes) && Room(c, |data|)
  {
    Copies(PageOf(data, pageBytes), PageOf(data, pageBytes))
  }

  lemma TwiceInSync(data: seq<Byte>, pageBytes: nat)
    requires |data| + 4 < pageBytes
    ensures InSync(Crc, Twice(data, pageBytes), data)
  {
    hide Crc, Image;
  }

  /** Six bytes or more: after five bytes of the new data, which begin with the polynomial, the torn
      primary passes. */
  lemma ReadCanTear(len: nat, pageBytes: nat)
    requires 6 <= len && len + 4 < pageBytes
    ensures var (old_, new_) := (Zeros(len), CODEWORD + seq(len - 5, _ => 1));
            && |old_| == |new_| == len
            && Find(Crc, Cut(Crc, Twice(old_, pageBytes), new_, 5), len) == Data(CODEWORD + Zeros(len - 5))
            && !FindsOldOrNew(Twice(old_, pageBytes), old_, new_, 5)
  {
    var old_, new_, rest := Zeros(len), CODEWORD + seq(len - 5, _ => 1 as Byte), Zeros(len - 5);
    var mix := CODEWORD + rest;
    assert old_ == [] + (ZEROS + rest) && mix == [] + (CODEWORD + rest);
    PaddedCodeword([], rest);
    assert mix[0] == 0x41 && old_[0] == 0 && mix[5] == 0 && new_[5] == 1;
    hide Crc, Zeros, ToBytes, Twice;
    assert new_[..5] + old_[5..] == mix;
    FoundTorn(old_, new_, mix, pageBytes);
  }

  lemma FoundTorn(old_: seq<Byte>, new_: seq<Byte>, mix: seq<Byte>, pageBytes: nat)
    requires |old_| == |new_| == |mix| >= 5 && Crc(mix) == Crc(old_) && mix == new_[..5] + old_[5..]
    requires |mix| + 4 < pageBytes
    ensures Find(Crc, Cut(Crc, Twice(old_, pageBytes), new_, 5), |mix|) == Data(mix)
  {
    TwiceInSync(old_, pageBytes);
    hide Crc, ToBytes, Valid, Image, Overlay, PageOf;
    var torn := Overlay(Image(Crc, old_), Image(Crc, new_), 5);
    CutParts(old_, new_, 5);
    ValidParts(mix, torn[|mix|..]);
    assert torn == mix + torn[|mix|..];
    OverlayOfImage(Crc, PageOf(old_, pageBytes), old_, new_, 5);
  }

  /** The sizes for which the read after an interrupted write is safe are exactly those up to 5. */
  lemma ReadSafeExactlyUpToFive(len: nat, pageBytes: nat)
    requires len + 4 < pageBytes
    ensures ReadSafe(len, pageBytes) <==> len <= 5
  {
    if len <= 5 {
      forall c: Copies, old_: seq<Byte>, new_: seq<Byte>, k: nat
        | OnPages(c, pageBytes) && |old_| == |new_| == len && k <= 2 * (len + 4) && InSync(Crc, c, old_)
        ensures FindsOldOrNew(c, old_, new_, k)
      {
        FindsUpToFive(c, old_, new_, k);
      }
    } else {
      ReadCanTear(len, pageBytes);
      TwiceInSync(Zeros(len), pageBytes);
    }
  }

  /** Five bytes or more: two values with one checksum, and a write interrupted between the copies.
      Both copies pass, and are left to differ. */
  lemma CopiesCanDiffer(len: nat, pageBytes: nat)
    requires 5 <= len && len + 4 < pageBytes
    ensures var (old_, new_) := (Zeros(len), CODEWORD + Zeros(len - 5));
            && |old_| == |new_| == len
            && Find(Crc, Cut(Crc, Twice(old_, pageBytes), new_, len + 4), len) == Data(new_)
            && !SyncsOnOldOrNew(Twice(old_, pageBytes), old_, new_, len + 4)
  {
    var old_, new_ := Zeros(len), CODEWORD + Zeros(len - 5);
    assert old_ == [] + (ZEROS + Zeros(len - 5)) && new_ == [] + new_;
    PaddedCodeword([], Zeros(len - 5));
    var d := Cut(Crc, Twice(old_, pageBytes), new_, len + 4);
    TwiceInSync(old_, pageBytes);
    assert old_[0] != new_[0];
    hide Crc, FromBytes, ToBytes, Zeros, Twice;
    OneCopyIntact(Crc, Twice(old_, pageBytes), old_, new_, len + 4);
    HoldsValid(Crc, d.primary, new_);
    HoldsValid(Crc, d.secondary, old_);
    assert Healed(Crc, d, len) == d;
    if InSync(Crc, d, old_) {
      HoldsValid(Crc, d.primary, old_);
    }
    if InSync(Crc, d, new_) {
      HoldsValid(Crc, d.secondary, new_);
    }
  }

  /** The sizes for which it also brings the copies back into sync are exactly those up to 4. */
  lemma SyncSafeExactlyUpToFour(len: nat, pageBytes: nat)
    requires len + 4 < pageBytes
    ensures SyncSafe(len, pageBytes) <==> len <= 4
  {
    if len <= 4 {
      forall c: Copies, old_: seq<Byte>, new_: seq<Byte>, k: nat
        | OnPages(c, pageBytes) && |old_| == |new_| == len && k <= 2 * (len + 4) && InSync(Crc, c, old_)
        ensures SyncsOnOldOrNew(c, old_, new_, k)
      {
        Crc32TellsApart(old_, new_);
        hide Crc, TellsApart, InSync, Healed, Find, Cut;
        CutThenReadSyncs(Crc, c, old_, new_, k);
      }
    } else {
      CopiesCanDiffer(len, pageBytes);
      TwiceInSync(Zeros(len), pageBytes);
    }
  }

  // ---- two interrupted writes with no read between them ----

  /** A copy passes after both. */
  predicate KeepsACopy(c: Copies, a: seq<Byte>, b: seq<Byte>, k1: nat, k2: nat)
    requires |a| == |b| && Room(c, |a|) && k1 <= 2 * (|a| + 4) && k2 <= 2 * (|a| + 4)
  {
    Find(Crc, Cut(Crc, Cut(Crc, c, a, k1), b, k2), |a|).Data?
  }

  ghost predicate KeepsOne(len: nat, pageBytes: nat, k1: nat, k2: nat)
    requires len + 4 < pageBytes && k1 <= 2 * (len + 4) && k2 <= 2 * (len + 4)
  {
    forall c: Copies, initial: seq<Byte>, a: seq<Byte>, b: seq<Byte> ::
      OnPages(c, pageBytes) && |initial| == |a| == |b| == len && InSync(Crc, c, initial) ==> KeepsACopy(c, a, b, k1, k2)
  }

  /** Two values whose images no proper cut of one over the other makes valid: they differ in the
      first byte, otherwise at most in the last, and in the top byte of the checksum. */
  predicate FarApart(s: seq<Byte>, t: seq<Byte>) {
    && 0 < |s| == |t| && s[0] != t[0] && Top(Crc(s)) != Top(Crc(t))
    && forall i :: 0 < i < |s| - 1 ==> s[i] == t[i]
  }

  /** Every value has such another. */
  lemma FarValue(s: seq<Byte>) returns (t: seq<Byte>)
    requires s != []
    ensures FarApart(s, t)
  {
    hide Crc, Top;
    t := s[0 := s[0] ^ 1];
    OtherByte(s[0]);
    if Top(Crc(t)) == Top(Crc(s)) {
      var n := |s| - 1;
      if n == 0 {
        LastFlipped(s);
      }
      LastFlipped(t);
      t := t[n := t[n] ^ 1];
    }
  }

  lemma LastFlipped(s: seq<Byte>)
    requires s != []
    ensures var n := |s| - 1; Top(Crc(s[n := s[n] ^ 1])) != Top(Crc(s))
  {
    hide Crc;
    var n := |s| - 1;
    LastByteReachesTop(s[..n], s[n]);
    assert s == s[..n] + [s[n]] && s[n := s[n] ^ 1] == s[..n] + [s[n] ^ 1];
  }

  lemma OtherByte(x: Byte)
    ensures x ^ 1 != x
  {
  }

  /** The top byte of a checksum is its last in memory. */
  lemma TopIsLast(w: bv32, v: bv32)
    requires Top(w) != Top(v)
    ensures ToBytes(w)[3] != ToBytes(v)[3]
  {
  }

  lemma CutImageFails(s: seq<Byte>, t: seq<Byte>, k: nat)
    requires FarApart(s, t) && 0 < k < |t| + 4
    ensures !Valid(Crc, Overlay(Image(Crc, s), Image(Crc, t), k), |t|)
  {
    TopIsLast(Crc(s), Crc(t));
    if k < |t| {
      CutData(s, t, k);
    }
    hide Crc, ToBytes, Valid, FarApart, Image, Overlay;
    var len := |t|;
    CutParts(s, t, k);
    var torn := Overlay(Image(Crc, s), Image(Crc, t), k);
    ValidParts(torn[..len], torn[len..]);
    assert torn == torn[..len] + torn[len..];
  }

  /** The two parts of a cut image. */
  lemma CutParts(s: seq<Byte>, t: seq<Byte>, k: nat)
    requires |s| == |t| && k < |t| + 4
    ensures var torn := Overlay(Image(Crc, s), Image(Crc, t), k);
            && |torn| == |t| + 4
            && (k <= |t| ==> torn[..|t|] == t[..k] + s[k..] && torn[|t|..] == ToBytes(Crc(s)))
            && (k >= |t| ==> torn[..|t|] == t && torn[|t|..][3] == ToBytes(Crc(s))[3])
  {
    hide Crc, ToBytes;
  }

  /** Data followed by four bytes passes exactly if these are its checksum. */
  lemma ValidParts(data: seq<Byte>, stored: seq<Byte>)
    requires |stored| == 4
    ensures Valid(Crc, data + stored, |data|) <==> stored == ToBytes(Crc(data))
  {
    hide Crc, ToBytes, FromBytes;
    BytesRoundTrip(stored);
    WordRoundTrip(Crc(data));
    var page := data + stored;
    assert page[..|data|] == data && page[|data|..|data| + 4] == stored;
  }

  lemma CutData(s: seq<Byte>, t: seq<Byte>, k: nat)
    requires FarApart(s, t) && 0 < k < |t|
    ensures Crc(t[..k] + s[k..]) != Crc(s)
  {
    hide Crc;
    BurstDetected(t[..k] + s[k..], s, 0, 1);
  }

  /** A first write stopped within the secondary and a second within the primary can lose both. */
  lemma TwoCutsLose(len: nat, pageBytes: nat, k1: nat, k2: nat)
    requires len + 4 < pageBytes
    requires 0 < len && len + 4 < k1 < 2 * (len + 4) && 0 < k2 < len + 4
    ensures !KeepsOne(len, pageBytes, k1, k2)
  {
    var initial := Zeros(len);
    var a := FarValue(initial);
    var b := FarValue(a);
    var c := Twice(initial, pageBytes);
    TwiceInSync(initial, pageBytes);
    CutImageFails(initial, a, k1 - (len + 4));
    CutImageFails(a, b, k2);
    hide Crc, FarApart, Valid, Image, Overlay, Cut, Twice, Zeros;
    TwoCutsFail(c, initial, a, b, k1, k2);
    assert !KeepsACopy(c, a, b, k1, k2);
  }

  /** Such a pair of cuts leaves cut images on both pages. */
  lemma TwoCutsFail(c: Copies, initial: seq<Byte>, a: seq<Byte>, b: seq<Byte>, k1: nat, k2: nat)
    requires Room(c, |a|) && InSync(Crc, c, initial)
    requires |initial| == |a| == |b| && |a| + 4 < k1 <= 2 * (|a| + 4) && k2 < |a| + 4
    requires !Valid(Crc, Overlay(Image(Crc, initial), Image(Crc, a), k1 - (|a| + 4)), |a|)
    requires !Valid(Crc, Overlay(Image(Crc, a), Image(Crc, b), k2), |a|)
    ensures !KeepsACopy(c, a, b, k1, k2)
  {
    var d := Cut(Crc, c, a, k1);
    OverlayHolds(Crc, c.primary, a);
    OverlayZero(d.secondary, Image(Crc, b));
    hide Crc, Image, Overlay, Valid;
    OverlayOfImage(Crc, d.primary, a, b, k2);
    OverlayOfImage(Crc, c.secondary, initial, a, k1 - (|a| + 4));
  }

  /** Exactly the other pairs of cuts keep a copy (and all pairs, when there is no data). */
  lemma KeepsOneExactly(len: nat, pageBytes: nat, k1: nat, k2: nat)
    requires len + 4 < pageBytes && k1 <= 2 * (len + 4) && k2 <= 2 * (len + 4)
    ensures KeepsOne(len, pageBytes, k1, k2) <==> len == 0 || !(len + 4 < k1 < 2 * (len + 4) && 0 < k2 < len + 4)
  {
    if len > 0 && len + 4 < k1 < 2 * (len + 4) && 0 < k2 < len + 4 {
      TwoCutsLose(len, pageBytes, k1, k2);
    } else {
      forall c: Copies, initial: seq<Byte>, a: seq<Byte>, b: seq<Byte>
        | OnPages(c, pageBytes) && |initial| == |a| == |b| == len && InSync(Crc, c, initial)
        ensures KeepsACopy(c, a, b, k1, k2)
      {
        if len == 0 {
          assert initial == a == b;
          SameDataStays(c, a, k1);
          SameDataStays(Cut(Crc, c, a, k1), a, k2);
          CopyFound(Cut(Crc, Cut(Crc, c, a, k1), b, k2), a);
        } else {
          CopyKept(c, initial, a, b, k1, k2);
        }
      }
    }
  }

  /** Writing what is there already, cut anywhere, changes nothing that counts. */
  lemma SameDataStays(c: Copies, data: seq<Byte>, k: nat)
    requires Room(c, |data|) && InSync(Crc, c, data) && k <= 2 * (|data| + 4)
    ensures InSync(Crc, Cut(Crc, c, data, k), data)
  {
    hide Crc, Image;
    SameImageStays(c.primary, Image(Crc, data), if k < |data| + 4 then k else |data| + 4);
    SameImageStays(c.secondary, Image(Crc, data), if k < |data| + 4 then 0 else k - |data| - 4);
  }

  lemma SameImageStays(page: seq<Byte>, image: seq<Byte>, k: nat)
    requires k <= |image| <= |page| && page[..|image|] == image
    ensures Overlay(page, image, k)[..|image|] == image
  {
    assert page[k..|image|] == image[k..];
  }

  lemma CopyKept(c: Copies, initial: seq<Byte>, a: seq<Byte>, b: seq<Byte>, k1: nat, k2: nat)
    requires |initial| == |a| == |b| && Room(c, |a|) && InSync(Crc, c, initial)
    requires k1 <= 2 * (|a| + 4) && k2 <= 2 * (|a| + 4)
    requires k1 <= |a| + 4 || k1 == 2 * (|a| + 4) || k2 == 0 || k2 >= |a| + 4
    ensures KeepsACopy(c, a, b, k1, k2)
  {
    TwoCutsKeepOne(Crc, c, initial, a, b, k1, k2);
    hide Crc, Holds, Cut, Find, InSync;
    var d := Cut(Crc, Cut(Crc, c, a, k1), b, k2);
    if x :| x in {initial, a, b} && (Holds(Crc, d.primary, x) || Holds(Crc, d.secondary, x)) {
      CopyFound(d, x);
    }
  }

  lemma CopyFound(d: Copies, x: seq<Byte>)
    requires Room(d, |x|) && (Holds(Crc, d.primary, x) || Holds(Crc, d.secondary, x))
    ensures Find(Crc, d, |x|).Data?
  {
    hide Crc, Valid, Holds;
    if Holds(Crc, d.primary, x) {
      HoldsValid(Crc, d.primary, x);
    } else {
      HoldsValid(Crc, d.secondary, x);
    }
  }

  // ---- what passes ----

  /** A copy passes exactly if data and checksum together leave the residue of a string with its checksum. */
  lemma PassesExactly(page: seq<Byte>, len: nat)
    requires len + 4 <= |page|
    ensures Valid(Crc, page, len) <==> Crc(page[..len + 4]) == 0x2144_DF1C
  {
    hide Crc, ToBytes, FromBytes;
    assert page[..len + 4] == page[..len] + page[len..len + 4];
    BytesRoundTrip(page[len..len + 4]);
    WordRoundTrip(Crc(page[..len]));
    ResidueExactly(page[..len], page[len..len + 4]);
  }

  /** One copy byte by byte: the data, then its checksum with the lowest byte first. */
  lemma ImageOfDigits()
    ensures Image(Crc, DIGITS) == DIGITS + [0x26, 0x39, 0xF4, 0xCB]
  {
    CheckValue();
    CheckBytes();
    hide Crc, ToBytes;
  }

  lemma CheckBytes()
    ensures ToBytes(0xCBF4_3926) == [0x26, 0x39, 0xF4, 0xCB]
  {
  }

  /** A page of zeros passes only for lengths that are a multiple of 2^32 - 1, and so for none that fits
      but zero. */
  lemma ZeroPagePasses(page: seq<Byte>, len: nat)
    requires len + 4 <= |page| && forall i :: 0 <= i < |page| ==> page[i] == 0
    ensures Valid(Crc, page, len) <==> len % 0xFFFF_FFFF == 0
  {
    ZeroBytes();
    hide Crc, FromBytes;
    CrcPeriod.ZerosPassExactly(page[..len]);
    assert page[len..len + 4] == [0, 0, 0, 0];
  }
}
