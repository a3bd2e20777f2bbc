/**
 Bytes in memory: the four bytes of a 32-bit word, lowest first, and a write cut short.

 A write that stops has stored a prefix of its bytes in place of those that were there. It is described
 twice, because both are needed: by where it is in a larger memory, and, for two strings of one length,
 as the mixture that has the first bytes of the one and the rest of the other. A mixture cut into parts
 is mixtures of the parts, which is how the fields of a record are told apart.
 */
module Bytes {

  type Byte = bv8

  /** The bytes of a 32-bit word in memory, and back. */
  function ToBytes(w: bv32): (b: seq<Byte>)
    ensures |b| == 4
  {
    [(w & 0xFF) as Byte, ((w >> 8) & 0xFF) as Byte, ((w >> 16) & 0xFF) as Byte, (w >> 24) as Byte]
  }

  function FromBytes(b: seq<Byte>): bv32
    requires |b| == 4
  {
    (b[0] as bv32) | ((b[1] as bv32) << 8) | ((b[2] as bv32) << 16) | ((b[3] as bv32) << 24)
  }

  lemma WordRoundTrip(w: bv32)
    ensures FromBytes(ToBytes(w)) == w
  {
  }

  lemma BytesRoundTrip(b: seq<Byte>)
    requires |b| == 4
    ensures ToBytes(FromBytes(b)) == b
  {
  }

  lemma ZeroBytes()
    ensures FromBytes([0, 0, 0, 0]) == 0
  {
  }

  /** `data` over `mem` at `addr`, cut after n bytes. */
  function Written(mem: seq<Byte>, addr: nat, data: seq<Byte>, n: nat): (m: seq<Byte>)
    requires n <= |data| && addr + |data| <= |mem|
    ensures |m| == |mem|
  {
    mem[..addr] + data[..n] + mem[addr + n..]
  }

  lemma WrittenNone(mem: seq<Byte>, addr: nat, data: seq<Byte>)
    requires addr + |data| <= |mem|
    ensures Written(mem, addr, data, 0) == mem
  {
  }

  lemma WrittenStep(mem: seq<Byte>, addr: nat, data: seq<Byte>, n: nat)
    requires n < |data| && addr + |data| <= |mem|
    ensures Written(mem, addr, data, n + 1) == Written(mem, addr, data, n)[addr + n := data[n]]
  {
  }

  lemma WrittenSlice(mem: seq<Byte>, addr: nat, data: seq<Byte>, n: nat)
    requires n <= |data| && addr + |data| <= |mem|
    ensures Written(mem, addr, data, n)[addr..addr + |data|] == data[..n] + mem[addr..addr + |data|][n..]
  {
    var (w, old_) := (Written(mem, addr, data, n), mem[addr..addr + |data|]);
    WrittenAt(mem, addr, data, n);
    hide Written;
    forall j | 0 <= j < |data| ensures w[addr..addr + |data|][j] == (data[..n] + old_[n..])[j] {
      assert w[addr..addr + |data|][j] == w[addr + j];
      assert old_[j] == mem[addr + j];
    }
  }

  lemma WrittenAt(mem: seq<Byte>, addr: nat, data: seq<Byte>, n: nat)
    requires n <= |data| && addr + |data| <= |mem|
    ensures forall j :: 0 <= j < |mem| ==>
              Written(mem, addr, data, n)[j] == if addr <= j < addr + n then data[j - addr] else mem[j]
  {
  }

  function Clip(k: int, size: nat): nat {
    if k < 0 then 0 else if k > size then size else k
  }

  /** The first k bytes of one string over another, as far as there are so many. */
  function Mixed(old_: seq<Byte>, new_: seq<Byte>, k: int): (m: seq<Byte>)
    requires |old_| == |new_|
    ensures |m| == |new_|
  {
    new_[..Clip(k, |new_|)] + old_[Clip(k, |new_|)..]
  }

  lemma MixedAt(a: seq<Byte>, b: seq<Byte>, k: int)
    requires |a| == |b|
    ensures forall i :: 0 <= i < |a| ==> Mixed(a, b, k)[i] == if i < k then b[i] else a[i]
  {
  }

  lemma SliceMixed(a: seq<Byte>, b: seq<Byte>, k: int, low: nat, high: nat)
    requires |a| == |b| && low <= high <= |a|
    ensures Mixed(a, b, k)[low..high] == Mixed(a[low..high], b[low..high], k - low)
  {
  }

  lemma SameMixed(a: seq<Byte>, k: int)
    ensures Mixed(a, a, k) == a
  {
  }

  lemma AllNew(a: seq<Byte>, b: seq<Byte>, k: int)
    requires |a| == |b|
    ensures k >= |b| ==> Mixed(a, b, k) == b
    ensures k <= 0 ==> Mixed(a, b, k) == a
    ensures k < |b| && |b| > 0 ==> Mixed(a, b, k)[|b| - 1] == a[|b| - 1]
  {
  }
}
