/**
 The layout of the parameter registry in storage: one record of hash, value and checksum for
 each parameter, one after the other, and where each of them lies.
 */
module NvmLayout {
  import opened Bytes

  /** A parameter: the hash of its name, the size of its value in bytes, and its default. */
  datatype Parameter = Parameter(hash: bv32, size: nat, default: seq<Byte>)

  const OVERHEAD: nat := 8

  datatype Layout = Layout(base: nat, params: seq<Parameter>) {

    /** Where the record of parameter i begins; for i == |params|, where the records end. */
    function OffsetOf(i: nat): nat
      requires i <= |params|
    {
      if i == 0 then base else OffsetOf(i - 1) + params[i - 1].size + OVERHEAD
    }

    function End(): nat {
      OffsetOf(|params|)
    }

    predicate HashesDistinct() {
      forall i, j :: 0 <= i < j < |params| ==> params[i].hash != params[j].hash
    }

    predicate DefaultsFit() {
      forall i :: 0 <= i < |params| ==> |params[i].default| == params[i].size
    }

    /** Records do not overlap, and lie between the base and the end. */
    lemma {:induction false} Frames(i: nat, j: nat)
      requires i < j <= |params|
      ensures base <= OffsetOf(i) && OffsetOf(i) + params[i].size + OVERHEAD <= OffsetOf(j) <= End()
    {
      OffsetsGrow(0, i);
      OffsetsGrow(i + 1, j);
      OffsetsGrow(j, |params|);
    }

    /** The first record begins at the base, and each next one where a hash, a value and a checksum end. */
    lemma Packed(i: nat)
      requires i < |params|
      ensures OffsetOf(0) == base && OffsetOf(i + 1) == OffsetOf(i) + 4 + params[i].size + 4
    {
    }

    lemma {:induction false} OffsetsGrow(i: nat, j: nat)
      requires i <= j <= |params|
      ensures OffsetOf(i) <= OffsetOf(j)
    {
      if i < j {
        OffsetsGrow(i, j - 1);
      }
    }
  }

  /** offset_of: the sum of the records before the one asked for. */
  method OffsetOf(l: Layout, index: nat) returns (off: nat)
    requires index < |l.params|
    ensures off == l.OffsetOf(index)
  {
    off := l.base;
    for i := 0 to index
      invariant off == l.OffsetOf(i)
    {
      off := off + l.params[i].size + OVERHEAD;
    }
  }

  /** size: the room all records take. */
  method Size(l: Layout) returns (s: nat)
    ensures l.base + s == l.End()
  {
    s := 0;
    for i := 0 to |l.params|
      invariant l.base + s == l.OffsetOf(i)
    {
      s := s + l.params[i].size + OVERHEAD;
    }
  }

  method NamesUnique(l: Layout) returns (r: bool)
    ensures r <==> l.HashesDistinct()
  {
    for i := 0 to |l.params|
      invariant forall a, b :: 0 <= a < i && a < b < |l.params| ==> l.params[a].hash != l.params[b].hash
    {
      for j := i + 1 to |l.params|
        invariant forall b :: i < b < j ==> l.params[i].hash != l.params[b].hash
      {
        if l.params[i].hash == l.params[j].hash {
          return false;
        }
      }
    }
    return true;
  }

  /** index_of finds a parameter by the hash of its name. In a layout without equal hashes that
      is the parameter itself, and |params| stands for "not there". */
  method IndexOf(l: Layout, key: bv32) returns (r: nat)
    ensures r <= |l.params|
    ensures r == |l.params| <==> forall i :: 0 <= i < |l.params| ==> l.params[i].hash != key
    ensures l.HashesDistinct() ==> forall i :: 0 <= i < |l.params| && l.params[i].hash == key ==> r == i
  {
    for i := 0 to |l.params|
      invariant forall j :: 0 <= j < i ==> l.params[j].hash != key
    {
      if l.params[i].hash == key {
        return i;
      }
    }
    return |l.params|;
  }
}
