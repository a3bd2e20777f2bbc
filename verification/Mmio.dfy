/**
 Register bit-fields. A register, a mask and a value of the source's 8, 16, 32 or 64 bits are the
 low bits of a 64-bit word; only the sum of masks, which the source truncates to the register's
 type, depends on the width.
 */
module Mmio {
  import opened WordArith
  import opened Words
  import opened WordValues

  // ---- Masks and single fields ----

  predicate IsContiguous(mask: Word)
    requires mask != 0
  {
    var x := Shr(mask, CountrZero(mask));
    And(x, x + 1) == 0
  }

  function FieldWidth(mask: Word): nat
    requires mask != 0
  {
    TrailingOnes(Shr(mask, CountrZero(mask)))
  }

  /** The mask is contiguous exactly when, shifted down to bit 0, it is some number of ones and
      nothing else; and that number is the width of the field. */
  lemma ContiguousExactly(mask: Word, n: nat)
    requires mask != 0
    ensures IsContiguous(mask) && n == FieldWidth(mask) <==> Value(Shr(mask, CountrZero(mask))) == Pow2(n) - 1
  {
    hide Value, And, Odd, Shr;
    var x := Shr(mask, CountrZero(mask));
    OnesExactly(x);
    if Value(x) == Pow2(n) - 1 {
      OnesWidth(x, n);
    }
  }

  function Read(reg: Word, mask: Word): Word
    requires mask != 0
  {
    Shr(And(reg, mask), CountrZero(mask))
  }

  function Encoded(mask: Word, value: Word): Word
    requires mask != 0
  {
    And(Shl(value, CountrZero(mask)), mask)
  }

  function Written(reg: Word, mask: Word, value: Word): Word
    requires mask != 0
  {
    Or(And(reg, Not(mask)), Encoded(mask, value))
  }

  /** Where a field is, in numbers: its mask is 2^width - 1 times 2^t for the place t of its lowest bit, and
      reading it is dividing by 2^t and reducing modulo 2^width. */
  lemma ReadInNumbers(reg: Word, mask: Word)
    requires mask != 0 && IsContiguous(mask)
    ensures var (t, n) := (CountrZero(mask), FieldWidth(mask));
            && Value(mask) == (Pow2(n) - 1) * Pow2(t)
            && Value(Read(reg, mask)) == Value(reg) / Pow2(t) % Pow2(n)
  {
    var (t, n) := (CountrZero(mask), FieldWidth(mask));
    ContiguousExactly(mask, n);
    hide Value, And, Odd, Shr, FieldWidth, IsContiguous, CountrZero;
    CountrZeroFactor(mask);
    ShrAnd(reg, mask, t);
    AndOnes(Shr(reg, t), Shr(mask, t), n);
    ShrDivides(reg, t);
  }

  /** A written field reads back as the value reduced to the width of the field. */
  lemma WrittenReadsBack(reg: Word, mask: Word, value: Word)
    requires mask != 0 && IsContiguous(mask)
    ensures Value(Read(Written(reg, mask, value), mask)) == Value(value) % Pow2(FieldWidth(mask))
  {
    EncodedInside(mask, value);
    WrittenPart(reg, mask, Encoded(mask, value));
    ReadBack(Written(reg, mask, value), mask, value);
  }

  lemma ReadBack(reg: Word, mask: Word, value: Word)
    requires mask != 0 && IsContiguous(mask) && And(reg, mask) == Encoded(mask, value)
    ensures Value(Read(reg, mask)) == Value(value) % Pow2(FieldWidth(mask))
  {
    hide Value, And, Odd, Shr, Shl;
    var t := CountrZero(mask);
    ShiftMaskShift(value, mask, t);
    ContiguousExactly(mask, FieldWidth(mask));
    AndOnes(value, Shr(mask, t), FieldWidth(mask));
  }

  lemma EncodedInside(mask: Word, value: Word)
    requires mask != 0
    ensures And(Encoded(mask, value), mask) == Encoded(mask, value)
    ensures And(Encoded(mask, value), Not(mask)) == 0
  {
    hide Shl;
    AndTwice(Shl(value, CountrZero(mask)), mask);
  }

  // ---- Several fields at once ----

  type Mask = x: Word | x != 0 witness 1

  datatype Field = Field(mask: Mask, value: Word)

  function OrMasks(fs: seq<Field>): Word {
    if fs == [] then 0 else Or(OrMasks(fs[..|fs| - 1]), fs[|fs| - 1].mask)
  }

  function OrEncoded(fs: seq<Field>): Word {
    if fs == [] then 0
    else Or(OrEncoded(fs[..|fs| - 1]), Encoded(fs[|fs| - 1].mask, fs[|fs| - 1].value))
  }

  /** The one store that `modify` makes. */
  function Modified(reg: Word, fs: seq<Field>): Word {
    Or(And(reg, Not(OrMasks(fs))), OrEncoded(fs))
  }

  /** One store for each field, in order. */
  function WriteAll(reg: Word, fs: seq<Field>): Word {
    if fs == [] then reg
    else Written(WriteAll(reg, fs[..|fs| - 1]), fs[|fs| - 1].mask, fs[|fs| - 1].value)
  }

  predicate Disjoint(fs: seq<Field>) {
    forall i, j :: 0 <= i < j < |fs| ==> And(fs[i].mask, fs[j].mask) == 0
  }

  lemma {:induction false} ApartFromAll(fs: seq<Field>, m: Word)
    ensures And(OrMasks(fs), m) == 0 <==> forall i :: 0 <= i < |fs| ==> And(fs[i].mask, m) == 0
  {
    hide And, Or;
    if fs == [] {
      Zeros(m);
    } else {
      var most, f := fs[..|fs| - 1], fs[|fs| - 1];
      ApartFromAll(most, m);
      OrApart(OrMasks(most), f.mask, m);
      assert forall i :: 0 <= i < |most| ==> fs[i] == most[i];
    }
  }

  lemma DisjointStep(fs: seq<Field>)
    requires fs != []
    ensures var most, m := fs[..|fs| - 1], fs[|fs| - 1].mask;
            Disjoint(fs) <==> Disjoint(most) && And(OrMasks(most), m) == 0
  {
    hide And, OrMasks;
    var most, f := fs[..|fs| - 1], fs[|fs| - 1];
    assert fs == most + [f];
    ApartFromAll(most, f.mask);
  }

  lemma {:induction false} EncodedCovered(fs: seq<Field>)
    ensures And(OrEncoded(fs), Not(OrMasks(fs))) == 0
  {
    hide And, Or, Not, Encoded;
    if fs == [] {
      Zeros(Not(0));
    } else {
      var most, f := fs[..|fs| - 1], fs[|fs| - 1];
      EncodedCovered(most);
      EncodedInside(f.mask, f.value);
      Covered(OrEncoded(most), Encoded(f.mask, f.value), OrMasks(most), f.mask);
    }
  }

  /** For masks that share no bit, the one store of `modify` is the single-field writes in order. */
  lemma {:induction false} ModifiedIsWrites(reg: Word, fs: seq<Field>)
    requires Disjoint(fs)
    ensures Modified(reg, fs) == WriteAll(reg, fs)
  {
    hide And, Or, Not, Encoded, Disjoint;
    if fs == [] {
      NothingModified(reg);
    } else {
      var most, f := fs[..|fs| - 1], fs[|fs| - 1];
      DisjointStep(fs);
      ModifiedIsWrites(reg, most);
      EncodedCovered(most);
      OneMore(reg, OrMasks(most), OrEncoded(most), f.mask, Encoded(f.mask, f.value));
    }
  }

  /** The bits outside every mask stay, and each field holds what its own write encodes. */
  lemma {:induction false} WritesLand(reg: Word, fs: seq<Field>, k: Word)
    requires Disjoint(fs)
    ensures And(OrMasks(fs), k) == 0 ==> And(WriteAll(reg, fs), k) == And(reg, k)
    ensures forall i :: 0 <= i < |fs| ==> And(WriteAll(reg, fs), fs[i].mask) == Encoded(fs[i].mask, fs[i].value)
  {
    hide And, Or, Not, Encoded, Disjoint, OrMasks;
    if fs != [] {
      var most, f := fs[..|fs| - 1], fs[|fs| - 1];
      var reg', e := WriteAll(reg, most), Encoded(f.mask, f.value);
      DisjointStep(fs);
      WritesLand(reg, most, k);
      EncodedInside(f.mask, f.value);
      WrittenPart(reg', f.mask, e);
      ApartFromAll(most, f.mask);
      ApartFromAll(most, k);
      ApartFromAll(fs, k);
      if And(OrMasks(fs), k) == 0 {
        WriteElsewhere(reg', f.mask, e, k);
      }
      forall i | 0 <= i < |most|
        ensures And(WriteAll(reg, fs), fs[i].mask) == Encoded(fs[i].mask, fs[i].value)
      {
        assert fs[i] == most[i];
        AndCommutes(fs[i].mask, f.mask);
        WriteElsewhere(reg', f.mask, e, fs[i].mask);
      }
    }
  }

  lemma WrittenElsewhere(reg: Word, mask: Mask, value: Word)
    ensures forall other: Mask :: And(mask, other) == 0 ==> Read(Written(reg, mask, value), other) == Read(reg, other)
  {
    EncodedInside(mask, value);
    hide And, Or, Not, Encoded;
    forall other: Mask | And(mask, other) == 0
      ensures Read(Written(reg, mask, value), other) == Read(reg, other)
    {
      WriteElsewhere(reg, mask, Encoded(mask, value), other);
    }
  }

  /** After `modify` of disjoint contiguous fields each field reads back its value reduced to its
      own width, and no other bit has changed. */
  lemma FieldsReadBack(reg: Word, fs: seq<Field>)
    requires Disjoint(fs)
    requires forall i :: 0 <= i < |fs| ==> IsContiguous(fs[i].mask)
    ensures forall i :: 0 <= i < |fs| ==>
              Value(Read(Modified(reg, fs), fs[i].mask)) == Value(fs[i].value) % Pow2(FieldWidth(fs[i].mask))
    ensures And(Modified(reg, fs), Not(OrMasks(fs))) == And(reg, Not(OrMasks(fs)))
  {
    var rest := Not(OrMasks(fs));
    NothingOfRest(OrMasks(fs));
    hide And, Or, Not, Encoded, Disjoint, OrMasks, Read, IsContiguous, FieldWidth, Value;
    ModifiedIsWrites(reg, fs);
    WritesLand(reg, fs, rest);
    forall i | 0 <= i < |fs|
      ensures Value(Read(Modified(reg, fs), fs[i].mask)) == Value(fs[i].value) % Pow2(FieldWidth(fs[i].mask))
    {
      ReadBack(Modified(reg, fs), fs[i].mask, fs[i].value);
    }
  }

  // ---- Any order ----

  lemma {:induction false} SameOnMasks(x: Word, y: Word, fs: seq<Field>)
    requires forall i :: 0 <= i < |fs| ==> And(x, fs[i].mask) == And(y, fs[i].mask)
    ensures And(x, OrMasks(fs)) == And(y, OrMasks(fs))
  {
    hide And, Or;
    if fs == [] {
      Zeros(x);
      Zeros(y);
    } else {
      var most, f := fs[..|fs| - 1], fs[|fs| - 1];
      SameOnMasks(x, y, most);
      SameOnOr(x, y, OrMasks(most), f.mask);
    }
  }

  lemma {:induction false} EachOnce(fs: seq<Field>, f: Field)
    requires Disjoint(fs)
    ensures multiset(fs)[f] <= 1
  {
    hide And;
    if fs != [] {
      var most, last := fs[..|fs| - 1], fs[|fs| - 1];
      assert fs == most + [last];
      EachOnce(most, f);
      if last == f && f in most {
        var i :| 0 <= i < |most| && most[i] == f;
        assert And(fs[i].mask, fs[|fs| - 1].mask) == 0;
        AndSelf(f.mask);
      }
    }
  }

  lemma TwoOfThem(s: seq<Field>, t: seq<Field>, f: Field)
    requires f in s
    ensures multiset(s + [f] + t)[f] >= 2
  {
    assert multiset(s + [f] + t) == multiset(s) + multiset([f]) + multiset(t);
  }

  lemma PermutedDisjoint(fs: seq<Field>, gs: seq<Field>)
    requires Disjoint(fs) && multiset(fs) == multiset(gs)
    ensures Disjoint(gs)
  {
    hide And;
    forall i, j | 0 <= i < j < |gs| ensures And(gs[i].mask, gs[j].mask) == 0 {
      var x, y := gs[i], gs[j];
      assert gs == gs[..j] + [y] + gs[j + 1..];
      assert x in gs[..j];
      EachOnce(fs, x);
      assert x != y by {
        if x == y {
          TwoOfThem(gs[..j], gs[j + 1..], x);
          assert false;
        }
      }
      assert x in multiset(fs) && y in multiset(fs);
      var k :| 0 <= k < |fs| && fs[k] == x;
      var l :| 0 <= l < |fs| && fs[l] == y;
      AndCommutes(x.mask, y.mask);
    }
  }

  /** What the bits outside the masks and each field hold decides the whole register. */
  lemma OneResult(reg: Word, fs: seq<Field>, y: Word)
    requires Disjoint(fs) && And(y, Not(OrMasks(fs))) == And(reg, Not(OrMasks(fs)))
    requires forall i :: 0 <= i < |fs| ==> And(y, fs[i].mask) == Encoded(fs[i].mask, fs[i].value)
    ensures y == WriteAll(reg, fs)
  {
    NothingOfRest(OrMasks(fs));
    hide And, Or, Not, Encoded, Disjoint, OrMasks, WriteAll;
    WritesLand(reg, fs, Not(OrMasks(fs)));
    SameOnMasks(WriteAll(reg, fs), y, fs);
    SameEverywhere(WriteAll(reg, fs), y, OrMasks(fs));
  }

  /** Single-field writes of disjoint fields give the same register in any order. */
  lemma AnyOrder(reg: Word, fs: seq<Field>, gs: seq<Field>)
    requires Disjoint(fs) && multiset(fs) == multiset(gs)
    ensures WriteAll(reg, gs) == WriteAll(reg, fs) == Modified(reg, fs)
  {
    PermutedDisjoint(fs, gs);
    NothingOfRest(OrMasks(fs));
    hide And, Or, Not, Encoded, Disjoint, OrMasks, WriteAll, Modified;
    var rest := Not(OrMasks(fs));
    ApartFromAll(fs, rest);
    forall i | 0 <= i < |gs| ensures And(gs[i].mask, rest) == 0 {
      assert gs[i] in multiset(fs);
    }
    ApartFromAll(gs, rest);
    WritesLand(reg, gs, rest);
    var y := WriteAll(reg, gs);
    forall i | 0 <= i < |fs| ensures And(y, fs[i].mask) == Encoded(fs[i].mask, fs[i].value) {
      assert fs[i] in multiset(gs);
    }
    OneResult(reg, fs, y);
    ModifiedIsWrites(reg, fs);
  }

  // ---- The compile-time check that masks do not overlap ----

  function SumMasks(fs: seq<Field>): nat {
    if fs == [] then 0 else SumMasks(fs[..|fs| - 1]) + Value(fs[|fs| - 1].mask)
  }

  /** The joined masks equal their sum, taken in the register's type of w bits. */
  predicate Passes(fs: seq<Field>, w: nat) {
    Value(OrMasks(fs)) == SumMasks(fs) % Pow2(w)
  }

  predicate MasksFit(fs: seq<Field>, w: nat) {
    forall i :: 0 <= i < |fs| ==> Fits(fs[i].mask, w)
  }

  lemma NoneDisjoint(fs: seq<Field>)
    requires fs == []
    ensures Disjoint(fs)
  {
  }

  /** The exact sum is never below the joined masks, and meets them exactly when no bit is shared. */
  lemma {:induction false} SumAndOr(fs: seq<Field>)
    ensures Value(OrMasks(fs)) <= SumMasks(fs)
    ensures Value(OrMasks(fs)) == SumMasks(fs) <==> Disjoint(fs)
  {
    hide And, Or, Value, Disjoint;
    if fs == [] {
      ValueStep(0);
      NoneDisjoint(fs);
    } else {
      var most, f := fs[..|fs| - 1], fs[|fs| - 1];
      SumAndOr(most);
      ValueOrAnd(OrMasks(most), f.mask);
      ValueZero(And(OrMasks(most), f.mask));
      ValueStep(0);
      DisjointStep(fs);
    }
  }

  lemma {:induction false} OrMasksFit(fs: seq<Field>, w: nat)
    requires MasksFit(fs, w)
    ensures Fits(OrMasks(fs), w)
  {
    hide Or, Value;
    if fs == [] {
      ValueStep(0);
    } else {
      OrMasksFit(fs[..|fs| - 1], w);
      OrFits(OrMasks(fs[..|fs| - 1]), fs[|fs| - 1].mask, w);
    }
  }

  /** Masks are disjoint exactly when the check passes and their sum does not leave the register. */
  lemma CheckExactly(fs: seq<Field>, w: nat)
    requires MasksFit(fs, w)
    ensures Disjoint(fs) <==> Passes(fs, w) && SumMasks(fs) < Pow2(w)
  {
    hide Disjoint, OrMasks, SumMasks;
    SumAndOr(fs);
    OrMasksFit(fs, w);
    if SumMasks(fs) < Pow2(w) {
      SmallMod(SumMasks(fs), Pow2(w));
    }
  }

  lemma FoldsOfTwo(a: Field, b: Field)
    ensures OrMasks([a, b]) == Or(a.mask, b.mask)
    ensures SumMasks([a, b]) == Value(a.mask) + Value(b.mask)
  {
    Zeros(a.mask);
    hide Or, Value;
    assert [a, b][..1] == [a] && [a][..0] == [];
    assert OrMasks([a]) == a.mask;
    assert SumMasks([a]) == Value(a.mask);
  }

  /** For two masks the check alone is exact. */
  lemma TwoMasksExact(a: Field, b: Field, w: nat)
    requires Fits(a.mask, w) && Fits(b.mask, w)
    ensures Passes([a, b], w) <==> Disjoint([a, b])
  {
    var fs := [a, b];
    hide Value, And, Or, Disjoint, OrMasks, SumMasks;
    CheckExactly(fs, w);
    FoldsOfTwo(a, b);
    ValueOrAnd(a.mask, b.mask);
    AndFits(a.mask, b.mask, w);
    OrFits(a.mask, b.mask, w);
    var p, shared, joined := Pow2(w), Value(And(a.mask, b.mask)), Value(Or(a.mask, b.mask));
    if SumMasks(fs) >= p {
      ModUnique(joined + shared, p, 1, joined + shared - p);
    }
  }

  lemma Bit7()
    ensures Encoded(0x80, 1) == 0x80 && Encoded(0x80, 0) == 0
    ensures Or(0x80, 0x80) == 0x80 == Or(0x80, 0) && And(0x80, 0x80) == 0x80
    ensures And(0x80, Not(0x80)) == 0
  {
    assert CountrZero(0x80) == 7;
  }

  lemma Bit7Value()
    ensures Value(0x80) == 128 && Pow2(8) == 256
  {
  }

  /** Three masks of the same bit pass the check in 8 bits, and `modify` is then not the writes. */
  lemma ThreeCanPass()
    ensures var fs := [Field(0x80, 1), Field(0x80, 0), Field(0x80, 0)];
            MasksFit(fs, 8) && Passes(fs, 8) && !Disjoint(fs) && Modified(0, fs) == 0x80 && WriteAll(0, fs) == 0
  {
    Bit7();
    Bit7Value();
    Zeros(0x80);
    Zeros(0);
    Zeros(Not(0x80));
    hide Encoded, Or, And, Not, Value, Pow2;
    var one, none := Field(0x80, 1), Field(0x80, 0);
    var fs := [one, none, none];
    assert fs[..2] == [one, none] && [one, none][..1] == [one] && [one][..0] == [];
    assert OrMasks([one]) == 0x80 && OrEncoded([one]) == 0x80 && WriteAll(0, [one]) == 0x80 && SumMasks([one]) == 128;
    assert OrMasks([one, none]) == 0x80 && OrEncoded([one, none]) == 0x80 && WriteAll(0, [one, none]) == 0
        && SumMasks([one, none]) == 256;
    assert OrMasks(fs) == 0x80 && OrEncoded(fs) == 0x80 && WriteAll(0, fs) == 0 && SumMasks(fs) == 384;
    assert And(fs[0].mask, fs[1].mask) != 0;
  }

  lemma {:induction false} EncodedFit(fs: seq<Field>, w: nat)
    requires MasksFit(fs, w)
    ensures Fits(OrEncoded(fs), w)
  {
    hide Or, And, Shl, Value;
    if fs == [] {
      ValueStep(0);
    } else {
      var most, f := fs[..|fs| - 1], fs[|fs| - 1];
      EncodedFit(most, w);
      AndCommutes(f.mask, Shl(f.value, CountrZero(f.mask)));
      AndFits(f.mask, Shl(f.value, CountrZero(f.mask)), w);
      OrFits(OrEncoded(most), Encoded(f.mask, f.value), w);
    }
  }

  /** A register of w bits stays one: the source's cast to the register's type loses nothing. */
  lemma ModifiedFits(reg: Word, fs: seq<Field>, w: nat)
    requires Fits(reg, w) && MasksFit(fs, w)
    ensures Fits(Modified(reg, fs), w)
  {
    hide Fits, And, Or, Not, OrMasks, OrEncoded;
    EncodedFit(fs, w);
    AndFits(reg, Not(OrMasks(fs)), w);
    OrFits(And(reg, Not(OrMasks(fs))), OrEncoded(fs), w);
  }

  /** The register that the free functions take by reference. */
  class Register {
    var bits: Word

    constructor (bits: Word)
      ensures this.bits == bits
    {
      this.bits := bits;
    }

    method ReadField(mask: Mask) returns (value: Word)
      ensures value == Read(bits, mask)
    {
      value := Read(bits, mask);
    }

    /** The field takes the value, cut to its width, and every other field keeps its own. */
    method WriteField(mask: Mask, value: Word)
      modifies this
      ensures bits == Written(old(bits), mask, value)
      ensures IsContiguous(mask) ==> Value(Read(bits, mask)) == Value(value) % Pow2(FieldWidth(mask))
      ensures forall other: Mask :: And(mask, other) == 0 ==> Read(bits, other) == Read(old(bits), other)
    {
      WrittenElsewhere(bits, mask, value);
      if IsContiguous(mask) {
        WrittenReadsBack(bits, mask, value);
      }
      hide IsContiguous, FieldWidth, Value, And, Or, Not, Read, Encoded;
      bits := Or(And(bits, Not(mask)), Encoded(mask, value));
    }

    /** In a register of w bits, for masks that pass the check and do not wrap: the single-field
        writes, in one store. */
    method Modify(fields: seq<Field>, ghost w: nat)
      requires MasksFit(fields, w) && Passes(fields, w)
      modifies this
      ensures bits == Modified(old(bits), fields)
      ensures SumMasks(fields) < Pow2(w) ==> bits == WriteAll(old(bits), fields)
    {
      var mask, encoded := OrMasks(fields), OrEncoded(fields);
      CheckExactly(fields, w);
      if SumMasks(fields) < Pow2(w) {
        ModifiedIsWrites(bits, fields);
      }
      bits := Or(And(bits, Not(mask)), encoded);
    }
  }
}
