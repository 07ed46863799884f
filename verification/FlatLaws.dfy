/** Which types are copied as one block of memory: exactly those whose values all have one size. */
module FlatLaws {
  import opened Bytes
  import opened Schema
  import opened WireFormat
  import opened Memory
  import opened Samples

  /** No array, at any depth, is one of elements without bytes. */
  predicate NoEmpty(st: Struct)
    decreases st
  {
    NoEmptyFields(st.fields)
  }

  predicate NoEmptyFields(fs: seq<Field>)
    decreases fs
  {
    fs == [] || (NoEmptyField(fs[0]) && NoEmptyFields(fs[1..]))
  }

  predicate NoEmptyField(f: Field)
    decreases f
  {
    (f.suffix.Single? || BaseSize(f.base) > 0) && (f.base.Struct? ==> NoEmpty(f.base.st))
  }

  // ----- something is written for what has a size

  lemma {:induction false} ItemWrites(b: Base)
    requires (b.Struct? ==> WellFormed(b.st)) && BaseSize(b) > 0
    ensures |Wire(SampleItem(b, 1))| > 0
    decreases b
  {
    if b.Struct? && b.st.naked {
      FieldsWrite(b.st.fields);
    }
  }

  lemma {:induction false} FieldsWrite(fs: seq<Field>)
    requires WellFormedFields(fs) && FieldsSize(fs) > 0
    ensures |WireAll(SampleFields(fs, 1))| > 0
    decreases fs
  {
    hide SampleField, WellFormedField, FieldSize, Wire, FitsField;
    if FieldSize(fs[0]) > 0 {
      FieldWrites(fs[0]);
    } else {
      FieldsWrite(fs[1..]);
    }
    assert SampleFields(fs, 1)[1..] == SampleFields(fs[1..], 1);
  }

  lemma {:induction false} FieldWrites(f: Field)
    requires WellFormedField(f) && FieldSize(f) > 0
    ensures |Wire(SampleField(f, 1))| > 0
    decreases f
  {
    hide SampleItem, FitsItem, FitsItems, Le32;
    match f.suffix
    case Single => ItemWrites(f.base);
    case Fixed(n) =>
      NothingInNone(n, BaseSize(f.base));
      ItemWrites(f.base);
      var vs := SampleItems(f.base, n, 1);
      assert WireAll(vs) == Wire(vs[0]) + WireAll(vs[1..]);
    case _ =>
  }

  lemma {:induction false} NothingInNone(n: nat, size: nat)
    requires Times(n, size) > 0
    ensures n > 0 && size > 0
  {
    TimesIsProduct(n, size);
  }

  // ----- more is written with one character and item everywhere than with none

  lemma {:induction false} StructGrows(st: Struct)
    requires WellFormed(st) && NoEmpty(st)
    ensures |Wire(Sample(st, 0))| <= |Wire(Sample(st, 1))|
    ensures !(Simple(st) && !HasCompact(st)) ==> |Wire(Sample(st, 0))| < |Wire(Sample(st, 1))|
    decreases st
  {
    hide SampleFields, SimpleFields, HasCompactFields, FitsFields, PreBytes;
    FieldsGrow(st.fields);
  }

  lemma {:induction false} FieldsGrow(fs: seq<Field>)
    requires WellFormedFields(fs) && NoEmptyFields(fs)
    ensures |WireAll(SampleFields(fs, 0))| <= |WireAll(SampleFields(fs, 1))|
    ensures !(SimpleFields(fs) && !HasCompactFields(fs)) ==> |WireAll(SampleFields(fs, 0))| < |WireAll(SampleFields(fs, 1))|
    decreases fs
  {
    hide SampleField, WellFormedField, NoEmptyField, Wire, FitsField, SimpleField, HasCompactField;
    if fs != [] {
      FieldGrows(fs[0]);
      FieldsGrow(fs[1..]);
      assert SampleFields(fs, 0)[1..] == SampleFields(fs[1..], 0) && SampleFields(fs, 1)[1..] == SampleFields(fs[1..], 1);
    }
  }

  lemma {:induction false} FieldGrows(f: Field)
    requires WellFormedField(f) && NoEmptyField(f)
    ensures |Wire(SampleField(f, 0))| <= |Wire(SampleField(f, 1))|
    ensures !(SimpleField(f) && !HasCompactField(f)) ==> |Wire(SampleField(f, 0))| < |Wire(SampleField(f, 1))|
    decreases f
  {
    hide SampleItem, FitsItem, FitsItems, Le32, Simple, HasCompact, WellFormed, NoEmpty;
    match f.suffix
    case Single => ItemGrows(f.base);
    case Fixed(n) =>
      ItemGrows(f.base);
      ItemsGrow(f.base, n);
    case _ =>
      ItemWrites(f.base);
      var vs := SampleItems(f.base, 1, 1);
      assert WireAll(vs) == Wire(vs[0]) + WireAll(vs[1..]);
  }

  lemma {:induction false} ItemGrows(b: Base)
    requires b.Struct? ==> WellFormed(b.st) && NoEmpty(b.st)
    ensures |Wire(SampleItem(b, 0))| <= |Wire(SampleItem(b, 1))|
    ensures !Flat(b) ==> |Wire(SampleItem(b, 0))| < |Wire(SampleItem(b, 1))|
    decreases b
  {
    if b.Struct? {
      StructGrows(b.st);
    }
  }

  lemma {:induction false} ItemsGrow(b: Base, n: nat)
    requires (b.Struct? ==> WellFormed(b.st)) && |Wire(SampleItem(b, 0))| <= |Wire(SampleItem(b, 1))|
    ensures |WireAll(SampleItems(b, n, 0))| <= |WireAll(SampleItems(b, n, 1))|
    ensures n > 0 && |Wire(SampleItem(b, 0))| < |Wire(SampleItem(b, 1))| ==>
              |WireAll(SampleItems(b, n, 0))| < |WireAll(SampleItems(b, n, 1))|
  {
    hide SampleItem, FitsItem, Wire;
    if n > 0 {
      ItemsGrow(b, n - 1);
      assert SampleItems(b, n, 0)[1..] == SampleItems(b, n - 1, 0) && SampleItems(b, n, 1)[1..] == SampleItems(b, n - 1, 1);
    }
  }

  /**
    The types whose arrays are copied as memory are exactly those of which every value takes as many
    bytes in a message as in memory.
  */
  lemma FlatExactly(b: Base)
    requires b.Struct? ==> WellFormed(b.st) && NoEmpty(b.st)
    ensures Flat(b) <==> forall v :: FitsItem(b, v) ==> |Wire(v)| == BaseSize(b)
  {
    hide SampleItem, FitsItem, Wire, BaseSize;
    if Flat(b) {
      forall v | FitsItem(b, v)
        ensures |Wire(v)| == BaseSize(b)
      {
        FlatSize(b, v);
      }
    } else {
      ItemGrows(b);
      assert FitsItem(b, SampleItem(b, 0)) && FitsItem(b, SampleItem(b, 1));
    }
  }
}
