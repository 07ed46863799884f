/** Which schemas convert into which others. */
module Compatibility {
  import opened Bytes
  import opened Schema
  import opened WireFormat
  import opened Memory
  import opened Conversion
  import opened Samples

  // ----- by the schemas

  /**
    Every source field that has a namesake fits it: both are arrays or neither is, structs meet
    structs that fit, numbers and enums meet numbers and enums, strings meet strings. Only short
    strings on their way into slots, where they are dropped, meet anything.
  */
  predicate Compatible(st: Struct, dst: Struct)
    decreases st
  {
    CompatibleFields(st.fields, dst.fields)
  }

  predicate CompatibleFields(fs: seq<Field>, dfs: seq<Field>)
    decreases fs
  {
    forall j :: 0 <= j < |dfs| ==>
      var i := FindField(fs, dfs[j].name);
      i < |fs| ==> CompatibleField(fs[i], dfs[j])
  }

  predicate CompatibleField(f: Field, df: Field)
    decreases f
  {
    && f.suffix.Single? == df.suffix.Single?
    && (CompatibleBase(f.base, df.base) || (f.base.ShortText? && (df.suffix.Fixed? || df.suffix.Compact?)))
  }

  predicate CompatibleBase(b: Base, db: Base)
    decreases b
  {
    match b
    case Number(_) | Enum => AsPrim(db).Some?
    case Text | ShortText => db.Text? || db.ShortText?
    case Struct(st) => db.Struct? && Compatible(st, db.st)
  }

  // ----- between compatible schemas every value converts

  lemma {:induction false} ConvertsStruct(cast: Cast, st: Struct, v: Value, after: seq<byte>, dst: Struct, m: seq<Cell>)
    requires FitsStruct(st, v) && |m| == PackedSize(dst) && Compatible(st, dst) && |after| >= SHORT_BYTES
    ensures ConvStruct(cast, st, v, after, dst, m).Some?
    decreases v, 1
  {
    hide ConvFields, FitsFields, CompatibleFields, FieldsSize, Header;
    ConvertsFields(cast, st.fields, v.members, after, dst.fields, m[HeaderSize(dst)..]);
  }

  lemma {:induction false} ConvertsFields(cast: Cast, fs: seq<Field>, vs: seq<Value>, after: seq<byte>,
                                          dfs: seq<Field>, m: seq<Cell>)
    requires FitsFields(fs, vs) && |m| == FieldsSize(dfs) && CompatibleFields(fs, dfs) && |after| >= SHORT_BYTES
    ensures ConvFields(cast, fs, vs, after, dfs, m).Some?
    decreases vs, 0
  {
    hide ConvField, FitsField, FieldSize, CompatibleField, Split, Join, WireAll;
    var parts := Split(dfs, m);
    forall j | 0 <= j < |parts|
      ensures ConvNamed(cast, fs, vs, |vs|, after, dfs[j], parts[j]).Some?
    {
      var i := FindField(fs, dfs[j].name);
      if i < |fs| {
        FitsFieldsAt(fs, vs, i);
        ConvertsField(cast, fs[i], vs[i], WireAll(vs[i + 1..]) + after, dfs[j], parts[j]);
      }
    }
  }

  lemma {:induction false} ConvertsField(cast: Cast, f: Field, v: Value, after: seq<byte>, df: Field, m: seq<Cell>)
    requires FitsField(f, v) && |m| == FieldSize(df) && CompatibleField(f, df) && |after| >= SHORT_BYTES
    ensures ConvField(cast, f, v, after, df, m).Some?
    decreases v, 3
  {
    hide ConvItem, ConvSlots, ConvPushes, FitsItem, FitsItems, CompatibleBase;
    BothStructs(f.base, df.base);
    if f.suffix.Single? {
      ConvertsItem(cast, f.base, v, after, df.base, m);
    } else {
      match df.suffix
      case Fixed(n) => ConvertsSlots(cast, f.base, v.items, after, df.base, n, m);
      case Compact(n) => ConvertsSlots(cast, f.base, v.items, after, df.base, n, m[4..]);
      case Dynamic =>
        if f.base.Struct? {
          ConvertsSlots(cast, f.base, v.items, after, df.base, |v.items|, Zeros(Times(|v.items|, BaseSize(df.base))));
        } else {
          ConvertsPushes(cast, f.base, v.items, df.base, VectorAt(m));
        }
    }
  }

  lemma BothStructs(b: Base, db: Base)
    ensures CompatibleBase(b, db) && b.Struct? ==> db.Struct?
  {
  }

  lemma {:induction false} ConvertsItem(cast: Cast, b: Base, v: Value, after: seq<byte>, db: Base, m: seq<Cell>)
    requires FitsItem(b, v) && |m| == BaseSize(db) && CompatibleBase(b, db) && |after| >= SHORT_BYTES
    ensures ConvItem(cast, b, v, after, db, m).Some?
    decreases v, 2
  {
    hide ConvStruct, Length, Compatible;
    if b.Struct? {
      ConvertsStruct(cast, b.st, v, after, db.st, m);
    }
  }

  lemma {:induction false} ConvertsSlots(cast: Cast, b: Base, vs: seq<Value>, after: seq<byte>, db: Base, slots: nat,
                                         m: seq<Cell>)
    requires FitsItems(b, vs) && |m| == Times(slots, BaseSize(db)) && |after| >= SHORT_BYTES
    requires b.ShortText? || CompatibleBase(b, db)
    ensures ConvSlots(cast, b, vs, after, db, slots, m).Some?
    decreases vs, 0
  {
    hide ConvItem, FitsItem, CompatibleBase, WireAll;
    if vs != [] && slots > 0 && !b.ShortText? {
      var size := BaseSize(db);
      ConvertsItem(cast, b, vs[0], WireAll(vs[1..]) + after, db, m[..size]);
      ConvertsSlots(cast, b, vs[1..], after, db, slots - 1, m[size..]);
    }
  }

  lemma {:induction false} ConvertsPushes(cast: Cast, b: Base, vs: seq<Value>, db: Base, vector: seq<Cell>)
    requires FitsItems(b, vs) && CompatibleBase(b, db) && !b.Struct?
    ensures ConvPushes(cast, b, vs, db, vector).Some?
    decreases vs
  {
    hide FitsItem;
    if vs != [] {
      ConvertsPushes(cast, b, vs[1..], db, vector + ConvPushed(cast, b, vs[0], db).value);
    }
  }

  // ----- between others some value does not

  lemma {:induction false} SampleAt(fs: seq<Field>, i: nat)
    requires WellFormedFields(fs) && i < |fs|
    ensures WellFormedField(fs[i]) && SampleFields(fs, 1)[i] == SampleField(fs[i], 1)
  {
    hide WellFormedField, SampleField, FitsField;
    if i > 0 {
      SampleAt(fs[1..], i - 1);
    }
  }

  lemma {:induction false} WellFormedAt(fs: seq<Field>, i: nat)
    requires WellFormedFields(fs) && i < |fs|
    ensures WellFormedField(fs[i])
  {
    hide WellFormedField;
    if i > 0 {
      WellFormedAt(fs[1..], i - 1);
    }
  }

  lemma {:induction false} RefusesStruct(cast: Cast, st: Struct, after: seq<byte>, dst: Struct, m: seq<Cell>)
    requires WellFormed(st) && WellFormed(dst) && |m| == PackedSize(dst) && !Compatible(st, dst)
    ensures ConvStruct(cast, st, Sample(st, 1), after, dst, m) == None
    decreases st
  {
    hide ConvFields, SampleFields, FitsFields, CompatibleFields, FieldsSize, WellFormedFields, Header;
    RefusesFields(cast, st.fields, after, dst.fields, m[HeaderSize(dst)..]);
  }

  lemma {:induction false} RefusesFields(cast: Cast, fs: seq<Field>, after: seq<byte>, dfs: seq<Field>, m: seq<Cell>)
    requires WellFormedFields(fs) && WellFormedFields(dfs) && |m| == FieldsSize(dfs) && !CompatibleFields(fs, dfs)
    ensures ConvFields(cast, fs, SampleFields(fs, 1), after, dfs, m) == None
    decreases fs
  {
    hide ConvField, FitsField, FitsFields, FieldSize, CompatibleField, Split, Join, SampleFields, SampleField, WireAll;
    hide WellFormedField, WellFormedFields;
    var (parts, vs) := (Split(dfs, m), SampleFields(fs, 1));
    var j :| 0 <= j < |dfs| && FindField(fs, dfs[j].name) < |fs|
             && !CompatibleField(fs[FindField(fs, dfs[j].name)], dfs[j]);
    var i := FindField(fs, dfs[j].name);
    SampleAt(fs, i);
    WellFormedAt(dfs, j);
    SameCount(fs, vs);
    FitsFieldsAt(fs, vs, i);
    RefusesField(cast, fs[i], WireAll(vs[i + 1..]) + after, dfs[j], parts[j]);
    assert ConvNamed(cast, fs, vs, |vs|, after, dfs[j], parts[j]) == None;
  }

  lemma SameCount(fs: seq<Field>, vs: seq<Value>)
    requires FitsFields(fs, vs)
    ensures |fs| == |vs|
  {
  }

  lemma {:induction false} RefusesField(cast: Cast, f: Field, after: seq<byte>, df: Field, m: seq<Cell>)
    requires WellFormedField(f) && WellFormedField(df) && |m| == FieldSize(df) && !CompatibleField(f, df)
    ensures ConvField(cast, f, SampleField(f, 1), after, df, m) == None
    decreases f
  {
    hide ConvItem, ConvSlots, FitsItems, FitsItem, SampleItem, CompatibleBase, WellFormed;
    if f.suffix.Single? != df.suffix.Single? || (f.base.Struct? && !df.base.Struct?) {
    } else if f.suffix.Single? {
      RefusesItem(cast, f.base, after, df.base, m);
    } else {
      var items := SampleField(f, 1).items;
      match df.suffix
      case Fixed(n) => RefusesSlots(cast, f.base, items, after, df.base, n, m);
      case Compact(n) => RefusesSlots(cast, f.base, items, after, df.base, n, m[4..]);
      case Dynamic =>
        if f.base.Struct? {
          RefusesSlots(cast, f.base, items, after, df.base, |items|, Zeros(Times(|items|, BaseSize(df.base))));
        } else {
          RefusesPush(cast, f.base, df.base);
        }
    }
  }

  lemma {:induction false} RefusesSlots(cast: Cast, b: Base, vs: seq<Value>, after: seq<byte>, db: Base, slots: nat,
                                        m: seq<Cell>)
    requires (b.Struct? ==> WellFormed(b.st)) && (db.Struct? ==> WellFormed(db.st))
    requires FitsItems(b, vs) && vs != [] && vs[0] == SampleItem(b, 1) && slots > 0 && |m| == Times(slots, BaseSize(db))
    requires !b.ShortText? && !CompatibleBase(b, db)
    ensures ConvSlots(cast, b, vs, after, db, slots, m) == None
    decreases b, 1
  {
    hide ConvItem, FitsItem, SampleItem, CompatibleBase, WellFormed, WireAll;
    RefusesItem(cast, b, WireAll(vs[1..]) + after, db, m[..BaseSize(db)]);
  }

  lemma {:induction false} RefusesPush(cast: Cast, b: Base, db: Base)
    requires !b.Struct? && !CompatibleBase(b, db)
    ensures ConvPushed(cast, b, SampleItem(b, 1), db) == None
  {
  }

  lemma {:induction false} RefusesItem(cast: Cast, b: Base, after: seq<byte>, db: Base, m: seq<Cell>)
    requires (b.Struct? ==> WellFormed(b.st)) && (db.Struct? ==> WellFormed(db.st))
    requires |m| == BaseSize(db) && !CompatibleBase(b, db)
    ensures ConvItem(cast, b, SampleItem(b, 1), after, db, m) == None
    decreases b, 0
  {
    hide ConvStruct, Sample, Compatible, WellFormed, FitsStruct;
    if b.Struct? && db.Struct? {
      RefusesStruct(cast, b.st, after, db.st, m);
    }
  }

  /**
    Every value converts, where at least 16 bytes stand behind it in the message, exactly if the
    schemas are compatible.
  */
  lemma EveryValueConverts(cast: Cast, st: Struct, dst: Struct)
    requires WellFormed(st) && WellFormed(dst)
    ensures Compatible(st, dst) <==>
              forall v, after, m :: FitsStruct(st, v) && |m| == PackedSize(dst) && |after| >= SHORT_BYTES ==>
                ConvStruct(cast, st, v, after, dst, m).Some?
  {
    hide Compatible, FitsStruct, ConvStruct, PackedSize, WellFormed, Sample;
    if Compatible(st, dst) {
      forall v, after, m | FitsStruct(st, v) && |m| == PackedSize(dst) && |after| >= SHORT_BYTES
        ensures ConvStruct(cast, st, v, after, dst, m).Some?
      {
        ConvertsStruct(cast, st, v, after, dst, m);
      }
    } else {
      RefusesStruct(cast, st, Nought(SHORT_BYTES), dst, Zeros(PackedSize(dst)));
    }
  }
}
