/** Values of any schema, to show what some value does. */
module Samples {
  import opened Bytes
  import opened Schema
  import opened WireFormat

  function Nought(n: nat): (s: seq<byte>)
    ensures |s| == n
  {
    seq(n, _ => 0)
  }

  type Few = k: nat | k <= 1

  /** A value with k characters in every string and k items in every array that can have as many. */
  function Sample(st: Struct, k: Few): (v: Value)
    requires WellFormed(st)
    ensures FitsStruct(st, v)
    decreases st
  {
    Object(if st.naked then None else Some(Pre(0, 0, st.hash, Nought(8))), SampleFields(st.fields, k))
  }

  function SampleFields(fs: seq<Field>, k: Few): (vs: seq<Value>)
    requires WellFormedFields(fs)
    ensures FitsFields(fs, vs)
    decreases fs
  {
    if fs == [] then [] else [SampleField(fs[0], k)] + SampleFields(fs[1..], k)
  }

  function SampleField(f: Field, k: Few): (v: Value)
    requires WellFormedField(f)
    ensures FitsField(f, v)
    decreases f
  {
    match f.suffix
    case Single => SampleItem(f.base, k)
    case Fixed(n) => Block(SampleItems(f.base, n, k))
    case Dynamic | Compact(_) => Counted(SampleItems(f.base, k, k))
  }

  function SampleItem(b: Base, k: Few): (v: Value)
    requires b.Struct? ==> WellFormed(b.st)
    ensures FitsItem(b, v)
    decreases b, 0
  {
    match b
    case Number(p) => Raw(Nought(Width(p)))
    case ShortText => Raw(Nought(SHORT_BYTES))
    case Enum => Raw(Nought(4))
    case Text => Chars(Nought(k))
    case Struct(st) => Sample(st, k)
  }

  function SampleItems(b: Base, n: nat, k: Few): (vs: seq<Value>)
    requires b.Struct? ==> WellFormed(b.st)
    ensures FitsItems(b, vs) && |vs| == n && (n > 0 ==> vs[0] == SampleItem(b, k))
    decreases b, 1, n
  {
    if n == 0 then [] else [SampleItem(b, k)] + SampleItems(b, n - 1, k)
  }

  /** They hold their types' hashes, so that encoding initialises them. */
  lemma {:induction false} SampleHashes(st: Struct, k: Few)
    requires WellFormed(st)
    ensures HashesStruct(st, Sample(st, k))
    decreases st
  {
    hide HashesFields, SampleFields;
    SampleFieldsHashes(st.fields, k);
  }

  lemma {:induction false} SampleFieldsHashes(fs: seq<Field>, k: Few)
    requires WellFormedFields(fs)
    ensures HashesFields(fs, SampleFields(fs, k))
    decreases fs
  {
    hide HashesField, SampleField, FitsField;
    if fs != [] {
      SampleFieldHashes(fs[0], k);
      SampleFieldsHashes(fs[1..], k);
    }
  }

  lemma {:induction false} SampleFieldHashes(f: Field, k: Few)
    requires WellFormedField(f)
    ensures HashesField(f, SampleField(f, k))
    decreases f
  {
    hide HashesItem, HashesItems;
    match f.suffix
    case Single => SampleItemHashes(f.base, k);
    case Fixed(n) => SampleItemsHashes(f.base, n, k);
    case _ => SampleItemsHashes(f.base, k, k);
  }

  lemma {:induction false} SampleItemHashes(b: Base, k: Few)
    requires b.Struct? ==> WellFormed(b.st)
    ensures HashesItem(b, SampleItem(b, k))
    decreases b, 0
  {
    if b.Struct? {
      SampleHashes(b.st, k);
    }
  }

  lemma {:induction false} SampleItemsHashes(b: Base, n: nat, k: Few)
    requires b.Struct? ==> WellFormed(b.st)
    ensures HashesItems(b, SampleItems(b, n, k))
    decreases b, 1, n
  {
    hide HashesItem, SampleItem, FitsItem;
    if n > 0 {
      SampleItemHashes(b, k);
      SampleItemsHashes(b, n - 1, k);
    }
  }
}
