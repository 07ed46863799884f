/**
  A resolved, acyclic cbuf schema, and what the parser computes about it: whether a struct is
  simple, whether it has compact arrays, and how large its packed in-memory layout is.
*/
module Schema {
  import opened Bytes
  import Preamble

  datatype Prim = U8 | U16 | U32 | U64 | S8 | S16 | S32 | S64 | F32 | F64 | Bool

  /** An element's type: a built-in, or a custom name resolved to an enum or a struct. */
  datatype Base = Number(p: Prim) | ShortText | Text | Enum | Struct(st: Struct)

  datatype Suffix = Single | Fixed(n: nat) | Dynamic | Compact(n: nat)

  datatype Field = Field(name: string, base: Base, suffix: Suffix)

  datatype Struct = StructDef(naked: bool, hash: Image8, fields: seq<Field>)

  const STRING_BYTES: nat := 32
  const VECTOR_BYTES: nat := 24
  const SHORT_BYTES: nat := 16

  function Width(p: Prim): (w: nat)
    ensures 1 <= w <= 8
  {
    match p
    case U8 | S8 | Bool => 1
    case U16 | S16 => 2
    case U32 | S32 | F32 => 4
    case U64 | S64 | F64 => 8
  }

  // What the parser's array rules guarantee: sizes are positive and fit an int, and strings
  // are never compact.

  predicate WellFormed(st: Struct) {
    WellFormedFields(st.fields)
  }

  predicate WellFormedFields(fs: seq<Field>) {
    fs == [] || (WellFormedField(fs[0]) && WellFormedFields(fs[1..]))
  }

  predicate WellFormedField(f: Field) {
    && (f.base.Struct? ==> WellFormed(f.base.st))
    && (f.suffix.Fixed? || f.suffix.Compact? ==> 0 < f.suffix.n < 0x8000_0000)
    && (f.base.Text? ==> !f.suffix.Compact?)
  }

  predicate Simple(st: Struct) {
    SimpleFields(st.fields)
  }

  predicate SimpleFields(fs: seq<Field>) {
    fs == [] || (SimpleField(fs[0]) && SimpleFields(fs[1..]))
  }

  predicate SimpleField(f: Field) {
    !f.base.Text? && !f.suffix.Dynamic? && (f.base.Struct? ==> Simple(f.base.st))
  }

  predicate HasCompact(st: Struct) {
    HasCompactFields(st.fields)
  }

  predicate HasCompactFields(fs: seq<Field>) {
    fs != [] && (HasCompactField(fs[0]) || HasCompactFields(fs[1..]))
  }

  predicate HasCompactField(f: Field) {
    !f.base.Text? && (f.suffix.Compact? || (f.base.Struct? && HasCompact(f.base.st)))
  }

  /** The types whose arrays the generated code copies as one block of memory. */
  predicate Flat(b: Base) {
    match b
    case Text => false
    case Struct(st) => Simple(st) && !HasCompact(st)
    case _ => true
  }

  // The packed layout.

  function PackedSize(st: Struct): nat {
    (if st.naked then 0 else Preamble.PREAMBLE_BYTES) + FieldsSize(st.fields)
  }

  function FieldsSize(fs: seq<Field>): nat {
    if fs == [] then 0 else FieldSize(fs[0]) + FieldsSize(fs[1..])
  }

  function FieldSize(f: Field): nat {
    match f.suffix
    case Single => BaseSize(f.base)
    case Fixed(n) => Times(n, BaseSize(f.base))
    case Dynamic => VECTOR_BYTES
    case Compact(n) => 4 + Times(n, BaseSize(f.base))
  }

  /** n * size, as the sum over an array's slots. */
  function Times(n: nat, size: nat): nat {
    if n == 0 then 0 else size + Times(n - 1, size)
  }

  lemma {:induction false} TimesIsProduct(n: nat, size: nat)
    ensures Times(n, size) == n * size
  {
    if n > 0 {
      TimesIsProduct(n - 1, size);
    }
  }

  function BaseSize(b: Base): nat {
    match b
    case Number(p) => Width(p)
    case ShortText => SHORT_BYTES
    case Text => STRING_BYTES
    case Enum => 4
    case Struct(st) => PackedSize(st)
  }

  /** The offset of field i, as computeSizes assigns it. */
  function Offset(st: Struct, i: nat): nat
    requires i <= |st.fields|
  {
    (if st.naked then 0 else Preamble.PREAMBLE_BYTES) + FieldsSize(st.fields[..i])
  }
}
