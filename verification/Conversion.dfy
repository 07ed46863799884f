/**
  What converting a message from its source schema into the packed layout of a destination
  schema means: for every destination field, by name, what its memory becomes.
*/
module Conversion {
  import opened Bytes
  import opened Schema
  import opened WireFormat
  import opened Memory
  import P = Preamble

  /**
    The C++ casts between number types, as a parameter: they have the target's width and are
    the identity on equal types.
  */
  ghost predicate IsCast(cast: (Prim, Prim, seq<byte>) -> seq<byte>) {
    && (forall p, q, x :: |cast(p, q, x)| == Width(q))
    && (forall p, x :: |x| == Width(p) ==> cast(p, p, x) == x)
  }

  function PlainCast(p: Prim, q: Prim, x: seq<byte>): seq<byte> {
    if |x| == Width(q) then x else seq(Width(q), _ => 0)
  }

  type Cast = c: (Prim, Prim, seq<byte>) -> seq<byte> | IsCast(c) ghost witness PlainCast

  /** Enums travel and convert as 32-bit unsigned numbers. */
  function AsPrim(b: Base): Option<Prim> {
    match b
    case Number(p) => Some(p)
    case Enum => Some(U32)
    case _ => None
  }

  /** What strncpy(dst, src, 16) leaves in dst; None when it would read past the source's end. */
  function StrNCpy(src: seq<byte>): (r: Option<seq<byte>>)
    ensures r.Some? ==> |r.value| == SHORT_BYTES
  {
    var k := Length(src);
    if k >= SHORT_BYTES then Some(src[..SHORT_BYTES])
    else if k < |src| then Some(ZeroPadded(src[..k]))
    else None
  }

  function ZeroPadded(chars: seq<byte>): (r: seq<byte>)
    requires |chars| <= SHORT_BYTES
    ensures |r| == SHORT_BYTES && r[..|chars|] == chars
    ensures forall i :: |chars| <= i < SHORT_BYTES ==> r[i] == 0
  {
    chars + seq(SHORT_BYTES - |chars|, _ => 0)
  }

  /** The characters before the first NUL, or all of them. */
  function Length(src: seq<byte>): (k: nat)
    ensures k <= |src| && (k < |src| ==> src[k] == 0)
    ensures forall i :: 0 <= i < k ==> src[i] != 0
  {
    if src == [] || src[0] == 0 then 0 else 1 + Length(src[1..])
  }

  /** The memory of a VString<15> built from a string: characters after its NUL are never set. */
  function ShortObject(chars: seq<byte>): (m: seq<Cell>)
    ensures |m| == SHORT_BYTES
  {
    var k := if Length(chars) < SHORT_BYTES - 1 then Length(chars) else SHORT_BYTES - 1;
    Cells(chars[..k] + [0]) + seq(SHORT_BYTES - 1 - k, _ => Inside)
  }

  /** The contents of the std::vector standing in the memory; zeroed memory is an empty one. */
  function VectorAt(m: seq<Cell>): seq<Cell> {
    if m != [] && m[0].StdVector? then m[0].cells else []
  }

  function Prepend(done: seq<Cell>, r: Option<seq<Cell>>): Option<seq<Cell>> {
    match r
    case None => None
    case Some(cells) => Some(done + cells)
  }

  // A struct's memory as its fields' memories side by side.

  function Split(fs: seq<Field>, m: seq<Cell>): (parts: seq<seq<Cell>>)
    requires |m| == FieldsSize(fs)
    ensures Sized(fs, parts) && Join(parts) == m
  {
    if fs == [] then []
    else
      var n := FieldSize(fs[0]);
      [m[..n]] + Split(fs[1..], m[n..])
  }

  function Join(parts: seq<seq<Cell>>): seq<Cell> {
    if parts == [] then [] else parts[0] + Join(parts[1..])
  }

  ghost predicate Sized(fs: seq<Field>, parts: seq<seq<Cell>>) {
    |parts| == |fs| && forall j :: 0 <= j < |fs| ==> |parts[j]| == FieldSize(fs[j])
  }

  lemma {:induction false} JoinSize(fs: seq<Field>, parts: seq<seq<Cell>>)
    requires Sized(fs, parts)
    ensures |Join(parts)| == FieldsSize(fs)
  {
    if fs != [] {
      JoinSize(fs[1..], parts[1..]);
    }
  }

  /** Field j stands at its offset, and replacing it leaves all others where they are. */
  lemma {:induction false} JoinAt(fs: seq<Field>, parts: seq<seq<Cell>>, j: nat, x: seq<Cell>)
    requires Sized(fs, parts) && j < |fs| && |x| == FieldSize(fs[j])
    ensures var at := FieldsSize(fs[..j]);
            && at + |x| <= |Join(parts)|
            && Join(parts)[at..at + |x|] == parts[j]
            && Patched(Join(parts), Join(parts[j := x]), at, x)
  {
    hide Patched;
    var rest := parts[1..];
    if j == 0 {
      assert fs[..0] == [];
      assert parts[0 := x][1..] == rest;
      JoinHead(parts[0], Join(rest), x);
    } else {
      var at := FieldsSize(fs[1..][..j - 1]);
      assert fs[..j][1..] == fs[1..][..j - 1];
      assert parts[j := x][1..] == rest[j - 1 := x];
      JoinAt(fs[1..], rest, j - 1, x);
      JoinShift(parts[0], Join(rest), Join(rest[j - 1 := x]), at, x);
    }
  }

  lemma JoinHead(head: seq<Cell>, rest: seq<Cell>, x: seq<Cell>)
    requires |x| == |head|
    ensures Patched(head + rest, x + rest, 0, x)
    ensures (head + rest)[0..0 + |x|] == head
  {
    assert (head + rest)[0 + |x|..] == rest;
  }

  lemma JoinShift(head: seq<Cell>, a: seq<Cell>, b: seq<Cell>, at: nat, x: seq<Cell>)
    requires at + |x| <= |a| && Patched(a, b, at, x)
    ensures Patched(head + a, head + b, |head| + at, x)
    ensures (head + a)[|head| + at..|head| + at + |x|] == a[at..at + |x|]
  {
    assert (head + a)[..|head| + at] == head + a[..at];
    assert (head + a)[|head| + at + |x|..] == a[at + |x|..];
  }

  function FindField(fs: seq<Field>, name: string): (i: nat)
    ensures i <= |fs| && (i < |fs| ==> fs[i].name == name)
    ensures forall k :: 0 <= k < i ==> fs[k].name != name
  {
    if fs == [] || fs[0].name == name then 0 else 1 + FindField(fs[1..], name)
  }

  function HeaderSize(st: Struct): nat {
    if st.naked then 0 else P.PREAMBLE_BYTES
  }

  /** The source's preamble is copied as it is, if both structs have one. */
  function Header(st: Struct, v: Value, dst: Struct, m: seq<Cell>): (h: seq<Cell>)
    requires FitsStruct(st, v) && |m| == PackedSize(dst)
    ensures |h| == HeaderSize(dst)
  {
    if st.naked || dst.naked then m[..HeaderSize(dst)] else Cells(PreBytes(v.pre.value))
  }

  /**
    The destination struct's memory after converting v, or None if the conversion is refused or
    reads past the message. `after` is what follows v in the message, `m` the memory before.
  */
  ghost function ConvStruct(cast: Cast, st: Struct, v: Value, after: seq<byte>, dst: Struct, m: seq<Cell>)
    : (r: Option<seq<Cell>>)
    requires FitsStruct(st, v) && |m| == PackedSize(dst)
    ensures r.Some? ==> |r.value| == |m|
    decreases v, 1, 0
  {
    var h := HeaderSize(dst);
    Prepend(Header(st, v, dst, m), ConvFields(cast, st.fields, v.members, after, dst.fields, m[h..]))
  }

  /** Each destination field, by itself. */
  ghost function ConvFields(cast: Cast, fs: seq<Field>, vs: seq<Value>, after: seq<byte>, dfs: seq<Field>, m: seq<Cell>)
    : (r: Option<seq<Cell>>)
    requires FitsFields(fs, vs) && |m| == FieldsSize(dfs)
    ensures r.Some? ==> |r.value| == |m|
    decreases vs, 2, 0
  {
    var parts := Split(dfs, m);
    if forall j :: 0 <= j < |parts| ==> ConvNamed(cast, fs, vs, |vs|, after, dfs[j], parts[j]).Some? then
      var out := seq(|parts|, j requires 0 <= j < |parts| =>
        ConvNamed(cast, fs, vs, |vs|, after, dfs[j], parts[j]).value);
      JoinSize(dfs, out);
      Some(Join(out))
    else None
  }

  /**
    One destination field, converted from the source field of its name if that is among the
    first n, and otherwise unchanged.
  */
  ghost function ConvNamed(cast: Cast, fs: seq<Field>, vs: seq<Value>, n: nat, after: seq<byte>,
                           df: Field, m: seq<Cell>) : (r: Option<seq<Cell>>)
    requires FitsFields(fs, vs) && n <= |vs| && |m| == FieldSize(df)
    ensures r.Some? ==> |r.value| == |m|
    decreases vs, 1, 0
  {
    var j := FindField(fs, df.name);
    if j < n then
      FitsFieldsAt(fs, vs, j);
      ConvField(cast, fs[j], vs[j], WireAll(vs[j + 1..]) + after, df, m)
    else Some(m)
  }

  ghost function ConvField(cast: Cast, f: Field, v: Value, after: seq<byte>, df: Field, m: seq<Cell>)
    : (r: Option<seq<Cell>>)
    requires FitsField(f, v) && |m| == FieldSize(df)
    ensures r.Some? ==> |r.value| == |m|
    decreases v, 3, 0
  {
    if f.suffix.Single? != df.suffix.Single? || (f.base.Struct? && !df.base.Struct?) then None
    else if f.suffix.Single? then ConvItem(cast, f.base, v, after, df.base, m)
    else
      match df.suffix
      case Fixed(n) => ConvSlots(cast, f.base, v.items, after, df.base, n, m)
      case Compact(n) =>
        Prepend(Cells(Le32(|v.items|)), ConvSlots(cast, f.base, v.items, after, df.base, n, m[4..]))
      case Dynamic => ConvVector(cast, f.base, v.items, after, df.base, m)
  }

  /**
    A vector of structs is built in a new zeroed block; other items are pushed onto the vector
    that is there.
  */
  ghost function ConvVector(cast: Cast, b: Base, vs: seq<Value>, after: seq<byte>, db: Base, m: seq<Cell>)
    : (r: Option<seq<Cell>>)
    requires FitsItems(b, vs) && |m| == VECTOR_BYTES
    ensures r.Some? ==> |r.value| == |m|
    decreases vs, 1, 0
  {
    var vector :=
      if b.Struct? then ConvSlots(cast, b, vs, after, db, |vs|, Zeros(Times(|vs|, BaseSize(db))))
      else ConvPushes(cast, b, vs, db, VectorAt(m));
    match vector
    case None => None
    case Some(cells) => Some(Occupying(StdVector(cells), VECTOR_BYTES))
  }

  /**
    Items into array slots; those without a slot are dropped, slots without an item keep their
    memory. Short strings are given no slots at all.
  */
  ghost function ConvSlots(cast: Cast, b: Base, vs: seq<Value>, after: seq<byte>, db: Base, slots: nat, m: seq<Cell>)
    : (r: Option<seq<Cell>>)
    requires FitsItems(b, vs) && |m| == Times(slots, BaseSize(db))
    ensures r.Some? ==> |r.value| == |m|
    decreases vs, 0, 0
  {
    if vs == [] || slots == 0 || b.ShortText? then Some(m)
    else
      var size := BaseSize(db);
      match ConvItem(cast, b, vs[0], WireAll(vs[1..]) + after, db, m[..size])
      case None => None
      case Some(cells) => Prepend(cells, ConvSlots(cast, b, vs[1..], after, db, slots - 1, m[size..]))
  }

  /** Items pushed on the back of a vector. */
  function ConvPushes(cast: Cast, b: Base, vs: seq<Value>, db: Base, vector: seq<Cell>): Option<seq<Cell>>
    requires FitsItems(b, vs) && !b.Struct?
    decreases vs, 0, 0
  {
    if vs == [] then Some(vector)
    else
      match ConvPushed(cast, b, vs[0], db)
      case None => None
      case Some(cells) => ConvPushes(cast, b, vs[1..], db, vector + cells)
  }

  /** The element pushed. Unlike a slot, a short string in a vector is a proper copy. */
  function ConvPushed(cast: Cast, b: Base, v: Value, db: Base): Option<seq<Cell>>
    requires FitsItem(b, v) && !b.Struct?
  {
    match AsPrim(b)
    case Some(p) => ConvNumber(cast, p, v.bytes, db)
    case None =>
      var chars := if b.Text? then v.chars else v.bytes;
      match db
      case Text => Some(Occupying(StdString(chars), STRING_BYTES))
      case ShortText => Some(ShortObject(chars))
      case _ => None
  }

  function ConvNumber(cast: Cast, p: Prim, bytes: seq<byte>, db: Base): (r: Option<seq<Cell>>)
    ensures r.Some? ==> |r.value| == BaseSize(db)
  {
    match AsPrim(db)
    case Some(q) => Some(Cells(cast(p, q, bytes)))
    case None => None
  }

  ghost function ConvItem(cast: Cast, b: Base, v: Value, after: seq<byte>, db: Base, m: seq<Cell>)
    : (r: Option<seq<Cell>>)
    requires FitsItem(b, v) && |m| == BaseSize(db)
    ensures r.Some? ==> |r.value| == |m|
    decreases v, 2, 0
  {
    match b
    case Number(p) => ConvNumber(cast, p, v.bytes, db)
    case Enum => ConvNumber(cast, U32, v.bytes, db)
    case Text => ConvChars(v.chars, after, db)
    case ShortText => ConvChars(v.bytes, [], db)
    case Struct(st) => if db.Struct? then ConvStruct(cast, st, v, after, db.st, m) else None
  }

  /** The copy into a short string stops at a NUL or at 16 bytes, not at the string's length. */
  function ConvChars(chars: seq<byte>, after: seq<byte>, db: Base): (r: Option<seq<Cell>>)
    ensures r.Some? ==> |r.value| == BaseSize(db)
  {
    match db
    case Text => Some(Occupying(StdString(chars), STRING_BYTES))
    case ShortText =>
      (match StrNCpy(chars + after)
       case None => None
       case Some(bytes) => Some(Cells(bytes)))
    case _ => None
  }

  lemma {:induction false} FitsFieldsAt(fs: seq<Field>, vs: seq<Value>, j: nat)
    requires FitsFields(fs, vs) && j < |fs|
    ensures FitsField(fs[j], vs[j])
    ensures WireAll(vs[j..]) == Wire(vs[j]) + WireAll(vs[j + 1..])
    decreases j
  {
    assert vs[j..][1..] == vs[j + 1..];
    if j > 0 {
      FitsFieldsAt(fs[1..], vs[1..], j - 1);
      assert vs[1..][j - 1..] == vs[j..] && vs[1..][j..] == vs[j + 1..];
    }
  }

  // ----- field order does not matter: one source field changes one destination field

  predicate DistinctNames(fs: seq<Field>) {
    forall i, j :: 0 <= i < j < |fs| ==> fs[i].name != fs[j].name
  }

  /** Field names are distinct in every struct of the schema. */
  predicate NamesDistinct(st: Struct) {
    DistinctNames(st.fields) && NamesDistinctIn(st.fields)
  }

  predicate NamesDistinctIn(fs: seq<Field>) {
    fs == [] || ((fs[0].base.Struct? ==> NamesDistinct(fs[0].base.st)) && NamesDistinctIn(fs[1..]))
  }

  lemma {:induction false} NamesDistinctAt(fs: seq<Field>, i: nat)
    requires NamesDistinctIn(fs) && i < |fs| && fs[i].base.Struct?
    ensures NamesDistinct(fs[i].base.st)
  {
    if i > 0 {
      NamesDistinctAt(fs[1..], i - 1);
    }
  }

  lemma FindDistinct(fs: seq<Field>, i: nat)
    requires DistinctNames(fs) && i < |fs|
    ensures FindField(fs, fs[i].name) == i
  {
  }

  lemma NamedOther(cast: Cast, fs: seq<Field>, vs: seq<Value>, i: nat, after: seq<byte>, df: Field, m: seq<Cell>)
    requires FitsFields(fs, vs) && i < |vs| && |m| == FieldSize(df) && df.name != fs[i].name
    ensures ConvNamed(cast, fs, vs, i + 1, after, df, m) == ConvNamed(cast, fs, vs, i, after, df, m)
  {
  }

  /** A destination field is untouched until the source field of its name, and settled after. */
  lemma NamedHere(cast: Cast, fs: seq<Field>, vs: seq<Value>, i: nat, n: nat, after: seq<byte>, df: Field, m: seq<Cell>)
    requires FitsFields(fs, vs) && i < n <= |vs| && |m| == FieldSize(df) && df.name == fs[i].name
    requires DistinctNames(fs)
    ensures FitsField(fs[i], vs[i])
    ensures ConvNamed(cast, fs, vs, i, after, df, m) == Some(m)
    ensures ConvNamed(cast, fs, vs, n, after, df, m)
         == ConvField(cast, fs[i], vs[i], WireAll(vs[i + 1..]) + after, df, m)
  {
    FitsFieldsAt(fs, vs, i);
    FindDistinct(fs, i);
  }

  /** Every destination field has come out as specified by the first n source fields. */
  ghost predicate Converted(cast: Cast, fs: seq<Field>, vs: seq<Value>, n: nat, after: seq<byte>, dfs: seq<Field>,
                            start: seq<seq<Cell>>, parts: seq<seq<Cell>>)
    requires FitsFields(fs, vs) && n <= |vs| && Sized(dfs, start) && Sized(dfs, parts)
  {
    forall j :: 0 <= j < |dfs| ==> ConvNamed(cast, fs, vs, n, after, dfs[j], start[j]) == Some(parts[j])
  }

  lemma ConvertedStep(cast: Cast, fs: seq<Field>, vs: seq<Value>, i: nat, after: seq<byte>, dfs: seq<Field>,
                      start: seq<seq<Cell>>, parts: seq<seq<Cell>>, j: nat, part: seq<Cell>)
    requires FitsFields(fs, vs) && i < |vs| && Sized(dfs, start) && Sized(dfs, parts)
    requires Converted(cast, fs, vs, i, after, dfs, start, parts)
    requires DistinctNames(fs) && DistinctNames(dfs) && j == FindField(dfs, fs[i].name)
    requires j < |dfs| ==> ConvNamed(cast, fs, vs, i + 1, after, dfs[j], start[j]) == Some(part)
    ensures j < |dfs| ==> Sized(dfs, parts[j := part])
    ensures Converted(cast, fs, vs, i + 1, after, dfs, start, if j < |dfs| then parts[j := part] else parts)
  {
    var next := if j < |dfs| then parts[j := part] else parts;
    forall k | 0 <= k < |dfs|
      ensures ConvNamed(cast, fs, vs, i + 1, after, dfs[k], start[k]) == Some(next[k])
    {
      if dfs[k].name != fs[i].name {
        NamedOther(cast, fs, vs, i, after, dfs[k], start[k]);
      } else {
        FindDistinct(dfs, k);
      }
    }
  }

  /** Some destination field of the whole conversion is refused. */
  ghost predicate Refused(cast: Cast, fs: seq<Field>, vs: seq<Value>, after: seq<byte>, dfs: seq<Field>,
                          start: seq<seq<Cell>>)
    requires FitsFields(fs, vs) && Sized(dfs, start)
  {
    exists j :: 0 <= j < |dfs| && ConvNamed(cast, fs, vs, |vs|, after, dfs[j], start[j]) == None
  }

  /** Source field i finds its destination field as it was, and decides what becomes of it. */
  lemma ConvertedHere(cast: Cast, fs: seq<Field>, vs: seq<Value>, i: nat, after: seq<byte>, dfs: seq<Field>,
                      start: seq<seq<Cell>>, parts: seq<seq<Cell>>, j: nat)
    requires FitsFields(fs, vs) && i < |vs| && Sized(dfs, start) && Sized(dfs, parts)
    requires Converted(cast, fs, vs, i, after, dfs, start, parts)
    requires DistinctNames(fs) && j < |dfs| && dfs[j].name == fs[i].name
    ensures FitsField(fs[i], vs[i])
    ensures
      var r := ConvField(cast, fs[i], vs[i], WireAll(vs[i + 1..]) + after, dfs[j], parts[j]);
      && ConvNamed(cast, fs, vs, i + 1, after, dfs[j], start[j]) == r
      && (r == None ==> Refused(cast, fs, vs, after, dfs, start))
  {
    NamedHere(cast, fs, vs, i, i + 1, after, dfs[j], start[j]);
    NamedHere(cast, fs, vs, i, |vs|, after, dfs[j], start[j]);
  }

  lemma FieldsOutcome(cast: Cast, fs: seq<Field>, vs: seq<Value>, after: seq<byte>, dfs: seq<Field>, m: seq<Cell>,
                      parts: seq<seq<Cell>>, accepted: bool)
    requires FitsFields(fs, vs) && |m| == FieldsSize(dfs) && Sized(dfs, parts)
    requires if accepted then Converted(cast, fs, vs, |vs|, after, dfs, Split(dfs, m), parts)
             else Refused(cast, fs, vs, after, dfs, Split(dfs, m))
    ensures ConvFields(cast, fs, vs, after, dfs, m) == if accepted then Some(Join(parts)) else None
  {
    if accepted {
      var start := Split(dfs, m);
      var out := seq(|start|, j requires 0 <= j < |start| =>
        ConvNamed(cast, fs, vs, |vs|, after, dfs[j], start[j]).value);
      assert out == parts;
    }
  }

  /** Converting the first item into the first slot leaves the rest of the items and slots to do. */
  lemma SlotsStep(cast: Cast, b: Base, vs: seq<Value>, after: seq<byte>, db: Base, slots: nat, m: seq<Cell>,
                  done: seq<Cell>)
    requires FitsItems(b, vs) && |m| == Times(slots, BaseSize(db)) && vs != [] && slots > 0 && !b.ShortText?
    ensures
      var n := BaseSize(db);
      var item := ConvItem(cast, b, vs[0], WireAll(vs[1..]) + after, db, m[..n]);
      var whole := Prepend(done, ConvSlots(cast, b, vs, after, db, slots, m));
      match item
      case None => whole == None
      case Some(cells) =>
        whole == Prepend(done + cells, ConvSlots(cast, b, vs[1..], after, db, slots - 1, m[n..]))
  {
    var n := BaseSize(db);
    var item := ConvItem(cast, b, vs[0], WireAll(vs[1..]) + after, db, m[..n]);
    if item.Some? {
      var rest := ConvSlots(cast, b, vs[1..], after, db, slots - 1, m[n..]);
      if rest.Some? {
        assert done + (item.value + rest.value) == done + item.value + rest.value;
      }
    }
  }
}
