/**
  The wire format, defined on values alone, and the typing of values by schemas. The
  generated encoder, decoder, size function and the schema-driven readers are each proved
  against this definition.
*/
module WireFormat {
  import opened Bytes
  import opened Schema
  import P = Preamble

  datatype Option<T> = None | Some(value: T)

  datatype PreambleValue = Pre(magic: P.Word, size: P.Word, hash: Image8, time: Image8)

  /**
    What a generated struct holds. A compact array is its first num_ elements: the slots after
    them are not part of the value.
  */
  datatype Value =
    | Raw(bytes: seq<byte>)                                        // number, bool, enum, short string
    | Chars(chars: seq<byte>)                                      // std::string
    | Object(pre: Option<PreambleValue>, members: seq<Value>)      // struct; naked ones have no preamble
    | Block(items: seq<Value>)                                     // fixed array
    | Counted(items: seq<Value>)                                   // vector or compact array

  function PreBytes(p: PreambleValue): (s: seq<byte>)
    ensures |s| == P.PREAMBLE_BYTES
  {
    Le32(p.magic) + Le32(p.size) + p.hash + p.time
  }

  function Wire(v: Value): seq<byte>
    decreases v, 0
  {
    match v
    case Raw(bytes) => bytes
    case Chars(chars) => Le32(|chars|) + chars
    case Object(None, ms) => WireAll(ms)
    case Object(Some(p), ms) => PreBytes(p) + WireAll(ms)
    case Block(items) => WireAll(items)
    case Counted(items) => Le32(|items|) + WireAll(items)
  }

  function WireAll(vs: seq<Value>): seq<byte>
    decreases vs, 0
  {
    if vs == [] then [] else Wire(vs[0]) + WireAll(vs[1..])
  }

  /** Where a value's parts stand: counts and lengths are words in front, a preamble has four fields. */
  lemma WireIs(v: Value)
    requires (v.Chars? ==> |v.chars| < LIMIT32) && (v.Counted? ==> |v.items| < LIMIT32)
    ensures
      match v
      case Raw(bytes) => Wire(v) == bytes
      case Chars(chars) => |Wire(v)| == 4 + |chars| && Word32(Wire(v), 0) == |chars| && Wire(v)[4..] == chars
      case Counted(items) => |Wire(v)| >= 4 && Word32(Wire(v), 0) == |items| && Wire(v)[4..] == WireAll(items)
      case Block(items) => Wire(v) == WireAll(items)
      case Object(None, ms) => Wire(v) == WireAll(ms)
      case Object(Some(p), ms) =>
        && |Wire(v)| >= 24 && Wire(v)[24..] == WireAll(ms)
        && Word32(Wire(v), 0) == p.magic && Word32(Wire(v), 4) == p.size
        && Wire(v)[8..16] == p.hash && Wire(v)[16..24] == p.time
  {
    hide Le32, Word32, WireAll;
    match v
    case Chars(chars) => Le32Inverse(Wire(v), 0, |chars|);
    case Counted(items) => Le32Inverse(Wire(v), 0, |items|);
    case Object(Some(p), ms) =>
      assert Wire(v)[..24] == PreBytes(p);
      assert Wire(v)[0..4] == PreBytes(p)[0..4] == Le32(p.magic);
      assert Wire(v)[4..8] == PreBytes(p)[4..8] == Le32(p.size);
      Le32Inverse(Wire(v), 0, p.magic);
      Le32Inverse(Wire(v), 4, p.size);
    case _ =>
  }

  /** The parts of a list stand one behind the other. */
  lemma {:induction false} WireAt(vs: seq<Value>, k: nat)
    requires k < |vs|
    ensures
      var at := |WireAll(vs[..k])|;
      at + |Wire(vs[k])| <= |WireAll(vs)| && WireAll(vs)[at..at + |Wire(vs[k])|] == Wire(vs[k])
  {
    hide Wire;
    assert vs == vs[..k] + vs[k..];
    WireAllAppend(vs[..k], vs[k..]);
    var (a, b, c) := (WireAll(vs[..k]), Wire(vs[k]), WireAll(vs[k..][1..]));
    assert WireAll(vs) == a + (b + c);
  }

  /** The size that setSize stores for an object with these members. */
  function ObjectSize(ms: seq<Value>): nat {
    P.PREAMBLE_BYTES + |WireAll(ms)|
  }

  /** The value after encode_net has set every preamble's size and written the magic number. */
  function Stamp(v: Value): Value
    decreases v, 0
  {
    match v
    case Raw(_) | Chars(_) => v
    case Object(None, ms) => Object(None, StampAll(ms))
    case Object(Some(p), ms) =>
      Object(Some(p.(magic := P.MAGIC, size := P.WithSize(p.size, ObjectSize(ms)))), StampAll(ms))
    case Block(items) => Block(StampAll(items))
    case Counted(items) => Counted(StampAll(items))
  }

  function StampAll(vs: seq<Value>): (s: seq<Value>)
    ensures |s| == |vs|
    decreases vs, 0
  {
    if vs == [] then [] else [Stamp(vs[0])] + StampAll(vs[1..])
  }

  /** Every preamble in the value holds the magic number and its object's wire size. */
  predicate Settled(v: Value) {
    Stamp(v) == v
  }

  /** The sizes setSize will be given meet its assert. */
  predicate SizesAllowed(v: Value)
    decreases v, 0
  {
    match v
    case Raw(_) | Chars(_) => true
    case Object(pre, ms) => SizesAllowedAll(ms) && (pre.Some? ==> P.SizeAllowed(pre.value.size, ObjectSize(ms)))
    case Block(items) => SizesAllowedAll(items)
    case Counted(items) => SizesAllowedAll(items)
  }

  predicate SizesAllowedAll(vs: seq<Value>)
    decreases vs, 0
  {
    vs == [] || (SizesAllowed(vs[0]) && SizesAllowedAll(vs[1..]))
  }

  // Typing: the value is an object of the schema's generated type.

  predicate FitsStruct(st: Struct, v: Value)
    decreases v, 1
  {
    && v.Object?
    && v.pre.None? == st.naked
    && FitsFields(st.fields, v.members)
  }

  predicate FitsFields(fs: seq<Field>, vs: seq<Value>)
    decreases vs, 0
  {
    |fs| == |vs| && (fs != [] ==> FitsField(fs[0], vs[0]) && FitsFields(fs[1..], vs[1..]))
  }

  predicate FitsField(f: Field, v: Value)
    decreases v, 3
  {
    match f.suffix
    case Single => FitsItem(f.base, v)
    case Fixed(n) => v.Block? && |v.items| == n && FitsItems(f.base, v.items)
    case Dynamic => v.Counted? && |v.items| < LIMIT32 && FitsItems(f.base, v.items)
    case Compact(n) => v.Counted? && |v.items| <= n && |v.items| < LIMIT32 && FitsItems(f.base, v.items)
  }

  predicate FitsItem(b: Base, v: Value)
    decreases v, 2
  {
    match b
    case Number(p) => v.Raw? && |v.bytes| == Width(p)
    case ShortText => v.Raw? && |v.bytes| == SHORT_BYTES
    case Enum => v.Raw? && |v.bytes| == 4
    case Text => v.Chars? && |v.chars| < LIMIT32
    case Struct(st) => FitsStruct(st, v)
  }

  predicate FitsItems(b: Base, vs: seq<Value>)
    decreases vs, 0
  {
    vs == [] || (FitsItem(b, vs[0]) && FitsItems(b, vs[1..]))
  }

  // Initialised preambles: every struct holds its type's hash, and a flat struct, whose size
  // never changes, also the magic number and its size.

  predicate InitStruct(st: Struct, v: Value)
    requires FitsStruct(st, v)
    decreases v, 1
  {
    && (v.pre.Some? ==> v.pre.value.hash == st.hash)
    && (Flat(Base.Struct(st)) ==> Settled(v))
    && InitFields(st.fields, v.members)
  }

  predicate InitFields(fs: seq<Field>, vs: seq<Value>)
    requires FitsFields(fs, vs)
    decreases vs, 0
  {
    fs == [] || (InitField(fs[0], vs[0]) && InitFields(fs[1..], vs[1..]))
  }

  predicate InitField(f: Field, v: Value)
    requires FitsField(f, v)
    decreases v, 3
  {
    if f.suffix.Single? then InitItem(f.base, v) else InitItems(f.base, v.items)
  }

  predicate InitItem(b: Base, v: Value)
    requires FitsItem(b, v)
    decreases v, 2
  {
    b.Struct? ==> InitStruct(b.st, v)
  }

  predicate InitItems(b: Base, vs: seq<Value>)
    requires FitsItems(b, vs)
    decreases vs, 0
  {
    vs == [] || (InitItem(b, vs[0]) && InitItems(b, vs[1..]))
  }

  /** Every struct in the value holds its type's hash, as its constructor puts it there. */
  predicate HashesStruct(st: Struct, v: Value)
    requires FitsStruct(st, v)
    decreases v, 1
  {
    (v.pre.Some? ==> v.pre.value.hash == st.hash) && HashesFields(st.fields, v.members)
  }

  predicate HashesFields(fs: seq<Field>, vs: seq<Value>)
    requires FitsFields(fs, vs)
    decreases vs, 0
  {
    fs == [] || (HashesField(fs[0], vs[0]) && HashesFields(fs[1..], vs[1..]))
  }

  predicate HashesField(f: Field, v: Value)
    requires FitsField(f, v)
    decreases v, 3
  {
    if f.suffix.Single? then HashesItem(f.base, v) else HashesItems(f.base, v.items)
  }

  predicate HashesItem(b: Base, v: Value)
    requires FitsItem(b, v)
    decreases v, 2
  {
    b.Struct? ==> HashesStruct(b.st, v)
  }

  predicate HashesItems(b: Base, vs: seq<Value>)
    requires FitsItems(b, vs)
    decreases vs, 0
  {
    vs == [] || (HashesItem(b, vs[0]) && HashesItems(b, vs[1..]))
  }

  /** A value with the right hashes is initialised once its sizes have been set, as by encoding it. */
  lemma {:induction false} StampInitialises(st: Struct, v: Value)
    requires FitsStruct(st, v) && HashesStruct(st, v) && SizesAllowed(v)
    ensures FitsStruct(st, Stamp(v)) && InitStruct(st, Stamp(v))
    decreases v, 1
  {
    hide FitsFields, InitFields, HashesFields, SizesAllowedAll, StampAll;
    StampFitsStruct(st, v);
    StampSettles(v);
    StampInitsFields(st.fields, v.members);
  }

  lemma {:induction false} StampInitsFields(fs: seq<Field>, vs: seq<Value>)
    requires FitsFields(fs, vs) && HashesFields(fs, vs) && SizesAllowedAll(vs)
    ensures FitsFields(fs, StampAll(vs)) && InitFields(fs, StampAll(vs))
    decreases vs, 0
  {
    hide FitsField, InitField, HashesField, Stamp;
    StampFitsFields(fs, vs);
    if fs != [] {
      StampInitsField(fs[0], vs[0]);
      StampInitsFields(fs[1..], vs[1..]);
      assert StampAll(vs)[1..] == StampAll(vs[1..]);
    }
  }

  lemma {:induction false} StampInitsField(f: Field, v: Value)
    requires FitsField(f, v) && HashesField(f, v) && SizesAllowed(v)
    ensures FitsField(f, Stamp(v)) && InitField(f, Stamp(v))
    decreases v, 3
  {
    StampFitsField(f, v);
    match f.suffix
    case Single => StampInitsItem(f.base, v);
    case _ => StampInitsItems(f.base, v.items);
  }

  lemma {:induction false} StampInitsItem(b: Base, v: Value)
    requires FitsItem(b, v) && HashesItem(b, v) && SizesAllowed(v)
    ensures FitsItem(b, Stamp(v)) && InitItem(b, Stamp(v))
    decreases v, 2
  {
    StampFitsItem(b, v);
    if b.Struct? {
      StampInitialises(b.st, v);
    }
  }

  lemma {:induction false} StampInitsItems(b: Base, vs: seq<Value>)
    requires FitsItems(b, vs) && HashesItems(b, vs) && SizesAllowedAll(vs)
    ensures FitsItems(b, StampAll(vs)) && InitItems(b, StampAll(vs))
    decreases vs, 0
  {
    hide FitsItem, InitItem, HashesItem, Stamp;
    StampFitsItems(b, vs);
    if vs != [] {
      StampInitsItem(b, vs[0]);
      StampInitsItems(b, vs[1..]);
      assert StampAll(vs)[1..] == StampAll(vs[1..]);
    }
  }

  /** Flat array elements are settled, so copying their memory writes settled preambles. */
  lemma {:induction false} FlatRunSettled(b: Base, vs: seq<Value>)
    requires FitsItems(b, vs) && InitItems(b, vs) && Flat(b)
    ensures StampAll(vs) == vs
  {
    if vs != [] {
      FlatRunSettled(b, vs[1..]);
      assert FitsItem(b, vs[0]) && InitItem(b, vs[0]);
      match b {
        case Struct(st) => assert InitStruct(st, vs[0]);
        case _ =>
      }
      assert vs == [vs[0]] + vs[1..];
    }
  }

  // ----- concatenation

  lemma {:induction false} WireAllAppend(xs: seq<Value>, ys: seq<Value>)
    ensures WireAll(xs + ys) == WireAll(xs) + WireAll(ys)
  {
    if xs == [] {
      assert xs + ys == ys;
    } else {
      assert (xs + ys)[1..] == xs[1..] + ys;
      WireAllAppend(xs[1..], ys);
    }
  }

  lemma {:induction false} StampAllAppend(xs: seq<Value>, ys: seq<Value>)
    ensures StampAll(xs + ys) == StampAll(xs) + StampAll(ys)
    ensures SizesAllowedAll(xs + ys) <==> SizesAllowedAll(xs) && SizesAllowedAll(ys)
  {
    if xs == [] {
      assert xs + ys == ys;
    } else {
      assert (xs + ys)[1..] == xs[1..] + ys;
      StampAllAppend(xs[1..], ys);
    }
  }

  lemma {:induction false} FitsItemsAppend(b: Base, xs: seq<Value>, ys: seq<Value>)
    ensures FitsItems(b, xs + ys) <==> FitsItems(b, xs) && FitsItems(b, ys)
  {
    if xs == [] {
      assert xs + ys == ys;
    } else {
      assert (xs + ys)[1..] == xs[1..] + ys;
      FitsItemsAppend(b, xs[1..], ys);
    }
  }

  // ----- stamping

  /** Setting sizes changes no lengths, so the size set is the size of what is written. */
  lemma {:induction false} StampLength(v: Value)
    ensures |Wire(Stamp(v))| == |Wire(v)|
    decreases v, 0
  {
    match v
    case Raw(_) =>
    case Chars(_) =>
    case Object(_, ms) => StampAllLength(ms);
    case Block(items) => StampAllLength(items);
    case Counted(items) => StampAllLength(items);
  }

  lemma {:induction false} StampAllLength(vs: seq<Value>)
    ensures |WireAll(StampAll(vs))| == |WireAll(vs)|
    decreases vs, 0
  {
    if vs != [] {
      StampLength(vs[0]);
      StampAllLength(vs[1..]);
    }
  }

  lemma {:induction false} StampSettles(v: Value)
    requires SizesAllowed(v)
    ensures Settled(Stamp(v)) && SizesAllowed(Stamp(v))
    decreases v, 0
  {
    match v
    case Raw(_) =>
    case Chars(_) =>
    case Object(None, ms) => StampAllSettles(ms);
    case Object(Some(p), ms) =>
      StampAllSettles(ms);
      StampAllLength(ms);
      P.SetSizeIsRegister(p.size, ObjectSize(ms));
    case Block(items) => StampAllSettles(items);
    case Counted(items) => StampAllSettles(items);
  }

  lemma {:induction false} StampAllSettles(vs: seq<Value>)
    requires SizesAllowedAll(vs)
    ensures StampAll(StampAll(vs)) == StampAll(vs) && SizesAllowedAll(StampAll(vs))
    decreases vs, 0
  {
    if vs != [] {
      StampSettles(vs[0]);
      StampAllSettles(vs[1..]);
      assert StampAll(vs)[1..] == StampAll(vs[1..]);
    }
  }

  lemma {:induction false} StampFitsStruct(st: Struct, v: Value)
    requires FitsStruct(st, v)
    ensures FitsStruct(st, Stamp(v))
    ensures InitStruct(st, v) ==> InitStruct(st, Stamp(v))
    decreases v, 1
  {
    StampFitsFields(st.fields, v.members);
  }

  lemma {:induction false} StampFitsFields(fs: seq<Field>, vs: seq<Value>)
    requires FitsFields(fs, vs)
    ensures FitsFields(fs, StampAll(vs))
    ensures InitFields(fs, vs) ==> InitFields(fs, StampAll(vs))
    decreases vs, 0
  {
    if fs != [] {
      StampFitsField(fs[0], vs[0]);
      StampFitsFields(fs[1..], vs[1..]);
      assert StampAll(vs)[1..] == StampAll(vs[1..]);
    }
  }

  lemma {:induction false} StampFitsField(f: Field, v: Value)
    requires FitsField(f, v)
    ensures FitsField(f, Stamp(v))
    ensures InitField(f, v) ==> InitField(f, Stamp(v))
    decreases v, 3
  {
    match f.suffix
    case Single => StampFitsItem(f.base, v);
    case _ => StampFitsItems(f.base, v.items);
  }

  lemma {:induction false} StampFitsItem(b: Base, v: Value)
    requires FitsItem(b, v)
    ensures FitsItem(b, Stamp(v))
    ensures InitItem(b, v) ==> InitItem(b, Stamp(v))
    decreases v, 2
  {
    if b.Struct? {
      StampFitsStruct(b.st, v);
    }
  }

  lemma {:induction false} StampFitsItems(b: Base, vs: seq<Value>)
    requires FitsItems(b, vs)
    ensures FitsItems(b, StampAll(vs))
    ensures InitItems(b, vs) ==> InitItems(b, StampAll(vs))
    decreases vs, 0
  {
    if vs != [] {
      StampFitsItem(b, vs[0]);
      StampFitsItems(b, vs[1..]);
      assert StampAll(vs)[1..] == StampAll(vs[1..]);
    }
  }
}
