/**
  Packed in-memory objects: the layout of a value at the offsets computeSizes assigns, and the
  fact that for flat types this memory is the wire encoding, which is what lets the generated
  code use memcpy.
*/
module Memory {
  import opened Bytes
  import opened Schema
  import opened WireFormat
  import P = Preamble

  /** One byte of memory; a std::string or std::vector sits in its first byte's cell. */
  datatype Cell = Byte(b: byte) | StdString(chars: seq<byte>) | StdVector(cells: seq<Cell>) | Inside

  function Cells(bytes: seq<byte>): (cs: seq<Cell>)
    ensures |cs| == |bytes|
  {
    seq(|bytes|, i requires 0 <= i < |bytes| => Byte(bytes[i]))
  }

  function Zeros(n: nat): (cs: seq<Cell>)
    ensures |cs| == n
  {
    seq(n, _ => Byte(0))
  }

  /** A library object occupying the given number of bytes. */
  function Occupying(c: Cell, size: nat): (cs: seq<Cell>)
    requires size > 0
    ensures |cs| == size && cs[0] == c
  {
    [c] + seq(size - 1, _ => Inside)
  }

  // The memory of a value. `m` is what the memory held before: it shows through in the unused
  // slots of compact arrays.

  function LayoutStruct(st: Struct, v: Value, m: seq<Cell>): (r: seq<Cell>)
    requires FitsStruct(st, v) && |m| == PackedSize(st)
    ensures |r| == |m|
    decreases v, 1
  {
    if st.naked then LayoutFields(st.fields, v.members, m)
    else Cells(PreBytes(v.pre.value)) + LayoutFields(st.fields, v.members, m[P.PREAMBLE_BYTES..])
  }

  function LayoutFields(fs: seq<Field>, vs: seq<Value>, m: seq<Cell>): (r: seq<Cell>)
    requires FitsFields(fs, vs) && |m| == FieldsSize(fs)
    ensures |r| == |m|
    decreases vs, 0
  {
    if fs == [] then []
    else
      var n := FieldSize(fs[0]);
      LayoutField(fs[0], vs[0], m[..n]) + LayoutFields(fs[1..], vs[1..], m[n..])
  }

  function LayoutField(f: Field, v: Value, m: seq<Cell>): (r: seq<Cell>)
    requires FitsField(f, v) && |m| == FieldSize(f)
    ensures |r| == |m|
    decreases v, 3
  {
    match f.suffix
    case Single => LayoutItem(f.base, v, m)
    case Fixed(n) => LayoutItems(f.base, v.items, n, m)
    case Dynamic =>
      var room := Zeros(Times(|v.items|, BaseSize(f.base)));
      Occupying(StdVector(LayoutItems(f.base, v.items, |v.items|, room)), VECTOR_BYTES)
    case Compact(n) => Cells(Le32(|v.items|)) + LayoutItems(f.base, v.items, n, m[4..])
  }

  function LayoutItem(b: Base, v: Value, m: seq<Cell>): (r: seq<Cell>)
    requires FitsItem(b, v) && |m| == BaseSize(b)
    ensures |r| == |m|
    decreases v, 2
  {
    match b
    case Number(_) | ShortText | Enum => Cells(v.bytes)
    case Text => Occupying(StdString(v.chars), STRING_BYTES)
    case Struct(st) => LayoutStruct(st, v, m)
  }

  /** The items laid out in the first of the array's slots. */
  function LayoutItems(b: Base, vs: seq<Value>, slots: nat, m: seq<Cell>): (r: seq<Cell>)
    requires FitsItems(b, vs) && |vs| <= slots && |m| == Times(slots, BaseSize(b))
    ensures |r| == |m|
    decreases vs, 0
  {
    if vs == [] then m
    else
      var n := BaseSize(b);
      LayoutItem(b, vs[0], m[..n]) + LayoutItems(b, vs[1..], slots - 1, m[n..])
  }

  // ----- the fast path: flat memory is wire bytes

  lemma CellsAppend(a: seq<byte>, b: seq<byte>)
    ensures Cells(a + b) == Cells(a) + Cells(b)
  {
  }

  lemma {:induction false} FlatStructIsWire(st: Struct, v: Value, m: seq<Cell>)
    requires FitsStruct(st, v) && |m| == PackedSize(st) && Simple(st) && !HasCompact(st)
    ensures LayoutStruct(st, v, m) == Cells(Wire(v))
    decreases v, 1
  {
    if st.naked {
      FlatFieldsAreWire(st.fields, v.members, m);
    } else {
      FlatFieldsAreWire(st.fields, v.members, m[P.PREAMBLE_BYTES..]);
      CellsAppend(PreBytes(v.pre.value), WireAll(v.members));
    }
  }

  lemma {:induction false} FlatFieldsAreWire(fs: seq<Field>, vs: seq<Value>, m: seq<Cell>)
    requires FitsFields(fs, vs) && |m| == FieldsSize(fs) && SimpleFields(fs) && !HasCompactFields(fs)
    ensures LayoutFields(fs, vs, m) == Cells(WireAll(vs))
    decreases vs, 0
  {
    if fs != [] {
      var n := FieldSize(fs[0]);
      FlatFieldIsWire(fs[0], vs[0], m[..n]);
      FlatFieldsAreWire(fs[1..], vs[1..], m[n..]);
      CellsAppend(Wire(vs[0]), WireAll(vs[1..]));
    }
  }

  lemma {:induction false} FlatFieldIsWire(f: Field, v: Value, m: seq<Cell>)
    requires FitsField(f, v) && |m| == FieldSize(f) && SimpleField(f) && !HasCompactField(f)
    ensures LayoutField(f, v, m) == Cells(Wire(v))
    decreases v, 3
  {
    match f.suffix
    case Single => FlatItemIsWire(f.base, v, m);
    case Fixed(n) => FlatItemsAreWire(f.base, v.items, n, m);
  }

  lemma {:induction false} FlatItemIsWire(b: Base, v: Value, m: seq<Cell>)
    requires FitsItem(b, v) && |m| == BaseSize(b) && Flat(b)
    ensures LayoutItem(b, v, m) == Cells(Wire(v))
    decreases v, 2
  {
    if b.Struct? {
      FlatStructIsWire(b.st, v, m);
    }
  }

  lemma {:induction false} FlatItemsAreWire(b: Base, vs: seq<Value>, slots: nat, m: seq<Cell>)
    requires FitsItems(b, vs) && |vs| == slots && |m| == Times(slots, BaseSize(b)) && Flat(b)
    ensures LayoutItems(b, vs, slots, m) == Cells(WireAll(vs))
    decreases vs, 0
  {
    if vs != [] {
      var n := BaseSize(b);
      FlatItemIsWire(b, vs[0], m[..n]);
      FlatItemsAreWire(b, vs[1..], slots - 1, m[n..]);
      CellsAppend(Wire(vs[0]), WireAll(vs[1..]));
    }
  }

  /** The wire size of a flat value is its type's packed size, whatever the value. */
  lemma FlatSize(b: Base, v: Value)
    requires FitsItem(b, v) && Flat(b)
    ensures |Wire(v)| == BaseSize(b)
  {
    FlatItemIsWire(b, v, Zeros(BaseSize(b)));
  }

  /** Hence the size of an array of them is the size of its first element times its length. */
  lemma FlatRunSize(b: Base, vs: seq<Value>)
    requires FitsItems(b, vs) && Flat(b)
    ensures |WireAll(vs)| == Times(|vs|, BaseSize(b))
  {
    FlatItemsAreWire(b, vs, |vs|, Zeros(Times(|vs|, BaseSize(b))));
  }

  /** The plain bytes of a stretch of memory. */
  function BytesOf(cs: seq<Cell>): (bytes: seq<byte>)
    requires forall i :: 0 <= i < |cs| ==> cs[i].Byte?
    ensures |bytes| == |cs|
  {
    seq(|cs|, i requires 0 <= i < |cs| => cs[i].b)
  }

  lemma BytesOfCells(bytes: seq<byte>)
    ensures BytesOf(Cells(bytes)) == bytes
  {
  }

  /** What memcpy reads from an array of flat elements. */
  function RunBytes(b: Base, vs: seq<Value>): (bytes: seq<byte>)
    requires FitsItems(b, vs) && Flat(b)
    ensures bytes == WireAll(vs)
  {
    var m := Zeros(Times(|vs|, BaseSize(b)));
    FlatItemsAreWire(b, vs, |vs|, m);
    BytesOfCells(WireAll(vs));
    BytesOf(LayoutItems(b, vs, |vs|, m))
  }

  // ----- reading memory back: the object whose memory is the given bytes

  function LoadStruct(st: Struct, bytes: seq<byte>): Value
    requires |bytes| == PackedSize(st) && Simple(st) && !HasCompact(st)
    decreases st, 0
  {
    if st.naked then Object(None, LoadFields(st.fields, bytes))
    else
      var pre := Pre(Word32(bytes, 0), Word32(bytes, 4), bytes[8..16], bytes[16..24]);
      Object(Some(pre), LoadFields(st.fields, bytes[P.PREAMBLE_BYTES..]))
  }

  function LoadFields(fs: seq<Field>, bytes: seq<byte>): (vs: seq<Value>)
    requires |bytes| == FieldsSize(fs) && SimpleFields(fs) && !HasCompactFields(fs)
    decreases fs, 0
  {
    if fs == [] then []
    else
      var n := FieldSize(fs[0]);
      [LoadField(fs[0], bytes[..n])] + LoadFields(fs[1..], bytes[n..])
  }

  function LoadField(f: Field, bytes: seq<byte>): Value
    requires |bytes| == FieldSize(f) && SimpleField(f) && !HasCompactField(f)
    decreases f, 0
  {
    match f.suffix
    case Single => LoadItem(f.base, bytes)
    case Fixed(n) => Block(LoadItems(f.base, n, bytes))
  }

  function LoadItem(b: Base, bytes: seq<byte>): Value
    requires |bytes| == BaseSize(b) && Flat(b)
    decreases b, 0
  {
    match b
    case Struct(st) => LoadStruct(st, bytes)
    case _ => Raw(bytes)
  }

  function LoadItems(b: Base, n: nat, bytes: seq<byte>): (vs: seq<Value>)
    requires |bytes| == Times(n, BaseSize(b)) && Flat(b)
    ensures |vs| == n
    decreases b, 1, n
  {
    if n == 0 then []
    else
      var size := BaseSize(b);
      [LoadItem(b, bytes[..size])] + LoadItems(b, n - 1, bytes[size..])
  }

  /** Loading is the inverse of encoding; the value v is arbitrary. */
  lemma {:induction false} LoadStructExact(st: Struct, bytes: seq<byte>, v: Value)
    requires |bytes| == PackedSize(st) && Simple(st) && !HasCompact(st)
    ensures FitsStruct(st, LoadStruct(st, bytes)) && Wire(LoadStruct(st, bytes)) == bytes
    ensures FitsStruct(st, v) && Wire(v) == bytes ==> LoadStruct(st, bytes) == v
    decreases st, 0
  {
    var ms := if FitsStruct(st, v) then v.members else [];
    if st.naked {
      LoadFieldsExact(st.fields, bytes, ms);
    } else {
      LoadFieldsExact(st.fields, bytes[P.PREAMBLE_BYTES..], ms);
      LoadPreambleExact(bytes, if FitsStruct(st, v) then v.pre.value else Pre(0, 0, st.hash, st.hash));
      if FitsStruct(st, v) && Wire(v) == bytes {
        assert bytes[..24] == PreBytes(v.pre.value);
        assert bytes[24..] == WireAll(ms);
      }
    }
  }

  lemma LoadPreambleExact(bytes: seq<byte>, p: PreambleValue)
    requires |bytes| >= P.PREAMBLE_BYTES
    ensures PreBytes(Pre(Word32(bytes, 0), Word32(bytes, 4), bytes[8..16], bytes[16..24])) == bytes[..24]
    ensures PreBytes(p) == bytes[..24] ==>
      p == Pre(Word32(bytes, 0), Word32(bytes, 4), bytes[8..16], bytes[16..24])
  {
    Le32Inverse(bytes, 0, p.magic);
    Le32Inverse(bytes, 4, p.size);
    if PreBytes(p) == bytes[..24] {
      assert bytes[0..4] == PreBytes(p)[0..4] == Le32(p.magic);
      assert bytes[4..8] == PreBytes(p)[4..8] == Le32(p.size);
      assert bytes[8..16] == PreBytes(p)[8..16] == p.hash;
      assert bytes[16..24] == PreBytes(p)[16..24] == p.time;
    }
  }

  lemma {:induction false} LoadFieldsExact(fs: seq<Field>, bytes: seq<byte>, vs: seq<Value>)
    requires |bytes| == FieldsSize(fs) && SimpleFields(fs) && !HasCompactFields(fs)
    ensures FitsFields(fs, LoadFields(fs, bytes)) && WireAll(LoadFields(fs, bytes)) == bytes
    ensures FitsFields(fs, vs) && WireAll(vs) == bytes ==> LoadFields(fs, bytes) == vs
    decreases fs, 0
  {
    if fs != [] {
      var n := FieldSize(fs[0]);
      var head, tail := bytes[..n], bytes[n..];
      var some := FitsFields(fs, vs) && WireAll(vs) == bytes;
      if some {
        FlatFieldIsWire(fs[0], vs[0], Zeros(n));
        assert head == Wire(vs[0]) && tail == WireAll(vs[1..]);
      }
      var w, ws := if some then vs[0] else Raw([]), if some then vs[1..] else [];
      LoadFieldExact(fs[0], head, w);
      LoadFieldsExact(fs[1..], tail, ws);
      assert bytes == head + tail;
      var loaded := LoadFields(fs[1..], tail);
      assert LoadFields(fs, bytes) == [LoadField(fs[0], head)] + loaded;
      assert LoadFields(fs, bytes)[1..] == loaded;
      if some {
        assert vs == [w] + ws;
      }
    }
  }

  lemma {:induction false} LoadFieldExact(f: Field, bytes: seq<byte>, v: Value)
    requires |bytes| == FieldSize(f) && SimpleField(f) && !HasCompactField(f)
    ensures FitsField(f, LoadField(f, bytes)) && Wire(LoadField(f, bytes)) == bytes
    ensures FitsField(f, v) && Wire(v) == bytes ==> LoadField(f, bytes) == v
    decreases f, 0
  {
    match f.suffix
    case Single => LoadItemExact(f.base, bytes, v);
    case Fixed(n) => LoadItemsExact(f.base, n, bytes, if v.Block? then v.items else []);
  }

  lemma {:induction false} LoadItemExact(b: Base, bytes: seq<byte>, v: Value)
    requires |bytes| == BaseSize(b) && Flat(b)
    ensures FitsItem(b, LoadItem(b, bytes)) && Wire(LoadItem(b, bytes)) == bytes
    ensures FitsItem(b, v) && Wire(v) == bytes ==> LoadItem(b, bytes) == v
    decreases b, 0
  {
    match b
    case Struct(st) => LoadStructExact(st, bytes, v);
    case _ =>
  }

  lemma {:induction false} LoadItemsExact(b: Base, n: nat, bytes: seq<byte>, vs: seq<Value>)
    requires |bytes| == Times(n, BaseSize(b)) && Flat(b)
    ensures FitsItems(b, LoadItems(b, n, bytes)) && WireAll(LoadItems(b, n, bytes)) == bytes
    ensures |vs| == n && FitsItems(b, vs) && WireAll(vs) == bytes ==> LoadItems(b, n, bytes) == vs
    decreases b, 1, n
  {
    hide Wire, WireAll, FitsItem, FitsItems, LoadItem, Flat, BaseSize;
    if n == 0 {
      NoItems(b, bytes, vs);
    } else {
      var size := BaseSize(b);
      var head, tail := bytes[..size], bytes[size..];
      var some := |vs| == n && FitsItems(b, vs) && WireAll(vs) == bytes;
      if some {
        SplitItems(b, vs, bytes);
      }
      var w, ws := if some then vs[0] else Raw([]), if some then vs[1..] else [];
      LoadItemExact(b, head, w);
      LoadItemsExact(b, n - 1, tail, ws);
      LoadFirst(b, LoadItem(b, head), LoadItems(b, n - 1, tail), bytes, head, tail);
      if some {
        assert vs == [w] + ws;
      }
    }
  }

  lemma NoItems(b: Base, bytes: seq<byte>, vs: seq<Value>)
    requires |bytes| == Times(0, BaseSize(b)) && Flat(b)
    ensures FitsItems(b, LoadItems(b, 0, bytes)) && WireAll(LoadItems(b, 0, bytes)) == bytes
    ensures |vs| == 0 ==> LoadItems(b, 0, bytes) == vs
  {
  }

  lemma SplitItems(b: Base, vs: seq<Value>, bytes: seq<byte>)
    requires Flat(b) && vs != [] && FitsItems(b, vs) && WireAll(vs) == bytes
    ensures BaseSize(b) <= |bytes| && FitsItem(b, vs[0]) && FitsItems(b, vs[1..])
    ensures bytes[..BaseSize(b)] == Wire(vs[0]) && bytes[BaseSize(b)..] == WireAll(vs[1..])
  {
    hide Wire, FitsItem, Flat, BaseSize;
    FlatSize(b, vs[0]);
  }

  lemma LoadFirst(b: Base, v: Value, vs: seq<Value>, bytes: seq<byte>, head: seq<byte>, tail: seq<byte>)
    requires FitsItem(b, v) && FitsItems(b, vs) && Wire(v) == head && WireAll(vs) == tail
    requires bytes == head + tail
    ensures FitsItems(b, [v] + vs) && WireAll([v] + vs) == bytes
  {
    assert ([v] + vs)[1..] == vs;
  }
}
