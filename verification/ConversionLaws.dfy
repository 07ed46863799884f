/**
  What conversion promises, proved of its specification: fields by name, the identity between
  equal schemas with its exact condition, and where the copy into a short string goes wrong.
*/
module ConversionLaws {
  import opened Bytes
  import opened Schema
  import opened WireFormat
  import opened Memory
  import opened Conversion

  // ----- fields by name

  /**
    After a successful conversion each destination field, in its own range of the memory, is the
    conversion of the source field of its name, or as it was if there is none.
  */
  lemma FieldsByName(cast: Cast, st: Struct, v: Value, after: seq<byte>, dst: Struct, m: seq<Cell>, j: nat)
    requires FitsStruct(st, v) && |m| == PackedSize(dst) && NamesDistinct(st) && j < |dst.fields|
    requires ConvStruct(cast, st, v, after, dst, m).Some?
    ensures
      var out := ConvStruct(cast, st, v, after, dst, m).value;
      var df, at := dst.fields[j], Offset(dst, j);
      var i := FindField(st.fields, df.name);
      && at + FieldSize(df) <= |out|
      && (i == |st.fields| ==> out[at..at + FieldSize(df)] == m[at..at + FieldSize(df)])
      && (i < |st.fields| ==>
            && FitsField(st.fields[i], v.members[i])
            && ConvField(cast, st.fields[i], v.members[i], WireAll(v.members[i + 1..]) + after, df,
                         m[at..at + FieldSize(df)])
               == Some(out[at..at + FieldSize(df)]))
  {
    hide ConvField, ConvFields, Header, Split, Join, FieldSize, WireAll, FitsField, NamesDistinctIn;
    var fs, vs, dfs, h := st.fields, v.members, dst.fields, HeaderSize(dst);
    var out := ConvStruct(cast, st, v, after, dst, m).value;
    var rest := ConvFields(cast, fs, vs, after, dfs, m[h..]).value;
    assert out[h..] == rest;
    FieldsAre(cast, fs, vs, after, dfs, m[h..], Split(dfs, rest));
    SplitAt(dfs, m, h, j);
    SplitAt(dfs, out, h, j);
    var i := FindField(fs, dfs[j].name);
    if i < |fs| {
      FitsFieldsAt(fs, vs, i);
    }
  }

  lemma SplitAt(fs: seq<Field>, m: seq<Cell>, h: nat, j: nat)
    requires |m| == h + FieldsSize(fs) && j < |fs|
    ensures
      var at, n := h + FieldsSize(fs[..j]), FieldSize(fs[j]);
      at + n <= |m| && Split(fs, m[h..])[j] == m[at..at + n]
  {
    hide Split, Join, Patched;
    var parts := Split(fs, m[h..]);
    var at, n := FieldsSize(fs[..j]), FieldSize(fs[j]);
    JoinAt(fs, parts, j, parts[j]);
    SliceOfSlice(m, h, |m| - h, at, at + n);
    assert m[h..|m|] == m[h..];
  }

  // ----- equal schemas

  /**
    Whether converting a value into its own schema reproduces the value: short strings must be
    zero-filled, arrays of them already in place (or, in a vector, of exactly 15 characters),
    and vectors of plain items empty.
  */
  predicate KeepsStruct(st: Struct, v: Value, m: seq<Cell>)
    requires FitsStruct(st, v) && |m| == PackedSize(st)
    decreases v, 1
  {
    KeepsFields(st.fields, v.members, Split(st.fields, m[HeaderSize(st)..]))
  }

  predicate KeepsFields(fs: seq<Field>, vs: seq<Value>, parts: seq<seq<Cell>>)
    requires FitsFields(fs, vs) && Sized(fs, parts)
    decreases vs, 0
  {
    fs == [] || (KeepsField(fs[0], vs[0], parts[0]) && KeepsFields(fs[1..], vs[1..], parts[1..]))
  }

  predicate KeepsField(f: Field, v: Value, m: seq<Cell>)
    requires FitsField(f, v) && |m| == FieldSize(f)
    decreases v, 3
  {
    match f.suffix
    case Single => KeepsItem(f.base, v, m)
    case Fixed(n) => KeepsSlots(f.base, v.items, n, m)
    case Compact(n) => KeepsSlots(f.base, v.items, n, m[4..])
    case Dynamic =>
      if f.base.Struct? then KeepsSlots(f.base, v.items, |v.items|, Zeros(Times(|v.items|, BaseSize(f.base))))
      else VectorAt(m) == [] && (f.base.ShortText? ==> forall i :: 0 <= i < |v.items| ==> Full(v.items[i]))
  }

  predicate KeepsItem(b: Base, v: Value, m: seq<Cell>)
    requires FitsItem(b, v) && |m| == BaseSize(b)
    decreases v, 2
  {
    match b
    case ShortText => ZeroFilled(v.bytes)
    case Struct(st) => KeepsStruct(st, v, m)
    case _ => true
  }

  predicate KeepsSlots(b: Base, vs: seq<Value>, slots: nat, m: seq<Cell>)
    requires FitsItems(b, vs) && |vs| <= slots && |m| == Times(slots, BaseSize(b))
    decreases vs, 0
  {
    if vs == [] then true
    else if b.ShortText? then LayoutItems(b, vs, slots, m) == m
    else KeepsItem(b, vs[0], m[..BaseSize(b)]) && KeepsSlots(b, vs[1..], slots - 1, m[BaseSize(b)..])
  }

  /** Nothing but zeros from the first NUL on. */
  predicate ZeroFilled(bytes: seq<byte>) {
    forall i :: Length(bytes) <= i < |bytes| ==> bytes[i] == 0
  }

  predicate Full(v: Value) {
    v.Raw? && Length(v.bytes) == SHORT_BYTES - 1
  }

  lemma Cancel(a: seq<Cell>, r: Option<seq<Cell>>, x: seq<Cell>, y: seq<Cell>)
    requires |a| == |x|
    ensures Prepend(a, r) == Some(x + y) <==> a == x && r == Some(y)
  {
    if r.Some? && a + r.value == x + y {
      assert a == (a + r.value)[..|a|] && r.value == (a + r.value)[|a|..];
      assert x == (x + y)[..|x|] && y == (x + y)[|x|..];
    }
  }

  lemma CellsInjective(a: seq<byte>, b: seq<byte>)
    ensures Cells(a) == Cells(b) <==> a == b
  {
    if Cells(a) == Cells(b) {
      assert |a| == |b| && forall i :: 0 <= i < |a| ==> Cells(a)[i].b == a[i] && Cells(b)[i].b == b[i];
    }
  }

  /** The identity theorem: equal schemas reproduce the value exactly under that condition. */
  lemma {:induction false} SameSchema(cast: Cast, st: Struct, v: Value, after: seq<byte>, m: seq<Cell>)
    requires FitsStruct(st, v) && |m| == PackedSize(st) && NamesDistinct(st)
    ensures ConvStruct(cast, st, v, after, st, m) == Some(LayoutStruct(st, v, m)) <==> KeepsStruct(st, v, m)
    decreases v, 1
  {
    hide ConvFields, LayoutFields, KeepsFields, Split;
    var h := HeaderSize(st);
    SameFields(cast, st.fields, v.members, after, m[h..]);
    Cancel(Header(st, v, st, m), ConvFields(cast, st.fields, v.members, after, st.fields, m[h..]),
           Header(st, v, st, m), LayoutFields(st.fields, v.members, m[h..]));
    assert st.naked ==> m[h..] == m && m[..h] == [];
    assert [] + LayoutFields(st.fields, v.members, m[h..]) == LayoutFields(st.fields, v.members, m[h..]);
  }

  /** The fields of the laid out value, one by one. */
  function LayoutParts(fs: seq<Field>, vs: seq<Value>, parts: seq<seq<Cell>>): (r: seq<seq<Cell>>)
    requires FitsFields(fs, vs) && Sized(fs, parts)
    ensures Sized(fs, r)
  {
    if fs == [] then []
    else [LayoutField(fs[0], vs[0], parts[0])] + LayoutParts(fs[1..], vs[1..], parts[1..])
  }

  lemma {:induction false} LayoutPartsJoin(fs: seq<Field>, vs: seq<Value>, m: seq<Cell>)
    requires FitsFields(fs, vs) && |m| == FieldsSize(fs)
    ensures Join(LayoutParts(fs, vs, Split(fs, m))) == LayoutFields(fs, vs, m)
  {
    hide LayoutField;
    if fs != [] {
      var n := FieldSize(fs[0]);
      assert Split(fs, m)[1..] == Split(fs[1..], m[n..]);
      LayoutPartsJoin(fs[1..], vs[1..], m[n..]);
      var parts := LayoutParts(fs, vs, Split(fs, m));
      assert parts[1..] == LayoutParts(fs[1..], vs[1..], Split(fs[1..], m[n..]));
    }
  }

  lemma {:induction false} LayoutPartsAt(fs: seq<Field>, vs: seq<Value>, parts: seq<seq<Cell>>, j: nat)
    requires FitsFields(fs, vs) && Sized(fs, parts) && j < |fs|
    ensures FitsField(fs[j], vs[j]) && LayoutParts(fs, vs, parts)[j] == LayoutField(fs[j], vs[j], parts[j])
  {
    hide LayoutField;
    if j > 0 {
      LayoutPartsAt(fs[1..], vs[1..], parts[1..], j - 1);
    }
  }

  lemma {:induction false} KeepsFieldsAll(fs: seq<Field>, vs: seq<Value>, parts: seq<seq<Cell>>)
    requires FitsFields(fs, vs) && Sized(fs, parts)
    ensures KeepsFields(fs, vs, parts) <==>
              forall j :: 0 <= j < |fs| ==> FitsField(fs[j], vs[j]) && KeepsField(fs[j], vs[j], parts[j])
    decreases vs
  {
    hide KeepsField, FitsField;
    if fs != [] {
      KeepsFieldsAll(fs[1..], vs[1..], parts[1..]);
      if forall j :: 0 <= j < |fs| ==> FitsField(fs[j], vs[j]) && KeepsField(fs[j], vs[j], parts[j]) {
        forall k | 0 <= k < |fs[1..]|
          ensures FitsField(fs[1..][k], vs[1..][k]) && KeepsField(fs[1..][k], vs[1..][k], parts[1..][k])
        {
          assert fs[1..][k] == fs[k + 1];
        }
      } else if KeepsFields(fs, vs, parts) {
        var j :| 0 <= j < |fs| && !(FitsField(fs[j], vs[j]) && KeepsField(fs[j], vs[j], parts[j]));
        assert j > 0;
        assert fs[j] == fs[1..][j - 1];
      }
    }
  }

  lemma {:induction false} JoinInjective(fs: seq<Field>, a: seq<seq<Cell>>, b: seq<seq<Cell>>)
    requires Sized(fs, a) && Sized(fs, b)
    ensures Join(a) == Join(b) <==> a == b
  {
    if fs != [] {
      JoinInjective(fs[1..], a[1..], b[1..]);
      Cancel(a[0], Some(Join(a[1..])), b[0], Join(b[1..]));
      assert a == [a[0]] + a[1..] && b == [b[0]] + b[1..];
    }
  }

  lemma {:induction false} SameFields(cast: Cast, fs: seq<Field>, vs: seq<Value>, after: seq<byte>, m: seq<Cell>)
    requires FitsFields(fs, vs) && |m| == FieldsSize(fs) && DistinctNames(fs) && NamesDistinctIn(fs)
    ensures ConvFields(cast, fs, vs, after, fs, m) == Some(LayoutFields(fs, vs, m))
            <==> KeepsFields(fs, vs, Split(fs, m))
    decreases vs, 0, 1
  {
    hide ConvFields, ConvNamed, LayoutFields, Split, Join, KeepsFields, KeepsField, LayoutParts, FitsField, DistinctNames,
         NamesDistinctIn;
    var start := Split(fs, m);
    var laid := LayoutParts(fs, vs, start);
    LayoutPartsJoin(fs, vs, m);
    KeepsFieldsAll(fs, vs, start);
    FieldsAre(cast, fs, vs, after, fs, m, laid);
    forall j | 0 <= j < |fs|
      ensures FitsField(fs[j], vs[j])
      ensures ConvNamed(cast, fs, vs, |vs|, after, fs[j], start[j]) == Some(laid[j])
              <==> KeepsField(fs[j], vs[j], start[j])
    {
      SameNamed(cast, fs, vs, after, start, j);
    }
  }

  lemma FieldsAre(cast: Cast, fs: seq<Field>, vs: seq<Value>, after: seq<byte>, dfs: seq<Field>, m: seq<Cell>,
                  parts: seq<seq<Cell>>)
    requires FitsFields(fs, vs) && |m| == FieldsSize(dfs) && Sized(dfs, parts)
    ensures ConvFields(cast, fs, vs, after, dfs, m) == Some(Join(parts)) <==>
              forall j :: 0 <= j < |dfs| ==>
                ConvNamed(cast, fs, vs, |vs|, after, dfs[j], Split(dfs, m)[j]) == Some(parts[j])
  {
    hide ConvNamed, Split, Join, FitsFields;
    var start := Split(dfs, m);
    if forall j :: 0 <= j < |dfs| ==> ConvNamed(cast, fs, vs, |vs|, after, dfs[j], start[j]).Some? {
      var out := seq(|start|, j requires 0 <= j < |start| =>
        ConvNamed(cast, fs, vs, |vs|, after, dfs[j], start[j]).value);
      JoinInjective(dfs, out, parts);
      assert out == parts <==> forall j :: 0 <= j < |dfs| ==> out[j] == parts[j];
    }
  }

  lemma {:induction false} SameNamed(cast: Cast, fs: seq<Field>, vs: seq<Value>, after: seq<byte>,
                                     start: seq<seq<Cell>>, j: nat)
    requires FitsFields(fs, vs) && Sized(fs, start) && DistinctNames(fs) && NamesDistinctIn(fs) && j < |fs|
    ensures FitsField(fs[j], vs[j])
    ensures ConvNamed(cast, fs, vs, |vs|, after, fs[j], start[j]) == Some(LayoutParts(fs, vs, start)[j])
            <==> KeepsField(fs[j], vs[j], start[j])
    decreases vs, 0, 0
  {
    hide ConvField, LayoutField, KeepsField, FitsField, NamesDistinctIn, ConvNamed, LayoutParts;
    NamedHere(cast, fs, vs, j, |vs|, after, fs[j], start[j]);
    LayoutPartsAt(fs, vs, start, j);
    if fs[j].base.Struct? {
      NamesDistinctAt(fs, j);
    }
    SameField(cast, fs[j], vs[j], WireAll(vs[j + 1..]) + after, start[j]);
  }

  lemma {:induction false} SameField(cast: Cast, f: Field, v: Value, after: seq<byte>, m: seq<Cell>)
    requires FitsField(f, v) && |m| == FieldSize(f) && (f.base.Struct? ==> NamesDistinct(f.base.st))
    ensures ConvField(cast, f, v, after, f, m) == Some(LayoutField(f, v, m)) <==> KeepsField(f, v, m)
    decreases v, 3
  {
    match f.suffix
    case Single => SameItem(cast, f.base, v, after, m);
    case Fixed(n) => SameSlots(cast, f.base, v.items, after, n, m);
    case Compact(n) =>
      SameSlots(cast, f.base, v.items, after, n, m[4..]);
      Cancel(Cells(Le32(|v.items|)), ConvSlots(cast, f.base, v.items, after, f.base, n, m[4..]),
             Cells(Le32(|v.items|)), LayoutItems(f.base, v.items, n, m[4..]));
    case Dynamic => SameVector(cast, f, v.items, after, m);
  }

  lemma {:induction false} SameVector(cast: Cast, f: Field, vs: seq<Value>, after: seq<byte>, m: seq<Cell>)
    requires f.suffix.Dynamic? && FitsField(f, Counted(vs)) && |m| == VECTOR_BYTES
    requires f.base.Struct? ==> NamesDistinct(f.base.st)
    ensures ConvVector(cast, f.base, vs, after, f.base, m) == Some(LayoutField(f, Counted(vs), m))
            <==> KeepsField(f, Counted(vs), m)
    decreases vs, 1
  {
    var room := Zeros(Times(|vs|, BaseSize(f.base)));
    var laid := LayoutItems(f.base, vs, |vs|, room);
    var got := if f.base.Struct? then ConvSlots(cast, f.base, vs, after, f.base, |vs|, room)
               else ConvPushes(cast, f.base, vs, f.base, VectorAt(m));
    if f.base.Struct? {
      SameSlots(cast, f.base, vs, after, |vs|, room);
    } else {
      SamePushes(cast, f.base, vs, room);
      assert VectorAt(m) + [] == VectorAt(m);
      PushesAppend(cast, f.base, vs, f.base, VectorAt(m), []);
    }
    if got.Some? {
      assert Occupying(StdVector(got.value), VECTOR_BYTES)[0] == StdVector(got.value);
      assert Occupying(StdVector(laid), VECTOR_BYTES)[0] == StdVector(laid);
    }
  }

  lemma {:induction false} SameItem(cast: Cast, b: Base, v: Value, after: seq<byte>, m: seq<Cell>)
    requires FitsItem(b, v) && |m| == BaseSize(b) && (b.Struct? ==> NamesDistinct(b.st))
    ensures ConvItem(cast, b, v, after, b, m) == Some(LayoutItem(b, v, m)) <==> KeepsItem(b, v, m)
    decreases v, 2
  {
    match b
    case Number(_) =>
    case Enum =>
    case Text =>
    case ShortText =>
      assert v.bytes + [] == v.bytes;
      CopyZeroFills(v.bytes);
      CellsInjective(StrNCpy(v.bytes).value, v.bytes);
    case Struct(st) => SameSchema(cast, st, v, after, m);
  }

  lemma CopyZeroFills(bytes: seq<byte>)
    requires |bytes| == SHORT_BYTES
    ensures StrNCpy(bytes).Some? && (StrNCpy(bytes).value == bytes <==> ZeroFilled(bytes))
  {
    var copy, k := StrNCpy(bytes).value, Length(bytes);
    assert forall i :: 0 <= i < SHORT_BYTES ==> copy[i] == if i < k then bytes[i] else 0;
    if ZeroFilled(bytes) {
      assert copy == bytes;
    }
  }

  lemma {:induction false} SameSlots(cast: Cast, b: Base, vs: seq<Value>, after: seq<byte>, slots: nat, m: seq<Cell>)
    requires FitsItems(b, vs) && |vs| <= slots && |m| == Times(slots, BaseSize(b))
    requires b.Struct? ==> NamesDistinct(b.st)
    ensures ConvSlots(cast, b, vs, after, b, slots, m) == Some(LayoutItems(b, vs, slots, m))
            <==> KeepsSlots(b, vs, slots, m)
    decreases vs, 0
  {
    hide ConvItem, LayoutItem, KeepsItem, FitsItem;
    if vs != [] && !b.ShortText? {
      var n := BaseSize(b);
      var here := WireAll(vs[1..]) + after;
      SameItem(cast, b, vs[0], here, m[..n]);
      SameSlots(cast, b, vs[1..], after, slots - 1, m[n..]);
      var item := ConvItem(cast, b, vs[0], here, b, m[..n]);
      if item.Some? {
        Cancel(item.value, ConvSlots(cast, b, vs[1..], after, b, slots - 1, m[n..]),
               LayoutItem(b, vs[0], m[..n]), LayoutItems(b, vs[1..], slots - 1, m[n..]));
      }
    }
  }

  lemma {:induction false} PushesAppend(cast: Cast, b: Base, vs: seq<Value>, db: Base, vector: seq<Cell>, more: seq<Cell>)
    requires FitsItems(b, vs) && !b.Struct?
    ensures ConvPushes(cast, b, vs, db, vector + more) == Prepend(vector, ConvPushes(cast, b, vs, db, more))
    decreases vs
  {
    if vs != [] {
      var item := ConvPushed(cast, b, vs[0], db);
      if item.Some? {
        assert vector + more + item.value == vector + (more + item.value);
        PushesAppend(cast, b, vs[1..], db, vector, more + item.value);
      }
    }
  }

  /** Pushing onto an empty vector lays the items out, short strings as proper objects. */
  lemma {:induction false} SamePushes(cast: Cast, b: Base, vs: seq<Value>, room: seq<Cell>)
    requires FitsItems(b, vs) && !b.Struct? && |room| == Times(|vs|, BaseSize(b))
    ensures
      var got := ConvPushes(cast, b, vs, b, []);
      && got.Some? && |got.value| == |room|
      && (got == Some(LayoutItems(b, vs, |vs|, room))
          <==> (b.ShortText? ==> forall i :: 0 <= i < |vs| ==> Full(vs[i])))
    decreases vs
  {
    if vs != [] {
      var n := BaseSize(b);
      var item := ConvPushed(cast, b, vs[0], b).value;
      SamePushed(cast, b, vs[0], room[..n]);
      SamePushes(cast, b, vs[1..], room[n..]);
      assert [] + item == item + [];
      PushesAppend(cast, b, vs[1..], b, item, []);
      Cancel(item, ConvPushes(cast, b, vs[1..], b, []), LayoutItem(b, vs[0], room[..n]),
             LayoutItems(b, vs[1..], |vs| - 1, room[n..]));
      assert (forall i :: 0 <= i < |vs| ==> Full(vs[i])) <==>
             Full(vs[0]) && forall i :: 0 <= i < |vs[1..]| ==> Full(vs[1..][i]);
    }
  }

  lemma SamePushed(cast: Cast, b: Base, v: Value, room: seq<Cell>)
    requires FitsItem(b, v) && !b.Struct? && |room| == BaseSize(b)
    ensures
      var item := ConvPushed(cast, b, v, b);
      && item.Some? && |item.value| == |room|
      && (item == Some(LayoutItem(b, v, room)) <==> (b.ShortText? ==> Full(v)))
  {
    if b.ShortText? {
      var k := Length(v.bytes);
      var copy := ShortObject(v.bytes);
      if k < SHORT_BYTES - 1 {
        assert copy[k + 1] == Inside;
      } else {
        assert copy == Cells(v.bytes[..15] + [0]);
        CellsInjective(v.bytes[..15] + [0], v.bytes);
        assert v.bytes == v.bytes[..15] + [v.bytes[15]];
      }
    }
  }

  // ----- a string into a short string

  /** The first 16 characters up to a NUL, zero-filled. */
  function ShortImage(chars: seq<byte>): (r: seq<byte>)
    ensures |r| == SHORT_BYTES
  {
    var k := if Length(chars) < SHORT_BYTES then Length(chars) else SHORT_BYTES;
    ZeroPadded(chars[..k])
  }

  /**
    The copy out of the message stops at a NUL rather than at the string's length. It is right
    exactly if the string holds a NUL or 16 characters, or the byte after it happens to be 0.
  */
  lemma TextToShortString(chars: seq<byte>, after: seq<byte>)
    ensures ConvChars(chars, after, ShortText) == Some(Cells(ShortImage(chars))) <==>
              |chars| >= SHORT_BYTES || Length(chars) < |chars| || (after != [] && after[0] == 0)
  {
    hide Length, Cells, ShortImage;
    CopyFromMessage(chars, after);
    if StrNCpy(chars + after).Some? {
      CellsInjective(StrNCpy(chars + after).value, ShortImage(chars));
    }
  }

  lemma CopyFromMessage(chars: seq<byte>, after: seq<byte>)
    ensures StrNCpy(chars + after) == Some(ShortImage(chars)) <==>
              |chars| >= SHORT_BYTES || Length(chars) < |chars| || (after != [] && after[0] == 0)
  {
    hide Length, ZeroPadded;
    var src, k := chars + after, Length(chars);
    LengthOfBoth(chars, after);
    if k >= SHORT_BYTES {
      assert src[..SHORT_BYTES] == chars[..SHORT_BYTES];
      assert ZeroPadded(chars[..SHORT_BYTES])[..SHORT_BYTES] == ZeroPadded(chars[..SHORT_BYTES]);
    } else if k < |chars| || (after != [] && after[0] == 0) {
      assert src[..k] == chars[..k];
    } else {
      CopyRunsOn(chars, after);
    }
  }

  /** Without a NUL of its own or one behind it, the string is not what arrives. */
  lemma CopyRunsOn(chars: seq<byte>, after: seq<byte>)
    requires Length(chars) == |chars| < SHORT_BYTES && (after != [] ==> after[0] != 0)
    ensures StrNCpy(chars + after) != Some(ShortImage(chars))
  {
    hide Length, ZeroPadded;
    var src, k := chars + after, |chars|;
    LengthOfBoth(chars, after);
    var got, l := StrNCpy(src), if Length(src) < SHORT_BYTES then Length(src) else SHORT_BYTES;
    if got.Some? {
      assert got.value[..l] == src[..l];
      assert got.value[k] == src[..l][k] == after[0];
      assert ShortImage(chars)[k] == 0;
    }
  }

  lemma LengthOfBoth(a: seq<byte>, b: seq<byte>)
    ensures Length(a + b) == if Length(a) < |a| then Length(a) else |a| + Length(b)
  {
    var s, l, k := a + b, Length(a + b), Length(a);
    assert forall i :: 0 <= i < |a| ==> s[i] == a[i];
    assert forall i :: 0 <= i < |b| ==> s[|a| + i] == b[i];
  }

  /** The string "a" in front of the number 98 arrives as "ab". */
  lemma TextToShortStringFails()
    ensures ConvChars([97], [98, 0, 0, 0], ShortText) == Some(Cells(ShortImage([97, 98])))
    ensures ConvChars([97], [98, 0, 0, 0], ShortText) != Some(Cells(ShortImage([97])))
  {
    TextToShortString([97], [98, 0, 0, 0]);
    TextToShortString([97, 98], [0, 0, 0]);
    assert [97] + [98, 0, 0, 0] == [97, 98] + [0, 0, 0];
  }

  // ----- a longer array into a compact one

  /** The memory is that of some value the field can have. */
  ghost predicate HoldsValue(f: Field, m: seq<Cell>, out: seq<Cell>)
    requires |m| == FieldSize(f)
  {
    exists w :: FitsField(f, w) && LayoutField(f, w, m) == out
  }

  /** The count in front of a compact array is the number of its items. */
  lemma CountFits(df: Field, m: seq<Cell>, out: seq<Cell>, n: nat)
    requires df.suffix.Compact? && |m| == FieldSize(df) && n < LIMIT32
    requires |out| >= 4 && out[..4] == Cells(Le32(n)) && HoldsValue(df, m, out)
    ensures n <= df.suffix.n
  {
    var w :| FitsField(df, w) && LayoutField(df, w, m) == out;
    assert out[..4] == Cells(Le32(|w.items|));
    CellsInjective(Le32(n), Le32(|w.items|));
    Le32Inverse(Le32(n), 0, n);
    Le32Inverse(Le32(n), 0, |w.items|);
  }

  /** Slots that numbers, enums and strings have been converted into hold items again. */
  lemma {:induction false} SlotsHold(cast: Cast, b: Base, vs: seq<Value>, after: seq<byte>, db: Base, slots: nat,
                                     m: seq<Cell>) returns (ws: seq<Value>)
    requires FitsItems(b, vs) && !b.Struct? && !b.ShortText? && |vs| <= slots && |m| == Times(slots, BaseSize(db))
    requires ConvSlots(cast, b, vs, after, db, slots, m).Some?
    ensures |ws| == |vs| && FitsItems(db, ws)
    ensures ConvSlots(cast, b, vs, after, db, slots, m).value == LayoutItems(db, ws, slots, m)
    decreases vs
  {
    if vs == [] {
      ws := [];
    } else {
      var n := BaseSize(db);
      var w := ItemHolds(cast, b, vs[0], WireAll(vs[1..]) + after, db, m[..n]);
      var rest := SlotsHold(cast, b, vs[1..], after, db, slots - 1, m[n..]);
      ws := [w] + rest;
      assert ws[1..] == rest;
    }
  }

  lemma ItemHolds(cast: Cast, b: Base, v: Value, after: seq<byte>, db: Base, m: seq<Cell>) returns (w: Value)
    requires FitsItem(b, v) && !b.Struct? && !b.ShortText? && |m| == BaseSize(db)
    requires ConvItem(cast, b, v, after, db, m).Some?
    ensures FitsItem(db, w) && ConvItem(cast, b, v, after, db, m).value == LayoutItem(db, w, m)
  {
    match b
    case Number(p) => w := Raw(cast(p, AsPrim(db).value, v.bytes));
    case Enum => w := Raw(cast(U32, AsPrim(db).value, v.bytes));
    case Text => w := if db.Text? then v else Raw(StrNCpy(v.chars + after).value);
  }

  /**
    The count written is the message's, not the number of slots filled. So what an array of any
    kind of items leaves in a compact array is not the memory of any value, if it is longer; and
    for numbers, enums and strings only then.
  */
  lemma CompactCount(cast: Cast, f: Field, v: Value, after: seq<byte>, df: Field, m: seq<Cell>)
    requires FitsField(f, v) && |m| == FieldSize(df) && df.suffix.Compact? && !f.suffix.Single?
    requires |v.items| < LIMIT32 && ConvField(cast, f, v, after, df, m).Some?
    ensures HoldsValue(df, m, ConvField(cast, f, v, after, df, m).value) ==> |v.items| <= df.suffix.n
    ensures !f.base.Struct? && !f.base.ShortText? && |v.items| <= df.suffix.n ==>
              HoldsValue(df, m, ConvField(cast, f, v, after, df, m).value)
  {
    hide HoldsValue, ConvSlots;
    var out := ConvField(cast, f, v, after, df, m).value;
    if HoldsValue(df, m, out) {
      CountFits(df, m, out, |v.items|);
    }
    if !f.base.Struct? && !f.base.ShortText? && |v.items| <= df.suffix.n {
      var ws := SlotsHold(cast, f.base, v.items, after, df.base, df.suffix.n, m[4..]);
      AValue(df, m, out, Counted(ws));
    }
  }

  lemma AValue(f: Field, m: seq<Cell>, out: seq<Cell>, w: Value)
    requires |m| == FieldSize(f) && FitsField(f, w) && LayoutField(f, w, m) == out
    ensures HoldsValue(f, m, out)
  {
  }

  /** Structs of one field each, of the same name. */
  lemma OneField(cast: Cast, f: Field, v: Value, after: seq<byte>, df: Field, m: seq<Cell>)
    requires FitsFields([f], [v]) && |m| == FieldsSize([df]) && f.name == df.name
    ensures FitsField(f, v) && |m| == FieldSize(df)
    ensures ConvFields(cast, [f], [v], after, [df], m) == ConvField(cast, f, v, after, df, m)
  {
    hide ConvField;
    var (fs, vs, dfs) := ([f], [v], [df]);
    assert dfs[1..] == [] && vs[1..] == [] && m[FieldSize(df)..] == [] && m[..FieldSize(df)] == m;
    assert Split(dfs, m) == [m] + Split([], []);
    assert FindField(fs, df.name) == 0;
    var r := ConvField(cast, f, v, after, df, m);
    assert WireAll(vs[1..]) + after == after;
    assert ConvNamed(cast, fs, vs, |vs|, after, dfs[0], Split(dfs, m)[0]) == r;
    if r.Some? {
      FieldsAre(cast, fs, vs, after, dfs, m, [r.value]);
      assert [r.value][1..] == [] && r.value + [] == r.value;
    }
  }

  const THREE := [Raw([1]), Raw([2]), Raw([3])]
  const LONGER := Field("xs", Number(U8), Dynamic)
  const SHORTER := Field("xs", Number(U8), Compact(2))

  lemma TwoOfThree(cast: Cast, m: seq<Cell>)
    requires |m| == 6
    ensures FitsField(LONGER, Counted(THREE)) && FieldSize(SHORTER) == 6
    ensures ConvField(cast, LONGER, Counted(THREE), [], SHORTER, m) == Some(Cells(Le32(3)) + Cells([1, 2]))
  {
    var (b, two) := (Number(U8), THREE[1..]);
    assert two[1..] == [Raw([3])] && two[1..][1..] == [];
    assert FitsItem(b, THREE[0]) && FitsItem(b, two[0]) && FitsItem(b, two[1..][0]);
    assert FitsItems(b, two[1..][1..]) && FitsItems(b, two[1..]) && FitsItems(b, two) && FitsItems(b, THREE);
    assert Times(2, 1) == 1 + Times(1, 1) == 2 + Times(0, 1);
    var slots := m[4..];
    assert ConvSlots(cast, b, two[1..], [], b, 0, slots[1..][1..]) == Some([]);
    assert ConvSlots(cast, b, two, [], b, 1, slots[1..]) == Some(Cells([2]) + []);
    assert ConvSlots(cast, b, THREE, [], b, 2, slots) == Some(Cells([1]) + (Cells([2]) + []));
    assert Cells([1]) + (Cells([2]) + []) == Cells([1, 2]);
  }

  /** Three numbers into two slots: the count says three, and no value of the type looks like that. */
  lemma CompactCountFails(cast: Cast, m: seq<Cell>, naked: Image8)
    requires |m| == 6
    ensures
      var (src, dst) := (StructDef(true, naked, [LONGER]), StructDef(true, naked, [SHORTER]));
      var v := Object(None, [Counted(THREE)]);
      && FitsStruct(src, v) && PackedSize(dst) == |m|
      && ConvStruct(cast, src, v, [], dst, m) == Some(Cells(Le32(3)) + Cells([1, 2]))
      && !exists w :: FitsStruct(dst, w) && LayoutStruct(dst, w, m) == Cells(Le32(3)) + Cells([1, 2])
  {
    hide ConvField, LayoutField, FitsField;
    var (src, dst) := (StructDef(true, naked, [LONGER]), StructDef(true, naked, [SHORTER]));
    var out := Cells(Le32(3)) + Cells([1, 2]);
    TwoOfThree(cast, m);
    OneFits(LONGER, Counted(THREE));
    assert FieldsSize(dst.fields) == 6 by {
      assert dst.fields[1..] == [];
    }
    OneField(cast, LONGER, Counted(THREE), [], SHORTER, m);
    assert m[0..] == m && [] + out == out;
    forall w | FitsStruct(dst, w) && LayoutStruct(dst, w, m) == out
      ensures false
    {
      OneLayout(SHORTER, w.members, m);
      AValue(SHORTER, m, out, w.members[0]);
      CompactCount(cast, LONGER, Counted(THREE), [], SHORTER, m);
    }
  }

  lemma OneFits(f: Field, v: Value)
    requires FitsField(f, v)
    ensures FitsFields([f], [v])
  {
    hide FitsField;
    assert [f][1..] == [] && [v][1..] == [] && FitsFields([], []);
  }

  lemma OneLayout(f: Field, vs: seq<Value>, m: seq<Cell>)
    requires |m| == FieldsSize([f]) && FitsFields([f], vs)
    ensures |m| == FieldSize(f) && |vs| == 1 && FitsField(f, vs[0]) && LayoutFields([f], vs, m) == LayoutField(f, vs[0], m)
  {
    hide LayoutField, FitsField;
    assert [f][1..] == [] && m[..FieldSize(f)] == m;
  }
}
