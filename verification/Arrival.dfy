/**
  What arrives in the memory of each destination field after a successful conversion, over the
  value's own bytes: numbers cast, strings copied, structs converted, slot by slot and item by item.
*/
module Arrival {
  import opened Bytes
  import opened Schema
  import opened WireFormat
  import opened Memory
  import opened Conversion
  import ConversionLaws
  import P = Preamble

  // ----- one item

  /** Enums are 32-bit unsigned numbers. */
  predicate IsNumber(b: Base, p: Prim) {
    b == Number(p) || (b.Enum? && p.U32?)
  }

  predicate IsString(b: Base) {
    b.Text? || b.ShortText?
  }

  function CharsOf(v: Value): seq<byte> {
    match v
    case Chars(chars) => chars
    case Raw(bytes) => bytes
    case _ => []
  }

  /** A 16-byte copy of characters up to the first NUL, and zeros from there on. */
  ghost predicate CopiedUpToNul(src: seq<byte>, cells: seq<Cell>) {
    && |cells| == SHORT_BYTES
    && forall i :: 0 <= i < SHORT_BYTES ==>
         if exists j :: 0 <= j <= i && j < |src| && src[j] == 0 then cells[i] == Byte(0)
         else i < |src| && cells[i] == Byte(src[i])
  }

  /**
    What an item of the value leaves in the memory of a destination item: `after` is what follows it
    in the message, on which a copy into a short string may run; `before` is what the memory held.
  */
  ghost predicate Arrived(cast: Cast, b: Base, v: Value, after: seq<byte>, db: Base, before: seq<Cell>, cells: seq<Cell>)
    requires FitsItem(b, v) && |before| == BaseSize(db)
  {
    && (forall p, q :: IsNumber(b, p) && IsNumber(db, q) ==> cells == Cells(cast(p, q, v.bytes)))
    && (IsString(b) && db.Text? ==> cells == Occupying(StdString(CharsOf(v)), STRING_BYTES))
    && (IsString(b) && db.ShortText? ==> CopiedUpToNul(CharsOf(v) + if b.Text? then after else [], cells))
    && (b.Struct? && db.Struct? ==> ConvStruct(cast, b.st, v, after, db.st, before) == Some(cells))
    && ((IsString(b) && IsString(db)) || (b.Struct? && db.Struct?) || exists p, q :: IsNumber(b, p) && IsNumber(db, q))
  }

  lemma CopyIs(src: seq<byte>)
    requires StrNCpy(src).Some?
    ensures CopiedUpToNul(src, Cells(StrNCpy(src).value))
  {
    var (k, copy) := (Length(src), StrNCpy(src).value);
    forall i | 0 <= i < SHORT_BYTES
      ensures if exists j :: 0 <= j <= i && j < |src| && src[j] == 0 then copy[i] == 0 else i < |src| && copy[i] == src[i]
    {
      if k <= i {
        assert src[k] == 0;
      } else {
        assert copy[i] == src[i];
      }
    }
  }

  lemma NumberArrives(cast: Cast, b: Base, v: Value, db: Base)
    requires FitsItem(b, v) && AsPrim(b).Some? && AsPrim(db).Some?
    ensures exists p, q :: IsNumber(b, p) && IsNumber(db, q)
    ensures forall p, q :: IsNumber(b, p) && IsNumber(db, q) ==>
              ConvNumber(cast, AsPrim(b).value, v.bytes, db) == Some(Cells(cast(p, q, v.bytes)))
  {
    assert IsNumber(b, AsPrim(b).value) && IsNumber(db, AsPrim(db).value);
  }

  lemma ItemArrives(cast: Cast, b: Base, v: Value, after: seq<byte>, db: Base, m: seq<Cell>)
    requires FitsItem(b, v) && |m| == BaseSize(db) && ConvItem(cast, b, v, after, db, m).Some?
    ensures Arrived(cast, b, v, after, db, m, ConvItem(cast, b, v, after, db, m).value)
  {
    hide ConvStruct, CopiedUpToNul, FitsStruct, StrNCpy, IsNumber;
    if AsPrim(b).Some? {
      NumberArrives(cast, b, v, db);
    } else if IsString(b) && db.ShortText? {
      CopyIs(CharsOf(v) + if b.Text? then after else []);
    }
    assert forall p: Prim :: IsNumber(b, p) ==> AsPrim(b).Some? by {
      NumbersOnly(b);
    }
  }

  lemma NumbersOnly(b: Base)
    ensures forall p: Prim :: IsNumber(b, p) ==> AsPrim(b).Some?
  {
  }

  // ----- arrays

  /** Memory as slots of equal size. */
  function Slots(m: seq<Cell>, n: nat, size: nat): (r: seq<seq<Cell>>)
    requires |m| == Times(n, size)
    ensures |r| == n && Join(r) == m && forall k :: 0 <= k < n ==> |r[k]| == size
  {
    if n == 0 then [] else [m[..size]] + Slots(m[size..], n - 1, size)
  }

  /** Slot k begins k sizes into the memory. */
  lemma SlotAt(m: seq<Cell>, n: nat, size: nat, k: nat)
    requires |m| == Times(n, size) && k < n
    ensures k * size + size <= |m| && Slots(m, n, size)[k] == m[k * size..k * size + size]
  {
    hide Slots, Times;
    SlotBehind(m, n, size, k);
    TimesIsProduct(k, size);
  }

  lemma {:induction false} SlotBehind(m: seq<Cell>, n: nat, size: nat, k: nat)
    requires |m| == Times(n, size) && k < n
    ensures
      var at := Times(k, size);
      at + size <= |m| && Slots(m, n, size)[k] == m[at..at + size]
  {
    if k > 0 {
      var at := Times(k - 1, size);
      SlotBehind(m[size..], n - 1, size, k - 1);
      SliceBehind(m, size, at, size);
    }
  }

  lemma SliceBehind(m: seq<Cell>, h: nat, at: nat, n: nat)
    requires h + at + n <= |m|
    ensures m[h..][at..at + n] == m[h + at..h + at + n]
  {
  }

  /**
    Items have arrived in the first slots, and what is in the slots behind them is as it was. Short
    strings are given no slots at all.
  */
  ghost predicate SlotsArrived(cast: Cast, b: Base, vs: seq<Value>, after: seq<byte>, db: Base,
                               was: seq<seq<Cell>>, now: seq<seq<Cell>>)
    requires FitsItems(b, vs) && forall k :: 0 <= k < |was| ==> |was[k]| == BaseSize(db)
  {
    && |now| == |was|
    && forall k :: 0 <= k < |was| ==>
         if k < |vs| && !b.ShortText? then
           FitsItem(b, vs[k]) && Arrived(cast, b, vs[k], WireAll(vs[k + 1..]) + after, db, was[k], now[k])
         else now[k] == was[k]
  }

  lemma {:induction false} SlotsArrive(cast: Cast, b: Base, vs: seq<Value>, after: seq<byte>, db: Base, slots: nat, m: seq<Cell>)
    requires FitsItems(b, vs) && |m| == Times(slots, BaseSize(db))
    requires ConvSlots(cast, b, vs, after, db, slots, m).Some?
    ensures
      var out := ConvSlots(cast, b, vs, after, db, slots, m).value;
      SlotsArrived(cast, b, vs, after, db, Slots(m, slots, BaseSize(db)), Slots(out, slots, BaseSize(db)))
    decreases vs
  {
    hide ConvItem, FitsItem, Arrived, WireAll, SlotsArrived;
    var (size, out) := (BaseSize(db), ConvSlots(cast, b, vs, after, db, slots, m).value);
    if vs != [] && slots > 0 && !b.ShortText? {
      var here := WireAll(vs[1..]) + after;
      var cells := ConvItem(cast, b, vs[0], here, db, m[..size]).value;
      var rest := ConvSlots(cast, b, vs[1..], after, db, slots - 1, m[size..]).value;
      ItemArrives(cast, b, vs[0], here, db, m[..size]);
      SlotsArrive(cast, b, vs[1..], after, db, slots - 1, m[size..]);
      assert out == cells + rest && out[..size] == cells && out[size..] == rest;
      OneMoreSlot(cast, b, vs, after, db, m[..size], cells, Slots(m[size..], slots - 1, size), Slots(rest, slots - 1, size));
    } else {
      NoMoreSlots(cast, b, vs, after, db, Slots(m, slots, size));
    }
  }

  lemma OneMoreSlot(cast: Cast, b: Base, vs: seq<Value>, after: seq<byte>, db: Base, before: seq<Cell>, cells: seq<Cell>,
                    was: seq<seq<Cell>>, now: seq<seq<Cell>>)
    requires FitsItems(b, vs) && vs != [] && !b.ShortText? && |before| == BaseSize(db)
    requires forall k :: 0 <= k < |was| ==> |was[k]| == BaseSize(db)
    requires Arrived(cast, b, vs[0], WireAll(vs[1..]) + after, db, before, cells)
    requires SlotsArrived(cast, b, vs[1..], after, db, was, now)
    ensures SlotsArrived(cast, b, vs, after, db, [before] + was, [cells] + now)
  {
    hide FitsItem, Arrived, WireAll;
    forall k | 0 <= k < |was|
      ensures if k + 1 < |vs| then
                && FitsItem(b, vs[k + 1])
                && Arrived(cast, b, vs[k + 1], WireAll(vs[k + 1 + 1..]) + after, db, was[k], now[k])
              else now[k] == was[k]
    {
      if k + 1 < |vs| {
        assert vs[1..][k] == vs[k + 1] && vs[1..][k + 1..] == vs[k + 1 + 1..];
      }
    }
    forall k | 0 <= k < |was| + 1
      ensures if k < |vs| then
                && FitsItem(b, vs[k])
                && Arrived(cast, b, vs[k], WireAll(vs[k + 1..]) + after, db, ([before] + was)[k], ([cells] + now)[k])
              else ([cells] + now)[k] == ([before] + was)[k]
    {
      if k > 0 {
        assert ([before] + was)[k] == was[k - 1] && ([cells] + now)[k] == now[k - 1] && k - 1 + 1 == k;
      }
    }
  }

  lemma NoMoreSlots(cast: Cast, b: Base, vs: seq<Value>, after: seq<byte>, db: Base, was: seq<seq<Cell>>)
    requires FitsItems(b, vs) && (vs == [] || was == [] || b.ShortText?)
    requires forall k :: 0 <= k < |was| ==> |was[k]| == BaseSize(db)
    ensures SlotsArrived(cast, b, vs, after, db, was, was)
  {
  }

  /** An item pushed onto a vector: a short string is a proper copy there, cut to 15 characters. */
  ghost predicate Pushed(cast: Cast, b: Base, v: Value, db: Base, cells: seq<Cell>)
    requires FitsItem(b, v)
  {
    && (forall p, q :: IsNumber(b, p) && IsNumber(db, q) ==> cells == Cells(cast(p, q, v.bytes)))
    && (IsString(b) && db.Text? ==> cells == Occupying(StdString(CharsOf(v)), STRING_BYTES))
    && (IsString(b) && db.ShortText? ==>
          var k := if Length(CharsOf(v)) < 15 then Length(CharsOf(v)) else 15;
          |cells| == SHORT_BYTES && cells[..k] == Cells(CharsOf(v)[..k]) && cells[k] == Byte(0))
    && ((IsString(b) && IsString(db)) || exists p, q :: IsNumber(b, p) && IsNumber(db, q))
  }

  lemma PushArrives(cast: Cast, b: Base, v: Value, db: Base)
    requires FitsItem(b, v) && !b.Struct? && ConvPushed(cast, b, v, db).Some?
    ensures Pushed(cast, b, v, db, ConvPushed(cast, b, v, db).value)
  {
    hide IsNumber, Length;
    NumbersOnly(b);
    if AsPrim(b).Some? {
      NumberArrives(cast, b, v, db);
    } else if db.ShortText? {
      ShortIs(CharsOf(v));
    }
  }

  lemma ShortIs(chars: seq<byte>)
    ensures
      var (k, cells) := (if Length(chars) < 15 then Length(chars) else 15, ShortObject(chars));
      cells[..k] == Cells(chars[..k]) && cells[k] == Byte(0)
  {
    hide Length;
    var k := if Length(chars) < 15 then Length(chars) else 15;
    assert Cells(chars[..k] + [0])[..k] == Cells(chars[..k]);
    assert ShortObject(chars)[..k] == Cells(chars[..k] + [0])[..k];
  }

  ghost predicate AllPushed(cast: Cast, b: Base, vs: seq<Value>, db: Base, parts: seq<seq<Cell>>)
    requires FitsItems(b, vs)
  {
    |parts| == |vs| && forall k :: 0 <= k < |vs| ==> FitsItem(b, vs[k]) && Pushed(cast, b, vs[k], db, parts[k])
  }

  lemma {:induction false} PushesArrive(cast: Cast, b: Base, vs: seq<Value>, db: Base, vector: seq<Cell>)
    returns (parts: seq<seq<Cell>>)
    requires FitsItems(b, vs) && !b.Struct? && ConvPushes(cast, b, vs, db, vector).Some?
    ensures AllPushed(cast, b, vs, db, parts)
    ensures ConvPushes(cast, b, vs, db, vector).value == vector + Join(parts)
    decreases vs
  {
    hide ConvPushed, FitsItem, Pushed;
    if vs == [] {
      parts := [];
      assert vector + [] == vector;
    } else {
      var cells := ConvPushed(cast, b, vs[0], db).value;
      PushArrives(cast, b, vs[0], db);
      var rest := PushesArrive(cast, b, vs[1..], db, vector + cells);
      parts := [cells] + rest;
      assert vector + cells + Join(rest) == vector + (cells + Join(rest));
    }
  }

  // ----- a field

  /** What a field's value leaves in the memory of a destination field that held `before`. */
  ghost predicate FieldArrived(cast: Cast, f: Field, v: Value, after: seq<byte>, df: Field, before: seq<Cell>, cells: seq<Cell>)
    requires FitsField(f, v) && |before| == FieldSize(df)
  {
    var size := BaseSize(df.base);
    && |cells| == |before| && f.suffix.Single? == df.suffix.Single?
    && match df.suffix
       case Single => Arrived(cast, f.base, v, after, df.base, before, cells)
       case Fixed(n) =>
         SlotsArrived(cast, f.base, v.items, after, df.base, Slots(before, n, size), Slots(cells, n, size))
       case Compact(n) =>
         && cells[..4] == Cells(Le32(|v.items|))
         && SlotsArrived(cast, f.base, v.items, after, df.base, Slots(before[4..], n, size), Slots(cells[4..], n, size))
       case Dynamic =>
         exists vector: seq<Cell> ::
           && cells == Occupying(StdVector(vector), VECTOR_BYTES)
           && VectorArrived(cast, f.base, v.items, after, df.base, VectorAt(before), vector)
  }

  /** A vector of structs is new; other items are appended to those that are there. */
  ghost predicate VectorArrived(cast: Cast, b: Base, vs: seq<Value>, after: seq<byte>, db: Base, before: seq<Cell>, vector: seq<Cell>)
    requires FitsItems(b, vs)
  {
    if b.Struct? then
      var (n, size) := (|vs|, BaseSize(db));
      && |vector| == Times(n, size)
      && SlotsArrived(cast, b, vs, after, db, Slots(Zeros(Times(n, size)), n, size), Slots(vector, n, size))
    else exists parts :: AllPushed(cast, b, vs, db, parts) && vector == before + Join(parts)
  }

  lemma FieldArrives(cast: Cast, f: Field, v: Value, after: seq<byte>, df: Field, m: seq<Cell>)
    requires FitsField(f, v) && |m| == FieldSize(df) && ConvField(cast, f, v, after, df, m).Some?
    ensures FieldArrived(cast, f, v, after, df, m, ConvField(cast, f, v, after, df, m).value)
  {
    hide ConvItem, ConvSlots, ConvPushes, Arrived, SlotsArrived, VectorArrived, FitsItems, FitsItem, Slots;
    if f.suffix.Single? {
      ItemArrives(cast, f.base, v, after, df.base, m);
    } else {
      match df.suffix
      case Fixed(n) => SlotsArrive(cast, f.base, v.items, after, df.base, n, m);
      case Compact(n) =>
        SlotsArrive(cast, f.base, v.items, after, df.base, n, m[4..]);
        var cells := ConvField(cast, f, v, after, df, m).value;
        assert cells[4..] == ConvSlots(cast, f.base, v.items, after, df.base, n, m[4..]).value;
      case Dynamic => VectorArrives(cast, f.base, v.items, after, df.base, m);
    }
  }

  lemma VectorArrives(cast: Cast, b: Base, vs: seq<Value>, after: seq<byte>, db: Base, m: seq<Cell>)
    requires FitsItems(b, vs) && |m| == VECTOR_BYTES && ConvVector(cast, b, vs, after, db, m).Some?
    ensures exists vector: seq<Cell> ::
              && ConvVector(cast, b, vs, after, db, m).value == Occupying(StdVector(vector), VECTOR_BYTES)
              && VectorArrived(cast, b, vs, after, db, VectorAt(m), vector)
  {
    hide ConvSlots, ConvPushes, SlotsArrived, AllPushed, Slots, FitsItems;
    var vector: seq<Cell>;
    if b.Struct? {
      var room := Zeros(Times(|vs|, BaseSize(db)));
      SlotsArrive(cast, b, vs, after, db, |vs|, room);
      vector := ConvSlots(cast, b, vs, after, db, |vs|, room).value;
    } else {
      var parts := PushesArrive(cast, b, vs, db, VectorAt(m));
      vector := ConvPushes(cast, b, vs, db, VectorAt(m)).value;
      assert AllPushed(cast, b, vs, db, parts) && vector == VectorAt(m) + Join(parts);
    }
    assert VectorArrived(cast, b, vs, after, db, VectorAt(m), vector);
  }

  // ----- the struct

  /**
    After a successful conversion each destination field that has a namesake holds, in its own range
    of the memory, what has arrived of that; all others are as they were, and in front stands the
    message's preamble, if both structs have one.
  */
  lemma ArrivesByName(cast: Cast, st: Struct, v: Value, after: seq<byte>, dst: Struct, m: seq<Cell>, j: nat)
    requires FitsStruct(st, v) && |m| == PackedSize(dst) && NamesDistinct(st) && j < |dst.fields|
    requires ConvStruct(cast, st, v, after, dst, m).Some?
    ensures
      var (out, at, n) := (ConvStruct(cast, st, v, after, dst, m).value, Offset(dst, j), FieldSize(dst.fields[j]));
      && at + n <= |out| == |m|
      && ((forall i :: 0 <= i < |st.fields| ==> st.fields[i].name != dst.fields[j].name) ==>
            out[at..at + n] == m[at..at + n])
      && (forall i :: 0 <= i < |st.fields| && st.fields[i].name == dst.fields[j].name ==>
            && FitsField(st.fields[i], v.members[i])
            && FieldArrived(cast, st.fields[i], v.members[i], WireAll(v.members[i + 1..]) + after, dst.fields[j],
                            m[at..at + n], out[at..at + n]))
  {
    hide ConvStruct, ConvField, FieldArrived, FieldSize, FitsField, WireAll, FieldsSize, NamesDistinctIn;
    ConversionLaws.FieldsByName(cast, st, v, after, dst, m, j);
    var (out, df, at) := (ConvStruct(cast, st, v, after, dst, m).value, dst.fields[j], Offset(dst, j));
    var n := FieldSize(df);
    forall i | 0 <= i < |st.fields| && st.fields[i].name == df.name
      ensures FitsField(st.fields[i], v.members[i])
      ensures FieldArrived(cast, st.fields[i], v.members[i], WireAll(v.members[i + 1..]) + after, df,
                           m[at..at + n], out[at..at + n])
    {
      FindDistinct(st.fields, i);
      FieldArrives(cast, st.fields[i], v.members[i], WireAll(v.members[i + 1..]) + after, df, m[at..at + n]);
    }
  }

  lemma PreambleArrives(cast: Cast, st: Struct, v: Value, after: seq<byte>, dst: Struct, m: seq<Cell>)
    requires FitsStruct(st, v) && |m| == PackedSize(dst) && !dst.naked
    requires ConvStruct(cast, st, v, after, dst, m).Some?
    ensures
      var out := ConvStruct(cast, st, v, after, dst, m).value;
      out[..P.PREAMBLE_BYTES] == if st.naked then m[..P.PREAMBLE_BYTES] else Cells(PreBytes(v.pre.value))
  {
    hide ConvFields, PreBytes;
  }

  // ----- numbers, in full

  /** In slot k, the cast of its item's bytes; without an item, what was there. */
  ghost predicate CastIn(cast: Cast, p: Prim, q: Prim, vs: seq<Value>, k: nat, was: seq<Cell>, now: seq<Cell>) {
    if k < |vs| then vs[k].Raw? && now == Cells(cast(p, q, vs[k].bytes)) else now == was
  }

  ghost predicate CastsIn(cast: Cast, p: Prim, q: Prim, vs: seq<Value>, slots: nat, was: seq<Cell>, now: seq<Cell>) {
    && |was| == |now| == slots * Width(q)
    && forall k: nat :: k < slots ==>
         var (at, end) := (k * Width(q), k * Width(q) + Width(q));
         end <= |was| && CastIn(cast, p, q, vs, k, was[at..end], now[at..end])
  }

  lemma CastsArrive(cast: Cast, b: Base, vs: seq<Value>, after: seq<byte>, db: Base, slots: nat, was: seq<Cell>, now: seq<Cell>,
                    p: Prim, q: Prim)
    requires FitsItems(b, vs) && |was| == |now| == Times(slots, BaseSize(db)) && IsNumber(b, p) && IsNumber(db, q)
    requires SlotsArrived(cast, b, vs, after, db, Slots(was, slots, BaseSize(db)), Slots(now, slots, BaseSize(db)))
    ensures CastsIn(cast, p, q, vs, slots, was, now)
  {
    hide Slots, SlotsArrived, CastIn, FitsItems, Times, Join;
    NumberSize(db, q);
    TimesIsProduct(slots, Width(q));
    forall k: nat | k < slots
      ensures
        var (at, end) := (k * Width(q), k * Width(q) + Width(q));
        end <= |was| && CastIn(cast, p, q, vs, k, was[at..end], now[at..end])
    {
      SlotAt(was, slots, Width(q), k);
      SlotAt(now, slots, Width(q), k);
      CastArrives(cast, b, vs, after, db, Slots(was, slots, BaseSize(db)), Slots(now, slots, BaseSize(db)), p, q, k);
    }
  }

  lemma CastIs(cast: Cast, b: Base, v: Value, after: seq<byte>, db: Base, before: seq<Cell>, cells: seq<Cell>, p: Prim, q: Prim)
    requires FitsItem(b, v) && |before| == BaseSize(db) && Arrived(cast, b, v, after, db, before, cells)
    requires IsNumber(b, p) && IsNumber(db, q)
    ensures v.Raw? && cells == Cells(cast(p, q, v.bytes))
  {
    hide ConvStruct, CopiedUpToNul, FitsStruct;
  }

  lemma SlotArrived(cast: Cast, b: Base, vs: seq<Value>, after: seq<byte>, db: Base, was: seq<seq<Cell>>, now: seq<seq<Cell>>,
                    k: nat)
    requires FitsItems(b, vs) && !b.ShortText? && k < |was| && forall k :: 0 <= k < |was| ==> |was[k]| == BaseSize(db)
    requires SlotsArrived(cast, b, vs, after, db, was, now)
    ensures |now| == |was|
    ensures k < |vs| ==>
              FitsItem(b, vs[k]) && Arrived(cast, b, vs[k], WireAll(vs[k + 1..]) + after, db, was[k], now[k])
    ensures k >= |vs| ==> now[k] == was[k]
  {
    hide Arrived, FitsItem, WireAll, FitsItems, BaseSize;
  }

  lemma CastArrives(cast: Cast, b: Base, vs: seq<Value>, after: seq<byte>, db: Base, was: seq<seq<Cell>>, now: seq<seq<Cell>>,
                    p: Prim, q: Prim, k: nat)
    requires FitsItems(b, vs) && IsNumber(b, p) && IsNumber(db, q)
    requires k < |was| && forall k :: 0 <= k < |was| ==> |was[k]| == BaseSize(db)
    requires SlotsArrived(cast, b, vs, after, db, was, now)
    ensures |now| == |was| && CastIn(cast, p, q, vs, k, was[k], now[k])
  {
    hide SlotsArrived, Arrived, FitsItem, WireAll, FitsItems, IsNumber, BaseSize, Cells;
    NumberSize(b, p);
    SlotArrived(cast, b, vs, after, db, was, now, k);
    if k < |vs| {
      CastIs(cast, b, vs[k], WireAll(vs[k + 1..]) + after, db, was[k], now[k], p, q);
    }
  }

  lemma NumberSize(b: Base, p: Prim)
    requires IsNumber(b, p)
    ensures BaseSize(b) == Width(p) && !b.ShortText?
  {
  }

  /** Every part is the cast of an item's bytes. */
  ghost predicate AllCast(cast: Cast, p: Prim, q: Prim, vs: seq<Value>, parts: seq<seq<Cell>>) {
    |parts| == |vs| && forall k :: 0 <= k < |vs| ==> vs[k].Raw? && parts[k] == Cells(cast(p, q, vs[k].bytes))
  }

  /** What a field of numbers or enums leaves in a field of numbers or enums. */
  ghost predicate NumbersIn(cast: Cast, p: Prim, q: Prim, v: Value, suffix: Suffix, before: seq<Cell>, cells: seq<Cell>) {
    && |cells| == |before| && (!suffix.Single? ==> v.Block? || v.Counted?)
    && match suffix
       case Single => v.Raw? && cells == Cells(cast(p, q, v.bytes))
       case Fixed(slots) => CastsIn(cast, p, q, v.items, slots, before, cells)
       case Compact(slots) =>
         && |cells| >= 4 && cells[..4] == Cells(Le32(|v.items|))
         && CastsIn(cast, p, q, v.items, slots, before[4..], cells[4..])
       case Dynamic =>
         exists parts :: AllCast(cast, p, q, v.items, parts)
           && cells == Occupying(StdVector(VectorAt(before) + Join(parts)), VECTOR_BYTES)
  }

  /**
    Numbers and enums that are converted into other numbers: the destination holds the cast of each
    one's bytes, in its own field, in the first slots of an array, or behind what a vector held.
  */
  lemma NumbersArrive(cast: Cast, st: Struct, v: Value, after: seq<byte>, dst: Struct, m: seq<Cell>, j: nat, i: nat,
                      p: Prim, q: Prim)
    requires FitsStruct(st, v) && |m| == PackedSize(dst) && NamesDistinct(st)
    requires ConvStruct(cast, st, v, after, dst, m).Some?
    requires j < |dst.fields| && i < |st.fields| && st.fields[i].name == dst.fields[j].name
    requires IsNumber(st.fields[i].base, p) && IsNumber(dst.fields[j].base, q)
    ensures
      var (out, at, n) := (ConvStruct(cast, st, v, after, dst, m).value, Offset(dst, j), FieldSize(dst.fields[j]));
      && at + n <= |out| == |m| && i < |v.members|
      && NumbersIn(cast, p, q, v.members[i], dst.fields[j].suffix, m[at..at + n], out[at..at + n])
  {
    hide ConvStruct, FieldsSize, FieldSize, WireAll, NamesDistinctIn, DistinctNames, NumbersIn, FieldArrived, FitsField;
    ArrivesByName(cast, st, v, after, dst, m, j);
    var (out, df, at, n) := (ConvStruct(cast, st, v, after, dst, m).value, dst.fields[j], Offset(dst, j), FieldSize(dst.fields[j]));
    FitsFieldsAt(st.fields, v.members, i);
    NumberField(cast, st.fields[i], v.members[i], WireAll(v.members[i + 1..]) + after, df, m[at..at + n], out[at..at + n], p, q);
  }

  lemma NumberField(cast: Cast, f: Field, v: Value, after: seq<byte>, df: Field, before: seq<Cell>, cells: seq<Cell>,
                    p: Prim, q: Prim)
    requires FitsField(f, v) && |before| == FieldSize(df) && FieldArrived(cast, f, v, after, df, before, cells)
    requires IsNumber(f.base, p) && IsNumber(df.base, q)
    ensures NumbersIn(cast, p, q, v, df.suffix, before, cells)
  {
    hide CastsIn, SlotsArrived, VectorArrived, FitsItems, Slots, Join, VectorAt, AllCast, Arrived, FitsItem, IsNumber;
    match df.suffix
    case Single => SingleCast(cast, f.base, v, after, df.base, before, cells, p, q);
    case Fixed(n) => CastsArrive(cast, f.base, v.items, after, df.base, n, before, cells, p, q);
    case Compact(_) => NumberCompact(cast, f, v, after, df, before, cells, p, q);
    case Dynamic => NumberVector(cast, f, v, after, df, before, cells, p, q);
  }

  lemma NumberCompact(cast: Cast, f: Field, v: Value, after: seq<byte>, df: Field, before: seq<Cell>, cells: seq<Cell>,
                      p: Prim, q: Prim)
    requires FitsField(f, v) && |before| == FieldSize(df) && FieldArrived(cast, f, v, after, df, before, cells)
    requires df.suffix.Compact? && IsNumber(f.base, p) && IsNumber(df.base, q)
    ensures NumbersIn(cast, p, q, v, df.suffix, before, cells)
  {
    hide CastsIn, SlotsArrived, FitsItems, FitsItem, Slots, IsNumber, Le32;
    CastsArrive(cast, f.base, v.items, after, df.base, df.suffix.n, before[4..], cells[4..], p, q);
  }

  lemma NumberVector(cast: Cast, f: Field, v: Value, after: seq<byte>, df: Field, before: seq<Cell>, cells: seq<Cell>,
                     p: Prim, q: Prim)
    requires FitsField(f, v) && |before| == FieldSize(df) && FieldArrived(cast, f, v, after, df, before, cells)
    requires df.suffix.Dynamic? && IsNumber(f.base, p) && IsNumber(df.base, q)
    ensures NumbersIn(cast, p, q, v, df.suffix, before, cells)
  {
    hide VectorArrived, FitsItems, Join, VectorAt, AllCast, FitsItem, IsNumber, Occupying;
    var vector :| cells == Occupying(StdVector(vector), VECTOR_BYTES)
                  && VectorArrived(cast, f.base, v.items, after, df.base, VectorAt(before), vector);
    var parts := VectorCasts(cast, f.base, v.items, after, df.base, VectorAt(before), vector, p, q);
    assert AllCast(cast, p, q, v.items, parts) && vector == VectorAt(before) + Join(parts);
  }

  lemma SingleCast(cast: Cast, b: Base, v: Value, after: seq<byte>, db: Base, before: seq<Cell>, cells: seq<Cell>, p: Prim, q: Prim)
    requires FitsItem(b, v) && |before| == BaseSize(db) && Arrived(cast, b, v, after, db, before, cells)
    requires IsNumber(b, p) && IsNumber(db, q)
    ensures v.Raw? && cells == Cells(cast(p, q, v.bytes))
  {
    hide CopiedUpToNul;
  }

  lemma VectorCasts(cast: Cast, b: Base, vs: seq<Value>, after: seq<byte>, db: Base, before: seq<Cell>, vector: seq<Cell>,
                    p: Prim, q: Prim) returns (parts: seq<seq<Cell>>)
    requires FitsItems(b, vs) && VectorArrived(cast, b, vs, after, db, before, vector) && IsNumber(b, p) && IsNumber(db, q)
    ensures AllCast(cast, p, q, vs, parts) && vector == before + Join(parts)
  {
    hide FitsItems, AllPushed, Join, AllCast;
    parts :| AllPushed(cast, b, vs, db, parts) && vector == before + Join(parts);
    PushedCasts(cast, b, vs, db, parts, p, q);
  }

  lemma PushedCasts(cast: Cast, b: Base, vs: seq<Value>, db: Base, parts: seq<seq<Cell>>, p: Prim, q: Prim)
    requires FitsItems(b, vs) && AllPushed(cast, b, vs, db, parts) && IsNumber(b, p) && IsNumber(db, q)
    ensures AllCast(cast, p, q, vs, parts)
  {
  }
}
