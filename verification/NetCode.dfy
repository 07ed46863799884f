/**
  The generated encode_net_size, encode_net and decode_net of a struct, as methods over its
  schema: same branches, with the memcpy fast paths for flat types.
*/
module NetCode {
  import opened Bytes
  import opened Schema
  import opened WireFormat
  import opened Memory
  import P = Preamble

  method EncodeNetSize(st: Struct, v: Value) returns (size: nat)
    requires FitsStruct(st, v)
    ensures size == |Wire(v)|
    decreases v, 1
  {
    size := if st.naked then 0 else P.PREAMBLE_BYTES;
    var i := 0;
    while i < |st.fields|
      invariant i <= |st.fields|
      invariant FitsFields(st.fields[i..], v.members[i..])
      invariant size + |WireAll(v.members[i..])| == |Wire(v)|
    {
      assert st.fields[i..][1..] == st.fields[i + 1..] && v.members[i..][1..] == v.members[i + 1..];
      var n := FieldNetSize(st.fields[i], v.members[i]);
      size := size + n;
      i := i + 1;
    }
  }

  method FieldNetSize(f: Field, v: Value) returns (size: nat)
    requires FitsField(f, v)
    ensures size == |Wire(v)|
    decreases v, 3
  {
    size := 0;
    if !f.suffix.Single? {
      if f.suffix.Dynamic? || f.suffix.Compact? {
        size := 4;
      }
      match f.base {
        case Number(_) | ShortText | Enum =>
          FlatRunSize(f.base, v.items);
          TimesIsProduct(|v.items|, BaseSize(f.base));
          size := size + |v.items| * BaseSize(f.base);
        case Struct(inner) =>
          if Flat(f.base) {
            FlatRunSize(f.base, v.items);
            if v.items != [] {
              assert FitsItem(f.base, v.items[0]);
              var first := EncodeNetSize(inner, v.items[0]);
              FlatSize(f.base, v.items[0]);
              TimesIsProduct(|v.items|, first);
              size := size + |v.items| * first;
            }
          } else {
            var n := ItemsNetSize(f.base, v.items);
            size := size + n;
          }
        case Text =>
          var n := ItemsNetSize(f.base, v.items);
          size := size + n;
      }
    } else {
      match f.base {
        case Struct(inner) => size := EncodeNetSize(inner, v);
        case Text => size := |v.chars| + 4;
        case Number(_) | ShortText | Enum => size := BaseSize(f.base);
      }
    }
  }

  /** The loop over elements whose sizes may differ. */
  method ItemsNetSize(b: Base, items: seq<Value>) returns (size: nat)
    requires FitsItems(b, items) && (b.Struct? || b.Text?)
    ensures size == |WireAll(items)|
    decreases items, 0
  {
    size := 0;
    var i := 0;
    while i < |items|
      invariant i <= |items|
      invariant FitsItems(b, items[i..])
      invariant size + |WireAll(items[i..])| == |WireAll(items)|
    {
      assert items[i..][1..] == items[i + 1..];
      if b.Text? {
        size := size + |items[i].chars| + 4;
      } else {
        var n := EncodeNetSize(b.st, items[i]);
        size := size + n;
      }
      i := i + 1;
    }
  }

  /**
    Writes the wire encoding, preamble sizes set, or refuses when the buffer is too small. The
    naked variant does no check, so its caller must provide the room.
  */
  method EncodeNet(st: Struct, v: Value, data: array<byte>, at: nat, bufSize: nat) returns (ok: bool)
    requires FitsStruct(st, v) && InitStruct(st, v) && SizesAllowed(v)
    requires |Wire(v)| <= bufSize ==> at + |Wire(v)| <= data.Length
    requires st.naked ==> |Wire(v)| <= bufSize
    modifies data
    ensures ok == (|Wire(v)| <= bufSize)
    ensures ok ==> Patched(old(data[..]), data[..], at, Wire(Stamp(v)))
    ensures !ok ==> data[..] == old(data[..])
    decreases v, 1
  {
    ghost var before := data[..];
    ghost var done: seq<byte> := [];
    var cur := at;
    if !st.naked {
      var size := EncodeNetSize(st, v);
      var pre := v.pre.value;
      P.SetSizeIsRegister(pre.size, size);
      var word := P.WithSize(pre.size, size);
      if bufSize < P.Size(word) {
        return false;
      }
      PutPreamble(data, at, pre.(magic := P.MAGIC, size := word));
      cur := cur + P.PREAMBLE_BYTES;
      done := PreBytes(pre.(magic := P.MAGIC, size := word));
    } else {
      PatchNothing(before, at);
    }
    StampAllLength(v.members);
    ghost var mid := data[..];
    var _ := EncodeFields(st.fields, v.members, data, cur, bufSize);
    PatchTwice(before, mid, data[..], at, done, WireAll(StampAll(v.members)));
    return true;
  }

  /** One loop iteration's worth of output moves from what is left to what is done. */
  lemma NextStamped(vs: seq<Value>, i: nat, done: seq<byte>, total: seq<byte>)
    requires i < |vs| && done + WireAll(StampAll(vs[i..])) == total
    ensures done + Wire(Stamp(vs[i])) + WireAll(StampAll(vs[i + 1..])) == total
    ensures |Wire(Stamp(vs[i]))| == |Wire(vs[i])| && |done| + |Wire(vs[i])| <= |total|
  {
    var rest := vs[i..];
    assert rest[1..] == vs[i + 1..];
    assert StampAll(rest)[0] == Stamp(rest[0]) && StampAll(rest)[1..] == StampAll(rest[1..]);
    StampLength(rest[0]);
  }

  /** The straight-line code of all fields, in declaration order. */
  method EncodeFields(fs: seq<Field>, vs: seq<Value>, data: array<byte>, at: nat, bufSize: nat)
    returns (cur: nat)
    requires FitsFields(fs, vs) && InitFields(fs, vs) && SizesAllowedAll(vs)
    requires |WireAll(vs)| <= bufSize && at + |WireAll(vs)| <= data.Length
    modifies data
    ensures cur == at + |WireAll(vs)|
    ensures Patched(old(data[..]), data[..], at, WireAll(StampAll(vs)))
    decreases vs, 0
  {
    ghost var before := data[..];
    ghost var done: seq<byte> := [];
    ghost var total := WireAll(StampAll(vs));
    cur := at;
    PatchNothing(before, at);
    StampAllLength(vs);
    var i := 0;
    while i < |fs|
      invariant i <= |fs|
      invariant FitsFields(fs[i..], vs[i..]) && InitFields(fs[i..], vs[i..]) && SizesAllowedAll(vs[i..])
      invariant done + WireAll(StampAll(vs[i..])) == total
      invariant cur == at + |done|
      invariant Patched(before, data[..], at, done)
    {
      assert fs[i..][1..] == fs[i + 1..] && vs[i..][1..] == vs[i + 1..];
      NextStamped(vs, i, done, total);
      ghost var mid := data[..];
      cur := EncodeField(fs[i], vs[i], data, cur, bufSize);
      PatchTwice(before, mid, data[..], at, done, Wire(Stamp(vs[i])));
      done := done + Wire(Stamp(vs[i]));
      i := i + 1;
    }
    assert vs[i..] == [];
    assert done == total;
  }

  method PutPreamble(data: array<byte>, at: nat, p: PreambleValue)
    requires at + P.PREAMBLE_BYTES <= data.Length
    modifies data
    ensures Patched(old(data[..]), data[..], at, PreBytes(p))
  {
    ghost var d0 := data[..];
    Put(data, at, Le32(p.magic));
    ghost var d1 := data[..];
    Put(data, at + 4, Le32(p.size));
    ghost var d2 := data[..];
    PatchTwice(d0, d1, d2, at, Le32(p.magic), Le32(p.size));
    Put(data, at + 8, p.hash);
    ghost var d3 := data[..];
    PatchTwice(d0, d2, d3, at, Le32(p.magic) + Le32(p.size), p.hash);
    Put(data, at + 16, p.time);
    PatchTwice(d0, d3, data[..], at, Le32(p.magic) + Le32(p.size) + p.hash, p.time);
  }

  method EncodeField(f: Field, v: Value, data: array<byte>, at: nat, bufSize: nat) returns (cur: nat)
    requires FitsField(f, v) && InitField(f, v) && SizesAllowed(v)
    requires |Wire(v)| <= bufSize && at + |Wire(v)| <= data.Length
    modifies data
    ensures cur == at + |Wire(v)|
    ensures Patched(old(data[..]), data[..], at, Wire(Stamp(v)))
    decreases v, 3
  {
    cur := at;
    StampLength(v);
    if f.suffix.Single? {
      cur := EncodeItem(f.base, v, data, at, bufSize);
    } else {
      ghost var before := data[..];
      ghost var count: seq<byte> := [];
      if f.suffix.Dynamic? || f.suffix.Compact? {
        Put(data, cur, Le32(|v.items|));
        count := Le32(|v.items|);
        cur := cur + 4;
      } else {
        PatchNothing(before, at);
      }
      StampAllLength(v.items);
      assert |count + WireAll(v.items)| == |Wire(v)|;
      ghost var mid := data[..];
      if Flat(f.base) {
        // one memcpy of the array's memory
        FlatRunSettled(f.base, v.items);
        Put(data, cur, RunBytes(f.base, v.items));
        FlatRunSize(f.base, v.items);
        cur := cur + Times(|v.items|, BaseSize(f.base));
      } else {
        cur := EncodeItems(f.base, v.items, data, cur, bufSize);
      }
      PatchTwice(before, mid, data[..], at, count, WireAll(StampAll(v.items)));
    }
  }

  method EncodeItem(b: Base, v: Value, data: array<byte>, at: nat, bufSize: nat) returns (cur: nat)
    requires FitsItem(b, v) && InitItem(b, v) && SizesAllowed(v)
    requires |Wire(v)| <= bufSize && at + |Wire(v)| <= data.Length
    modifies data
    ensures cur == at + |Wire(v)|
    ensures Patched(old(data[..]), data[..], at, Wire(Stamp(v)))
    decreases v, 2
  {
    match b {
      case Number(_) | ShortText | Enum =>
        Put(data, at, v.bytes);
        cur := at + BaseSize(b);
      case Text =>
        ghost var before := data[..];
        Put(data, at, Le32(|v.chars|));
        ghost var mid := data[..];
        Put(data, at + 4, v.chars);
        PatchTwice(before, mid, data[..], at, Le32(|v.chars|), v.chars);
        cur := at + 4 + |v.chars|;
      case Struct(inner) =>
        var _ := EncodeNet(inner, v, data, at, bufSize);
        var size := EncodeNetSize(inner, v);
        cur := at + size;
    }
  }

  /** The loop over elements whose sizes may differ. */
  method EncodeItems(b: Base, items: seq<Value>, data: array<byte>, at: nat, bufSize: nat)
    returns (cur: nat)
    requires FitsItems(b, items) && InitItems(b, items) && SizesAllowedAll(items)
    requires |WireAll(items)| <= bufSize && at + |WireAll(items)| <= data.Length
    modifies data
    ensures cur == at + |WireAll(items)|
    ensures Patched(old(data[..]), data[..], at, WireAll(StampAll(items)))
    decreases items, 0
  {
    ghost var before := data[..];
    ghost var done: seq<byte> := [];
    ghost var total := WireAll(StampAll(items));
    cur := at;
    PatchNothing(before, at);
    StampAllLength(items);
    var i := 0;
    while i < |items|
      invariant i <= |items|
      invariant FitsItems(b, items[i..]) && InitItems(b, items[i..]) && SizesAllowedAll(items[i..])
      invariant done + WireAll(StampAll(items[i..])) == total
      invariant cur == at + |done|
      invariant Patched(before, data[..], at, done)
    {
      assert items[i..][1..] == items[i + 1..];
      NextStamped(items, i, done, total);
      ghost var mid := data[..];
      cur := EncodeItem(b, items[i], data, cur, bufSize);
      PatchTwice(before, mid, data[..], at, done, Wire(Stamp(items[i])));
      done := done + Wire(Stamp(items[i]));
      i := i + 1;
    }
    assert items[i..] == [];
    assert done == total;
  }

  // ----- decoding

  /**
    Done with a cursor, refused by a check, or Wild: the code would read past its buffer, move
    its cursor past it, or write past an array, which C++ leaves undefined.
  */
  datatype Outcome<T> = Done(value: T, next: nat) | Rejected | Wild

  /** At the position stands the encoding of v, its sizes consistent and within the buffer. */
  ghost predicate Holds(data: seq<byte>, at: nat, bufSize: nat, v: Value) {
    Settled(v) && SizesAllowed(v) && StartsWith(data, at, Wire(v)) && |Wire(v)| <= bufSize
  }

  ghost predicate HoldsAll(data: seq<byte>, at: nat, bufSize: nat, vs: seq<Value>) {
    StampAll(vs) == vs && SizesAllowedAll(vs) && StartsWith(data, at, WireAll(vs)) && |WireAll(vs)| <= bufSize
  }

  /** The bytes read are the encoding of the value, if its preamble sizes are consistent. */
  ghost predicate Encodes(data: seq<byte>, at: nat, next: nat, v: Value) {
    && at <= next <= |data|
    && (Settled(v) && SizesAllowed(v) ==> data[at..next] == Wire(v))
  }

  ghost predicate EncodesAll(data: seq<byte>, at: nat, next: nat, vs: seq<Value>) {
    && at <= next <= |data|
    && (StampAll(vs) == vs && SizesAllowedAll(vs) ==> data[at..next] == WireAll(vs))
  }

  lemma HoldsHead(data: seq<byte>, at: nat, bufSize: nat, vs: seq<Value>)
    requires vs != [] && HoldsAll(data, at, bufSize, vs)
    ensures Holds(data, at, bufSize, vs[0])
    ensures HoldsAll(data, at + |Wire(vs[0])|, bufSize, vs[1..])
    ensures |WireAll(vs)| == |Wire(vs[0])| + |WireAll(vs[1..])|
  {
    StartsWithParts(data, at, Wire(vs[0]), WireAll(vs[1..]));
    assert StampAll(vs)[0] == Stamp(vs[0]);
    assert StampAll(vs)[1..] == StampAll(vs[1..]);
  }

  lemma EncodesBoth(data: seq<byte>, at: nat, mid: nat, next: nat, xs: seq<Value>, ys: seq<Value>)
    requires EncodesAll(data, at, mid, xs) && EncodesAll(data, mid, next, ys)
    ensures EncodesAll(data, at, next, xs + ys)
  {
    StampAllAppend(xs, ys);
    WireAllAppend(xs, ys);
    assert data[at..next] == data[at..mid] + data[mid..next];
    if StampAll(xs + ys) == xs + ys {
      assert StampAll(xs) == (xs + ys)[..|xs|] == xs;
      assert StampAll(ys) == (xs + ys)[|xs|..] == ys;
    }
  }

  lemma EncodesOne(data: seq<byte>, at: nat, next: nat, v: Value)
    requires Encodes(data, at, next, v)
    ensures EncodesAll(data, at, next, [v])
  {
    assert [v][1..] == [];
    assert StampAll([v]) == [Stamp(v)];
    assert WireAll([v]) == Wire(v) + [];
  }

  lemma EncodesNext(b: Base, data: seq<byte>, at: nat, mid: nat, next: nat, xs: seq<Value>, v: Value)
    requires FitsItems(b, xs) && EncodesAll(data, at, mid, xs)
    requires FitsItem(b, v) && Encodes(data, mid, next, v)
    ensures FitsItems(b, xs + [v]) && EncodesAll(data, at, next, xs + [v])
  {
    EncodesOne(data, mid, next, v);
    EncodesBoth(data, at, mid, next, xs, [v]);
    FitsItemsAppend(b, xs, [v]);
  }

  /** A preamble that decode_net accepts. */
  predicate Header(st: Struct, data: seq<byte>, at: nat, bufSize: nat) {
    && at + P.PREAMBLE_BYTES <= |data|
    && Word32(data, at) == P.MAGIC && P.Size(Word32(data, at + 4)) <= bufSize && data[at + 8..at + 16] == st.hash
  }

  /** Members whose encoding stands behind a preamble. */
  ghost predicate HoldsMembers(st: Struct, data: seq<byte>, at: nat, bufSize: nat, ms: seq<Value>) {
    FitsFields(st.fields, ms) && InitFields(st.fields, ms) && HoldsAll(data, at + P.PREAMBLE_BYTES, bufSize, ms)
  }

  /**
    The ghost value is arbitrary: whatever initialised value's encoding stands at the position,
    that value is decoded. Conversely an accepted value, if its sizes are consistent, was
    encoded there. The object's own size only has to fit the buffer.
  */
  method DecodeNet(st: Struct, data: seq<byte>, at: nat, bufSize: nat, ghost v: Value)
    returns (r: Outcome<Value>)
    requires WellFormed(st) && at <= |data|
    ensures FitsStruct(st, v) && InitStruct(st, v) && Holds(data, at, bufSize, v)
            ==> r == Done(v, at + |Wire(v)|)
    ensures !st.naked && v.Object? && Header(st, data, at, bufSize) && HoldsMembers(st, data, at, bufSize, v.members)
            ==> && r.Done? && r.value.Object? && r.value.members == v.members
                && r.next == at + P.PREAMBLE_BYTES + |WireAll(v.members)|
    ensures r.Done? ==> FitsStruct(st, r.value) && Encodes(data, at, r.next, r.value)
    ensures !st.naked && at + P.PREAMBLE_BYTES <= |data| && !Header(st, data, at, bufSize) ==> r == Rejected
    ensures r.Done? && !st.naked ==>
              && Header(st, data, at, bufSize)
              && PreBytes(r.value.pre.value) == data[at..at + P.PREAMBLE_BYTES]
              && EncodesAll(data, at + P.PREAMBLE_BYTES, r.next, r.value.members)
    decreases st, 0
  {
    hide P.Size, PreBytes, Word32, WellFormedFields, FitsFields, InitFields, WireAll, StampAll, SizesAllowedAll;
    ghost var known := FitsStruct(st, v) && InitStruct(st, v) && Holds(data, at, bufSize, v);
    ghost var ms := if v.Object? then v.members else [];
    if st.naked {
      var fields := DecodeFields(st.fields, data, at, bufSize, ms);
      match fields {
        case Done(members, next) => return Done(Object(None, members), next);
        case Rejected => return Rejected;
        case Wild => return Wild;
      }
    }
    if at + P.PREAMBLE_BYTES > |data| {
      return Wild;
    }
    if known {
      SettledSize(v);
      StartsWithParts(data, at, PreBytes(v.pre.value), WireAll(ms));
    }
    var pre := ReadPreamble(data, at, if known then v.pre.value else Pre(0, 0, st.hash, st.hash));
    if pre.magic != P.MAGIC || P.Size(pre.size) > bufSize || pre.hash != st.hash {
      return Rejected;
    }
    var fields := DecodeFields(st.fields, data, at + P.PREAMBLE_BYTES, bufSize, ms);
    match fields {
      case Done(members, next) =>
        r := Done(Object(Some(pre), members), next);
        SettledObject(data, at, next, pre, members);
      case Rejected => return Rejected;
      case Wild => return Wild;
    }
  }

  method ReadPreamble(data: seq<byte>, at: nat, ghost p: PreambleValue) returns (pre: PreambleValue)
    requires at + P.PREAMBLE_BYTES <= |data|
    ensures PreBytes(pre) == data[at..at + P.PREAMBLE_BYTES]
    ensures pre.magic == Word32(data, at) && pre.size == Word32(data, at + 4) && pre.hash == data[at + 8..at + 16]
    ensures StartsWith(data, at, PreBytes(p)) ==> pre == p
  {
    var magic, size := Word32(data, at), Word32(data, at + 4);
    pre := Pre(magic, size, data[at + 8..at + 16], data[at + 16..at + 24]);
    ghost var head := data[at..at + P.PREAMBLE_BYTES];
    assert head[8..16] == pre.hash && head[16..24] == pre.time;
    assert Word32(head, 0) == magic && Word32(head, 4) == size;
    LoadPreambleExact(head, p);
  }

  lemma SettledObject(data: seq<byte>, at: nat, next: nat, pre: PreambleValue, ms: seq<Value>)
    requires at + P.PREAMBLE_BYTES <= |data| && data[at..at + P.PREAMBLE_BYTES] == PreBytes(pre)
    requires EncodesAll(data, at + P.PREAMBLE_BYTES, next, ms)
    ensures Encodes(data, at, next, Object(Some(pre), ms))
  {
    assert data[at..next] == data[at..at + P.PREAMBLE_BYTES] + data[at + P.PREAMBLE_BYTES..next];
  }

  /** A settled object's size word reads back as its wire size. */
  lemma SettledSize(v: Value)
    requires v.Object? && v.pre.Some? && Settled(v) && SizesAllowed(v)
    ensures P.Size(v.pre.value.size) == |Wire(v)| && v.pre.value.magic == P.MAGIC
    ensures StampAll(v.members) == v.members
  {
    P.SetSizeIsRegister(v.pre.value.size, ObjectSize(v.members));
  }

  method DecodeFields(fs: seq<Field>, data: seq<byte>, at: nat, bufSize: nat, ghost vs: seq<Value>)
    returns (r: Outcome<seq<Value>>)
    requires WellFormedFields(fs) && at <= |data|
    ensures FitsFields(fs, vs) && InitFields(fs, vs) && HoldsAll(data, at, bufSize, vs)
            ==> r == Done(vs, at + |WireAll(vs)|)
    ensures r.Done? ==> FitsFields(fs, r.value) && EncodesAll(data, at, r.next, r.value)
    decreases fs, 0
  {
    if fs == [] {
      return Done([], at);
    }
    ghost var known := FitsFields(fs, vs) && InitFields(fs, vs) && HoldsAll(data, at, bufSize, vs);
    if known {
      HoldsHead(data, at, bufSize, vs);
    }
    var first := DecodeField(fs[0], data, at, bufSize, if known then vs[0] else Raw([]));
    match first {
      case Done(value, next) =>
        var rest := DecodeFields(fs[1..], data, next, bufSize, if known then vs[1..] else []);
        match rest {
          case Done(values, end) =>
            EncodesOne(data, at, next, value);
            EncodesBoth(data, at, next, end, [value], values);
            return Done([value] + values, end);
          case Rejected => return Rejected;
          case Wild => return Wild;
        }
      case Rejected => return Rejected;
      case Wild => return Wild;
    }
  }

  method DecodeField(f: Field, data: seq<byte>, at: nat, bufSize: nat, ghost v: Value)
    returns (r: Outcome<Value>)
    requires WellFormedField(f) && at <= |data|
    ensures FitsField(f, v) && InitField(f, v) && Holds(data, at, bufSize, v)
            ==> r == Done(v, at + |Wire(v)|)
    ensures r.Done? ==> FitsField(f, r.value) && Encodes(data, at, r.next, r.value)
    decreases f, 1
  {
    if f.suffix.Single? {
      r := DecodeItem(f.base, data, at, bufSize, v);
      return;
    }
    ghost var known := FitsField(f, v) && InitField(f, v) && Holds(data, at, bufSize, v);
    ghost var vs := if known then v.items else [];
    if known {
      HoldsArray(f, data, at, bufSize, v);
    }
    var count := DecodeCount(f, data, at, vs);
    match count {
      case Done(n, cur) =>
        var items: Outcome<seq<Value>>;
        if Flat(f.base) && !(f.suffix.Dynamic? && (f.base.Struct? || f.base.Enum?)) {
          items := DecodeBlock(f.base, n, data, cur, bufSize, vs);
        } else {
          items := DecodeItems(f.base, n, data, cur, bufSize, vs);
        }
        match items {
          case Done(values, next) =>
            EncodesArray(f, data, at, next, values);
            return Done(ArrayValue(f, values), next);
          case Rejected => return Rejected;
          case Wild => return Wild;
        }
      case Rejected => return Rejected;
      case Wild => return Wild;
    }
  }

  function ArrayValue(f: Field, vs: seq<Value>): Value {
    if f.suffix.Fixed? then Block(vs) else Counted(vs)
  }

  function CountBytes(f: Field, n: nat): seq<byte> {
    if f.suffix.Fixed? then [] else Le32(n)
  }

  lemma HoldsArray(f: Field, data: seq<byte>, at: nat, bufSize: nat, v: Value)
    requires !f.suffix.Single? && FitsField(f, v) && Holds(data, at, bufSize, v)
    ensures StartsWith(data, at, CountBytes(f, |v.items|)) && v == ArrayValue(f, v.items)
    ensures HoldsAll(data, at + |CountBytes(f, |v.items|)|, bufSize, v.items)
    ensures |Wire(v)| == |CountBytes(f, |v.items|)| + |WireAll(v.items)|
  {
    StartsWithParts(data, at, CountBytes(f, |v.items|), WireAll(v.items));
  }

  lemma EncodesArray(f: Field, data: seq<byte>, at: nat, next: nat, vs: seq<Value>)
    requires !f.suffix.Single? && FitsItems(f.base, vs)
    requires if f.suffix.Fixed? then |vs| == f.suffix.n else |vs| < LIMIT32
    requires f.suffix.Compact? ==> |vs| <= f.suffix.n
    requires StartsWith(data, at, CountBytes(f, |vs|))
    requires EncodesAll(data, at + |CountBytes(f, |vs|)|, next, vs)
    ensures FitsField(f, ArrayValue(f, vs)) && Encodes(data, at, next, ArrayValue(f, vs))
  {
    var cur := at + |CountBytes(f, |vs|)|;
    assert data[at..next] == data[at..cur] + data[cur..next];
  }

  /** The array's length: fixed by the schema, or read and, for plain types, checked. */
  method DecodeCount(f: Field, data: seq<byte>, at: nat, ghost vs: seq<Value>) returns (r: Outcome<nat>)
    requires !f.suffix.Single? && WellFormedField(f) && at <= |data|
    ensures f.suffix.Fixed? ==> r == Done(f.suffix.n, at)
    ensures !f.suffix.Fixed? && |vs| < LIMIT32 && (f.suffix.Compact? ==> |vs| <= f.suffix.n) ==>
              StartsWith(data, at, Le32(|vs|)) ==> r == Done(|vs|, at + 4)
    ensures r.Done? ==> r.next == at + |CountBytes(f, r.value)| && StartsWith(data, at, CountBytes(f, r.value))
    ensures r.Done? && !f.suffix.Fixed? ==> r.value < LIMIT32
    ensures r.Done? && f.suffix.Compact? ==> r.value <= f.suffix.n
  {
    if f.suffix.Fixed? {
      return Done(f.suffix.n, at);
    }
    if at + 4 > |data| {
      return Wild;
    }
    var count := Word32(data, at);
    Le32Inverse(data, at, |vs|);
    if f.suffix.Compact? && count > f.suffix.n {
      return if f.base.Struct? then Wild else Rejected;
    }
    return Done(count, at + 4);
  }

  /** One memcpy into the array's memory. */
  method DecodeBlock(b: Base, count: nat, data: seq<byte>, at: nat, bufSize: nat, ghost vs: seq<Value>)
    returns (r: Outcome<seq<Value>>)
    requires Flat(b) && at <= |data|
    ensures |vs| == count && FitsItems(b, vs) && HoldsAll(data, at, bufSize, vs)
            ==> r == Done(vs, at + |WireAll(vs)|)
    ensures r.Done? ==> |r.value| == count && FitsItems(b, r.value) && EncodesAll(data, at, r.next, r.value)
  {
    var size := Times(count, BaseSize(b));
    ghost var known := |vs| == count && FitsItems(b, vs);
    if known {
      FlatRunSize(b, vs);
    }
    if at + size > |data| {
      return Wild;
    }
    var bytes := data[at..at + size];
    LoadItemsExact(b, count, bytes, vs);
    return Done(LoadItems(b, count, bytes), at + size);
  }

  /** The items decoded so far, then those whose encodings still stand at the cursor, make up vs. */
  ghost predicate Coming(b: Base, data: seq<byte>, cur: nat, bufSize: nat, end: nat,
                         items: seq<Value>, rest: seq<Value>, vs: seq<Value>)
  {
    && vs == items + rest
    && FitsItems(b, rest) && InitItems(b, rest) && HoldsAll(data, cur, bufSize, rest)
    && cur + |WireAll(rest)| == end
  }

  lemma ComingStep(b: Base, data: seq<byte>, cur: nat, bufSize: nat, end: nat,
                   items: seq<Value>, rest: seq<Value>, vs: seq<Value>)
    requires Coming(b, data, cur, bufSize, end, items, rest, vs) && rest != []
    ensures FitsItem(b, rest[0]) && InitItem(b, rest[0]) && Holds(data, cur, bufSize, rest[0])
    ensures Coming(b, data, cur + |Wire(rest[0])|, bufSize, end, items + [rest[0]], rest[1..], vs)
  {
    HoldsHead(data, cur, bufSize, rest);
    assert items + rest == items + [rest[0]] + rest[1..];
  }

  /** The loop over elements, each checked and advanced over in turn. */
  method DecodeItems(b: Base, count: nat, data: seq<byte>, at: nat, bufSize: nat, ghost vs: seq<Value>)
    returns (r: Outcome<seq<Value>>)
    requires (b.Struct? ==> WellFormed(b.st)) && at <= |data|
    ensures |vs| == count && FitsItems(b, vs) && InitItems(b, vs) && HoldsAll(data, at, bufSize, vs)
            ==> r == Done(vs, at + |WireAll(vs)|)
    ensures r.Done? ==> |r.value| == count && FitsItems(b, r.value) && EncodesAll(data, at, r.next, r.value)
    decreases b, 1
  {
    ghost var end := at + |WireAll(vs)|;
    ghost var known := |vs| == count && Coming(b, data, at, bufSize, end, [], vs, vs);
    ghost var rest := vs;
    var items: seq<Value> := [];
    var cur: nat := at;
    var i := 0;
    while i < count
      invariant i <= count && |items| == i
      invariant known ==> Coming(b, data, cur, bufSize, end, items, rest, vs)
      invariant FitsItems(b, items) && EncodesAll(data, at, cur, items)
    {
      hide Coming, EncodesAll, Encodes, FitsItems, InitItems, WireAll, Holds, HoldsAll, FitsItem, InitItem, Wire;
      ghost var v := Raw([]);
      if known {
        ComingStep(b, data, cur, bufSize, end, items, rest, vs);
        v, rest := rest[0], rest[1..];
      }
      var item := DecodeItem(b, data, cur, bufSize, v);
      assert known ==> item == Done(v, cur + |Wire(v)|);
      match item {
        case Done(value, next) =>
          EncodesNext(b, data, at, cur, next, items, value);
          items, cur := items + [value], next;
        case Rejected => return Rejected;
        case Wild => return Wild;
      }
      i := i + 1;
    }
    assert known ==> rest == [] && vs == items;
    return Done(items, cur);
  }

  method DecodeItem(b: Base, data: seq<byte>, at: nat, bufSize: nat, ghost v: Value)
    returns (r: Outcome<Value>)
    requires (b.Struct? ==> WellFormed(b.st)) && at <= |data|
    ensures FitsItem(b, v) && InitItem(b, v) && Holds(data, at, bufSize, v)
            ==> r == Done(v, at + |Wire(v)|)
    ensures r.Done? ==> FitsItem(b, r.value) && Encodes(data, at, r.next, r.value)
    decreases b, 0
  {
    match b {
      case Number(_) | ShortText | Enum =>
        if at + BaseSize(b) > |data| {
          return Wild;
        }
        return Done(Raw(data[at..at + BaseSize(b)]), at + BaseSize(b));
      case Text =>
        r := DecodeText(data, at, if FitsItem(b, v) && Holds(data, at, bufSize, v) then v else Chars([]));
      case Struct(inner) =>
        r := DecodeNet(inner, data, at, bufSize, v);
        if r.Done? {
          var size: nat;
          if inner.naked {
            size := EncodeNetSize(inner, r.value);
          } else {
            size := P.Size(r.value.pre.value.size);
            ghost var consistent := Settled(r.value) && SizesAllowed(r.value);
            if consistent {
              SettledSize(r.value);
            }
          }
          if at + size > |data| {
            return Wild;
          }
          r := Done(r.value, at + size);
        }
    }
  }

  method DecodeText(data: seq<byte>, at: nat, ghost v: Value) returns (r: Outcome<Value>)
    requires at <= |data|
    ensures v.Chars? && |v.chars| < LIMIT32 && StartsWith(data, at, Wire(v)) ==> r == Done(v, at + |Wire(v)|)
    ensures r.Done? ==> FitsItem(Text, r.value) && Encodes(data, at, r.next, r.value)
  {
    if at + 4 > |data| {
      return Wild;
    }
    var length := Word32(data, at);
    ghost var known := v.Chars? && |v.chars| < LIMIT32 && StartsWith(data, at, Wire(v));
    Le32Inverse(data, at, if known then |v.chars| else length);
    if known {
      StartsWithParts(data, at, Le32(|v.chars|), v.chars);
    }
    if at + 4 + length > |data| {
      return Wild;
    }
    var chars := data[at + 4..at + 4 + length];
    assert data[at..at + 4 + length] == data[at..at + 4] + chars;
    return Done(Chars(chars), at + 4 + length);
  }

  /** Encoding into a buffer of its net size and decoding it back. */
  method RoundTrip(st: Struct, v: Value) returns (r: Outcome<Value>)
    requires WellFormed(st) && FitsStruct(st, v) && InitStruct(st, v) && SizesAllowed(v)
    ensures r == Done(Stamp(v), |Wire(v)|)
  {
    var size := EncodeNetSize(st, v);
    var data := new byte[size];
    var ok := EncodeNet(st, v, data, 0, size);
    StampLength(v);
    StampSettles(v);
    StampFitsStruct(st, v);
    assert data[..] == Wire(Stamp(v));
    r := DecodeNet(st, data[..], 0, size, Stamp(v));
  }

  /**
    The plain memory copy that encode() makes of a flat struct is what encode_net() writes, and
    its size is the packed size, whatever the value.
  */
  lemma PlainCopyIsEncodeNet(st: Struct, v: Value, m: seq<Cell>)
    requires FitsStruct(st, v) && InitStruct(st, v) && Flat(Base.Struct(st)) && |m| == PackedSize(st)
    ensures LayoutStruct(st, v, m) == Cells(Wire(Stamp(v)))
    ensures |Wire(v)| == PackedSize(st)
  {
    FlatStructIsWire(st, v, m);
  }
}
