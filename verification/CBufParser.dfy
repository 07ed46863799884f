/**
  The schema-driven reader: skipping over a message and converting it in place into another
  schema's packed memory, as a cursor over the message bytes.
*/
module CBufParser {
  import opened Bytes
  import opened Schema
  import opened WireFormat
  import opened Memory
  import opened Conversion
  import P = Preamble

  class Reader {
    const bytes: seq<byte>
    const cast: Cast
    var pos: nat          // buffer, as an offset
    var left: int         // buf_size
    var success: bool
    var wild: bool        // has read past the message, which C++ leaves undefined

    ghost predicate Valid()
      reads this
    {
      pos <= |bytes|
    }

    /** Nothing has gone wrong yet, and the rest of the message is as given. */
    ghost predicate At(rest: seq<byte>)
      reads this
    {
      !wild && success && pos <= |bytes| && bytes[pos..] == rest
    }

    constructor (message: seq<byte>, casts: Cast)
      ensures Valid() && bytes == message && cast == casts && At(message)
      ensures pos == 0 && left == |message|
    {
      bytes, cast := message, casts;
      pos, left, success, wild := 0, |message|, true, false;
    }

    method Advance(n: nat, ghost head: seq<byte>, ghost after: seq<byte>)
      requires Valid()
      modifies this`pos, this`left, this`wild
      ensures Valid() && pos + left == old(pos + left) && (old(wild) ==> wild)
      ensures old(At(head + after)) && |head| == n ==> At(after) && pos == old(pos) + n
    {
      if pos + n > |bytes| {
        wild := true;
      } else {
        assert bytes[pos + n..] == bytes[pos..][n..];
        pos, left := pos + n, left - n;
      }
    }

    method ReadWord(ghost n: nat, ghost after: seq<byte>) returns (word: nat)
      requires Valid()
      modifies this`pos, this`left, this`wild
      ensures Valid() && pos + left == old(pos + left) && (old(wild) ==> wild) && word < LIMIT32
      ensures old(At(Le32(n) + after)) && n < LIMIT32 ==> word == n && At(after) && pos == old(pos) + 4
    {
      word := 0;
      if pos + 4 <= |bytes| {
        word := Word32(bytes, pos);
        Le32Inverse(bytes, pos, n);
        assert bytes[pos..pos + 4] == bytes[pos..][..4];
      }
      Advance(4, Le32(n), after);
    }

    /** The count of a field's elements; a compact array refuses more than its slots. */
    method ProcessArraySize(f: Field, ghost v: Value, ghost after: seq<byte>) returns (ok: bool, count: nat)
      requires Valid()
      modifies this`pos, this`left, this`wild
      ensures Valid() && pos + left == old(pos + left) && (old(wild) ==> wild)
      ensures ok == !(f.suffix.Compact? && count > f.suffix.n)
      ensures FitsField(f, v) && old(At(Wire(v) + after)) ==>
                ok && count == |Items(f, v)| && At(WireAll(Items(f, v)) + after)
                && pos + |WireAll(Items(f, v))| == old(pos) + |Wire(v)|
    {
      count := 1;
      ghost var items := if FitsField(f, v) then Items(f, v) else [];
      if FitsField(f, v) {
        WireOfItems(f, v, after);
      }
      match f.suffix {
        case Single =>
        case Dynamic | Compact(_) => count := ReadWord(|items|, WireAll(items) + after);
        case Fixed(n) => count := n;
      }
      ok := !(f.suffix.Compact? && count > f.suffix.n);
    }

    // ----- skipping

    /** skip_element, skip_string and skip_short_string. */
    method SkipRun(b: Base, count: nat, ghost vs: seq<Value>, ghost after: seq<byte>)
      requires Valid() && !b.Struct?
      modifies this`pos, this`left, this`wild
      ensures Valid() && pos + left == old(pos + left) && (old(wild) ==> wild)
      ensures FitsItems(b, vs) && |vs| == count && old(At(WireAll(vs) + after)) ==>
                At(after) && pos == old(pos) + |WireAll(vs)|
    {
      ghost var known := FitsItems(b, vs) && |vs| == count && At(WireAll(vs) + after);
      if !b.Text? {
        if known {
          FlatRunSize(b, vs);
        }
        Advance(Times(count, BaseSize(b)), WireAll(vs), after);
        return;
      }
      ghost var rest := vs;
      ghost var end := pos + |WireAll(vs)|;
      var i := 0;
      while i < count
        invariant i <= count && Valid() && pos + left == old(pos + left) && (old(wild) ==> wild)
        invariant known ==> |rest| == count - i && FitsItems(b, rest)
        invariant known ==> At(WireAll(rest) + after) && pos + |WireAll(rest)| == end
      {
        ghost var chars: seq<byte>, tail: seq<byte> := [], after;
        if known {
          chars, tail := rest[0].chars, WireAll(rest[1..]) + after;
          assert WireAll(rest) + after == Le32(|chars|) + (chars + tail);
          rest := rest[1..];
        }
        var length := ReadWord(|chars|, chars + tail);
        Advance(length, chars, tail);
        i := i + 1;
      }
      assert known ==> rest == [] && WireAll(rest) + after == after;
    }

    method SkipElement(f: Field, ghost v: Value, ghost after: seq<byte>) returns (ok: bool)
      requires Valid()
      modifies this
      ensures Valid() && pos + left == old(pos + left) && (old(wild) ==> wild)
      ensures FitsField(f, v) && old(At(Wire(v) + after)) ==> ok && At(after) && pos == old(pos) + |Wire(v)|
      decreases f
    {
      var count: nat;
      ok, count := ProcessArraySize(f, v, after);
      if !ok {
        return;
      }
      ghost var known := FitsField(f, v) && old(At(Wire(v) + after));
      ghost var items := if known then Items(f, v) else [];
      if known {
        ItemsFit(f, v);
      }
      ok := SkipItems(f.base, count, items, after);
    }

    method SkipItems(b: Base, count: nat, ghost vs: seq<Value>, ghost after: seq<byte>) returns (ok: bool)
      requires Valid()
      modifies this
      ensures Valid() && pos + left == old(pos + left) && (old(wild) ==> wild)
      ensures FitsItems(b, vs) && |vs| == count && old(At(WireAll(vs) + after)) ==>
                ok && !wild && At(after) && pos == old(pos) + |WireAll(vs)|
      decreases b
    {
      hide FitsItems, WireAll;
      if b.Struct? {
        ok := SkipStructs(b.st, count, vs, after);
      } else {
        SkipRun(b, count, vs, after);
        success := true;
        ok := true;
      }
    }

    method SkipStructs(st: Struct, count: nat, ghost vs: seq<Value>, ghost after: seq<byte>) returns (ok: bool)
      requires Valid()
      modifies this
      ensures Valid() && pos + left == old(pos + left) && (old(wild) ==> wild)
      ensures FitsItems(Base.Struct(st), vs) && |vs| == count && old(At(WireAll(vs) + after)) ==>
                ok && At(after) && pos == old(pos) + |WireAll(vs)|
      decreases st, 1
    {
      ghost var b := Base.Struct(st);
      ghost var known := FitsItems(b, vs) && |vs| == count && At(WireAll(vs) + after);
      ghost var rest := vs;
      ghost var end := pos + |WireAll(vs)|;
      var i := 0;
      while i < count
        invariant i <= count && Valid() && pos + left == old(pos + left) && (old(wild) ==> wild)
        invariant known ==> |rest| == count - i && FitsItems(b, rest)
        invariant known ==> At(WireAll(rest) + after) && pos + |WireAll(rest)| == end
      {
        ghost var v, tail := Raw([]), after;
        if known {
          v, tail := rest[0], WireAll(rest[1..]) + after;
          assert FitsItem(b, v) && WireAll(rest) + after == Wire(v) + tail;
          rest := rest[1..];
        }
        success := SkipStruct(st, v, tail);
        if !success {
          return false;
        }
        i := i + 1;
      }
      assert known ==> rest == [] && WireAll(rest) + after == after;
      return success;
    }

    method SkipStruct(st: Struct, ghost v: Value, ghost after: seq<byte>) returns (ok: bool)
      requires Valid()
      modifies this
      ensures Valid() && pos + left == old(pos + left) && (old(wild) ==> wild)
      ensures FitsStruct(st, v) && old(At(Wire(v) + after)) ==> ok && At(after) && pos == old(pos) + |Wire(v)|
      decreases st, 0
    {
      ghost var known := FitsStruct(st, v) && At(Wire(v) + after);
      ghost var rest := if known then v.members else [];
      ghost var end := pos + |Wire(v)|;
      if !st.naked {
        ghost var head := if known then PreBytes(v.pre.value) else [];
        assert known ==> Wire(v) + after == head + (WireAll(rest) + after);
        Advance(P.PREAMBLE_BYTES, head, WireAll(rest) + after);
      }
      var i := 0;
      while i < |st.fields|
        invariant i <= |st.fields| && Valid() && pos + left == old(pos + left) && (old(wild) ==> wild)
        invariant known ==> FitsFields(st.fields[i..], rest)
        invariant known ==> At(WireAll(rest) + after) && pos + |WireAll(rest)| == end
      {
        if !success {
          return false;
        }
        ghost var w, tail := Raw([]), after;
        if known {
          assert st.fields[i..][1..] == st.fields[i + 1..];
          w, tail := rest[0], WireAll(rest[1..]) + after;
          assert WireAll(rest) + after == Wire(w) + tail;
          rest := rest[1..];
        }
        success := SkipElement(st.fields[i], w, tail);
        i := i + 1;
      }
      assert known ==> rest == [] && WireAll(rest) + after == after;
      return success;
    }

    // ----- conversion
    //
    // Each method overwrites one stretch of memory. The ghost parameter m is what the stretch held,
    // the ghost result cells what it holds after; the rest of the memory never changes, whatever
    // the message.

    /**
      A conversion step came out as specified: it succeeded exactly if the specification has a
      result, and then the memory is that result and the cursor is behind what was read.
    */
    ghost predicate Agrees(ok: bool, r: Option<seq<Cell>>, cells: seq<Cell>, after: seq<byte>, end: nat)
      reads this
    {
      && (ok && !wild <==> r.Some?)
      && (r.Some? ==> At(after) && pos == end && cells == r.value)
    }

    method Take(n: nat, ghost head: seq<byte>, ghost after: seq<byte>) returns (taken: seq<byte>)
      requires Valid()
      modifies this`pos, this`left, this`wild
      ensures Valid() && pos + left == old(pos + left) && (old(wild) ==> wild) && |taken| == n
      ensures old(At(head + after)) && |head| == n ==> taken == head && At(after) && pos == old(pos) + n
    {
      if pos + n <= |bytes| {
        taken := bytes[pos..pos + n];
        assert taken == bytes[pos..][..n];
      } else {
        taken := seq(n, _ => 0);
      }
      Advance(n, head, after);
    }

    /** The switch on the destination type, for a number already read. */
    method StoreNumber(p: Prim, value: seq<byte>, db: Base, mem: array<Cell>, at: nat, ghost m: seq<Cell>)
      returns (ok: bool, ghost cells: seq<Cell>)
      requires |m| == BaseSize(db) && Holds(mem, at, m)
      modifies mem
      ensures |cells| == |m| && Patched(old(mem[..]), mem[..], at, cells)
      ensures ok == ConvNumber(cast, p, value, db).Some? && (ok ==> cells == ConvNumber(cast, p, value, db).value)
    {
      match AsPrim(db) {
        case Some(q) =>
          cells := Cells(cast(p, q, value));
          Put(mem, at, Cells(cast(p, q, value)));
          return true, cells;
        case None => return false, m;
      }
    }

    method ConvertText(db: Base, mem: array<Cell>, at: nat, ghost chars: seq<byte>, ghost after: seq<byte>,
                       ghost m: seq<Cell>)
      returns (ok: bool, ghost cells: seq<Cell>)
      requires Valid() && |m| == BaseSize(db) && Holds(mem, at, m)
      modifies this, mem
      ensures Valid() && pos + left == old(pos + left) && (old(wild) ==> wild)
      ensures |cells| == |m| && Patched(old(mem[..]), mem[..], at, cells)
      ensures |chars| < LIMIT32 && old(At(Le32(|chars|) + chars + after)) ==>
                Agrees(ok, ConvChars(chars, after, db), cells, after, old(pos) + 4 + |chars|)
    {
      ghost var known := |chars| < LIMIT32 && At(Le32(|chars|) + chars + after);
      assert Le32(|chars|) + chars + after == Le32(|chars|) + (chars + after);
      var length := ReadWord(|chars|, chars + after);
      var start := pos;
      assert known ==> bytes[start..] == chars + after;
      var text := Take(length, chars, after);
      match db {
        case Text =>
          Put(mem, at, Occupying(StdString(text), STRING_BYTES));
          return true, Occupying(StdString(text), STRING_BYTES);
        case ShortText =>
          match StrNCpy(bytes[start..]) {
            case Some(copy) =>
              Put(mem, at, Cells(copy));
              return true, Cells(copy);
            case None =>
              wild := true;
              return true, m;
          }
        case _ => return false, m;
      }
    }

    method ConvertShortText(db: Base, mem: array<Cell>, at: nat, ghost chars: seq<byte>, ghost after: seq<byte>,
                            ghost m: seq<Cell>)
      returns (ok: bool, ghost cells: seq<Cell>)
      requires Valid() && |m| == BaseSize(db) && Holds(mem, at, m)
      modifies this, mem
      ensures Valid() && pos + left == old(pos + left) && (old(wild) ==> wild)
      ensures |cells| == |m| && Patched(old(mem[..]), mem[..], at, cells)
      ensures |chars| == SHORT_BYTES && old(At(chars + after)) ==>
                Agrees(ok, ConvChars(chars, [], db), cells, after, old(pos) + |chars|)
    {
      var value := Take(SHORT_BYTES, chars, after);
      match db {
        case Text =>
          Put(mem, at, Occupying(StdString(value), STRING_BYTES));
          return true, Occupying(StdString(value), STRING_BYTES);
        case ShortText =>
          assert value + [] == value;
          Put(mem, at, Cells(StrNCpy(value).value));
          return true, Cells(StrNCpy(value).value);
        case _ => return false, m;
      }
    }

    method ConvertItem(b: Base, db: Base, mem: array<Cell>, at: nat, ghost v: Value, ghost after: seq<byte>,
                       ghost m: seq<Cell>)
      returns (ok: bool, ghost cells: seq<Cell>)
      requires Valid() && |m| == BaseSize(db) && Holds(mem, at, m)
      requires (b.Struct? ==> NamesDistinct(b.st)) && (db.Struct? ==> NamesDistinct(db.st))
      modifies this, mem
      ensures Valid() && pos + left == old(pos + left) && (old(wild) ==> wild)
      ensures |cells| == |m| && Patched(old(mem[..]), mem[..], at, cells)
      ensures FitsItem(b, v) && old(At(Wire(v) + after)) ==>
                Agrees(ok, ConvItem(cast, b, v, after, db, m), cells, after, old(pos) + |Wire(v)|)
      decreases b, 0
    {
      hide ConvNumber, ConvChars, ConvStruct, WireAll;
      match b {
        case Number(_) | Enum =>
          var value := Take(BaseSize(b), Wire(v), after);
          ok, cells := StoreNumber(AsPrim(b).value, value, db, mem, at, m);
        case ShortText =>
          ok, cells := ConvertShortText(db, mem, at, if FitsItem(b, v) then v.bytes else [], after, m);
        case Text =>
          ok, cells := ConvertText(db, mem, at, if FitsItem(b, v) then v.chars else [], after, m);
        case Struct(st) =>
          if !db.Struct? {
            return false, m;
          }
          ok, cells := ConvertStruct(st, db.st, mem, at, v, after, m);
      }
    }

    method ConvertStruct(st: Struct, dst: Struct, mem: array<Cell>, at: nat, ghost v: Value, ghost after: seq<byte>,
                         ghost m: seq<Cell>)
      returns (ok: bool, ghost cells: seq<Cell>)
      requires Valid() && |m| == PackedSize(dst) && Holds(mem, at, m)
      requires NamesDistinct(st) && NamesDistinct(dst)
      modifies this, mem
      ensures Valid() && pos + left == old(pos + left) && (old(wild) ==> wild)
      ensures |cells| == |m| && Patched(old(mem[..]), mem[..], at, cells)
      ensures FitsStruct(st, v) && old(At(Wire(v) + after)) ==>
                Agrees(ok, ConvStruct(cast, st, v, after, dst, m), cells, after, old(pos) + |Wire(v)|)
      decreases st, 2
    {
      hide Header, ConvFields, WireAll, Patched, DistinctNames, NamesDistinctIn;
      ghost var known := FitsStruct(st, v) && At(Wire(v) + after);
      ghost var before := mem[..];
      ghost var header := CopyPreamble(st, dst, mem, at, v, after, m);
      ghost var mid := mem[..];
      ghost var rest;
      ok, rest := ConvertFields(st.fields, dst.fields, mem, at + HeaderSize(dst), if known then v.members else [], after,
                                m[HeaderSize(dst)..]);
      PatchTwice(before, mid, mem[..], at, header, rest);
      cells := header + rest;
    }

    method CopyPreamble(st: Struct, dst: Struct, mem: array<Cell>, at: nat, ghost v: Value, ghost after: seq<byte>,
                        ghost m: seq<Cell>)
      returns (ghost header: seq<Cell>)
      requires Valid() && |m| == PackedSize(dst) && Holds(mem, at, m)
      modifies this, mem
      ensures Valid() && pos + left == old(pos + left) && (old(wild) ==> wild)
      ensures |header| == HeaderSize(dst) && Patched(old(mem[..]), mem[..], at, header)
      ensures Holds(mem, at + |header|, m[|header|..])
      ensures FitsStruct(st, v) && old(At(Wire(v) + after)) ==>
                && At(WireAll(v.members) + after)
                && pos + |WireAll(v.members)| == old(pos) + |Wire(v)|
                && header == Header(st, v, dst, m)
    {
      ghost var before := mem[..];
      header := m[..HeaderSize(dst)];
      HoldsFront(before, at, m, HeaderSize(dst));
      PatchSame(before, at, header);
      if !st.naked {
        ghost var known := FitsStruct(st, v) && At(Wire(v) + after);
        ghost var pre := if known then PreBytes(v.pre.value) else [];
        ghost var rest := if known then WireAll(v.members) + after else [];
        assert known ==> Wire(v) + after == pre + rest;
        var copy := Take(P.PREAMBLE_BYTES, pre, rest);
        if !dst.naked {
          Put(mem, at, Cells(copy));
          header := Cells(copy);
        }
      }
      HoldsBehind(before, mem[..], at, header, m);
    }

    method ConvertFields(fs: seq<Field>, dfs: seq<Field>, mem: array<Cell>, at: nat,
                         ghost vs: seq<Value>, ghost after: seq<byte>, ghost m: seq<Cell>)
      returns (ok: bool, ghost cells: seq<Cell>)
      requires Valid() && |m| == FieldsSize(dfs) && Holds(mem, at, m)
      requires DistinctNames(fs) && NamesDistinctIn(fs) && DistinctNames(dfs) && NamesDistinctIn(dfs)
      modifies this, mem
      ensures Valid() && pos + left == old(pos + left) && (old(wild) ==> wild)
      ensures |cells| == |m| && Patched(old(mem[..]), mem[..], at, cells)
      ensures FitsFields(fs, vs) && old(At(WireAll(vs) + after)) ==>
                Agrees(ok, ConvFields(cast, fs, vs, after, dfs, m), cells, after, old(pos) + |WireAll(vs)|)
      decreases fs, 2
    {
      hide ConvFields, Converted, Refused, Join, Sized, Split, WireAll, Patched, FitsFields, DistinctNames, NamesDistinctIn;
      ghost var known := FitsFields(fs, vs) && At(WireAll(vs) + after);
      ghost var parts;
      ok, parts := ConvertEach(fs, dfs, mem, at, vs, after, Split(dfs, m));
      cells := Join(parts);
      if known {
        FieldsOutcome(cast, fs, vs, after, dfs, m, parts, ok && !wild);
      }
    }

    /** The loop over the source's fields. */
    method ConvertEach(fs: seq<Field>, dfs: seq<Field>, mem: array<Cell>, at: nat,
                       ghost vs: seq<Value>, ghost after: seq<byte>, ghost start: seq<seq<Cell>>)
      returns (ok: bool, ghost parts: seq<seq<Cell>>)
      requires Valid() && Sized(dfs, start) && Holds(mem, at, Join(start))
      requires DistinctNames(fs) && NamesDistinctIn(fs) && DistinctNames(dfs) && NamesDistinctIn(dfs)
      modifies this, mem
      ensures Valid() && pos + left == old(pos + left) && (old(wild) ==> wild)
      ensures Sized(dfs, parts) && |Join(parts)| == FieldsSize(dfs)
      ensures Patched(old(mem[..]), mem[..], at, Join(parts))
      ensures FitsFields(fs, vs) && old(At(WireAll(vs) + after)) ==>
                if ok && !wild then
                  && Converted(cast, fs, vs, |vs|, after, dfs, start, parts)
                  && At(after) && pos == old(pos) + |WireAll(vs)|
                else Refused(cast, fs, vs, after, dfs, start)
      decreases fs, 1
    {
      ghost var known := FitsFields(fs, vs) && At(WireAll(vs) + after);
      ghost var before, end := mem[..], pos + |WireAll(vs)|;
      parts := start;
      JoinSize(dfs, start);
      var i := 0;
      while i < |fs|
        invariant i <= |fs| && Valid() && pos + left == old(pos + left) && (old(wild) ==> wild)
        invariant Sized(dfs, parts) && |Join(parts)| == FieldsSize(dfs)
        invariant Patched(before, mem[..], at, Join(parts))
        invariant known && !wild ==> At(WireAll(vs[i..]) + after) && pos + |WireAll(vs[i..])| == end
        invariant known && !wild ==> Converted(cast, fs, vs, i, after, dfs, start, parts)
        invariant known && wild ==> Refused(cast, fs, vs, after, dfs, start)
      {
        if !success {
          return false, parts;
        }
        ghost var mid, p := mem[..], parts;
        ok, parts := ConvertNext(fs, i, dfs, mem, at, vs, after, start, parts);
        PatchOver(before, mid, mem[..], at, Join(p), Join(parts));
        success := ok;
        if !ok {
          return;
        }
        i := i + 1;
      }
      assert known ==> WireAll(vs[i..]) + after == after;
      ok := success;
    }

    /** One round of that loop. */
    method ConvertNext(fs: seq<Field>, i: nat, dfs: seq<Field>, mem: array<Cell>, at: nat, ghost vs: seq<Value>,
                       ghost after: seq<byte>, ghost start: seq<seq<Cell>>, ghost parts: seq<seq<Cell>>)
      returns (ok: bool, ghost next: seq<seq<Cell>>)
      requires Valid() && i < |fs| && Sized(dfs, start) && Sized(dfs, parts) && Holds(mem, at, Join(parts))
      requires DistinctNames(fs) && NamesDistinctIn(fs) && DistinctNames(dfs) && NamesDistinctIn(dfs)
      modifies this, mem
      ensures Valid() && pos + left == old(pos + left) && (old(wild) ==> wild)
      ensures Sized(dfs, next) && |Join(next)| == FieldsSize(dfs)
      ensures Patched(old(mem[..]), mem[..], at, Join(next))
      ensures FitsFields(fs, vs) && old(At(WireAll(vs[i..]) + after))
              && Converted(cast, fs, vs, i, after, dfs, start, parts) ==>
                if ok && !wild then
                  && Converted(cast, fs, vs, i + 1, after, dfs, start, next)
                  && At(WireAll(vs[i + 1..]) + after) && pos + |WireAll(vs[i + 1..])| == old(pos) + |WireAll(vs[i..])|
                else Refused(cast, fs, vs, after, dfs, start)
      decreases fs, 0
    {
      hide ConvNamed, ConvField, Converted, Join, Patched, FitsField, WireAll, DistinctNames, NamesDistinctIn;
      var j := FindField(dfs, fs[i].name);
      ghost var known := FitsFields(fs, vs) && At(WireAll(vs[i..]) + after)
                         && Converted(cast, fs, vs, i, after, dfs, start, parts);
      ghost var w, tail := Raw([]), after;
      if known {
        FitsFieldsAt(fs, vs, i);
        w, tail := vs[i], WireAll(vs[i + 1..]) + after;
        assert WireAll(vs[i..]) + after == Wire(w) + tail;
      }
      if j == |dfs| {
        JoinSize(dfs, parts);
        PatchSame(mem[..], at, Join(parts));
        ok := SkipElement(fs[i], w, tail);
        next := parts;
        if known {
          ConvertedStep(cast, fs, vs, i, after, dfs, start, parts, j, []);
        }
      } else {
        ghost var cells;
        if fs[i].base.Struct? {
          NamesDistinctAt(fs, i);
        }
        ok, cells := ConvertPart(fs[i], dfs, j, mem, at, w, tail, parts);
        next := parts[j := cells];
        JoinSize(dfs, next);
        if known {
          ConvertedHere(cast, fs, vs, i, after, dfs, start, parts, j);
          if ok && !wild {
            ConvertedStep(cast, fs, vs, i, after, dfs, start, parts, j, cells);
          }
        }
      }
    }

    /** A source field into the destination field at index j, at that field's offset. */
    method ConvertPart(f: Field, dfs: seq<Field>, j: nat, mem: array<Cell>, at: nat, ghost v: Value,
                       ghost after: seq<byte>, ghost parts: seq<seq<Cell>>)
      returns (ok: bool, ghost cells: seq<Cell>)
      requires Valid() && j < |dfs| && Sized(dfs, parts) && Holds(mem, at, Join(parts))
      requires (f.base.Struct? ==> NamesDistinct(f.base.st)) && NamesDistinctIn(dfs)
      modifies this, mem
      ensures Valid() && pos + left == old(pos + left) && (old(wild) ==> wild)
      ensures |cells| == FieldSize(dfs[j]) && Patched(old(mem[..]), mem[..], at, Join(parts[j := cells]))
      ensures FitsField(f, v) && old(At(Wire(v) + after)) ==>
                Agrees(ok, ConvField(cast, f, v, after, dfs[j], parts[j]), cells, after, old(pos) + |Wire(v)|)
      decreases f, 2
    {
      hide ConvField, Join, Patched, FitsField, WireAll, NamesDistinctIn;
      if dfs[j].base.Struct? {
        NamesDistinctAt(dfs, j);
      }
      var off := FieldsSize(dfs[..j]);
      ghost var before := mem[..];
      PartAt(before, at, dfs, parts, j);
      assert mem[at + off..at + off + |parts[j]|] == parts[j];
      ok, cells := ConvertField(f, dfs[j], mem, at + off, v, after, parts[j]);
      PartPatched(before, mem[..], at, dfs, parts, j, cells);
    }

    method ConvertField(f: Field, df: Field, mem: array<Cell>, at: nat, ghost v: Value, ghost after: seq<byte>,
                        ghost m: seq<Cell>)
      returns (ok: bool, ghost cells: seq<Cell>)
      requires Valid() && |m| == FieldSize(df) && Holds(mem, at, m)
      requires (f.base.Struct? ==> NamesDistinct(f.base.st)) && (df.base.Struct? ==> NamesDistinct(df.base.st))
      modifies this, mem
      ensures Valid() && pos + left == old(pos + left) && (old(wild) ==> wild)
      ensures |cells| == |m| && Patched(old(mem[..]), mem[..], at, cells)
      ensures FitsField(f, v) && old(At(Wire(v) + after)) ==>
                Agrees(ok, ConvField(cast, f, v, after, df, m), cells, after, old(pos) + |Wire(v)|)
      decreases f, 1
    {
      hide ConvItem, ConvSlots, ConvVector, WireAll, Patched;
      if f.suffix.Single? != df.suffix.Single? || (f.base.Struct? && !df.base.Struct?) {
        PatchSame(mem[..], at, m);
        return false, m;
      }
      if f.suffix.Single? {
        ok, cells := ConvertItem(f.base, df.base, mem, at, v, after, m);
        return;
      }
      ghost var known := FitsField(f, v) && At(Wire(v) + after);
      ghost var items := if known then v.items else [];
      var count: nat;
      ok, count := ProcessArraySize(f, v, after);
      if !ok {
        PatchSame(mem[..], at, m);
        return false, m;
      }
      match df.suffix {
        case Fixed(n) =>
          ok, cells := ConvertSlots(f.base, count, df.base, n, mem, at, items, after, m);
        case Compact(n) =>
          ok, cells := ConvertCompact(f.base, count, df.base, n, mem, at, items, after, m);
        case Dynamic =>
          ok, cells := ConvertVector(f.base, count, df.base, mem, at, items, after, m);
      }
    }

    /** A compact destination array: the message's count, as it is, and then the slots. */
    method ConvertCompact(b: Base, count: nat, db: Base, slots: nat, mem: array<Cell>, at: nat,
                          ghost vs: seq<Value>, ghost after: seq<byte>, ghost m: seq<Cell>)
      returns (ok: bool, ghost cells: seq<Cell>)
      requires Valid() && |m| == 4 + Times(slots, BaseSize(db)) && Holds(mem, at, m)
      requires (b.Struct? ==> db.Struct? && NamesDistinct(b.st)) && (db.Struct? ==> NamesDistinct(db.st))
      modifies this, mem
      ensures Valid() && pos + left == old(pos + left) && (old(wild) ==> wild)
      ensures |cells| == |m| && Patched(old(mem[..]), mem[..], at, cells)
      ensures FitsItems(b, vs) && |vs| == count && old(At(WireAll(vs) + after)) ==>
                Agrees(ok, Prepend(Cells(Le32(count)), ConvSlots(cast, b, vs, after, db, slots, m[4..])),
                       cells, after, old(pos) + |WireAll(vs)|)
      decreases b, 3
    {
      hide ConvSlots, WireAll, Patched, Le32;
      ghost var before, head := mem[..], Cells(Le32(count));
      Put(mem, at, Cells(Le32(count)));
      ghost var mid := mem[..];
      HoldsBehind(before, mid, at, head, m);
      ghost var rest;
      ok, rest := ConvertSlots(b, count, db, slots, mem, at + 4, vs, after, m[4..]);
      PatchTwice(before, mid, mem[..], at, head, rest);
      cells := head + rest;
    }

    /**
      The loop over an array's items, into slots. Once the slots are used up, the remaining items
      are skipped.
    */
    method ConvertSlots(b: Base, count: nat, db: Base, slots: nat, mem: array<Cell>, at: nat,
                        ghost vs: seq<Value>, ghost after: seq<byte>, ghost m: seq<Cell>)
      returns (ok: bool, ghost cells: seq<Cell>)
      requires Valid() && |m| == Times(slots, BaseSize(db)) && Holds(mem, at, m)
      requires (b.Struct? ==> db.Struct? && NamesDistinct(b.st)) && (db.Struct? ==> NamesDistinct(db.st))
      modifies this, mem
      ensures Valid() && pos + left == old(pos + left) && (old(wild) ==> wild)
      ensures |cells| == |m| && Patched(old(mem[..]), mem[..], at, cells)
      ensures FitsItems(b, vs) && |vs| == count && old(At(WireAll(vs) + after)) ==>
                Agrees(ok, ConvSlots(cast, b, vs, after, db, slots, m), cells, after, old(pos) + |WireAll(vs)|)
      decreases b, 2
    {
      hide ConvSlots, WireAll, Patched, FitsItems, SlotsFrom, Slots, Times, BaseSize, At, NamesDistinct, Wire;
      ghost var known := FitsItems(b, vs) && |vs| == count && At(WireAll(vs) + after);
      ghost var before, end := mem[..], pos + |WireAll(vs)|;
      ghost var whole := if known then ConvSlots(cast, b, vs, after, db, slots, m) else None;
      ghost var rest := vs;
      PatchSame(before, at, m);
      cells := m;
      var size := BaseSize(db);
      var limit := if b.ShortText? then 0 else slots;
      var off := 0;
      var i := 0;
      SlotsBegin(b, vs, after, db, slots, m, whole, end, known);
      while i < count && i < limit
        invariant i <= count && i <= limit && Valid() && pos + left == old(pos + left) && (old(wild) ==> wild)
        invariant |cells| == |m| && SlotsFrom(m, cells, off, slots - i, size) && Patched(before, mem[..], at, cells)
        invariant known ==> |rest| == count - i && Slots(b, rest, after, db, slots - i, m, cells, off, whole, end)
      {
        ghost var mid, was := mem[..], cells;
        SlotHeld(before, mid, at, m, cells, off, slots - i, size);
        ok, cells := ConvertSlot(b, db, mem, at, off, slots - i, rest, after, m, cells, whole, end, known);
        PatchOver(before, mid, mem[..], at, was, cells);
        rest := if known then rest[1..] else rest;
        if !ok {
          return;
        }
        off := off + size;
        i := i + 1;
      }
      if known {
        SlotsOver(b, rest, after, db, slots - i, m, cells, off, whole, end);
      }
      ok := SkipItems(b, count - i, rest, after);
    }

    /** One round of that loop. */
    method ConvertSlot(b: Base, db: Base, mem: array<Cell>, at: nat, off: nat, ghost slots: nat,
                       ghost vs: seq<Value>, ghost after: seq<byte>, ghost m: seq<Cell>, ghost cells: seq<Cell>,
                       ghost whole: Option<seq<Cell>>, ghost end: nat, ghost known: bool)
      returns (ok: bool, ghost next: seq<Cell>)
      requires Valid() && |cells| == |m| && SlotsFrom(m, cells, off, slots, BaseSize(db)) && Holds(mem, at, cells)
      requires (b.Struct? ==> db.Struct? && NamesDistinct(b.st)) && (db.Struct? ==> NamesDistinct(db.st))
      requires slots > 0 && !b.ShortText?
      requires known ==> vs != [] && Slots(b, vs, after, db, slots, m, cells, off, whole, end)
      modifies this, mem
      ensures Valid() && pos + left == old(pos + left) && (old(wild) ==> wild)
      ensures |next| == |m| && Patched(old(mem[..]), mem[..], at, next)
      ensures SlotsFrom(m, next, off + BaseSize(db), slots - 1, BaseSize(db))
      ensures known ==>
                if ok then Slots(b, vs[1..], after, db, slots - 1, m, next, off + BaseSize(db), whole, end)
                else whole == None
      decreases b, 1
    {
      hide ConvItem, ConvSlots, WireAll, Patched, FitsItems, Times, BaseSize, FitsItem, Wire, NamesDistinct, SlotsFrom;
      ghost var v, tail, mid := Raw([]), after, mem[..];
      PatchSame(mid, at, cells);
      SlotHeld(mid, mid, at, m, cells, off, slots, BaseSize(db));
      if known {
        ItemsHead(b, vs, after);
        if !wild {
          SlotsStep(cast, b, vs, after, db, slots, m[off..], cells[..off]);
          v, tail := vs[0], WireAll(vs[1..]) + after;
        }
      }
      ghost var item;
      ok, item := ConvertItem(b, db, mem, at + off, v, tail, m[off..][..BaseSize(db)]);
      next := SlotPut(mid, mid, mem[..], at, m, cells, off, slots, BaseSize(db), item);
    }

    /** The conversion of the whole array comes down to that of the items left into the slots left. */
    ghost predicate Slots(b: Base, vs: seq<Value>, after: seq<byte>, db: Base, slots: nat, m: seq<Cell>,
                          cells: seq<Cell>, off: nat, whole: Option<seq<Cell>>, end: nat)
      requires |cells| == |m| && SlotsFrom(m, cells, off, slots, BaseSize(db))
      reads this
    {
      && FitsItems(b, vs)
      && (wild ==> whole == None)
      && (!wild ==>
            && whole == Prepend(cells[..off], ConvSlots(cast, b, vs, after, db, slots, m[off..]))
            && At(WireAll(vs) + after) && pos + |WireAll(vs)| == end)
    }

    lemma {:induction false} SlotsBegin(b: Base, vs: seq<Value>, after: seq<byte>, db: Base, slots: nat, m: seq<Cell>,
                     whole: Option<seq<Cell>>, end: nat, known: bool)
      requires |m| == Times(slots, BaseSize(db))
      requires known ==> FitsItems(b, vs) && At(WireAll(vs) + after) && end == pos + |WireAll(vs)|
                         && whole == ConvSlots(cast, b, vs, after, db, slots, m)
      ensures SlotsFrom(m, m, 0, slots, BaseSize(db))
      ensures known ==> Slots(b, vs, after, db, slots, m, m, 0, whole, end)
    {
      hide ConvSlots, FitsItems, WireAll, Times, BaseSize;
      assert m[0..] == m && m[..0] == [];
      if whole.Some? {
        assert m[..0] + whole.value == whole.value;
      }
    }

    lemma {:induction false} SlotsOver(b: Base, vs: seq<Value>, after: seq<byte>, db: Base, slots: nat, m: seq<Cell>,
                    cells: seq<Cell>, off: nat, whole: Option<seq<Cell>>, end: nat)
      requires vs == [] || slots == 0 || b.ShortText?
      requires |cells| == |m| && SlotsFrom(m, cells, off, slots, BaseSize(db))
      requires Slots(b, vs, after, db, slots, m, cells, off, whole, end)
      ensures FitsItems(b, vs) && (wild ==> whole == None)
      ensures !wild ==> whole == Some(cells) && At(WireAll(vs) + after) && pos + |WireAll(vs)| == end
    {
      assert cells[..off] + m[off..] == cells;
    }

    /** A vector: structs into a new zeroed block, anything else pushed onto what is there. */
    method ConvertVector(b: Base, count: nat, db: Base, mem: array<Cell>, at: nat,
                         ghost vs: seq<Value>, ghost after: seq<byte>, ghost m: seq<Cell>)
      returns (ok: bool, ghost cells: seq<Cell>)
      requires Valid() && |m| == VECTOR_BYTES && Holds(mem, at, m)
      requires (b.Struct? ==> db.Struct? && NamesDistinct(b.st)) && (db.Struct? ==> NamesDistinct(db.st))
      modifies this, mem
      ensures Valid() && pos + left == old(pos + left) && (old(wild) ==> wild)
      ensures |cells| == |m| && Patched(old(mem[..]), mem[..], at, cells)
      ensures FitsItems(b, vs) && |vs| == count && old(At(WireAll(vs) + after)) ==>
                Agrees(ok, ConvVector(cast, b, vs, after, db, m), cells, after, old(pos) + |WireAll(vs)|)
      decreases b, 3
    {
      hide ConvSlots, ConvPushes, WireAll, Patched, FitsItems;
      var vector: seq<Cell>;
      if b.Struct? {
        ghost var zeros := Zeros(Times(count, BaseSize(db)));
        var room := new Cell[Times(count, BaseSize(db))](_ => Byte(0));
        assert room[..] == zeros && room[0..0 + |zeros|] == room[..];
        ghost var built;
        ok, built := ConvertSlots(b, count, db, count, room, 0, vs, after, zeros);
        PatchAll(zeros, room[..], built);
        vector := room[..];
      } else {
        ok, vector := ConvertPushes(b, count, db, VectorAt(mem[at..at + VECTOR_BYTES]), vs, after);
      }
      Put(mem, at, Occupying(StdVector(vector), VECTOR_BYTES));
      cells := Occupying(StdVector(vector), VECTOR_BYTES);
    }

    /** The loop pushing an array's items on the back of a vector. */
    method ConvertPushes(b: Base, count: nat, db: Base, start: seq<Cell>, ghost vs: seq<Value>, ghost after: seq<byte>)
      returns (ok: bool, vector: seq<Cell>)
      requires Valid() && !b.Struct?
      modifies this
      ensures Valid() && pos + left == old(pos + left) && (old(wild) ==> wild)
      ensures FitsItems(b, vs) && |vs| == count && old(At(WireAll(vs) + after)) ==>
                Agrees(ok, ConvPushes(cast, b, vs, db, start), vector, after, old(pos) + |WireAll(vs)|)
    {
      hide ConvPushed, Wire, FitsItem;
      ghost var known := FitsItems(b, vs) && |vs| == count && At(WireAll(vs) + after);
      ghost var rest, end := vs, pos + |WireAll(vs)|;
      vector := start;
      var i := 0;
      while i < count
        invariant i <= count && Valid() && pos + left == old(pos + left) && (old(wild) ==> wild)
        invariant known ==> |rest| == count - i && FitsItems(b, rest)
        invariant known ==> At(WireAll(rest) + after) && pos + |WireAll(rest)| == end
        invariant known ==> ConvPushes(cast, b, vs, db, start) == ConvPushes(cast, b, rest, db, vector)
      {
        ghost var v, tail := Raw([]), after;
        if known {
          v, tail := rest[0], WireAll(rest[1..]) + after;
          assert WireAll(rest) + after == Wire(v) + tail;
        }
        var item := ReadItem(b, v, tail);
        match ConvPushed(cast, b, item, db) {
          case None => return false, vector;
          case Some(cells) => vector := vector + cells;
        }
        rest := if known then rest[1..] else rest;
        i := i + 1;
      }
      assert known ==> rest == [] && WireAll(rest) + after == after;
      ok := true;
    }

    /** One number, enum or string off the message. */
    method ReadItem(b: Base, ghost v: Value, ghost after: seq<byte>) returns (item: Value)
      requires Valid() && !b.Struct?
      modifies this`pos, this`left, this`wild
      ensures Valid() && pos + left == old(pos + left) && (old(wild) ==> wild) && FitsItem(b, item)
      ensures FitsItem(b, v) && old(At(Wire(v) + after)) ==>
                item == v && At(after) && pos == old(pos) + |Wire(v)|
    {
      if b.Text? {
        ghost var chars := if FitsItem(b, v) then v.chars else [];
        assert Le32(|chars|) + chars + after == Le32(|chars|) + (chars + after);
        var length := ReadWord(|chars|, chars + after);
        var text := Take(length, chars, after);
        item := Chars(text);
      } else {
        var value := Take(BaseSize(b), Wire(v), after);
        item := Raw(value);
      }
    }
  }

  /**
    Converting a whole message. The ghost value is arbitrary: for whatever value's encoding the
    message begins with, the memory becomes the specified conversion and the number of bytes
    used is that value's net size, whatever the destination leaves out or truncates.
  */
  method FastConversion(cast: Cast, st: Struct, message: seq<byte>, dst: Struct, mem: array<Cell>,
                        ghost v: Value, ghost after: seq<byte>)
    returns (used: int, wild: bool)
    requires NamesDistinct(st) && NamesDistinct(dst) && mem.Length == PackedSize(dst)
    modifies mem
    ensures FitsStruct(st, v) && message == Wire(v) + after ==>
              match ConvStruct(cast, st, v, after, dst, old(mem[..]))
              case Some(cells) => !wild && used == |Wire(v)| && mem[..] == cells
              case None => wild || used == 0
  {
    var reader := new Reader(message, cast);
    ghost var m := mem[..];
    var ok, cells := reader.ConvertStruct(st, dst, mem, 0, v, after, m);
    PatchAll(m, mem[..], cells);
    used := if ok then |message| - reader.left else 0;
    wild := reader.wild;
  }

  /** Skipping a message moves the cursor over exactly its net size. */
  method SkipMessage(st: Struct, message: seq<byte>, ghost v: Value, ghost after: seq<byte>)
    returns (used: int, ok: bool)
    ensures FitsStruct(st, v) && message == Wire(v) + after ==> ok && used == |Wire(v)|
  {
    var reader := new Reader(message, PlainCast);
    ok := reader.SkipStruct(st, v, after);
    used := |message| - reader.left;
  }

  /** The memory holds the given cells at an offset. */
  ghost predicate Holds(mem: array<Cell>, at: nat, m: seq<Cell>)
    reads mem
  {
    at + |m| <= mem.Length && mem[at..at + |m|] == m
  }

  lemma PartAt(mem: seq<Cell>, at: nat, dfs: seq<Field>, parts: seq<seq<Cell>>, j: nat)
    requires j < |dfs| && Sized(dfs, parts)
    requires at + |Join(parts)| <= |mem| && mem[at..at + |Join(parts)|] == Join(parts)
    ensures
      var off := at + FieldsSize(dfs[..j]);
      off + |parts[j]| <= |mem| && mem[off..off + |parts[j]|] == parts[j]
  {
    hide Join, Patched;
    JoinAt(dfs, parts, j, parts[j]);
    var off := FieldsSize(dfs[..j]);
    SliceOfSlice(mem, at, |Join(parts)|, off, off + |parts[j]|);
  }

  lemma PartPatched(before: seq<Cell>, after: seq<Cell>, at: nat, dfs: seq<Field>, parts: seq<seq<Cell>>, j: nat,
                    cells: seq<Cell>)
    requires j < |dfs| && Sized(dfs, parts) && |cells| == FieldSize(dfs[j])
    requires at + |Join(parts)| <= |before| && before[at..at + |Join(parts)|] == Join(parts)
    requires Patched(before, after, at + FieldsSize(dfs[..j]), cells)
    ensures Patched(before, after, at, Join(parts[j := cells]))
  {
    hide Join, Patched;
    JoinAt(dfs, parts, j, cells);
    PatchSame(before, at, Join(parts));
    PatchInside(before, before, after, at, Join(parts), Join(parts[j := cells]), FieldsSize(dfs[..j]), cells);
  }

  lemma PatchAll(before: seq<Cell>, after: seq<Cell>, cells: seq<Cell>)
    requires Patched(before, after, 0, cells) && |cells| == |before|
    ensures after == cells
  {
  }

  /** The slots of an array: those before `off` may be converted, the ones left are as they were. */
  ghost predicate SlotsFrom(m: seq<Cell>, cells: seq<Cell>, off: nat, slots: nat, size: nat) {
    |cells| == |m| && off + Times(slots, size) == |m| && cells[off..] == m[off..]
  }

  lemma SlotHeld(before: seq<Cell>, mid: seq<Cell>, at: nat, m: seq<Cell>, cells: seq<Cell>, off: nat,
                 slots: nat, size: nat)
    requires SlotsFrom(m, cells, off, slots, size) && slots > 0 && Patched(before, mid, at, cells)
    ensures |m| - off == Times(slots, size) >= size
    ensures at + |cells| <= |mid| && mid[at..at + |cells|] == cells
    ensures mid[at + off..at + off + size] == m[off..][..size]
    ensures m[off..][size..] == m[off + size..]
  {
    assert mid[at..at + |m|] == cells;
    SliceOfSlice(mid, at, |m|, off, off + size);
    SliceOfSlice(cells, off, |m| - off, 0, size);
    assert cells[off..|m|] == cells[off..];
  }

  lemma SlotPut(before: seq<Cell>, mid: seq<Cell>, now: seq<Cell>, at: nat, m: seq<Cell>, cells: seq<Cell>,
                off: nat, slots: nat, size: nat, item: seq<Cell>) returns (next: seq<Cell>)
    requires SlotsFrom(m, cells, off, slots, size) && slots > 0 && Patched(before, mid, at, cells)
    requires |item| == size && Patched(mid, now, at + off, item)
    ensures SlotsFrom(m, next, off + size, slots - 1, size) && Patched(before, now, at, next)
    ensures off + size <= |next| == |m| && next[..off + size] == cells[..off] + item
    ensures |m| - (off + size) == Times(slots - 1, size)
  {
    next := cells[..off] + item + cells[off + size..];
    PatchInside(before, mid, now, at, cells, next, off, item);
    assert cells[off + size..] == cells[off..][size..];
    assert m[off + size..] == m[off..][size..];
  }

  lemma ItemsHead(b: Base, vs: seq<Value>, after: seq<byte>)
    requires vs != [] && FitsItems(b, vs)
    ensures FitsItem(b, vs[0]) && FitsItems(b, vs[1..])
    ensures WireAll(vs) + after == Wire(vs[0]) + (WireAll(vs[1..]) + after)
    ensures |WireAll(vs)| == |Wire(vs[0])| + |WireAll(vs[1..])|
  {
  }

  lemma HoldsFront(mem: seq<Cell>, at: nat, m: seq<Cell>, h: nat)
    requires at + |m| <= |mem| && mem[at..at + |m|] == m && h <= |m|
    ensures mem[at..at + h] == m[..h]
  {
    SliceOfSlice(mem, at, |m|, 0, h);
  }

  lemma HoldsBehind(before: seq<Cell>, mid: seq<Cell>, at: nat, header: seq<Cell>, m: seq<Cell>)
    requires at + |m| <= |before| && before[at..at + |m|] == m && |header| <= |m|
    requires Patched(before, mid, at, header)
    ensures
      var rest := m[|header|..];
      && |rest| == |m| - |header|
      && at + |header| + |rest| <= |mid|
      && mid[at + |header|..at + |header| + |rest|] == rest
  {
    var h := |header|;
    assert mid[at + h..] == before[at + h..];
    assert mid[at + h..][..|m| - h] == before[at + h..][..|m| - h];
  }

  /** A field's elements: the one, or the array's. */
  function Items(f: Field, v: Value): seq<Value>
    requires FitsField(f, v)
  {
    if f.suffix.Single? then [v] else v.items
  }

  lemma WireOfItems(f: Field, v: Value, after: seq<byte>)
    requires FitsField(f, v)
    ensures f.suffix.Single? || f.suffix.Fixed? ==> Wire(v) == WireAll(Items(f, v))
    ensures f.suffix.Dynamic? || f.suffix.Compact? ==>
              Wire(v) + after == Le32(|v.items|) + (WireAll(v.items) + after) && |v.items| < LIMIT32
              && |Wire(v)| == 4 + |WireAll(v.items)|
    ensures f.suffix.Fixed? ==> |v.items| == f.suffix.n
    ensures f.suffix.Compact? ==> |v.items| <= f.suffix.n
  {
    assert [v][1..] == [];
  }

  lemma ItemsFit(f: Field, v: Value)
    requires FitsField(f, v)
    ensures FitsItems(f.base, Items(f, v))
  {
    if f.suffix.Single? {
      assert [v][1..] == [];
    }
  }
}
