/**
  What is computed once per struct and kept in its node: the flags, sizes and offsets. In
  whatever order they are asked for, they are what they mean.
*/
module SchemaFlags {
  import opened Schema
  import P = Preamble

  class Flags {
    var simple: map<Struct, bool>       // simple, where simple_computed
    var hasCompact: map<Struct, bool>   // has_compact, where compact_computed

    ghost predicate Valid()
      reads this
    {
      && (forall st :: st in simple ==> simple[st] == Simple(st))
      && (forall st :: st in hasCompact ==> hasCompact[st] == HasCompact(st))
    }

    constructor ()
      ensures Valid()
    {
      simple, hasCompact := map[], map[];
    }

    method ComputeSimple(st: Struct) returns (r: bool)
      requires Valid()
      modifies this`simple
      ensures Valid() && r == Simple(st) && st in simple && old(simple).Keys <= simple.Keys
      decreases st
    {
      if st in simple {
        return simple[st];
      }
      var i := 0;
      while i < |st.fields|
        invariant i <= |st.fields| && Valid() && old(simple).Keys <= simple.Keys
        invariant Simple(st) == SimpleFields(st.fields[i..])
      {
        var f := st.fields[i];
        assert st.fields[i..][1..] == st.fields[i + 1..];
        var fieldSimple := !f.base.Text? && !f.suffix.Dynamic?;
        if fieldSimple && f.base.Struct? {
          fieldSimple := ComputeSimple(f.base.st);
        }
        if !fieldSimple {
          simple := simple[st := false];
          return false;
        }
        i := i + 1;
      }
      simple := simple[st := true];
      return true;
    }

    /** Unlike compute_simple it answers true once it has done the work, whatever the flag is. */
    method ComputeCompact(st: Struct) returns (r: bool)
      requires Valid()
      modifies this`hasCompact
      ensures Valid() && st in hasCompact && old(hasCompact).Keys <= hasCompact.Keys
      ensures r == if st in old(hasCompact) then HasCompact(st) else true
      decreases st
    {
      if st in hasCompact {
        return hasCompact[st];
      }
      var i := 0;
      while i < |st.fields|
        invariant i <= |st.fields| && Valid() && old(hasCompact).Keys <= hasCompact.Keys
        invariant HasCompact(st) == HasCompactFields(st.fields[i..])
      {
        var f := st.fields[i];
        assert st.fields[i..][1..] == st.fields[i + 1..];
        if !f.base.Text? {
          var found := f.suffix.Compact?;
          if !found && f.base.Struct? {
            var _ := ComputeCompact(f.base.st);
            found := hasCompact[f.base.st];
          }
          if found {
            hasCompact := hasCompact[st := true];
            return true;
          }
        }
        i := i + 1;
      }
      hasCompact := hasCompact[st := false];
      return true;
    }

    /** A whole schema's structs, listed in any order and any number of times. */
    method ComputeAll(structs: seq<Struct>)
      requires Valid()
      modifies this
      ensures forall k :: 0 <= k < |structs| ==>
                && structs[k] in simple && simple[structs[k]] == Simple(structs[k])
                && structs[k] in hasCompact && hasCompact[structs[k]] == HasCompact(structs[k])
    {
      for i := 0 to |structs|
        invariant Valid() && forall k :: 0 <= k < i ==> structs[k] in simple
      {
        var _ := ComputeSimple(structs[i]);
      }
      for i := 0 to |structs|
        invariant Valid() && forall k :: 0 <= k < |structs| ==> structs[k] in simple
        invariant forall k :: 0 <= k < i ==> structs[k] in hasCompact
      {
        var _ := ComputeCompact(structs[i]);
      }
    }
  }

  /** The fields' ranges follow each other without a gap and end at the struct's size. */
  lemma {:induction false} RangesDisjoint(st: Struct, i: nat, j: nat)
    requires i < j <= |st.fields|
    ensures Offset(st, i) + FieldSize(st.fields[i]) <= Offset(st, j) <= PackedSize(st)
    ensures j == i + 1 ==> Offset(st, i) + FieldSize(st.fields[i]) == Offset(st, j)
    ensures Offset(st, |st.fields|) == PackedSize(st)
  {
    assert st.fields[..|st.fields|] == st.fields;
    PrefixSize(st.fields, i);
    SizeGrows(st.fields, i + 1, j);
    SizeGrows(st.fields, j, |st.fields|);
  }

  lemma {:induction false} PrefixSize(fs: seq<Field>, i: nat)
    requires i < |fs|
    ensures FieldsSize(fs[..i + 1]) == FieldsSize(fs[..i]) + FieldSize(fs[i])
  {
    if i == 0 {
      assert fs[..1][1..] == [];
    } else {
      assert fs[..i + 1][1..] == fs[1..][..i] && fs[..i][1..] == fs[1..][..i - 1];
      PrefixSize(fs[1..], i - 1);
    }
  }

  lemma {:induction false} SizeGrows(fs: seq<Field>, i: nat, j: nat)
    requires i <= j <= |fs|
    ensures FieldsSize(fs[..i]) <= FieldsSize(fs[..j])
    decreases j - i
  {
    if i < j {
      PrefixSize(fs, j - 1);
      SizeGrows(fs, i, j - 1);
    }
  }

  /** The packed layout as computeSizes fills it in. */
  class Layouts {
    var csize: map<Struct, nat>
    var coffset: map<Struct, seq<nat>>

    ghost predicate Valid()
      reads this
    {
      && (forall st :: st in csize ==> st in coffset && csize[st] == PackedSize(st))
      && (forall st :: st in coffset ==> |coffset[st]| == |st.fields|)
      && (forall st, i :: st in coffset && 0 <= i < |st.fields| ==> coffset[st][i] == Offset(st, i))
    }

    constructor ()
      ensures Valid()
    {
      csize, coffset := map[], map[];
    }

    /** A size of 0 counts as not computed. */
    method ComputeSizes(st: Struct)
      requires Valid()
      modifies this
      ensures Valid() && st in csize
      decreases st
    {
      if st in csize && csize[st] > 0 {
        return;
      }
      var size := if st.naked then 0 else P.PREAMBLE_BYTES;
      var offsets: seq<nat> := [];
      var i := 0;
      assert st.fields[..0] == [];
      while i < |st.fields|
        invariant i <= |st.fields| && Valid() && |offsets| == i && size == Offset(st, i)
        invariant forall k :: 0 <= k < i ==> offsets[k] == Offset(st, k)
      {
        var f := st.fields[i];
        var typesize := ElementTypeSize(f.base);
        offsets := offsets + [size];
        PrefixSize(st.fields, i);
        match f.suffix {
          case Single => size := size + typesize;
          case Dynamic => size := size + VECTOR_BYTES;
          case Fixed(n) =>
            TimesIsProduct(n, typesize);
            size := size + n * typesize;
          case Compact(n) =>
            TimesIsProduct(n, typesize);
            size := size + 4 + n * typesize;
        }
        i := i + 1;
      }
      assert st.fields[..i] == st.fields;
      csize, coffset := csize[st := size], coffset[st := offsets];
    }

    method ElementTypeSize(b: Base) returns (size: nat)
      requires Valid()
      modifies this
      ensures Valid() && size == BaseSize(b)
      decreases b
    {
      match b {
        case Number(p) => size := Width(p);
        case ShortText => size := SHORT_BYTES;
        case Text => size := STRING_BYTES;
        case Enum => size := 4;
        case Struct(st) =>
          ComputeSizes(st);
          size := csize[st];
      }
    }
  }
}
