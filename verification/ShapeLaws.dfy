/** What a type's hash depends on: which declarations have the same shape. */
module ShapeLaws {
  import opened SchemaText
  import opened SymbolTable
  import opened SchemaRoundTrip

  /**
    Two structs are declared alike to a depth: the same name, in namespaces of the same name, and one
    by one the same element names, array sizes and types. Types are the same if they are the same
    built-in, enums of the same name, or structs declared alike in turn.
  */
  ghost predicate Alike(ast: seq<Space>, here: string, st: StructDecl, other: seq<Space>, there: string, tt: StructDecl,
                        depth: nat)
    decreases depth, 1
  {
    && here == there && st.name == tt.name && |st.elems| == |tt.elems|
    && forall i :: 0 <= i < |st.elems| ==> AlikeElems(ast, here, st.elems[i], other, there, tt.elems[i], depth)
  }

  ghost predicate AlikeElems(ast: seq<Space>, here: string, e: Elem, other: seq<Space>, there: string, f: Elem, depth: nat)
    decreases depth, 0
  {
    && e.name == f.name && e.suffix == f.suffix
    && match (e.typ, f.typ)
       case (Plain(b), Plain(c)) => b == c
       case (Custom(_, name), Custom(_, name')) =>
         var (isEnum, isEnum') := (EnumOf(ast, here, e.typ).Some?, EnumOf(other, there, f.typ).Some?);
         && isEnum == isEnum' && (isEnum ==> name == name')
         && (!isEnum && depth > 0 ==>
               match (StructFound(ast, here, e.typ), StructFound(other, there, f.typ))
               case (Some((space, st)), Some((space', tt))) => Alike(ast, space, st, other, space', tt, depth - 1)
               case (None, None) => true
               case _ => false)
       case _ => false
  }

  /** What is hashed is the same, to any depth, exactly for structs declared alike. */
  lemma {:induction false} SameShapes(ast: seq<Space>, here: string, st: StructDecl,
                                      other: seq<Space>, there: string, tt: StructDecl, depth: nat)
    ensures ShapeOf(ast, here, st, depth) == ShapeOf(other, there, tt, depth)
            <==> Alike(ast, here, st, other, there, tt, depth)
    decreases depth, 1
  {
    hide PartOf, AlikeElems;
    var (s, t) := (ShapeOf(ast, here, st, depth), ShapeOf(other, there, tt, depth));
    if |st.elems| == |tt.elems| {
      forall i | 0 <= i < |st.elems|
        ensures s.parts[i] == t.parts[i] <==> AlikeElems(ast, here, st.elems[i], other, there, tt.elems[i], depth)
      {
        SameParts(ast, here, st.elems[i], other, there, tt.elems[i], depth);
      }
      assert s.parts == t.parts <==> forall i :: 0 <= i < |s.parts| ==> s.parts[i] == t.parts[i];
    }
  }

  lemma {:induction false} SameParts(ast: seq<Space>, here: string, e: Elem, other: seq<Space>, there: string, f: Elem,
                                     depth: nat)
    ensures PartOf(ast, here, e, depth) == PartOf(other, there, f, depth)
            <==> AlikeElems(ast, here, e, other, there, f, depth)
    decreases depth, 0
  {
    hide EnumOf, StructFound, ShapeOf, Alike;
    if e.typ.Custom? && f.typ.Custom? && depth > 0 {
      match (StructFound(ast, here, e.typ), StructFound(other, there, f.typ))
      case (Some((space, st)), Some((space', tt))) => SameShapes(ast, space, st, other, space', tt, depth - 1);
      case _ =>
    }
  }

  /** Another array size, or none, gives another shape. */
  lemma OtherSize(ast: seq<Space>, here: string, st: StructDecl, tt: StructDecl, i: nat, depth: nat)
    requires i < |st.elems| && i < |tt.elems| && st.elems[i].suffix != tt.elems[i].suffix
    ensures ShapeOf(ast, here, st, depth) != ShapeOf(ast, here, tt, depth)
  {
    hide ShapeOf;
    SameShapes(ast, here, st, ast, here, tt, depth);
    assert !AlikeElems(ast, here, st.elems[i], ast, here, tt.elems[i], depth);
  }

  /** Annotations and initialisers do not enter: @naked, @compact and default values can change unnoticed. */
  lemma NotHashed(ast: seq<Space>, here: string, st: StructDecl, tt: StructDecl, depth: nat)
    requires st.name == tt.name && |st.elems| == |tt.elems|
    requires forall i :: 0 <= i < |st.elems| ==>
               tt.elems[i] == st.elems[i].(compact := tt.elems[i].compact, init := tt.elems[i].init)
    ensures ShapeOf(ast, here, st, depth) == ShapeOf(ast, here, tt, depth)
  {
    hide ShapeOf, PartOf;
    SameShapes(ast, here, st, ast, here, tt, depth);
    forall i | 0 <= i < |st.elems|
      ensures AlikeElems(ast, here, st.elems[i], ast, here, tt.elems[i], depth)
    {
      SameParts(ast, here, st.elems[i], ast, here, tt.elems[i], depth);
      SameButAnnotations(ast, here, st.elems[i], tt.elems[i], depth);
    }
  }

  lemma SameButAnnotations(ast: seq<Space>, here: string, e: Elem, f: Elem, depth: nat)
    requires f == e.(compact := f.compact, init := f.init)
    ensures PartOf(ast, here, e, depth) == PartOf(ast, here, f, depth)
  {
  }
}
