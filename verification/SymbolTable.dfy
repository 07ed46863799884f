/** Looking up the types that elements name, in their namespace or else in the global one. */
module SymbolTable {
  import opened WireFormat
  import opened SchemaText

  /** The first namespace of a name. */
  function FindSpace(ast: seq<Space>, name: string): (r: Option<nat>)
    ensures r.Some? ==> r.value < |ast| && ast[r.value].name == name
    ensures r.None? ==> forall i :: 0 <= i < |ast| ==> ast[i].name != name
  {
    if ast == [] then None
    else if ast[0].name == name then Some(0)
    else
      match FindSpace(ast[1..], name)
      case None => None
      case Some(i) => Some(i + 1)
  }

  lemma {:induction false} FindAppend(a: seq<Space>, b: seq<Space>, name: string)
    ensures FindSpace(a + b, name) ==
              match FindSpace(a, name)
              case Some(i) => Some(i)
              case None => (match FindSpace(b, name) case None => None case Some(j) => Some(|a| + j))
  {
    if a == [] {
      assert a + b == b;
    } else {
      assert (a + b)[1..] == a[1..] + b;
      FindAppend(a[1..], b, name);
    }
  }

  lemma {:induction false} FindOne(sp: Space, name: string)
    ensures FindSpace([sp], name) == if sp.name == name then Some(0) else None
  {
    assert [sp][1..] == [];
  }

  function FindStructIn(sts: seq<StructDecl>, name: string): (r: Option<StructDecl>)
    ensures r.Some? ==> r.value in sts && r.value.name == name
  {
    if sts == [] then None else if sts[0].name == name then Some(sts[0]) else FindStructIn(sts[1..], name)
  }

  function FindEnumIn(ens: seq<EnumDecl>, name: string): (r: Option<EnumDecl>)
    ensures r.Some? ==> r.value in ens && r.value.name == name
  {
    if ens == [] then None else if ens[0].name == name then Some(ens[0]) else FindEnumIn(ens[1..], name)
  }

  ghost predicate FirstStruct(sts: seq<StructDecl>, name: string, i: nat) {
    i < |sts| && sts[i].name == name && forall k :: 0 <= k < i ==> sts[k].name != name
  }

  /** A declaration is found if there is one of the name, and then the first. */
  lemma {:induction false} FirstFound(sts: seq<StructDecl>, name: string)
    ensures FindStructIn(sts, name).None? <==> forall i :: 0 <= i < |sts| ==> sts[i].name != name
    ensures forall i: nat :: FirstStruct(sts, name, i) ==> FindStructIn(sts, name) == Some(sts[i])
  {
    if sts != [] && sts[0].name != name {
      FirstFound(sts[1..], name);
      forall i: nat | FirstStruct(sts, name, i)
        ensures FindStructIn(sts, name) == Some(sts[i])
      {
        assert FirstStruct(sts[1..], name, i - 1);
      }
    }
  }

  ghost predicate FirstEnum(ens: seq<EnumDecl>, name: string, i: nat) {
    i < |ens| && ens[i].name == name && forall k :: 0 <= k < i ==> ens[k].name != name
  }

  lemma {:induction false} FirstEnumFound(ens: seq<EnumDecl>, name: string)
    ensures FindEnumIn(ens, name).None? <==> forall i :: 0 <= i < |ens| ==> ens[i].name != name
    ensures forall i: nat :: FirstEnum(ens, name, i) ==> FindEnumIn(ens, name) == Some(ens[i])
  {
    if ens != [] && ens[0].name != name {
      FirstEnumFound(ens[1..], name);
      forall i: nat | FirstEnum(ens, name, i)
        ensures FindEnumIn(ens, name) == Some(ens[i])
      {
        assert FirstEnum(ens[1..], name, i - 1);
      }
    }
  }

  predicate DeclaresStruct(ast: seq<Space>, space: string, name: string) {
    match FindSpace(ast, space)
    case None => false
    case Some(i) => FindStructIn(ast[i].structs, name).Some?
  }

  predicate DeclaresEnum(ast: seq<Space>, space: string, name: string) {
    match FindSpace(ast, space)
    case None => false
    case Some(i) => FindEnumIn(ast[i].enums, name).Some?
  }

  /** The namespace in which find_struct finds the type; an unknown namespace has no fallback. */
  function StructSpace(ast: seq<Space>, space: string, name: string): (r: Option<nat>)
    ensures r.Some? ==> r.value < |ast| && FindStructIn(ast[r.value].structs, name).Some?
    ensures r.Some? ==> ast[r.value].name == if DeclaresStruct(ast, space, name) then space else GLOBAL
    ensures r.None? <==> FindSpace(ast, space).None?
                         || (!DeclaresStruct(ast, space, name) && !DeclaresStruct(ast, GLOBAL, name))
  {
    match FindSpace(ast, space)
    case None => None
    case Some(i) =>
      if FindStructIn(ast[i].structs, name).Some? then Some(i)
      else
        match FindSpace(ast, GLOBAL)
        case None => None
        case Some(g) => if FindStructIn(ast[g].structs, name).Some? then Some(g) else None
  }

  function EnumSpace(ast: seq<Space>, space: string, name: string): (r: Option<nat>)
    ensures r.Some? ==> r.value < |ast| && FindEnumIn(ast[r.value].enums, name).Some?
    ensures r.Some? ==> ast[r.value].name == if DeclaresEnum(ast, space, name) then space else GLOBAL
    ensures r.None? <==> FindSpace(ast, space).None?
                         || (!DeclaresEnum(ast, space, name) && !DeclaresEnum(ast, GLOBAL, name))
  {
    match FindSpace(ast, space)
    case None => None
    case Some(i) =>
      if FindEnumIn(ast[i].enums, name).Some? then Some(i)
      else
        match FindSpace(ast, GLOBAL)
        case None => None
        case Some(g) => if FindEnumIn(ast[g].enums, name).Some? then Some(g) else None
  }

  /** Where an element's type is looked up first. */
  function LookupSpace(here: string, t: ElemType): string
    requires t.Custom?
  {
    if t.space.Some? then t.space.value else here
  }

  function StructOf(ast: seq<Space>, here: string, t: ElemType): (r: Option<nat>)
    ensures r.Some? ==> r.value < |ast|
  {
    if t.Custom? then StructSpace(ast, LookupSpace(here, t), t.name) else None
  }

  function EnumOf(ast: seq<Space>, here: string, t: ElemType): (r: Option<nat>)
    ensures r.Some? ==> r.value < |ast|
  {
    if t.Custom? then EnumSpace(ast, LookupSpace(here, t), t.name) else None
  }
}
