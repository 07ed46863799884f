/**
  The schema text that a generated type carries: parsing it back gives the same namespaces, and
  every type in them the same hash.
*/
module SchemaRoundTrip {
  import opened WireFormat
  import opened SchemaText
  import opened SchemaParser
  import opened SymbolTable
  import opened SchemaReader
  import opened AstPrinter

  /** The namespaces in the order of their texts. */
  function Picked(ast: seq<Space>, order: seq<nat>): (r: seq<Space>)
    requires forall i :: 0 <= i < |order| ==> order[i] < |ast|
    ensures |r| == |order| && forall i :: 0 <= i < |order| ==> r[i] == ast[order[i]]
  {
    if order == [] then [] else [ast[order[0]]] + Picked(ast, order[1..])
  }

  lemma {:induction false} PickedText(ast: seq<Space>, order: seq<nat>)
    requires forall i :: 0 <= i < |order| ==> order[i] < |ast|
    ensures TextOf(ast, order) == Texts(Picked(ast, order))
  {
    hide SpaceTokens;
    if order != [] {
      PickedText(ast, order[1..]);
      assert Picked(ast, order)[1..] == Picked(ast, order[1..]);
    }
  }

  lemma {:induction false} PickedReadable(ast: seq<Space>, order: seq<nat>)
    requires DistinctSpaces(ast) && forall i :: 0 <= i < |ast| ==> LegalSpace(ast[i])
    requires forall i :: 0 <= i < |order| ==> order[i] < |ast|
    requires forall i, j :: 0 <= i < j < |order| ==> order[i] != order[j]
    ensures Readable(NOTHING, Picked(ast, order))
  {
    hide LegalSpace;
    var picked := Picked(ast, order);
    forall i, j | 0 <= i < j < |picked|
      ensures picked[i].name != picked[j].name
    {
      assert order[i] != order[j];
      assert ast[order[i]].name != ast[order[j]].name;
    }
  }

  // ----- hashes

  /** What compute_hash hashes of a struct: the text, with the hashes of inner structs in it. */
  datatype Shape = Shape(space: Option<string>, name: string, parts: seq<Part>)

  datatype Part = Part(size: Option<nat>, typ: PartType, name: string)

  datatype PartType = Basic(t: Builtin) | EnumNamed(name: string) | Inner(shape: Shape) | NotFound

  /** The struct that find_struct returns, with the name of its namespace. */
  function StructFound(ast: seq<Space>, here: string, t: ElemType): Option<(string, StructDecl)> {
    match StructOf(ast, here, t)
    case None => None
    case Some(i) =>
      match FindStructIn(ast[i].structs, t.name)
      case None => None
      case Some(st) => Some((ast[i].name, st))
  }

  /** The depth bounds the nesting, so types that contain themselves need no exception. */
  function ShapeOf(ast: seq<Space>, here: string, st: StructDecl, depth: nat): Shape
    decreases depth, 1
  {
    Shape(if here == GLOBAL then None else Some(here), st.name,
          seq(|st.elems|, i requires 0 <= i < |st.elems| => PartOf(ast, here, st.elems[i], depth)))
  }

  function PartOf(ast: seq<Space>, here: string, e: Elem, depth: nat): Part
    decreases depth, 0
  {
    var t :=
      match e.typ
      case Plain(b) => Basic(b)
      case Custom(_, name) =>
        if EnumOf(ast, here, e.typ).Some? then EnumNamed(name)
        else
          match StructFound(ast, here, e.typ)
          case None => NotFound
          case Some((space, st)) => if depth == 0 then NotFound else Inner(ShapeOf(ast, space, st, depth - 1));
    Part(e.suffix, t, e.name)
  }

  /** What the symbol table sees of a parsed schema. */
  function Table(ast: Ast): seq<Space> {
    [Space(GLOBAL, ast.global, [])] + ast.spaces
  }

  // ----- what looking up finds after rereading

  function GlobalOf(order: seq<Space>): seq<StructDecl> {
    if order == [] then []
    else (if order[0].name == GLOBAL then order[0].structs else []) + GlobalOf(order[1..])
  }

  /** A namespace is found exactly if its text was read, and holds what it held. */
  lemma {:induction false} FindReread(ast: Ast, order: seq<Space>, name: string)
    requires name != GLOBAL
    ensures
      var spaces := Reread(ast, order).spaces;
      match FindSpace(ast.spaces, name)
      case Some(i) => FindSpace(spaces, name) == Some(i) && spaces[i] == ast.spaces[i]
      case None =>
        match FindSpace(order, name)
        case Some(j) => FindSpace(spaces, name).Some? && spaces[FindSpace(spaces, name).value] == Plainly(order[j])
        case None => FindSpace(spaces, name).None?
    ensures Reread(ast, order).global == ast.global + GlobalOf(order)
    decreases order
  {
    if order == [] {
      assert ast.global + [] == ast.global;
    } else if order[0].name == GLOBAL {
      FindReread(ast.(global := ast.global + order[0].structs), order[1..], name);
      assert ast.global + order[0].structs + GlobalOf(order[1..]) == ast.global + (order[0].structs + GlobalOf(order[1..]));
    } else {
      FindReread(ast.(spaces := ast.spaces + [Plainly(order[0])]), order[1..], name);
      FindAppend(ast.spaces, [Plainly(order[0])], name);
      FindOne(Plainly(order[0]), name);
      assert ast.global + ([] + GlobalOf(order[1..])) == ast.global + GlobalOf(order[1..]);
    }
  }

  lemma {:induction false} FindPlain(ens: seq<EnumDecl>, name: string)
    ensures FindEnumIn(PlainEnums(ens), name).Some? == FindEnumIn(ens, name).Some?
  {
    if ens != [] {
      FindPlain(ens[1..], name);
      assert PlainEnums(ens)[1..] == PlainEnums(ens[1..]);
    }
  }

  /** The namespaces of the text, and all that they need. */
  ghost predicate Covers(ast: seq<Space>, order: seq<nat>) {
    && DistinctSpaces(ast)
    && (forall i :: 0 <= i < |ast| && ast[i].name == GLOBAL ==> ast[i].enums == [])
    && (forall i :: 0 <= i < |order| ==> order[i] < |ast|)
    && (forall i, j :: 0 <= i < j < |order| ==> order[i] != order[j])
    && (forall s, d :: s in order && Needs(ast, s, d) ==> d in order)
  }

  function Again(ast: seq<Space>, order: seq<nat>): seq<Space>
    requires forall i :: 0 <= i < |order| ==> order[i] < |ast|
  {
    Table(Reread(NOTHING, Picked(ast, order)))
  }

  lemma {:induction false} FindItself(ast: seq<Space>, i: nat)
    requires DistinctSpaces(ast) && i < |ast|
    ensures FindSpace(ast, ast[i].name) == Some(i)
  {
    assert FindSpace(ast, ast[i].name).Some?;
  }

  lemma {:induction false} GlobalIs(order: seq<Space>)
    requires DistinctSpaces(order)
    ensures GlobalOf(order) == match FindSpace(order, GLOBAL) case Some(j) => order[j].structs case None => []
  {
    if order != [] {
      assert forall i :: 0 <= i < |order[1..]| ==> order[1..][i] == order[i + 1];
      GlobalIs(order[1..]);
      if order[0].name == GLOBAL {
        assert forall i :: 0 <= i < |order[1..]| ==> order[1..][i].name != order[0].name;
        assert order[0].structs + [] == order[0].structs;
      } else {
        assert [] + GlobalOf(order[1..]) == GlobalOf(order[1..]);
      }
    }
  }

  lemma {:induction false} PickedDistinct(ast: seq<Space>, order: seq<nat>)
    requires Covers(ast, order)
    ensures DistinctSpaces(Picked(ast, order))
  {
    hide Needs;
    var picked := Picked(ast, order);
    forall i, j | 0 <= i < j < |picked|
      ensures picked[i].name != picked[j].name
    {
      assert order[i] != order[j];
      assert ast[order[i]].name != ast[order[j]].name;
    }
  }

  /** A namespace whose text was read is found again with the same structs and enum names. */
  lemma {:induction false} FoundAgain(ast: seq<Space>, order: seq<nat>, x: nat, name: string)
    requires Covers(ast, order) && x in order
    ensures
      var (b, r) := (Again(ast, order), FindSpace(Again(ast, order), ast[x].name));
      && r.Some? && b[r.value].structs == ast[x].structs
      && FindEnumIn(b[r.value].enums, name).Some? == FindEnumIn(ast[x].enums, name).Some?
  {
    hide Needs, Reread;
    var picked := Picked(ast, order);
    var j :| 0 <= j < |order| && order[j] == x;
    PickedDistinct(ast, order);
    FindItself(picked, j);
    if ast[x].name == GLOBAL {
      GlobalIs(picked);
      FindReread(NOTHING, picked, "");
      assert [] + GlobalOf(picked) == GlobalOf(picked);
    } else {
      FindReread(NOTHING, picked, ast[x].name);
      FindPlain(ast[x].enums, name);
    }
  }

  /** The global namespace is there even if no text of it was read, but empty. */
  lemma {:induction false} GlobalAgain(ast: seq<Space>, order: seq<nat>)
    requires Covers(ast, order)
    ensures
      var b := Again(ast, order);
      && FindSpace(b, GLOBAL) == Some(0) && b[0].enums == []
      && match FindSpace(ast, GLOBAL)
         case None => b[0].structs == []
         case Some(g) => b[0].structs == if g in order then ast[g].structs else []
  {
    hide Needs, Reread;
    var picked := Picked(ast, order);
    PickedDistinct(ast, order);
    GlobalIs(picked);
    FindReread(NOTHING, picked, "");
    assert [] + GlobalOf(picked) == GlobalOf(picked);
    match FindSpace(picked, GLOBAL)
    case Some(j) => FindItself(ast, order[j]);
    case None =>
      match FindSpace(ast, GLOBAL)
      case Some(g) =>
        forall j | 0 <= j < |order|
          ensures order[j] != g
        {
          assert picked[j].name != GLOBAL;
        }
      case None =>
  }

  /** A namespace of the name is among those of the text. */
  predicate InText(ast: seq<Space>, order: seq<nat>, name: string) {
    match FindSpace(ast, name)
    case None => false
    case Some(x) => x in order
  }

  /** The type was found, but the namespace where it is looked up first is not in the text. */
  predicate Lost(ast: seq<Space>, order: seq<nat>, here: string, t: ElemType) {
    && (StructFound(ast, here, t).Some? || EnumOf(ast, here, t).Some?)
    && !InText(ast, order, LookupSpace(here, t))
  }

  /** No type named in the text is. */
  ghost predicate NoneLost(ast: seq<Space>, order: seq<nat>)
    requires forall i :: 0 <= i < |order| ==> order[i] < |ast|
  {
    forall s, k, i :: s in order && 0 <= k < |ast[s].structs| && 0 <= i < |ast[s].structs[k].elems| ==>
      !Lost(ast, order, ast[s].name, ast[s].structs[k].elems[i].typ)
  }

  lemma {:induction false} NeedsElem(ast: seq<Space>, s: nat, st: StructDecl, i: nat, d: nat)
    requires s < |ast| && st in ast[s].structs && i < |st.elems| && ElemNeeds(ast, s, st.elems[i], d)
    ensures Needs(ast, s, d)
  {
    var k :| 0 <= k < |ast[s].structs| && ast[s].structs[k] == st;
    assert StructNeeds(ast, s, ast[s].structs[k], d);
  }

  /** Looking a type up gives the same before and after. */
  predicate FoundAlike(ast: seq<Space>, b: seq<Space>, here: string, t: ElemType) {
    StructFound(b, here, t) == StructFound(ast, here, t) && EnumOf(b, here, t).Some? == EnumOf(ast, here, t).Some?
  }

  /** A type found where it is looked up first, or else globally, is found again if that namespace is there. */
  lemma {:induction false} FoundIfThere(ast: seq<Space>, order: seq<nat>, s: nat, st: StructDecl, i: nat)
    requires Covers(ast, order) && s in order && st in ast[s].structs && i < |st.elems|
    requires st.elems[i].typ.Custom? && InText(ast, order, LookupSpace(ast[s].name, st.elems[i].typ))
    ensures FoundAlike(ast, Again(ast, order), ast[s].name, st.elems[i].typ)
  {
    hide Needs, Again;
    var t := st.elems[i].typ;
    FoundAgain(ast, order, FindSpace(ast, LookupSpace(ast[s].name, t)).value, t.name);
    GlobalAgain(ast, order);
    var d := StructOf(ast, ast[s].name, t);
    if d.Some? {
      NeedsElem(ast, s, st, i, d.value);
    }
  }

  /** No type is found in a namespace that is not there, which has no fallback. */
  lemma {:induction false} NothingIfNotThere(ast: seq<Space>, order: seq<nat>, here: string, t: ElemType)
    requires Covers(ast, order) && t.Custom? && LookupSpace(here, t) != GLOBAL
    requires !InText(ast, order, LookupSpace(here, t))
    ensures StructFound(Again(ast, order), here, t) == None && EnumOf(Again(ast, order), here, t) == None
  {
    hide Needs, Reread;
    var (picked, name) := (Picked(ast, order), LookupSpace(here, t));
    FindReread(NOTHING, picked, name);
    match FindSpace(picked, name)
    case Some(j) => FindItself(ast, order[j]);
    case None =>
  }

  /**
    A type named in the text is found again as it was, in a namespace of the text, exactly unless
    it was found but the namespace where it is looked up first is not in the text.
  */
  lemma {:induction false} SameLookup(ast: seq<Space>, order: seq<nat>, s: nat, st: StructDecl, i: nat)
    requires Covers(ast, order) && s in order && st in ast[s].structs && i < |st.elems|
    ensures
      var (here, t) := (ast[s].name, st.elems[i].typ);
      && (FoundAlike(ast, Again(ast, order), here, t) <==> !Lost(ast, order, here, t))
      && (Lost(ast, order, here, t) ==>
            StructFound(Again(ast, order), here, t) == None && EnumOf(Again(ast, order), here, t) == None)
      && match StructOf(ast, here, t) case None => true case Some(d) => d in order
  {
    hide Needs, Again;
    var (here, t) := (ast[s].name, st.elems[i].typ);
    var d := StructOf(ast, here, t);
    if d.Some? {
      NeedsElem(ast, s, st, i, d.value);
    }
    if t.Custom? {
      if InText(ast, order, LookupSpace(here, t)) {
        FoundIfThere(ast, order, s, st, i);
      } else if LookupSpace(here, t) == GLOBAL {
        GlobalAgain(ast, order);
      } else {
        NothingIfNotThere(ast, order, here, t);
      }
    }
  }

  /**
    Only a type that its namespace, or the one it names, does not declare itself can be lost: one that
    is found through the global namespace instead.
  */
  lemma {:induction false} OnlyFallbackLost(ast: seq<Space>, order: seq<nat>, s: nat, st: StructDecl, i: nat)
    requires Covers(ast, order) && s in order && st in ast[s].structs && i < |st.elems|
    requires Lost(ast, order, ast[s].name, st.elems[i].typ)
    ensures
      var t := st.elems[i].typ;
      && t.Custom? && !DeclaresStruct(ast, LookupSpace(ast[s].name, t), t.name)
      && !DeclaresEnum(ast, LookupSpace(ast[s].name, t), t.name)
  {
    hide Needs, FindStructIn, FindEnumIn;
    var t := st.elems[i].typ;
    var x := FindSpace(ast, LookupSpace(ast[s].name, t));
    if x.Some? && (FindStructIn(ast[x.value].structs, t.name).Some? || FindEnumIn(ast[x.value].enums, t.name).Some?) {
      NeedsElem(ast, s, st, i, x.value);
    }
  }

  /** Every type in the text has the hash it had, to any depth of nesting, if none is lost. */
  lemma {:induction false} SameShape(ast: seq<Space>, order: seq<nat>, s: nat, st: StructDecl, depth: nat)
    requires Covers(ast, order) && NoneLost(ast, order) && s in order && st in ast[s].structs
    ensures ShapeOf(Again(ast, order), ast[s].name, st, depth) == ShapeOf(ast, ast[s].name, st, depth)
    decreases depth
  {
    hide Needs, Again, Lost, StructOf, EnumOf;
    var (b, here) := (Again(ast, order), ast[s].name);
    var k :| 0 <= k < |ast[s].structs| && ast[s].structs[k] == st;
    forall i | 0 <= i < |st.elems|
      ensures PartOf(b, here, st.elems[i], depth) == PartOf(ast, here, st.elems[i], depth)
    {
      assert !Lost(ast, order, here, ast[s].structs[k].elems[i].typ);
      SameLookup(ast, order, s, st, i);
      var d := StructOf(ast, here, st.elems[i].typ);
      if d.Some? && depth > 0 && st.elems[i].typ.Custom? {
        var inner := FindStructIn(ast[d.value].structs, st.elems[i].typ.name);
        if inner.Some? {
          SameShape(ast, order, d.value, inner.value, depth - 1);
        }
      }
    }
    assert ShapeOf(b, here, st, depth).parts == ShapeOf(ast, here, st, depth).parts;
  }

  /** A lost type changes the hash of the struct that names it. */
  lemma {:induction false} OtherShape(ast: seq<Space>, order: seq<nat>, s: nat, k: nat, i: nat)
    requires Covers(ast, order) && s in order && k < |ast[s].structs| && i < |ast[s].structs[k].elems|
    requires Lost(ast, order, ast[s].name, ast[s].structs[k].elems[i].typ)
    ensures ShapeOf(Again(ast, order), ast[s].name, ast[s].structs[k], 1)
         != ShapeOf(ast, ast[s].name, ast[s].structs[k], 1)
  {
    hide Needs, Again;
    var (b, here, st) := (Again(ast, order), ast[s].name, ast[s].structs[k]);
    SameLookup(ast, order, s, st, i);
    assert PartOf(b, here, st.elems[i], 1).typ == NotFound;
    assert PartOf(ast, here, st.elems[i], 1).typ != NotFound;
    assert ShapeOf(b, here, st, 1).parts[i] == PartOf(b, here, st.elems[i], 1);
    assert ShapeOf(ast, here, st, 1).parts[i] == PartOf(ast, here, st.elems[i], 1);
  }

  /** All types in the text have the hashes they had, to any depth, exactly if none is lost. */
  lemma {:induction false} SameHashes(ast: seq<Space>, order: seq<nat>)
    requires Covers(ast, order)
    ensures
      (forall s, st, depth :: s in order && st in ast[s].structs ==>
         ShapeOf(Again(ast, order), ast[s].name, st, depth) == ShapeOf(ast, ast[s].name, st, depth))
      <==> NoneLost(ast, order)
  {
    hide Needs, Again, Lost, ShapeOf;
    if NoneLost(ast, order) {
      forall s, st, depth | s in order && st in ast[s].structs
        ensures ShapeOf(Again(ast, order), ast[s].name, st, depth) == ShapeOf(ast, ast[s].name, st, depth)
      {
        SameShape(ast, order, s, st, depth);
      }
    } else {
      var s, k, i :| s in order && 0 <= k < |ast[s].structs| && 0 <= i < |ast[s].structs[k].elems|
        && Lost(ast, order, ast[s].name, ast[s].structs[k].elems[i].typ);
      OtherShape(ast, order, s, k, i);
      assert ast[s].structs[k] in ast[s].structs;
    }
  }

  lemma {:induction false} ReachesOn(ast: seq<Space>, s: nat, i: nat, d: nat)
    requires s < |ast| && i < |ast| && d < |ast| && (i == s || Reaches(ast, s, i)) && Needs(ast, i, d)
    ensures Reaches(ast, s, d)
  {
    hide Needs;
    var path := [s];
    if i != s {
      path :| IsPath(ast, path) && |path| > 1 && path[0] == s && path[|path| - 1] == i;
    }
    var longer := path + [d];
    assert forall k :: 0 <= k < |path| ==> longer[k] == path[k];
    assert IsPath(ast, longer) && longer[|longer| - 1] == d;
  }

  /** The text printed for a struct covers what its namespace needs. */
  lemma {:induction false} PrintedCovers(ast: seq<Space>, s: nat, order: seq<nat>)
    requires s < |ast| && DistinctSpaces(ast) && forall i :: 0 <= i < |ast| ==> LegalSpace(ast[i])
    requires forall i :: 0 <= i < |order| ==> order[i] < |ast|
    requires forall i, j :: 0 <= i < j < |order| ==> order[i] != order[j]
    requires forall d :: d in order <==> d == s || Reaches(ast, s, d)
    ensures Covers(ast, order) && s in order
  {
    hide Needs, Reaches;
    forall i, d | i in order && Needs(ast, i, d)
      ensures d in order
    {
      NeededInside(ast, i, d);
      ReachesOn(ast, s, i, d);
    }
  }

  lemma {:induction false} NeededInside(ast: seq<Space>, s: nat, d: nat)
    requires s < |ast| && Needs(ast, s, d)
    ensures d < |ast|
  {
  }

  /**
    Printing a struct's namespace with all it needs, and parsing the text: the namespaces come
    back, and so does every hash, exactly if no type that the text names is lost.
  */
  method PrintAndParse(ast: seq<Space>, s: nat) returns (r: Option<Ast>, ghost order: seq<nat>)
    requires s < |ast| && DistinctSpaces(ast) && forall i :: 0 <= i < |ast| ==> LegalSpace(ast[i])
    ensures forall i :: 0 <= i < |order| ==> order[i] < |ast|
    ensures forall i, j :: 0 <= i < j < |order| ==> order[i] != order[j]
    ensures forall d :: d in order <==> d == s || Reaches(ast, s, d)
    ensures r == Some(Reread(NOTHING, Picked(ast, order)))
    ensures (forall d, st, depth :: d in order && st in ast[d].structs ==>
               ShapeOf(Table(r.value), ast[d].name, st, depth) == ShapeOf(ast, ast[d].name, st, depth))
            <==> NoneLost(ast, order)
  {
    hide SpaceTokens, Reaches, Reread, LegalSpace, Table, ShapeOf, NoneLost, Needs;
    var printer := new Printer(ast);
    order := printer.PrintAst(s);
    PickedText(ast, order);
    var parser := new Parser(printer.buffer);
    PickedReadable(ast, order);
    r := ReadPrinted(parser, Picked(ast, order));
    PrintedCovers(ast, s, order);
    SameHashes(ast, order);
  }

  /** A type that its namespace only sees through the global one is lost if nothing else needs that namespace. */
  lemma {:induction false} QualifiedNameLost()
    ensures
      var foo := StructDecl("Foo", false, []);
      var bar := StructDecl("Bar", false, [Elem("x", Custom(Some("n"), "Foo"), None, false, None)]);
      var ast := [Space(GLOBAL, [foo], []), Space("n", [], []), Space("m", [bar], [])];
      && Lost(ast, [0, 2], "m", bar.elems[0].typ)
      && StructFound(ast, "m", bar.elems[0].typ) == Some((GLOBAL, foo))
      && StructFound(Again(ast, [0, 2]), "m", bar.elems[0].typ) == None
  {
    var foo := StructDecl("Foo", false, []);
    var bar := StructDecl("Bar", false, [Elem("x", Custom(Some("n"), "Foo"), None, false, None)]);
    var ast := [Space(GLOBAL, [foo], []), Space("n", [], []), Space("m", [bar], [])];
    assert ast[1..][0] == ast[1];
    assert FindSpace(ast[1..], "n") == Some(0);
    assert Picked(ast, [0, 2][1..]) == [ast[2]];
    var picked := Picked(ast, [0, 2]);
    FindReread(NOTHING, picked, "n");
    assert FindSpace(picked[1..], "n") == None;
  }
}
