/** Reading whole schemas: namespaces, and the declarations outside any namespace. */
module SchemaReader {
  import opened WireFormat
  import opened SchemaText
  import opened DeclSyntax
  import opened SchemaParser
  import opened DeclWritten
  import opened SymbolTable

  /** What the parser builds; enums outside namespaces are kept where no lookup sees them. */
  datatype Ast = Ast(spaces: seq<Space>, global: seq<StructDecl>, enums: seq<EnumDecl>)

  const NOTHING := Ast([], [], [])

  // ----- what a text means

  /** What has been read with one thing more; a namespace of a name that is there already is continued. */
  function WithTop(ast: Ast, t: Top): Option<Ast> {
    match t
    case Outside(StructForm(_, _, _)) =>
      (match StructMeant(t.decl) case None => None case Some(st) => Some(ast.(global := ast.global + [st])))
    case Outside(EnumForm(_, _, _, _)) =>
      (match EnumMeant(t.decl) case None => None case Some(en) => Some(ast.(enums := ast.enums + [en])))
    case Within(name, ds) =>
      match FindSpace(ast.spaces, name)
      case None =>
        (match WithDecls(Space(name, [], []), ds)
         case None => None
         case Some(sp) => Some(ast.(spaces := ast.spaces + [sp])))
      case Some(i) =>
        match WithDecls(ast.spaces[i], ds)
        case None => None
        case Some(sp) => Some(ast.(spaces := ast.spaces[i := sp]))
  }

  function WithTops(ast: Ast, ts: seq<Top>): Option<Ast>
    decreases ts
  {
    if ts == [] then Some(ast)
    else
      match WithTop(ast, ts[0])
      case None => None
      case Some(next) => WithTops(next, ts[1..])
  }

  predicate AllGrouped(ds: seq<Decl>) {
    forall i :: 0 <= i < |ds| ==> DeclGrouped(ds[i])
  }

  predicate TopsGrouped(ts: seq<Top>) {
    forall i :: 0 <= i < |ts| ==> TopGrouped(ts[i])
  }

  lemma GroupedMore(ds: seq<Decl>, d: Decl)
    ensures AllGrouped([]) && (AllGrouped(ds) && DeclGrouped(d) ==> AllGrouped(ds + [d]))
    ensures AllGrouped(ds) && ds != [] ==> DeclGrouped(ds[0]) && AllGrouped(ds[1..])
  {
    hide DeclGrouped;
  }

  lemma TopsMore(ts: seq<Top>, t: Top)
    ensures TopsGrouped([]) && (TopsGrouped(ts) && TopGrouped(t) ==> TopsGrouped(ts + [t]))
    ensures TopsGrouped(ts) && ts != [] ==> TopGrouped(ts[0]) && TopsGrouped(ts[1..])
  {
    hide TopGrouped;
  }

  // ----- namespaces

  /** The declarations of a namespace, and its closing brace. */
  method ParseBody(p: Parser, start: Space, ghost ds: seq<Decl>, ghost rest: seq<Token>)
    returns (r: Option<Space>, ghost gs: seq<Decl>)
    requires p.Valid()
    modifies p
    ensures p.Valid() && p.pos >= old(p.pos)
    ensures r.Some? ==> AllGrouped(gs) && r == WithDecls(start, gs) && p.Read(old(p.pos), DeclsText(gs) + [Punct(CloseBrace)])
    ensures AllGrouped(ds) && old(p.At(DeclsText(ds) + ([Punct(CloseBrace)] + rest))) ==>
              r == WithDecls(start, ds) && (r.Some? ==> p.At(rest))
  {
    hide DeclText, DeclsText, DeclGrouped, AllGrouped, WithDecls, Parser.Read, Parser.At;
    ghost var close := [Punct(CloseBrace)] + rest;
    ghost var known := AllGrouped(ds) && p.At(DeclsText(ds) + close);
    ghost var left := ds;
    var sp := start;
    gs := [];
    p.NothingRead();
    NoDecls(start);
    GroupedMore([], EnumForm("", false, [], false));
    while p.Peek() != Punct(CloseBrace)
      invariant p.Valid() && p.pos >= old(p.pos)
      invariant AllGrouped(gs) && WithDecls(start, gs) == Some(sp) && p.Read(old(p.pos), DeclsText(gs))
      invariant known ==> AllGrouped(left) && p.At(DeclsText(left) + close) && WithDecls(sp, left) == WithDecls(start, ds)
      decreases |p.tokens| - p.pos
    {
      ghost var d, after := EnumForm("", false, [], false), close;
      if known {
        p.PeekIs(DeclsText(left) + close);
        DeclsNext(left, close);
        assert left != [];
        d, after := left[0], DeclsText(left[1..]) + close;
        GroupedMore(left, d);
        DeclNext(sp, left);
      }
      p.SoFar(old(p.pos), DeclsText(gs));
      ghost var from := p.pos;
      var next;
      ghost var g;
      next, g := ParseDecl(p, sp, d, after);
      if next.None? {
        return None, gs;
      }
      WithDeclsMore(start, gs, g);
      DeclsTextMore(gs, g);
      GroupedMore(gs, g);
      p.ReadBoth(old(p.pos), from, DeclsText(gs), DeclText(g));
      sp, gs, left := next.value, gs + [g], if known then left[1..] else left;
    }
    if known {
      p.PeekIs(DeclsText(left) + close);
      DeclsNext(left, close);
      NoDecls(sp);
    }
    var _ := p.Take(old(p.pos), DeclsText(gs), rest);
    r := Some(sp);
  }

  lemma NoDecls(sp: Space)
    ensures DeclsText([]) == [] && WithDecls(sp, []) == Some(sp)
  {
  }

  lemma DeclNext(sp: Space, left: seq<Decl>)
    requires left != []
    ensures WithDecls(sp, left)
         == match WithDecls(sp, [left[0]]) case None => None case Some(sp') => WithDecls(sp', left[1..])
  {
    hide StructMeant, EnumMeant;
    assert [left[0]][1..] == [];
  }

  /** One of them. */
  method ParseDecl(p: Parser, sp: Space, ghost d: Decl, ghost rest: seq<Token>) returns (r: Option<Space>, ghost g: Decl)
    requires p.Valid()
    modifies p
    ensures p.Valid() && p.pos >= old(p.pos) && (r.Some? ==> p.pos > old(p.pos))
    ensures r.Some? ==> DeclGrouped(g) && r == WithDecls(sp, [g]) && p.Read(old(p.pos), DeclText(g))
    ensures DeclGrouped(d) && old(p.At(DeclText(d) + rest)) ==> r == WithDecls(sp, [d]) && (r.Some? ==> p.At(rest))
  {
    hide DeclText, DeclGrouped, StructMeant, EnumMeant, Parser.Read, Parser.At;
    ghost var known := DeclGrouped(d) && p.At(DeclText(d) + rest);
    if known {
      FirstWord(d, rest);
      p.PeekIs(DeclText(d) + rest);
    }
    g := d;
    assert [d][1..] == [];
    if p.Peek() == Word(Struct) {
      var st;
      st, g := p.ParseStruct(d, rest);
      assert [g][1..] == [];
      r := if st.None? then None else Some(sp.(structs := sp.structs + [st.value]));
    } else if p.Peek() == Word(Enum) {
      var en;
      en, g := p.ParseEnum(d, rest);
      assert [g][1..] == [];
      r := if en.None? then None else Some(sp.(enums := sp.enums + [en.value]));
    } else {
      r := None;
    }
  }

  lemma FirstWord(d: Decl, rest: seq<Token>)
    ensures DeclText(d) + rest != []
    ensures (DeclText(d) + rest)[0] == if d.StructForm? then Word(Struct) else Word(Enum)
  {
    hide ElemsText, ItemsText;
  }

  /** A namespace is looked up once, or begun empty behind the others, and its declarations added there. */
  lemma WithinMeant(ast: Ast, name: string, ds: seq<Decl>)
    ensures
      var i := FindSpace(ast.spaces, name);
      var (spaces, at) := if i.Some? then (ast.spaces, i.value) else (ast.spaces + [Space(name, [], [])], |ast.spaces|);
      && at < |spaces| && (TopGrouped(Within(name, ds)) <==> AllGrouped(ds))
      && WithTop(ast, Within(name, ds))
         == match WithDecls(spaces[at], ds) case None => None case Some(sp) => Some(ast.(spaces := spaces[at := sp]))
  {
    hide WithDecls, DeclGrouped;
    if FindSpace(ast.spaces, name).None? {
      forall sp: Space
        ensures (ast.spaces + [Space(name, [], [])])[|ast.spaces| := sp] == ast.spaces + [sp]
      {
      }
    }
  }

  method ParseNamespace(p: Parser, ast: Ast, ghost t: Top, ghost rest: seq<Token>) returns (r: Option<Ast>, ghost g: Top)
    requires p.Valid()
    modifies p
    ensures p.Valid() && p.pos >= old(p.pos) && (r.Some? ==> p.pos > old(p.pos))
    ensures r.Some? ==> g.Within? && TopGrouped(g) && r == WithTop(ast, g) && p.Read(old(p.pos), TopText(g))
    ensures t.Within? && TopGrouped(t) && old(p.At(TopText(t) + rest)) ==> r == WithTop(ast, t) && (r.Some? ==> p.At(rest))
  {
    hide TopText, TopGrouped, AllGrouped, DeclsText, WithTop, WithDecls, Parser.Read, Parser.At;
    ghost var known := t.Within? && TopGrouped(t) && p.At(TopText(t) + rest);
    ghost var ds := if known then t.decls else [];
    ghost var body := DeclsText(ds) + ([Punct(CloseBrace)] + rest);
    ghost var open := [Punct(OpenBrace)] + body;
    ghost var named := if known then [Identifier(t.space)] + open else open;
    if known {
      WithinIs(t.space, ds, rest);
      WithinMeant(ast, t.space, ds);
      p.PeekIs([Word(Namespace)] + named);
    }
    g := t;
    p.NothingRead();
    var w := p.Take(old(p.pos), [], named);
    assert [] + [w] == [w];
    if w != Word(Namespace) {
      return None, g;
    }
    if known {
      p.PeekIs(named);
    }
    var name := p.Take(old(p.pos), [w], open);
    if !name.Identifier? {
      return None, g;
    }
    var spaces := ast.spaces;
    var at := |spaces|;
    match FindSpace(spaces, name.name) {
      case Some(i) => at := i;
      case None => spaces := spaces + [Space(name.name, [], [])];
    }
    if known {
      p.PeekIs(open);
    }
    var brace := p.Take(old(p.pos), [w] + [name], body);
    if brace != Punct(OpenBrace) {
      return None, g;
    }
    p.SoFar(old(p.pos), [w] + [name] + [brace]);
    ghost var mid, gs := p.pos, [];
    var next;
    next, gs := ParseBody(p, spaces[at], ds, rest);
    if next.None? {
      return None, g;
    }
    g := Within(name.name, gs);
    WithinIs(name.name, gs, rest);
    WithinMeant(ast, name.name, gs);
    p.ReadBoth(old(p.pos), mid, [w] + [name] + [brace], DeclsText(gs) + [Punct(CloseBrace)]);
    r := Some(ast.(spaces := spaces[at := next.value]));
  }

  // ----- the whole text

  /** The parser's top level, up to the end of the text. */
  method ParseInternal(p: Parser, ghost ts: seq<Top>) returns (r: Option<Ast>, ghost gs: seq<Top>)
    requires p.Valid()
    modifies p
    ensures p.Valid()
    ensures r.Some? ==>
              && TopsGrouped(gs) && r == WithTops(NOTHING, gs)
              && p.Read(old(p.pos), TopsText(gs)) && p.Peek() == LastToken
    ensures TopsGrouped(ts) && old(p.At(TopsText(ts))) ==> r == WithTops(NOTHING, ts)
  {
    hide TopText, TopsText, TopGrouped, TopsGrouped, WithTop, WithTops, Parser.Read, Parser.At;
    ghost var known := TopsGrouped(ts) && p.At(TopsText(ts));
    ghost var left := ts;
    var ast := NOTHING;
    gs := [];
    p.NothingRead();
    NoTops(ast);
    TopsMore([], Within("", []));
    while p.Peek() != LastToken
      invariant p.Valid() && p.pos >= old(p.pos)
      invariant TopsGrouped(gs) && WithTops(NOTHING, gs) == Some(ast) && p.Read(old(p.pos), TopsText(gs))
      invariant known ==> TopsGrouped(left) && p.At(TopsText(left)) && WithTops(ast, left) == WithTops(NOTHING, ts)
      decreases |p.tokens| - p.pos
    {
      ghost var t, rest := Within("", []), [];
      if known {
        TopsNext(left);
        AtEnd(p, left);
        t, rest := left[0], TopsText(left[1..]);
        TopsMore(left, t);
        WithTopsNext(ast, left);
      }
      p.SoFar(old(p.pos), TopsText(gs));
      ghost var from := p.pos;
      var next;
      ghost var g;
      next, g := ParseTop(p, ast, t, rest);
      if next.None? {
        return None, gs;
      }
      WithTopsMore(NOTHING, gs, g);
      TopsTextMore(gs, g);
      TopsMore(gs, g);
      p.ReadBoth(old(p.pos), from, TopsText(gs), TopText(g));
      ast, gs, left := next.value, gs + [g], if known then left[1..] else left;
    }
    if known {
      TopsNext(left);
      AtEnd(p, left);
      NoTops(ast);
    }
    r := Some(ast);
  }

  /** Every text begins with a word, so the end is where none is left. */
  lemma {:induction false} AtEnd(p: Parser, left: seq<Top>)
    requires p.At(TopsText(left))
    ensures p.Valid() && (p.Peek() == LastToken <==> left == [])
  {
    hide TopsText;
    TopsNext(left);
  }

  lemma NoTops(ast: Ast)
    ensures TopsText([]) == [] && WithTops(ast, []) == Some(ast)
  {
  }

  lemma WithTopsNext(ast: Ast, left: seq<Top>)
    requires left != []
    ensures WithTops(ast, left) == match WithTop(ast, left[0]) case None => None case Some(next) => WithTops(next, left[1..])
  {
    hide WithTop;
  }

  lemma {:induction false} WithTopsMore(ast: Ast, ts: seq<Top>, t: Top)
    requires WithTops(ast, ts).Some?
    ensures WithTops(ast, ts + [t]) == WithTop(WithTops(ast, ts).value, t)
    decreases ts
  {
    hide WithTop;
    if ts == [] {
      assert [t][1..] == [] && [] + [t] == [t];
    } else {
      assert (ts + [t])[1..] == ts[1..] + [t];
      WithTopsMore(WithTop(ast, ts[0]).value, ts[1..], t);
    }
  }

  /** A namespace or a declaration. */
  method ParseTop(p: Parser, ast: Ast, ghost t: Top, ghost rest: seq<Token>) returns (r: Option<Ast>, ghost g: Top)
    requires p.Valid()
    modifies p
    ensures p.Valid() && p.pos >= old(p.pos) && (r.Some? ==> p.pos > old(p.pos))
    ensures r.Some? ==> TopGrouped(g) && r == WithTop(ast, g) && p.Read(old(p.pos), TopText(g))
    ensures TopGrouped(t) && old(p.At(TopText(t) + rest)) ==> r == WithTop(ast, t) && (r.Some? ==> p.At(rest))
  {
    hide DeclText, DeclGrouped, StructMeant, EnumMeant, Parser.Read, Parser.At, AllGrouped, WithDecls, DeclsText;
    ghost var known := TopGrouped(t) && p.At(TopText(t) + rest);
    ghost var d := if known && t.Outside? then t.decl else EnumForm("", false, [], false);
    if known {
      FirstOfTop(t, rest);
      p.PeekIs(TopText(t) + rest);
    }
    g := t;
    if p.Peek() == Word(Namespace) {
      r, g := ParseNamespace(p, ast, t, rest);
    } else if p.Peek() == Word(Struct) {
      var st;
      ghost var e;
      st, e := p.ParseStruct(d, rest);
      g := Outside(e);
      r := if st.None? then None else Some(ast.(global := ast.global + [st.value]));
    } else if p.Peek() == Word(Enum) {
      var en;
      ghost var e;
      en, e := p.ParseEnum(d, rest);
      g := Outside(e);
      r := if en.None? then None else Some(ast.(enums := ast.enums + [en.value]));
    } else {
      r := None;
    }
  }

  lemma FirstOfTop(t: Top, rest: seq<Token>)
    ensures TopText(t) + rest != []
    ensures (TopText(t) + rest)[0] == match t
                                      case Outside(StructForm(_, _, _)) => Word(Struct)
                                      case Outside(EnumForm(_, _, _, _)) => Word(Enum)
                                      case Within(_, _) => Word(Namespace)
  {
    hide DeclsText, DeclText;
    if t.Outside? {
      FirstWord(t.decl, rest);
    }
  }

  // ----- namespaces as they are printed

  /** The enums as their text says: not enum classes. */
  function PlainEnums(ens: seq<EnumDecl>): (r: seq<EnumDecl>)
    ensures |r| == |ens|
  {
    if ens == [] then [] else [ens[0].(isClass := false)] + PlainEnums(ens[1..])
  }

  function Plainly(sp: Space): Space {
    sp.(enums := PlainEnums(sp.enums))
  }

  predicate LegalSpace(sp: Space) {
    && (forall i :: 0 <= i < |sp.structs| ==> LegalStruct(sp.structs[i]))
    && (forall i :: 0 <= i < |sp.enums| ==> LegalItems(sp.enums[i].items))
    && (sp.name == GLOBAL ==> sp.enums == [])
  }

  predicate DistinctSpaces(sps: seq<Space>) {
    forall i, j :: 0 <= i < j < |sps| ==> sps[i].name != sps[j].name
  }

  function Texts(order: seq<Space>): seq<Token> {
    if order == [] then [] else SpaceTokens(order[0]) + Texts(order[1..])
  }

  /** What reading the texts of the namespaces adds to what has been read. */
  function Reread(ast: Ast, order: seq<Space>): Ast
    decreases order
  {
    if order == [] then ast
    else if order[0].name == GLOBAL then Reread(ast.(global := ast.global + order[0].structs), order[1..])
    else Reread(ast.(spaces := ast.spaces + [Plainly(order[0])]), order[1..])
  }

  /** The texts left can be read after what has been read. */
  ghost predicate Readable(ast: Ast, order: seq<Space>) {
    && DistinctSpaces(order) && (forall i :: 0 <= i < |order| ==> LegalSpace(order[i]))
    && (forall i :: 0 <= i < |order| ==> FindSpace(ast.spaces, order[i].name).None?)
  }

  function PrintedStructs(sts: seq<StructDecl>): seq<Decl> {
    if sts == [] then [] else [WrittenStruct(sts[0])] + PrintedStructs(sts[1..])
  }

  function PrintedEnums(ens: seq<EnumDecl>): seq<Decl> {
    if ens == [] then [] else [WrittenEnum(ens[0].(isClass := false), true)] + PrintedEnums(ens[1..])
  }

  function OutsideAll(sts: seq<StructDecl>): seq<Top> {
    if sts == [] then [] else [Outside(WrittenStruct(sts[0]))] + OutsideAll(sts[1..])
  }

  function PrintedSpace(sp: Space): seq<Top> {
    if sp.name == GLOBAL then OutsideAll(sp.structs)
    else [Within(sp.name, PrintedEnums(sp.enums) + PrintedStructs(sp.structs))]
  }

  function PrintedAll(order: seq<Space>): seq<Top> {
    if order == [] then [] else PrintedSpace(order[0]) + PrintedAll(order[1..])
  }

  lemma GroupedFront(d: Decl, ds: seq<Decl>)
    ensures AllGrouped([]) && (DeclGrouped(d) && AllGrouped(ds) ==> AllGrouped([d] + ds))
  {
    hide DeclGrouped;
  }

  /** A declaration with a meaning, in front of others. */
  lemma DeclFirst(sp: Space, d: Decl, ds: seq<Decl>)
    ensures DeclsText([d] + ds) == DeclText(d) + DeclsText(ds)
    ensures d.StructForm? && StructMeant(d).Some? ==>
              WithDecls(sp, [d] + ds) == WithDecls(sp.(structs := sp.structs + [StructMeant(d).value]), ds)
    ensures d.EnumForm? && EnumMeant(d).Some? ==>
              WithDecls(sp, [d] + ds) == WithDecls(sp.(enums := sp.enums + [EnumMeant(d).value]), ds)
  {
    hide StructMeant, EnumMeant, DeclText;
    assert ([d] + ds)[1..] == ds;
  }

  lemma {:induction false} PlainFirst(ens: seq<EnumDecl>)
    ensures ens != [] ==> PlainEnums(ens) == [ens[0].(isClass := false)] + PlainEnums(ens[1..])
    ensures ens == [] ==> PlainEnums(ens) == []
  {
  }

  lemma {:induction false} EnumsPrinted(sp: Space, ens: seq<EnumDecl>)
    requires forall i :: 0 <= i < |ens| ==> LegalItems(ens[i].items)
    ensures DeclsText(PrintedEnums(ens)) == EnumsTokens(ens) && AllGrouped(PrintedEnums(ens))
    ensures WithDecls(sp, PrintedEnums(ens)) == Some(sp.(enums := sp.enums + PlainEnums(ens)))
    decreases ens
  {
    hide DeclText, DeclsText, EnumTokens, LegalItems, DeclGrouped, AllGrouped, EnumMeant, WrittenEnum, WithDecls, PlainEnums;
    PlainFirst(ens);
    if ens == [] {
      assert sp.enums + [] == sp.enums;
      NoDecls(sp);
      GroupedFront(EnumForm("", false, [], false), []);
    } else {
      var plain := ens[0].(isClass := false);
      var (d, rest) := (WrittenEnum(plain, true), PrintedEnums(ens[1..]));
      EnumPrinted(ens[0]);
      WrittenKind(StructDecl("", false, []), plain);
      EnumsPrinted(sp.(enums := sp.enums + [plain]), ens[1..]);
      DeclFirst(sp, d, rest);
      GroupedFront(d, rest);
      assert sp.enums + [plain] + PlainEnums(ens[1..]) == sp.enums + ([plain] + PlainEnums(ens[1..]));
    }
  }

  lemma WrittenKind(st: StructDecl, en: EnumDecl)
    ensures WrittenStruct(st).StructForm? && WrittenEnum(en, true).EnumForm?
  {
  }

  lemma {:induction false} StructsPrinted(sp: Space, sts: seq<StructDecl>)
    requires forall i :: 0 <= i < |sts| ==> LegalStruct(sts[i])
    ensures DeclsText(PrintedStructs(sts)) == StructsTokens(sts) && AllGrouped(PrintedStructs(sts))
    ensures WithDecls(sp, PrintedStructs(sts)) == Some(sp.(structs := sp.structs + sts))
    decreases sts
  {
    hide DeclText, DeclsText, StructTokens, LegalStruct, DeclGrouped, AllGrouped, StructMeant, WrittenStruct, WithDecls;
    if sts == [] {
      assert sp.structs + [] == sp.structs;
      NoDecls(sp);
      GroupedFront(EnumForm("", false, [], false), []);
    } else {
      var (d, rest) := (WrittenStruct(sts[0]), PrintedStructs(sts[1..]));
      StructAgain(sts[0]);
      WrittenKind(sts[0], EnumDecl("", false, []));
      StructsPrinted(sp.(structs := sp.structs + [sts[0]]), sts[1..]);
      DeclFirst(sp, d, rest);
      GroupedFront(d, rest);
      assert sp.structs + [sts[0]] + sts[1..] == sp.structs + sts;
    }
  }

  lemma {:induction false} DeclsBoth(sp: Space, a: seq<Decl>, b: seq<Decl>)
    requires WithDecls(sp, a).Some?
    ensures DeclsText(a + b) == DeclsText(a) + DeclsText(b) && WithDecls(sp, a + b) == WithDecls(WithDecls(sp, a).value, b)
    decreases a
  {
    hide DeclText, StructMeant, EnumMeant;
    if a == [] {
      assert a + b == b;
    } else {
      assert (a + b)[1..] == a[1..] + b;
      DeclNext(sp, a);
      DeclNext(sp, a + b);
      DeclsBoth(WithDecls(sp, [a[0]]).value, a[1..], b);
      assert DeclText(a[0]) + (DeclsText(a[1..]) + DeclsText(b)) == DeclText(a[0]) + DeclsText(a[1..]) + DeclsText(b);
    }
  }

  /** A namespace's text is one of the grammar, and adds the namespace, its enums no classes. */
  lemma SpacePrinted(ast: Ast, sp: Space)
    requires LegalSpace(sp) && sp.name != GLOBAL && FindSpace(ast.spaces, sp.name).None?
    ensures
      var t := Within(sp.name, PrintedEnums(sp.enums) + PrintedStructs(sp.structs));
      && TopText(t) == SpaceTokens(sp) && TopGrouped(t)
      && WithTop(ast, t) == Some(ast.(spaces := ast.spaces + [Plainly(sp)]))
  {
    hide DeclsText, EnumsTokens, StructsTokens, LegalStruct, LegalItems, PlainEnums, PrintedEnums, PrintedStructs, WithDecls;
    var empty := Space(sp.name, [], []);
    var (ens, sts) := (PrintedEnums(sp.enums), PrintedStructs(sp.structs));
    EnumsPrinted(empty, sp.enums);
    StructsPrinted(empty.(enums := empty.enums + PlainEnums(sp.enums)), sp.structs);
    DeclsBoth(empty, ens, sts);
    assert [] + PlainEnums(sp.enums) == PlainEnums(sp.enums) && [] + sp.structs == sp.structs;
    WithinIs(sp.name, ens + sts, []);
    var (a, b) := (EnumsTokens(sp.enums), StructsTokens(sp.structs));
    assert [Word(Namespace)] + [Identifier(sp.name)] + [Punct(OpenBrace)]
        == [Word(Namespace), Identifier(sp.name), Punct(OpenBrace)];
    assert [Word(Namespace), Identifier(sp.name), Punct(OpenBrace)] + ((a + b) + [Punct(CloseBrace)])
        == [Word(Namespace), Identifier(sp.name), Punct(OpenBrace)] + (a + b) + [Punct(CloseBrace)];
  }

  lemma {:induction false} GlobalPrinted(ast: Ast, sts: seq<StructDecl>)
    requires forall i :: 0 <= i < |sts| ==> LegalStruct(sts[i])
    ensures TopsText(OutsideAll(sts)) == StructsTokens(sts) && TopsGrouped(OutsideAll(sts))
    ensures WithTops(ast, OutsideAll(sts)) == Some(ast.(global := ast.global + sts))
    decreases sts
  {
    hide DeclText, TopsText, StructTokens, LegalStruct, DeclGrouped, TopsGrouped, StructMeant, WrittenStruct, WithTops;
    if sts == [] {
      assert ast.global + [] == ast.global;
      NoTops(ast);
      TopsMore([], Within("", []));
    } else {
      var (d, rest) := (WrittenStruct(sts[0]), OutsideAll(sts[1..]));
      StructAgain(sts[0]);
      WrittenKind(sts[0], EnumDecl("", false, []));
      GlobalPrinted(ast.(global := ast.global + [sts[0]]), sts[1..]);
      StructFirst(ast, d, rest);
      assert ast.global + [sts[0]] + sts[1..] == ast.global + sts;
    }
  }

  lemma StructFirst(ast: Ast, d: Decl, ts: seq<Top>)
    requires d.StructForm? && StructMeant(d).Some? && DeclGrouped(d) && TopsGrouped(ts)
    ensures TopsText([Outside(d)] + ts) == DeclText(d) + TopsText(ts) && TopsGrouped([Outside(d)] + ts)
    ensures WithTops(ast, [Outside(d)] + ts) == WithTops(ast.(global := ast.global + [StructMeant(d).value]), ts)
  {
    hide StructMeant, DeclText, DeclGrouped;
    assert ([Outside(d)] + ts)[1..] == ts;
  }

  lemma {:induction false} TopsBoth(ast: Ast, a: seq<Top>, b: seq<Top>)
    requires WithTops(ast, a).Some?
    ensures TopsText(a + b) == TopsText(a) + TopsText(b) && WithTops(ast, a + b) == WithTops(WithTops(ast, a).value, b)
    ensures TopsGrouped(a) && TopsGrouped(b) ==> TopsGrouped(a + b)
    decreases a
  {
    hide TopText, WithTop, TopGrouped;
    if a == [] {
      assert a + b == b;
    } else {
      assert (a + b)[1..] == a[1..] + b;
      TopsBoth(WithTop(ast, a[0]).value, a[1..], b);
      assert TopText(a[0]) + (TopsText(a[1..]) + TopsText(b)) == TopText(a[0]) + TopsText(a[1..]) + TopsText(b);
    }
  }

  lemma NoEnums()
    ensures EnumsTokens([]) == []
  {
  }

  lemma OneSpacePrinted(ast: Ast, sp: Space)
    requires LegalSpace(sp) && (sp.name != GLOBAL ==> FindSpace(ast.spaces, sp.name).None?)
    ensures TopsText(PrintedSpace(sp)) == SpaceTokens(sp) && TopsGrouped(PrintedSpace(sp))
    ensures WithTops(ast, PrintedSpace(sp))
         == Some(if sp.name == GLOBAL then ast.(global := ast.global + sp.structs)
                 else ast.(spaces := ast.spaces + [Plainly(sp)]))
  {
    hide TopText, WithTop, EnumsTokens, StructsTokens, LegalStruct, LegalItems, PlainEnums, TopGrouped;
    if sp.name == GLOBAL {
      GlobalPrinted(ast, sp.structs);
      NoEnums();
      assert [] + StructsTokens(sp.structs) == StructsTokens(sp.structs);
    } else {
      var t := Within(sp.name, PrintedEnums(sp.enums) + PrintedStructs(sp.structs));
      SpacePrinted(ast, sp);
      assert [t][1..] == [] && TopText(t) + [] == TopText(t);
    }
  }

  /** The text of any list of namespaces is one of the grammar, and means them. */
  lemma {:induction false} AllPrinted(ast: Ast, order: seq<Space>)
    requires Readable(ast, order)
    ensures TopsText(PrintedAll(order)) == Texts(order) && TopsGrouped(PrintedAll(order))
    ensures WithTops(ast, PrintedAll(order)) == Some(Reread(ast, order))
    decreases order
  {
    hide SpaceTokens, LegalSpace, PrintedSpace, Plainly;
    if order != [] {
      OneSpacePrinted(ast, order[0]);
      var next := WithTops(ast, PrintedSpace(order[0])).value;
      ReadableNext(ast, order);
      AllPrinted(next, order[1..]);
      TopsBoth(ast, PrintedSpace(order[0]), PrintedAll(order[1..]));
    }
  }

  lemma {:induction false} ReadableNext(ast: Ast, order: seq<Space>)
    requires Readable(ast, order) && order != []
    ensures LegalSpace(order[0]) && FindSpace(ast.spaces, order[0].name).None?
    ensures Readable(ast.(spaces := ast.spaces + [Plainly(order[0])]), order[1..])
    ensures forall global :: Readable(ast.(global := global), order[1..])
  {
    hide LegalSpace;
    var spaces := ast.spaces + [Plainly(order[0])];
    forall i | 0 <= i < |order[1..]|
      ensures FindSpace(spaces, order[1..][i].name).None?
    {
      assert order[1..][i] == order[i + 1];
      assert FindSpace(ast.spaces, order[i + 1].name).None?;
      assert forall k :: 0 <= k < |spaces| ==> spaces[k].name != order[i + 1].name;
    }
  }

  /** Namespaces that were printed are read back. */
  method ReadPrinted(p: Parser, ghost order: seq<Space>) returns (r: Option<Ast>)
    requires p.Valid()
    modifies p
    ensures Readable(NOTHING, order) && old(p.At(Texts(order))) ==> r == Some(Reread(NOTHING, order))
  {
    hide Texts, Reread, Readable, PrintedAll, TopsText, TopsGrouped, WithTops;
    if Readable(NOTHING, order) {
      AllPrinted(NOTHING, order);
    }
    ghost var gs;
    r, gs := ParseInternal(p, PrintedAll(order));
  }
}
