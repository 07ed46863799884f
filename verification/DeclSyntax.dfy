/**
  Declarations as they may be written, not only as they are printed: their grammar, as trees with
  texts, and what each of these trees means, or that it is refused.
*/
module DeclSyntax {
  import opened WireFormat
  import opened SchemaText

  const LIMIT64: nat := 0x1_0000_0000_0000_0000

  /** A number in an array's brackets. */
  datatype Factor = Factor(n: nat, hex: bool)

  /** What may stand behind an element's name, any number of times. */
  datatype Part =
    | Size(ns: seq<Factor>, compact: bool)
    | InitName(s: string)
    | InitValue(f: Form)

  datatype ElemForm = ElemForm(typ: ElemType, name: string, parts: seq<Part>)

  datatype ItemForm = ItemForm(name: string, value: Option<Form>)

  /** In an enum, a comma may be left out behind the last item. */
  datatype Decl =
    | StructForm(name: string, naked: bool, elems: seq<ElemForm>)
    | EnumForm(name: string, isClass: bool, items: seq<ItemForm>, comma: bool)

  /** A declaration outside of namespaces, or a namespace. */
  datatype Top = Outside(decl: Decl) | Within(space: string, decls: seq<Decl>)

  // ----- texts

  /** Numbers with a multiplication sign between them. */
  function FactorsText(ns: seq<Factor>): seq<Token> {
    if ns == [] then [] else [Number(ns[0].n, ns[0].hex)] + MoreFactors(ns[1..])
  }

  function MoreFactors(ns: seq<Factor>): seq<Token> {
    if ns == [] then [] else [Operator(Star), Number(ns[0].n, ns[0].hex)] + MoreFactors(ns[1..])
  }

  function PartText(p: Part): seq<Token> {
    match p
    case Size(ns, compact) =>
      [Punct(OpenSquare)] + FactorsText(ns) + [Punct(CloseSquare)] + if compact then [Punct(AtCompact)] else []
    case InitName(s) => [Punct(Assign), Identifier(s)]
    case InitValue(f) => [Punct(Assign)] + FormTokens(f)
  }

  function PartsText(ps: seq<Part>): seq<Token> {
    if ps == [] then [] else PartText(ps[0]) + PartsText(ps[1..])
  }

  /** An element up to its semicolon. */
  function HeadText(e: ElemForm): seq<Token> {
    TypeTokens(e.typ) + [Identifier(e.name)] + PartsText(e.parts)
  }

  function ElemText(e: ElemForm): seq<Token> {
    HeadText(e) + [Punct(Semicolon)]
  }

  function ElemsText(es: seq<ElemForm>): seq<Token> {
    if es == [] then [] else ElemText(es[0]) + ElemsText(es[1..])
  }

  function GivenText(value: Option<Form>): seq<Token> {
    if value.Some? then [Punct(Assign)] + FormTokens(value.value) else []
  }

  function ItemText(i: ItemForm, comma: bool): seq<Token> {
    [Identifier(i.name)] + GivenText(i.value) + if comma then [Punct(Comma)] else []
  }

  function ItemsText(items: seq<ItemForm>, comma: bool): seq<Token> {
    if items == [] then []
    else ItemText(items[0], comma || |items| > 1) + ItemsText(items[1..], comma)
  }

  function DeclText(d: Decl): seq<Token> {
    match d
    case StructForm(name, naked, elems) =>
      [Word(Struct), Identifier(name)] + (if naked then [Punct(AtNaked)] else []) + [Punct(OpenBrace)]
      + ElemsText(elems) + [Punct(CloseBrace)]
    case EnumForm(name, isClass, items, comma) =>
      [Word(Enum)] + (if isClass then [Word(Class)] else []) + [Identifier(name), Punct(OpenBrace)]
      + ItemsText(items, comma) + [Punct(CloseBrace)]
  }

  function DeclsText(ds: seq<Decl>): seq<Token> {
    if ds == [] then [] else DeclText(ds[0]) + DeclsText(ds[1..])
  }

  function TopText(t: Top): seq<Token> {
    match t
    case Outside(d) => DeclText(d)
    case Within(space, ds) =>
      [Word(Namespace), Identifier(space), Punct(OpenBrace)] + DeclsText(ds) + [Punct(CloseBrace)]
  }

  function TopsText(ts: seq<Top>): seq<Token> {
    if ts == [] then [] else TopText(ts[0]) + TopsText(ts[1..])
  }

  // Expressions in all of these are grouped as the operator table says.

  predicate PartGrouped(p: Part) {
    p.InitValue? ==> Grouped(p.f, 0)
  }

  predicate PartsGrouped(ps: seq<Part>) {
    forall i :: 0 <= i < |ps| ==> PartGrouped(ps[i])
  }

  predicate ElemGrouped(e: ElemForm) {
    PartsGrouped(e.parts)
  }

  predicate ItemGrouped(i: ItemForm) {
    i.value.Some? ==> Grouped(i.value.value, 0)
  }

  predicate DeclGrouped(d: Decl) {
    match d
    case StructForm(_, _, elems) => forall i :: 0 <= i < |elems| ==> ElemGrouped(elems[i])
    case EnumForm(_, _, items, _) => forall i :: 0 <= i < |items| ==> ItemGrouped(items[i])
  }

  predicate TopGrouped(t: Top) {
    match t
    case Outside(d) => DeclGrouped(d)
    case Within(_, ds) => forall i :: 0 <= i < |ds| ==> DeclGrouped(ds[i])
  }

  // ----- what they mean

  /** The product in 64 bits; no numbers stand for a dynamic array's 0. */
  function Product(ns: seq<Factor>): nat {
    if ns == [] then 0 else Times(ns[0].n % LIMIT64, ns[1..])
  }

  function Times(size: nat, ns: seq<Factor>): nat
    decreases ns
  {
    if ns == [] then size else Times(size * ns[0].n % LIMIT64, ns[1..])
  }

  function FullProduct(ns: seq<Factor>): nat {
    if ns == [] then 1 else ns[0].n * FullProduct(ns[1..])
  }

  /** Cutting to 64 bits at each step is cutting the whole product. */
  lemma {:induction false} ProductIs(ns: seq<Factor>)
    ensures ns != [] ==> Product(ns) == FullProduct(ns) % LIMIT64
  {
    if ns != [] {
      TimesIs(ns[0].n, ns[1..]);
    }
  }

  lemma {:induction false} TimesIs(size: nat, ns: seq<Factor>)
    ensures Times(size % LIMIT64, ns) == size * FullProduct(ns) % LIMIT64
    decreases ns
  {
    if ns == [] {
      assert size * 1 == size;
    } else {
      CutFactor(size, ns[0].n);
      TimesIs(size * ns[0].n, ns[1..]);
      Regroup(size, ns[0].n, FullProduct(ns[1..]));
    }
  }

  lemma Regroup(a: nat, b: nat, c: nat)
    ensures a * b * c == a * (b * c)
  {
  }

  lemma CutFactor(a: nat, b: nat)
    ensures a % LIMIT64 * b % LIMIT64 == a * b % LIMIT64
  {
    var (q, r) := (a / LIMIT64, a % LIMIT64);
    assert a * b == LIMIT64 * (q * b) + r * b by {
      Spread(q, r, b);
    }
    CutMultiple(q * b, r * b);
  }

  lemma Spread(q: nat, r: nat, b: nat)
    ensures (LIMIT64 * q + r) * b == LIMIT64 * (q * b) + r * b
  {
  }

  lemma CutMultiple(k: nat, x: nat)
    ensures (LIMIT64 * k + x) % LIMIT64 == x % LIMIT64
  {
  }

  predicate BaseAgrees(b: Builtin, v: Literal) {
    match v
    case Int(_) => !b.TextType? && !b.ShortTextType? && !b.BoolType?
    case Float(_, _) => b.F32? || b.F64?
    case Text(_) => b.TextType? || b.ShortTextType?
    case Bool(_) => b.BoolType?
    case Name(_) => false
    case List(items) => forall i :: 0 <= i < |items| ==> BaseAgrees(b, items[i])
  }

  predicate TypesAgree(t: ElemType, v: Literal) {
    match t
    case Custom(_, _) => v.Name?
    case Plain(b) => BaseAgrees(b, v) || (b.BoolType? && (v == Int(0) || v == Int(1)))
  }

  predicate ShapesAgree(suffix: Option<nat>, v: Literal) {
    if suffix.Some? then v.List? && (suffix.value != 0 ==> |v.items| == suffix.value) else !v.List?
  }

  function WithInit(e: Elem, v: Literal): Option<Elem> {
    if TypesAgree(e.typ, v) && ShapesAgree(e.suffix, v) then Some(e.(init := Some(v))) else None
  }

  /** The element with one more part; what a part has to agree with is what stands in front of it. */
  function WithPart(e: Elem, p: Part): Option<Elem> {
    match p
    case Size(ns, compact) =>
      if e.suffix.Some? || (compact && (Product(ns) == 0 || e.typ == Plain(TextType))) then None
      else Some(e.(suffix := Some(Product(ns)), compact := e.compact || compact))
    case InitName(s) => WithInit(e, Name(s))
    case InitValue(f) =>
      match Evaluate(Meaning(f))
      case None => None
      case Some(v) => WithInit(e, v)
  }

  function WithParts(e: Elem, ps: seq<Part>): Option<Elem>
    decreases ps
  {
    if ps == [] then Some(e)
    else
      match WithPart(e, ps[0])
      case None => None
      case Some(e') => WithParts(e', ps[1..])
  }

  function ElemMeant(e: ElemForm): Option<Elem> {
    WithParts(Elem(e.name, e.typ, None, false, None), e.parts)
  }

  function ElemsMeant(es: seq<ElemForm>): Option<seq<Elem>> {
    if es == [] then Some([])
    else
      match (ElemMeant(es[0]), ElemsMeant(es[1..]))
      case (Some(e), Some(rest)) => Some([e] + rest)
      case _ => None
  }

  predicate Listed(items: seq<Item>, name: string) {
    exists i :: 0 <= i < |items| && items[i].name == name
  }

  /** The value of an item that has none of its own. */
  function NextValue(done: seq<Item>): int {
    if done == [] then 0 else done[|done| - 1].value + 1
  }

  /** The value given, if any; values other than integers are refused. */
  function GivenMeant(value: Option<Form>): Option<Option<int>> {
    match value
    case None => Some(None)
    case Some(f) =>
      match Evaluate(Meaning(f))
      case Some(Int(n)) => Some(Some(n))
      case _ => None
  }

  function ItemMeant(done: seq<Item>, i: ItemForm): Option<Item> {
    if Listed(done, i.name) then None
    else
      match GivenMeant(i.value)
      case None => None
      case Some(None) => Some(Item(i.name, false, NextValue(done)))
      case Some(Some(n)) => Some(Item(i.name, true, n))
  }

  /** The items done and those that the forms mean. */
  function ItemsMeant(done: seq<Item>, items: seq<ItemForm>): Option<seq<Item>>
    decreases items
  {
    if items == [] then Some(done)
    else
      match ItemMeant(done, items[0])
      case None => None
      case Some(i) => ItemsMeant(done + [i], items[1..])
  }

  function StructMeant(d: Decl): Option<StructDecl>
    requires d.StructForm?
  {
    match ElemsMeant(d.elems)
    case None => None
    case Some(elems) => Some(StructDecl(d.name, d.naked, elems))
  }

  function EnumMeant(d: Decl): Option<EnumDecl>
    requires d.EnumForm?
  {
    match ItemsMeant([], d.items)
    case None => None
    case Some(items) => Some(EnumDecl(d.name, d.isClass, items))
  }

  /** A namespace with the declarations of a text. */
  function WithDecls(sp: Space, ds: seq<Decl>): Option<Space>
    decreases ds
  {
    if ds == [] then Some(sp)
    else
      match ds[0]
      case StructForm(_, _, _) =>
        (match StructMeant(ds[0])
         case None => None
         case Some(st) => WithDecls(sp.(structs := sp.structs + [st]), ds[1..]))
      case EnumForm(_, _, _, _) =>
        (match EnumMeant(ds[0])
         case None => None
         case Some(en) => WithDecls(sp.(enums := sp.enums + [en]), ds[1..]))
  }

  // ----- one thing behind another

  lemma {:induction false} PartsTextMore(ps: seq<Part>, p: Part)
    ensures PartsText(ps + [p]) == PartsText(ps) + PartText(p)
  {
    hide PartText;
    if ps == [] {
      assert [p][1..] == [];
      assert PartText(p) + [] == [] + PartText(p);
    } else {
      assert (ps + [p])[1..] == ps[1..] + [p];
      PartsTextMore(ps[1..], p);
      assert PartText(ps[0]) + (PartsText(ps[1..]) + PartText(p)) == PartText(ps[0]) + PartsText(ps[1..]) + PartText(p);
    }
  }

  lemma PartsGroupedMore(ps: seq<Part>, p: Part)
    ensures PartsGrouped(ps) && PartGrouped(p) ==> PartsGrouped(ps + [p])
    ensures PartsGrouped(ps) && ps != [] ==> PartGrouped(ps[0]) && PartsGrouped(ps[1..])
  {
    hide PartGrouped;
  }

  lemma {:induction false} WithPartsMore(e: Elem, ps: seq<Part>, p: Part)
    requires WithParts(e, ps).Some?
    ensures WithParts(e, ps + [p]) == WithPart(WithParts(e, ps).value, p)
    decreases ps
  {
    hide WithPart;
    if ps == [] {
      assert [p][1..] == [] && [] + [p] == [p];
    } else {
      assert (ps + [p])[1..] == ps[1..] + [p];
      WithPartsMore(WithPart(e, ps[0]).value, ps[1..], p);
    }
  }

  lemma {:induction false} ElemsTextMore(es: seq<ElemForm>, e: ElemForm)
    ensures ElemsText(es + [e]) == ElemsText(es) + ElemText(e)
  {
    hide ElemText;
    if es == [] {
      assert [e][1..] == [];
      assert ElemText(e) + [] == [] + ElemText(e);
    } else {
      assert (es + [e])[1..] == es[1..] + [e];
      ElemsTextMore(es[1..], e);
      assert ElemText(es[0]) + (ElemsText(es[1..]) + ElemText(e)) == ElemText(es[0]) + ElemsText(es[1..]) + ElemText(e);
    }
  }

  lemma {:induction false} ElemsMeantMore(es: seq<ElemForm>, e: ElemForm)
    requires ElemsMeant(es).Some? && ElemMeant(e).Some?
    ensures ElemsMeant(es + [e]) == Some(ElemsMeant(es).value + [ElemMeant(e).value])
  {
    hide ElemMeant;
    if es == [] {
      assert [e][1..] == [] && [] + [e] == [e];
      assert ElemsMeant([e][1..]) == Some([]);
      assert [ElemMeant(e).value] + [] == [] + [ElemMeant(e).value];
    } else {
      assert (es + [e])[1..] == es[1..] + [e];
      ElemsMeantMore(es[1..], e);
      var (a, b, c) := ([ElemMeant(es[0]).value], ElemsMeant(es[1..]).value, [ElemMeant(e).value]);
      assert a + (b + c) == a + b + c;
    }
  }

  lemma {:induction false} ItemsTextMore(items: seq<ItemForm>, i: ItemForm, comma: bool)
    ensures ItemsText(items + [i], comma) == ItemsText(items, true) + ItemText(i, comma)
  {
    hide ItemText;
    if items == [] {
      assert [i][1..] == [] && [] + [i] == [i];
      assert ItemText(i, comma) + [] == [] + ItemText(i, comma);
    } else {
      var more := items + [i];
      assert more[1..] == items[1..] + [i] && |more| > 1;
      ItemsTextMore(items[1..], i, comma);
      var (a, b, c) := (ItemText(items[0], true), ItemsText(items[1..], true), ItemText(i, comma));
      assert a + (b + c) == a + b + c;
    }
  }

  lemma {:induction false} ItemsMeantMore(done: seq<Item>, items: seq<ItemForm>, i: ItemForm)
    requires ItemsMeant(done, items).Some? && ItemMeant(ItemsMeant(done, items).value, i).Some?
    ensures
      var now := ItemsMeant(done, items).value;
      ItemsMeant(done, items + [i]) == Some(now + [ItemMeant(now, i).value])
    decreases items
  {
    hide ItemMeant;
    if items == [] {
      assert [i][1..] == [] && [] + [i] == [i];
    } else {
      assert (items + [i])[1..] == items[1..] + [i];
      ItemsMeantMore(done + [ItemMeant(done, items[0]).value], items[1..], i);
    }
  }

  lemma {:induction false} DeclsTextMore(ds: seq<Decl>, d: Decl)
    ensures DeclsText(ds + [d]) == DeclsText(ds) + DeclText(d)
  {
    hide DeclText;
    if ds == [] {
      assert [d][1..] == [] && [] + [d] == [d];
      assert DeclText(d) + [] == [] + DeclText(d);
    } else {
      assert (ds + [d])[1..] == ds[1..] + [d];
      DeclsTextMore(ds[1..], d);
      assert DeclText(ds[0]) + (DeclsText(ds[1..]) + DeclText(d)) == DeclText(ds[0]) + DeclsText(ds[1..]) + DeclText(d);
    }
  }

  lemma {:induction false} WithDeclsMore(sp: Space, ds: seq<Decl>, d: Decl)
    requires WithDecls(sp, ds).Some?
    ensures WithDecls(sp, ds + [d]) == WithDecls(WithDecls(sp, ds).value, [d])
    decreases ds
  {
    hide StructMeant, EnumMeant;
    if ds == [] {
      assert [] + [d] == [d];
    } else {
      assert (ds + [d])[1..] == ds[1..] + [d];
      match ds[0]
      case StructForm(_, _, _) => WithDeclsMore(sp.(structs := sp.structs + [StructMeant(ds[0]).value]), ds[1..], d);
      case EnumForm(_, _, _, _) => WithDeclsMore(sp.(enums := sp.enums + [EnumMeant(ds[0]).value]), ds[1..], d);
    }
  }

  lemma {:induction false} TopsTextMore(ts: seq<Top>, t: Top)
    ensures TopsText(ts + [t]) == TopsText(ts) + TopText(t)
  {
    hide TopText;
    if ts == [] {
      assert [t][1..] == [] && [] + [t] == [t];
      assert TopText(t) + [] == [] + TopText(t);
    } else {
      assert (ts + [t])[1..] == ts[1..] + [t];
      TopsTextMore(ts[1..], t);
      assert TopText(ts[0]) + (TopsText(ts[1..]) + TopText(t)) == TopText(ts[0]) + TopsText(ts[1..]) + TopText(t);
    }
  }

  // ----- texts, token by token

  /** What stands behind a size's bracket. */
  function MarkText(compact: bool): seq<Token> {
    if compact then [Punct(AtCompact)] else []
  }

  lemma SizeIs(ns: seq<Factor>, compact: bool, rest: seq<Token>)
    ensures PartText(Size(ns, compact)) == [Punct(OpenSquare)] + (FactorsText(ns) + [Punct(CloseSquare)]) + MarkText(compact)
    ensures PartText(Size(ns, compact)) + rest
         == [Punct(OpenSquare)] + (FactorsText(ns) + ([Punct(CloseSquare)] + (MarkText(compact) + rest)))
  {
    hide FactorsText;
  }

  lemma FactorsNext(left: seq<Factor>, close: seq<Token>)
    ensures left == [] ==> MoreFactors(left) + close == close
    ensures left != [] ==>
              MoreFactors(left) + close
              == [Operator(Star)] + ([Number(left[0].n, left[0].hex)] + (MoreFactors(left[1..]) + close))
  {
  }

  lemma {:induction false} FactorsMore(ns: seq<Factor>, n: Factor)
    requires ns != []
    ensures FactorsText(ns + [n]) == FactorsText(ns) + [Operator(Star)] + [Number(n.n, n.hex)]
    ensures Product(ns + [n]) == Product(ns) * n.n % LIMIT64
  {
    assert (ns + [n])[1..] == ns[1..] + [n];
    MoreFactorsMore(ns[1..], n);
    TimesMore(ns[0].n % LIMIT64, ns[1..], n);
  }

  lemma {:induction false} MoreFactorsMore(ns: seq<Factor>, n: Factor)
    ensures MoreFactors(ns + [n]) == MoreFactors(ns) + [Operator(Star), Number(n.n, n.hex)]
  {
    if ns == [] {
      assert [n][1..] == [] && [] + [n] == [n];
    } else {
      assert (ns + [n])[1..] == ns[1..] + [n];
      MoreFactorsMore(ns[1..], n);
    }
  }

  lemma {:induction false} TimesMore(size: nat, ns: seq<Factor>, n: Factor)
    ensures Times(size, ns + [n]) == Times(size, ns) * n.n % LIMIT64
    decreases ns
  {
    if ns == [] {
      assert [n][1..] == [] && [] + [n] == [n];
    } else {
      assert (ns + [n])[1..] == ns[1..] + [n];
      TimesMore(size * ns[0].n % LIMIT64, ns[1..], n);
    }
  }

  /** The next part of an element, or what ends it. */
  lemma PartsNext(left: seq<Part>, end: seq<Token>)
    ensures left == [] ==> PartsText(left) + end == end
    ensures left != [] ==>
              && PartsText(left) + end == PartText(left[0]) + (PartsText(left[1..]) + end)
              && (PartsText(left) + end)[0] == if left[0].Size? then Punct(OpenSquare) else Punct(Assign)
  {
    hide FormTokens, FactorsText;
  }

  /** What may end an element's parts: nothing that goes on with one. */
  predicate Ends(ps: seq<Part>, end: seq<Token>) {
    && end != [] && !end[0].Operator? && end[0] != Punct(OpenSquare) && end[0] != Punct(Assign)
    && (ps != [] && ps[|ps| - 1].Size? && !ps[|ps| - 1].compact ==> end[0] != Punct(AtCompact))
  }

  /** What follows a part does not go on with it. */
  predicate Follows(p: Part, rest: seq<Token>) {
    rest != [] && !rest[0].Operator? && (p.Size? && !p.compact ==> rest[0] != Punct(AtCompact))
  }

  lemma PartEnds(left: seq<Part>, end: seq<Token>)
    requires left != [] && Ends(left, end)
    ensures Ends(left[1..], end) && Follows(left[0], PartsText(left[1..]) + end)
  {
    PartsNext(left[1..], end);
  }

  lemma HeadIs(e: ElemForm, end: seq<Token>)
    ensures HeadText(e) + end == TypeTokens(e.typ) + ([Identifier(e.name)] + (PartsText(e.parts) + end))
    ensures ElemText(e) == TypeTokens(e.typ) + [Identifier(e.name)] + (PartsText(e.parts) + [Punct(Semicolon)])
    ensures end != [] && end[0] == Punct(Semicolon) ==> HeadText(e) + end == ElemText(e) + end[1..]
  {
    hide TypeTokens, PartsText;
    if end != [] && end[0] == Punct(Semicolon) {
      assert end == [Punct(Semicolon)] + end[1..];
    }
  }

  /** No element begins with a brace. */
  lemma ElemsNext(left: seq<ElemForm>, close: seq<Token>)
    requires close != [] && close[0] == Punct(CloseBrace)
    ensures left == [] ==> ElemsText(left) + close == close
    ensures left != [] ==>
              && ElemsText(left) + close == ElemText(left[0]) + (ElemsText(left[1..]) + close)
              && (ElemsText(left) + close)[0] != Punct(CloseBrace)
  {
    hide PartsText;
  }

  lemma ItemIs(i: ItemForm, comma: bool, rest: seq<Token>)
    ensures ItemText(i, comma) + rest == [Identifier(i.name)] + (GivenText(i.value) + (CommaText(comma) + rest))
    ensures ItemText(i, comma) == [Identifier(i.name)] + GivenText(i.value) + CommaText(comma)
    ensures i.value.Some? ==>
              GivenText(i.value) + (CommaText(comma) + rest)
              == [Punct(Assign)] + (FormTokens(i.value.value) + (CommaText(comma) + rest))
  {
    hide FormTokens;
  }

  function CommaText(comma: bool): seq<Token> {
    if comma then [Punct(Comma)] else []
  }

  lemma ItemsNext(left: seq<ItemForm>, comma: bool, close: seq<Token>)
    requires close != [] && close[0] == Punct(CloseBrace)
    ensures left == [] ==> ItemsText(left, comma) + close == close
    ensures left != [] ==>
              && ItemsText(left, comma) + close
                 == ItemText(left[0], comma || |left| > 1) + (ItemsText(left[1..], comma) + close)
              && (ItemsText(left, comma) + close)[0] == Identifier(left[0].name)
              && (!(comma || |left| > 1) ==> (ItemsText(left[1..], comma) + close)[0] == Punct(CloseBrace))
  {
    hide FormTokens;
  }

  function NakedText(naked: bool): seq<Token> {
    if naked then [Punct(AtNaked)] else []
  }

  function ClassText(isClass: bool): seq<Token> {
    if isClass then [Word(Class)] else []
  }

  lemma StructIs(name: string, naked: bool, elems: seq<ElemForm>, rest: seq<Token>)
    ensures
      var (text, close) := (DeclText(StructForm(name, naked, elems)), [Punct(CloseBrace)] + rest);
      && text + rest == [Word(Struct)] + ([Identifier(name)]
                                          + (NakedText(naked) + ([Punct(OpenBrace)] + (ElemsText(elems) + close))))
      && text == [Word(Struct)] + [Identifier(name)] + NakedText(naked) + [Punct(OpenBrace)]
                 + (ElemsText(elems) + [Punct(CloseBrace)])
  {
    hide ElemsText;
  }

  lemma EnumIs(name: string, isClass: bool, items: seq<ItemForm>, comma: bool, rest: seq<Token>)
    ensures
      var (text, close) := (DeclText(EnumForm(name, isClass, items, comma)), [Punct(CloseBrace)] + rest);
      && text + rest == [Word(Enum)] + (ClassText(isClass)
                                        + ([Identifier(name)] + ([Punct(OpenBrace)] + (ItemsText(items, comma) + close))))
      && text == [Word(Enum)] + ClassText(isClass) + [Identifier(name)] + [Punct(OpenBrace)]
                 + (ItemsText(items, comma) + [Punct(CloseBrace)])
  {
    hide ItemsText;
  }

  lemma DeclsNext(left: seq<Decl>, close: seq<Token>)
    ensures left == [] ==> DeclsText(left) + close == close
    ensures left != [] ==>
              && DeclsText(left) + close == DeclText(left[0]) + (DeclsText(left[1..]) + close)
              && (DeclsText(left) + close)[0] == if left[0].StructForm? then Word(Struct) else Word(Enum)
  {
    hide ElemsText, ItemsText;
  }

  lemma WithinIs(space: string, ds: seq<Decl>, rest: seq<Token>)
    ensures
      var (text, close) := (TopText(Within(space, ds)), [Punct(CloseBrace)] + rest);
      && text + rest == [Word(Namespace)] + ([Identifier(space)] + ([Punct(OpenBrace)] + (DeclsText(ds) + close)))
      && text == [Word(Namespace)] + [Identifier(space)] + [Punct(OpenBrace)] + (DeclsText(ds) + [Punct(CloseBrace)])
  {
    hide DeclsText;
  }

  lemma TopsNext(left: seq<Top>)
    ensures left == [] ==> TopsText(left) == []
    ensures left != [] ==>
              && TopsText(left) == TopText(left[0]) + TopsText(left[1..]) && TopsText(left) != []
              && TopsText(left)[0] == match left[0]
                                      case Outside(StructForm(_, _, _)) => Word(Struct)
                                      case Outside(EnumForm(_, _, _, _)) => Word(Enum)
                                      case Within(_, _) => Word(Namespace)
  {
    hide ElemsText, ItemsText, DeclsText;
  }

  /** An expression does not begin with a name. */
  lemma {:induction false} NotAName(f: Form, level: nat)
    requires Grouped(f, level)
    ensures !FormTokens(f)[0].Identifier?
    decreases f
  {
    match f
    case Joined(_, lhs, _) => NotAName(lhs, Precedence(f.op));
    case _ =>
  }

  // ----- nothing yet, and one step

  lemma NoFactors()
    ensures FactorsText([]) == [] && Product([]) == 0
  {
  }

  lemma OneFactor(n: Factor)
    ensures FactorsText([n]) == [Number(n.n, n.hex)] && Product([n]) == n.n % LIMIT64
  {
    assert [n][1..] == [];
  }

  lemma FactorsFirst(ns: seq<Factor>, close: seq<Token>)
    ensures ns == [] ==> FactorsText(ns) + close == close
    ensures ns != [] ==>
              && FactorsText(ns) + close == [Number(ns[0].n, ns[0].hex)] + (MoreFactors(ns[1..]) + close)
              && Product(ns) == Times(ns[0].n % LIMIT64, ns[1..])
  {
    hide MoreFactors, Times;
  }

  lemma TimesNext(size: nat, left: seq<Factor>)
    ensures left == [] ==> Times(size, left) == size
    ensures left != [] ==> Times(size, left) == Times(size * left[0].n % LIMIT64, left[1..])
  {
  }

  lemma NoParts(e: Elem)
    ensures PartsText([]) == [] && WithParts(e, []) == Some(e) && PartsGrouped([])
  {
  }

  lemma WithPartsNext(e: Elem, left: seq<Part>)
    requires left != []
    ensures WithParts(e, left) == match WithPart(e, left[0]) case None => None case Some(e') => WithParts(e', left[1..])
  {
    hide WithPart;
  }

  /** Where an element's parts end, none goes on. */
  lemma EndsWhere(left: seq<Part>, end: seq<Token>)
    requires Ends(left, end)
    ensures end != [] && end[0] != Punct(OpenSquare) && end[0] != Punct(Assign)
    ensures left != [] ==> (PartsText(left) + end)[0] != Punct(Semicolon)
  {
    PartsNext(left, end);
  }

  lemma NoElems()
    ensures ElemsText([]) == [] && ElemsMeant([]) == Some([])
  {
  }

  /** Elements behind others, if they have a meaning. */
  function ElemsBehind(elems: seq<Elem>, rest: Option<seq<Elem>>): Option<seq<Elem>> {
    match rest
    case None => None
    case Some(more) => Some(elems + more)
  }

  lemma MeantNext(elems: seq<Elem>, left: seq<ElemForm>)
    requires left != []
    ensures ElemsBehind(elems, ElemsMeant(left))
         == match ElemMeant(left[0]) case None => None case Some(e) => ElemsBehind(elems + [e], ElemsMeant(left[1..]))
  {
    hide ElemMeant;
    if ElemMeant(left[0]).Some? && ElemsMeant(left[1..]).Some? {
      assert elems + ([ElemMeant(left[0]).value] + ElemsMeant(left[1..]).value)
          == elems + [ElemMeant(left[0]).value] + ElemsMeant(left[1..]).value;
    }
  }

  lemma NoneBehind(elems: seq<Elem>)
    ensures ElemsBehind(elems, ElemsMeant([])) == Some(elems)
    ensures forall rest :: ElemsBehind([], rest) == rest
  {
    assert elems + [] == elems;
    forall rest: Option<seq<Elem>>
      ensures ElemsBehind([], rest) == rest
    {
      if rest.Some? {
        assert [] + rest.value == rest.value;
      }
    }
  }

  lemma NoItemForms(done: seq<Item>)
    ensures ItemsMeant(done, []) == Some(done) && forall comma :: ItemsText([], comma) == []
  {
  }

  lemma MeantItem(done: seq<Item>, left: seq<ItemForm>)
    requires left != []
    ensures ItemsMeant(done, left)
         == match ItemMeant(done, left[0]) case None => None case Some(i) => ItemsMeant(done + [i], left[1..])
  {
    hide ItemMeant;
  }
}
