/** Declarations as they are printed: which of them the parser reads back, and when they mean what they were. */
module DeclWritten {
  import opened WireFormat
  import opened SchemaText
  import opened DeclSyntax
  import opened SchemaParser

  // ----- values

  predicate Writable(v: Literal) {
    match v
    case Name(_) => false
    case List(items) => items != [] && forall i :: 0 <= i < |items| ==> Writable(items[i])
    case _ => true
  }

  /** The expression that writing a value out amounts to. */
  function FormOf(v: Literal): Form {
    match v
    case Int(n) => if n < 0 then Signed(Minus, Leaf(Int(-n))) else Leaf(v)
    case Float(negative, text) => if negative then Signed(Minus, Leaf(Float(false, text))) else Leaf(v)
    case List(items) => InBraces(FormsOf(items))
    case _ => Leaf(v)
  }

  function FormsOf(vs: seq<Literal>): (fs: seq<Form>)
    ensures |fs| == |vs|
  {
    if vs == [] then [] else [FormOf(vs[0])] + FormsOf(vs[1..])
  }

  /** The printed form of a value evaluates to that value, negative numbers through a sign. */
  lemma {:induction false} ValueText(v: Literal)
    requires Writable(v)
    ensures Grouped(FormOf(v), 0) && FormTokens(FormOf(v)) == ValueTokens(v) && Evaluate(Meaning(FormOf(v))) == Some(v)
    decreases v, 1
  {
    match v
    case List(items) => ValuesText(items);
    case _ =>
  }

  lemma {:induction false} ValuesText(vs: seq<Literal>)
    requires forall i :: 0 <= i < |vs| ==> Writable(vs[i])
    ensures forall i :: 0 <= i < |vs| ==> Grouped(FormsOf(vs)[i], 0)
    ensures ListTokens(FormsOf(vs)) == ValuesTokens(vs) && EvaluateAll(Meanings(FormsOf(vs))) == Some(vs)
    decreases vs, 0
  {
    if vs != [] {
      ValueText(vs[0]);
      ValuesText(vs[1..]);
      assert FormsOf(vs)[1..] == FormsOf(vs[1..]) && FormsOf(vs)[0] == FormOf(vs[0]);
      assert Meanings(FormsOf(vs))[1..] == Meanings(FormsOf(vs[1..]));
      assert [vs[0]] + vs[1..] == vs;
    }
  }

  // ----- elements

  /** An element that is read back, other than one with both an initialiser and @compact. */
  predicate Legal(e: Elem) {
    && (e.suffix.Some? ==> e.suffix.value < LIMIT64)
    && (e.compact ==> e.suffix.Some? && e.suffix.value != 0 && e.typ != Plain(TextType))
    && (e.init.Some? ==>
          && !e.compact && (Writable(e.init.value) || e.init.value.Name?)
          && TypesAgree(e.typ, e.init.value) && ShapesAgree(e.suffix, e.init.value))
  }

  /** The same, but for that exception. */
  predicate Declared(e: Elem) {
    if e.compact && e.init.Some? then Legal(e.(compact := false)) && Legal(e.(init := None)) else Legal(e)
  }

  predicate AllLegal(es: seq<Elem>) {
    forall i :: 0 <= i < |es| ==> Legal(es[i])
  }

  predicate LegalStruct(st: StructDecl) {
    AllLegal(st.elems)
  }

  function SizePart(e: Elem): seq<Part> {
    if e.suffix.None? then [] else [Size(if e.suffix.value == 0 then [] else [Factor(e.suffix.value, false)], e.compact)]
  }

  function InitPart(e: Elem): seq<Part> {
    match e.init
    case None => []
    case Some(Name(s)) => [InitName(s)]
    case Some(v) => [InitValue(FormOf(v))]
  }

  function Written(e: Elem): ElemForm {
    ElemForm(e.typ, e.name, SizePart(e) + InitPart(e))
  }

  /** A value that can be written, or a name. */
  predicate InitWritable(e: Elem) {
    e.init.Some? ==> Writable(e.init.value) || e.init.value.Name?
  }

  lemma PartsMean(e: Elem, size: seq<Part>, init: seq<Part>)
    requires |size| <= 1 && |init| <= 1
    ensures
      WithParts(e, size + init)
      == match (if size == [] then Some(e) else WithPart(e, size[0]))
         case None => None
         case Some(e') => if init == [] then Some(e') else WithPart(e', init[0])
  {
    hide WithPart, WithParts;
    var ps := size + init;
    var e' := if size == [] then Some(e) else WithPart(e, size[0]);
    if size == [] {
      assert ps == init;
    } else {
      assert ps[0] == size[0] && ps[1..] == init;
      WithPartsNext(e, ps);
    }
    if e'.Some? {
      NoParts(e'.value);
      if init != [] {
        assert init[1..] == [];
        WithPartsNext(e'.value, init);
        if WithPart(e'.value, init[0]).Some? {
          NoParts(WithPart(e'.value, init[0]).value);
        }
      }
    }
  }

  /** An element is read back from its text, with @compact behind its size, exactly if it is legal. */
  lemma LegalExactly(e: Elem)
    requires InitWritable(e) && !(e.compact && e.init.Some?)
    ensures ElemMeant(Written(e)) == Some(e) <==> Legal(e)
  {
    hide Writable, FormOf, Grouped, TypesAgree, ShapesAgree, Evaluate, Meaning;
    PartsMean(Elem(e.name, e.typ, None, false, None), SizePart(e), InitPart(e));
    if e.suffix.Some? && e.suffix.value != 0 {
      OneFactor(Factor(e.suffix.value, false));
    }
    NoFactors();
    if e.init.Some? && !e.init.value.Name? {
      ValueText(e.init.value);
    }
  }

  lemma WrittenText(e: Elem)
    requires InitWritable(e) && !(e.compact && e.init.Some?) && (e.compact ==> e.suffix.Some?)
    ensures ElemText(Written(e)) == ElemTokens(e) && ElemGrouped(Written(e))
  {
    hide Writable, FormOf, Grouped, TypeTokens, ValueTokens, FormTokens;
    PartsAre(e);
    if e.init.Some? && !e.init.value.Name? {
      ValueText(e.init.value);
    }
  }

  lemma PartsAre(e: Elem)
    ensures PartsText(Written(e).parts)
         == (if e.suffix.None? then [] else PartText(SizePart(e)[0])) + (if e.init.None? then [] else PartText(InitPart(e)[0]))
    ensures e.suffix.Some? ==>
              PartText(SizePart(e)[0]) == SuffixTokens(e.suffix) + if e.compact then [Punct(AtCompact)] else []
    ensures e.suffix.None? ==> SuffixTokens(e.suffix) == []
    ensures e.init.Some? && e.init.value.Name? ==> PartText(InitPart(e)[0]) == [Punct(Assign)] + ValueTokens(e.init.value)
  {
    hide FormTokens, FormOf;
    var (size, init) := (SizePart(e), InitPart(e));
    var ps := size + init;
    assert init != [] ==> init[1..] == [] && PartsText(init) == PartText(init[0]) + [];
    if size == [] {
      assert ps == init;
    } else {
      assert ps[0] == size[0] && ps[1..] == init;
    }
    if e.suffix.Some? && e.suffix.value != 0 {
      OneFactor(Factor(e.suffix.value, false));
    }
  }

  /** Printed with @compact behind its initialiser, an element does not end where it should. */
  lemma BothPrinted(e: Elem, rest: seq<Token>)
    requires Declared(e) && e.compact && e.init.Some?
    ensures
      var (f, end) := (Written(e.(compact := false)), [Punct(AtCompact)] + ([Punct(Semicolon)] + rest));
      ElemTokens(e) + rest == HeadText(f) + end && ElemGrouped(f) && Ends(f.parts, end)
  {
    hide Writable, FormOf, Grouped, TypesAgree, ShapesAgree, TypeTokens, ValueTokens, FormTokens;
    var f := e.(compact := false);
    PartsAre(f);
    if !e.init.value.Name? {
      ValueText(e.init.value);
    }
  }

  /** An element comes back from its printed text exactly unless it has both an initialiser and @compact. */
  method ElementAgain(p: Parser, ghost e: Elem, ghost rest: seq<Token>) returns (r: Option<Elem>)
    requires p.Valid()
    modifies p
    ensures Declared(e) && old(p.At(ElemTokens(e) + rest)) ==>
              if e.compact && e.init.Some? then r == None else r == Some(e) && p.At(rest)
  {
    hide ElemTokens, ElemText, HeadText, Legal, ElemMeant, Ends;
    ghost var (f, end) := (Written(e), [Punct(Semicolon)] + rest);
    if Declared(e) {
      if e.compact && e.init.Some? {
        f, end := Written(e.(compact := false)), [Punct(AtCompact)] + ([Punct(Semicolon)] + rest);
        BothPrinted(e, rest);
      } else {
        LegalOnes(e, rest);
      }
    }
    ghost var g;
    r, g := p.ParseElement(f, end);
  }

  lemma LegalOnes(e: Elem, rest: seq<Token>)
    requires Legal(e)
    ensures
      var end := [Punct(Semicolon)] + rest;
      && ElemTokens(e) + rest == HeadText(Written(e)) + end && ElemGrouped(Written(e)) && Ends(Written(e).parts, end)
      && ElemMeant(Written(e)) == Some(e) && end[1..] == rest
  {
    hide ElemTokens, ElemText, HeadText, ElemMeant, TypesAgree, ShapesAgree, Writable;
    LegalExactly(e);
    WrittenText(e);
    HeadIs(Written(e), [Punct(Semicolon)] + rest);
  }

  // ----- structs

  function WrittenElems(es: seq<Elem>): seq<ElemForm> {
    if es == [] then [] else [Written(es[0])] + WrittenElems(es[1..])
  }

  lemma {:induction false} ElemsAgain(es: seq<Elem>)
    requires AllLegal(es)
    ensures ElemsText(WrittenElems(es)) == ElemsTokens(es) && ElemsMeant(WrittenElems(es)) == Some(es)
    ensures forall i :: 0 <= i < |WrittenElems(es)| ==> ElemGrouped(WrittenElems(es)[i])
  {
    hide Legal, Written, ElemText, ElemTokens, ElemMeant, ElemGrouped;
    if es != [] {
      ElemsAgain(es[1..]);
      LegalOne(es[0]);
      assert WrittenElems(es)[1..] == WrittenElems(es[1..]);
      assert [es[0]] + es[1..] == es;
    }
  }

  lemma LegalOne(e: Elem)
    requires Legal(e)
    ensures ElemText(Written(e)) == ElemTokens(e) && ElemMeant(Written(e)) == Some(e) && ElemGrouped(Written(e))
  {
    hide ElemTokens, ElemText, ElemMeant, TypesAgree, ShapesAgree, Writable;
    LegalExactly(e);
    WrittenText(e);
  }

  function WrittenStruct(st: StructDecl): Decl {
    StructForm(st.name, st.naked, WrittenElems(st.elems))
  }

  /** A legal struct's text is one of the grammar, and means that struct. */
  lemma StructAgain(st: StructDecl)
    requires LegalStruct(st)
    ensures DeclText(WrittenStruct(st)) == StructTokens(st) && DeclGrouped(WrittenStruct(st))
    ensures StructMeant(WrittenStruct(st)) == Some(st)
  {
    hide ElemsText, ElemsTokens, ElemsMeant, WrittenElems, ElemGrouped;
    ElemsAgain(st.elems);
  }

  // ----- enums

  /** Items without a value of their own count on from the one before; names are not repeated. */
  predicate LegalItem(done: seq<Item>, i: Item) {
    && (forall k :: 0 <= k < |done| ==> done[k].name != i.name)
    && (i.given || i.value == if done == [] then 0 else done[|done| - 1].value + 1)
  }

  predicate LegalItems(items: seq<Item>) {
    forall i :: 0 <= i < |items| ==> LegalItem(items[..i], items[i])
  }

  function WrittenItem(i: Item): ItemForm {
    ItemForm(i.name, if i.given then Some(FormOf(Int(i.value))) else None)
  }

  function WrittenItems(items: seq<Item>): (fs: seq<ItemForm>)
    ensures |fs| == |items| && forall i :: 0 <= i < |items| ==> fs[i] == WrittenItem(items[i])
  {
    if items == [] then [] else [WrittenItem(items[0])] + WrittenItems(items[1..])
  }

  lemma WrittenItemIs(done: seq<Item>, i: Item)
    ensures ItemText(WrittenItem(i), true) == ItemTokens(i) && ItemGrouped(WrittenItem(i))
    ensures ItemMeant(done, WrittenItem(i)) == Some(i) <==> LegalItem(done, i)
  {
    hide FormTokens, ValueTokens, Grouped, Meaning, Evaluate, FormOf;
    ValueText(Int(i.value));
  }

  /** Any items read are legal. */
  lemma {:induction false} ItemsLegal(done: seq<Item>, fs: seq<ItemForm>)
    requires LegalItems(done) && ItemsMeant(done, fs).Some?
    ensures LegalItems(ItemsMeant(done, fs).value) && done <= ItemsMeant(done, fs).value
    decreases fs
  {
    hide LegalItems, ItemMeant;
    if fs != [] {
      var i := ItemMeant(done, fs[0]).value;
      LegalMore(done, i);
      MeantLegal(done, fs[0]);
      ItemsLegal(done + [i], fs[1..]);
    }
  }

  lemma MeantLegal(done: seq<Item>, f: ItemForm)
    requires ItemMeant(done, f).Some?
    ensures LegalItem(done, ItemMeant(done, f).value)
  {
  }

  lemma LegalMore(items: seq<Item>, i: Item)
    ensures LegalItems([])
    ensures LegalItems(items + [i]) <==> LegalItems(items) && LegalItem(items, i)
  {
    hide LegalItem;
    var more := items + [i];
    assert more[..|items|] == items;
    assert forall k :: 0 <= k < |items| ==> more[..k] == items[..k] && more[k] == items[k];
    if LegalItems(items) && LegalItem(items, i) {
      forall k | 0 <= k < |more|
        ensures LegalItem(more[..k], more[k])
      {
      }
    }
  }

  /** The items behind others are read back exactly if all are legal. */
  lemma {:induction false} ItemsAgain(done: seq<Item>, items: seq<Item>)
    requires LegalItems(done)
    ensures ItemsMeant(done, WrittenItems(items)) == Some(done + items) <==> LegalItems(done + items)
    decreases items
  {
    hide LegalItems, LegalItem, ItemMeant, WrittenItem;
    var fs := WrittenItems(items);
    if items == [] {
      assert done + items == done;
    } else {
      WrittenItemIs(done, items[0]);
      LegalMore(done, items[0]);
      assert done + items == done + [items[0]] + items[1..];
      if ItemMeant(done, fs[0]) == Some(items[0]) {
        ItemsAgain(done + [items[0]], items[1..]);
      } else {
        LegalFront(done + [items[0]], items[1..]);
        if ItemMeant(done, fs[0]).Some? && ItemsMeant(done, fs).Some? {
          var i := ItemMeant(done, fs[0]).value;
          MeantFront(done + [i], fs[1..]);
          OtherFront(done, i, items, ItemsMeant(done, fs).value);
        }
      }
    }
  }

  lemma OtherFront(done: seq<Item>, i: Item, items: seq<Item>, whole: seq<Item>)
    requires items != [] && items[0] != i && done + [i] <= whole
    ensures whole != done + items
  {
    assert whole[|done|] == i && (done + items)[|done|] == items[0];
  }

  lemma {:induction false} MeantFront(done: seq<Item>, fs: seq<ItemForm>)
    requires ItemsMeant(done, fs).Some?
    ensures done <= ItemsMeant(done, fs).value
    decreases fs
  {
    hide ItemMeant;
    if fs != [] {
      MeantFront(done + [ItemMeant(done, fs[0]).value], fs[1..]);
    }
  }

  lemma {:induction false} LegalFront(items: seq<Item>, more: seq<Item>)
    requires !LegalItems(items)
    ensures !LegalItems(items + more)
  {
    hide LegalItem;
    var i :| 0 <= i < |items| && !LegalItem(items[..i], items[i]);
    assert (items + more)[..i] == items[..i] && (items + more)[i] == items[i];
  }

  lemma {:induction false} ItemsPrinted(items: seq<Item>)
    ensures ItemsText(WrittenItems(items), true) == ItemsTokens(items)
    ensures forall i :: 0 <= i < |items| ==> ItemGrouped(WrittenItems(items)[i])
  {
    hide ItemText, ItemTokens, WrittenItem, ItemGrouped;
    if items != [] {
      ItemsPrinted(items[1..]);
      WrittenItemIs([], items[0]);
      assert WrittenItems(items)[1..] == WrittenItems(items[1..]);
    }
  }

  /** Written as it is, with or without a comma behind the last item. */
  function WrittenEnum(en: EnumDecl, comma: bool): Decl {
    EnumForm(en.name, en.isClass, WrittenItems(en.items), comma)
  }

  /** Leaving the last comma out is all the difference. */
  lemma {:induction false} LastComma(items: seq<ItemForm>)
    requires items != []
    ensures ItemsText(items, true) == ItemsText(items, false) + [Punct(Comma)]
  {
    if |items| == 1 {
      assert items[1..] == [];
    } else {
      LastComma(items[1..]);
    }
  }

  /** An enum is read back, class mark included, whether or not a comma stands behind its last item. */
  lemma EnumMeans(en: EnumDecl, comma: bool)
    ensures EnumMeant(WrittenEnum(en, comma)) == Some(en) <==> LegalItems(en.items)
    ensures DeclGrouped(WrittenEnum(en, comma))
  {
    hide LegalItem, LegalItems, ItemsMeant, WrittenItem, WrittenItems, ItemGrouped;
    LegalMore([], Item("", false, 0));
    ItemsAgain([], en.items);
    ItemsPrinted(en.items);
    assert [] + en.items == en.items;
  }

  method EnumAgain(p: Parser, ghost en: EnumDecl, ghost comma: bool, ghost rest: seq<Token>) returns (r: Option<EnumDecl>)
    requires p.Valid()
    modifies p
    ensures LegalItems(en.items) && old(p.At(DeclText(WrittenEnum(en, comma)) + rest)) ==> r == Some(en) && p.At(rest)
    ensures r.Some? ==> LegalItems(r.value.items)
  {
    hide DeclText, LegalItems, ItemsMeant, WrittenItems, ItemGrouped;
    EnumMeans(en, comma);
    ghost var g;
    r, g := p.ParseEnum(WrittenEnum(en, comma), rest);
    if r.Some? {
      LegalMore([], Item("", false, 0));
      ItemsLegal([], g.items);
    }
  }

  /** The printer writes every comma, and no class mark. */
  lemma EnumPrinted(en: EnumDecl)
    requires LegalItems(en.items)
    ensures
      var plain := en.(isClass := false);
      && DeclText(WrittenEnum(plain, true)) == EnumTokens(en) && DeclGrouped(WrittenEnum(plain, true))
      && EnumMeant(WrittenEnum(plain, true)) == Some(plain)
  {
    hide LegalItems, ItemsMeant, ItemsText, ItemsTokens, ItemGrouped, WrittenItems;
    EnumMeans(en.(isClass := false), true);
    ItemsPrinted(en.items);
  }

  // ----- one that is stranger

  /** A size behind the initialiser is not checked against it. */
  lemma SizeTooLate()
    ensures
      var e := ElemForm(Plain(U8), "a", [InitValue(Leaf(Int(3))), Size([Factor(4, false)], false)]);
      ElemMeant(e) == Some(Elem("a", Plain(U8), Some(4), false, Some(Int(3)))) && !Legal(ElemMeant(e).value)
  {
    var ps := [InitValue(Leaf(Int(3))), Size([Factor(4, false)], false)];
    assert ps[1..][1..] == [];
    OneFactor(Factor(4, false));
    assert WithParts(Elem("a", Plain(U8), None, false, Some(Int(3))), ps[1..])
        == Some(Elem("a", Plain(U8), Some(4), false, Some(Int(3))));
  }
}
