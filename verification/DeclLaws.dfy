/** What declarations mean, of any text the grammar allows: when they are refused, and what becomes of each part. */
module DeclLaws {
  import opened WireFormat
  import opened SchemaText
  import opened DeclSyntax
  import opened SymbolTable
  import opened SchemaReader

  // ----- initialisers

  /** The values in a list, to any depth. */
  function Scalars(v: Literal): seq<Literal> {
    if v.List? then AllScalars(v.items) else [v]
  }

  function AllScalars(vs: seq<Literal>): seq<Literal> {
    if vs == [] then [] else Scalars(vs[0]) + AllScalars(vs[1..])
  }

  predicate Suits(b: Builtin, scalar: Literal) {
    match b
    case BoolType => scalar.Bool?
    case TextType => scalar.Text?
    case ShortTextType => scalar.Text?
    case F32 => scalar.Int? || scalar.Float?
    case F64 => scalar.Int? || scalar.Float?
    case _ => scalar.Int?
  }

  predicate AllSuit(b: Builtin, scalars: seq<Literal>) {
    forall i :: 0 <= i < |scalars| ==> Suits(b, scalars[i])
  }

  lemma {:induction false} BaseSuits(b: Builtin, v: Literal)
    ensures BaseAgrees(b, v) <==> AllSuit(b, Scalars(v))
    decreases v, 1
  {
    match v
    case List(items) => ListSuits(b, items);
    case _ => assert Scalars(v)[0] == v;
  }

  lemma {:induction false} ListSuits(b: Builtin, vs: seq<Literal>)
    ensures (forall i :: 0 <= i < |vs| ==> BaseAgrees(b, vs[i])) <==> AllSuit(b, AllScalars(vs))
    decreases vs, 0
  {
    hide BaseAgrees, Suits, Scalars;
    if vs != [] {
      BaseSuits(b, vs[0]);
      ListSuits(b, vs[1..]);
      var (x, y) := (Scalars(vs[0]), AllScalars(vs[1..]));
      assert forall i :: 0 <= i < |x| ==> (x + y)[i] == x[i];
      assert forall i :: 0 <= i < |y| ==> (x + y)[|x| + i] == y[i];
    }
  }

  /** A value suits a built-in type if all in it do, or as 0 or 1 for a bool; a name suits the other types. */
  lemma SuitsExactly(t: ElemType, v: Literal)
    ensures TypesAgree(t, v)
       <==> match t
            case Custom(_, _) => v.Name?
            case Plain(b) => AllSuit(b, Scalars(v)) || (b.BoolType? && (v == Int(0) || v == Int(1)))
  {
    match t
    case Plain(b) => BaseSuits(b, v);
    case _ =>
  }

  // ----- elements

  function ValueOf(p: Part): Option<Literal> {
    match p
    case Size(_, _) => None
    case InitName(s) => Some(Name(s))
    case InitValue(f) => Evaluate(Meaning(f))
  }

  /** A value is a list of that many, or of any number if the size is 0, exactly if there is a size in front of it. */
  ghost predicate ShapeFits(ps: seq<Part>, v: Literal) {
    && (v.List? <==> exists k :: 0 <= k < |ps| && ps[k].Size?)
    && forall k :: 0 <= k < |ps| && ps[k].Size? && Product(ps[k].ns) != 0 && v.List? ==> |v.items| == Product(ps[k].ns)
  }

  /** A part that is refused behind others. */
  ghost predicate Refused(t: ElemType, ps: seq<Part>, p: Part) {
    if p.Size? then
      || (exists k :: 0 <= k < |ps| && ps[k].Size?)
      || (p.compact && (Product(p.ns) == 0 || t == Plain(TextType)))
    else ValueOf(p).None? || !TypesAgree(t, ValueOf(p).value) || !ShapeFits(ps, ValueOf(p).value)
  }

  /** The size is the one that is given, and the initialiser the last of those given. */
  ghost predicate MadeOf(m: Elem, ps: seq<Part>) {
    && (forall k :: 0 <= k < |ps| && ps[k].Size? ==> m.suffix == Some(Product(ps[k].ns)) && m.compact == ps[k].compact)
    && ((forall k :: 0 <= k < |ps| ==> !ps[k].Size?) ==> m.suffix == None && !m.compact)
    && (forall k :: 0 <= k < |ps| && !ps[k].Size? && (forall j :: k < j < |ps| ==> ps[j].Size?) ==>
          m.init == ValueOf(ps[k]))
    && ((forall k :: 0 <= k < |ps| ==> ps[k].Size?) ==> m.init == None)
  }

  /** An element is refused exactly if one of its parts is; otherwise it has what its parts say. */
  lemma ElementExactly(e: ElemForm)
    ensures ElemMeant(e).None? <==> exists i :: 0 <= i < |e.parts| && Refused(e.typ, e.parts[..i], e.parts[i])
    ensures ElemMeant(e).Some? ==>
              var m := ElemMeant(e).value;
              m.name == e.name && m.typ == e.typ && MadeOf(m, e.parts)
  {
    PartsExactly(Elem(e.name, e.typ, None, false, None), e.parts);
  }

  lemma {:induction false} PartsExactly(start: Elem, ps: seq<Part>)
    requires start.suffix == None && !start.compact && start.init == None
    ensures WithParts(start, ps).None? <==> exists i :: 0 <= i < |ps| && Refused(start.typ, ps[..i], ps[i])
    ensures WithParts(start, ps).Some? ==>
              var m := WithParts(start, ps).value;
              m.name == start.name && m.typ == start.typ && MadeOf(m, ps)
    decreases |ps|
  {
    hide WithPart, WithParts, Refused, MadeOf;
    if ps == [] {
      NoParts(start);
      MadeOfNothing(start);
    } else {
      var (front, p) := (ps[..|ps| - 1], ps[|ps| - 1]);
      assert ps == front + [p];
      PartsExactly(start, front);
      RefusedMore(start.typ, front, p);
      if WithParts(start, front).None? {
        RefusedStays(start, front, p);
      } else {
        WithPartsMore(start, front, p);
        PartExactly(WithParts(start, front).value, front, p);
      }
    }
  }

  lemma MadeOfNothing(m: Elem)
    ensures MadeOf(m, []) <==> m.suffix == None && !m.compact && m.init == None
  {
  }

  lemma RefusedMore(t: ElemType, ps: seq<Part>, p: Part)
    ensures
      var more := ps + [p];
      (exists i :: 0 <= i < |more| && Refused(t, more[..i], more[i]))
      <==> Refused(t, ps, p) || exists i :: 0 <= i < |ps| && Refused(t, ps[..i], ps[i])
  {
    hide Refused;
    var more := ps + [p];
    assert more[..|ps|] == ps && more[|ps|] == p;
    assert forall i :: 0 <= i < |ps| ==> more[..i] == ps[..i] && more[i] == ps[i];
  }

  lemma {:induction false} RefusedStays(e: Elem, ps: seq<Part>, p: Part)
    requires WithParts(e, ps).None?
    ensures WithParts(e, ps + [p]).None?
    decreases ps
  {
    hide WithPart;
    assert (ps + [p])[1..] == ps[1..] + [p];
    if WithPart(e, ps[0]).Some? {
      RefusedStays(WithPart(e, ps[0]).value, ps[1..], p);
    }
  }

  lemma PartExactly(m: Elem, ps: seq<Part>, p: Part)
    requires MadeOf(m, ps)
    ensures WithPart(m, p).None? <==> Refused(m.typ, ps, p)
    ensures WithPart(m, p).Some? ==>
              var n := WithPart(m, p).value;
              n.name == m.name && n.typ == m.typ && MadeOf(n, ps + [p])
  {
    hide TypesAgree, Product, Evaluate, Meaning;
    var more := ps + [p];
    assert forall k :: 0 <= k < |ps| ==> more[k] == ps[k];
    assert more[|ps|] == p;
  }

  // ----- structs

  /** A struct is refused exactly if one of its elements is, and otherwise has all of them, in order. */
  lemma StructExactly(d: Decl)
    requires d.StructForm?
    ensures StructMeant(d).None? <==> exists i :: 0 <= i < |d.elems| && ElemMeant(d.elems[i]).None?
    ensures StructMeant(d).Some? ==>
              var st := StructMeant(d).value;
              && st.name == d.name && st.naked == d.naked && |st.elems| == |d.elems|
              && forall i :: 0 <= i < |st.elems| ==> ElemMeant(d.elems[i]) == Some(st.elems[i])
  {
    hide ElemMeant;
    ElemsExactly(d.elems);
  }

  lemma {:induction false} ElemsExactly(es: seq<ElemForm>)
    ensures ElemsMeant(es).None? <==> exists i :: 0 <= i < |es| && ElemMeant(es[i]).None?
    ensures ElemsMeant(es).Some? ==>
              && |ElemsMeant(es).value| == |es|
              && forall i :: 0 <= i < |es| ==> ElemMeant(es[i]) == Some(ElemsMeant(es).value[i])
  {
    hide ElemMeant;
    if es != [] {
      ElemsExactly(es[1..]);
      assert forall i :: 0 <= i < |es[1..]| ==> es[1..][i] == es[i + 1];
      if ElemsMeant(es[1..]).None? {
        var i :| 0 <= i < |es[1..]| && ElemMeant(es[1..][i]).None?;
        assert ElemMeant(es[i + 1]).None?;
      } else if ElemMeant(es[0]).Some? {
        forall i | 0 <= i < |es|
          ensures ElemMeant(es[i]) == Some(ElemsMeant(es).value[i])
        {
          if i > 0 {
            assert ElemMeant(es[1..][i - 1]) == Some(ElemsMeant(es[1..]).value[i - 1]);
          }
        }
      }
    }
  }

  // ----- enums

  predicate IsInteger(f: Form) {
    match Evaluate(Meaning(f))
    case Some(Int(_)) => true
    case _ => false
  }

  /** An item is refused for the name of one before it, or for a value that is no integer. */
  ghost predicate ItemRefused(items: seq<ItemForm>, i: nat)
    requires i < |items|
  {
    || (exists k :: 0 <= k < i && items[k].name == items[i].name)
    || (items[i].value.Some? && !IsInteger(items[i].value.value))
  }

  /** Items have the values given, and without one count on from the one before, the first from 0. */
  ghost predicate ItemIs(items: seq<Item>, forms: seq<ItemForm>, i: nat)
    requires i < |items| == |forms|
  {
    && items[i].name == forms[i].name && items[i].given == forms[i].value.Some?
    && match forms[i].value
       case Some(f) => Evaluate(Meaning(f)) == Some(Int(items[i].value))
       case None => items[i].value == if i == 0 then 0 else items[i - 1].value + 1
  }

  /** An enum is refused exactly if one of its items is; otherwise it has all of them, in order. */
  lemma EnumExactly(d: Decl)
    requires d.EnumForm?
    ensures EnumMeant(d).None? <==> exists i :: 0 <= i < |d.items| && ItemRefused(d.items, i)
    ensures EnumMeant(d).Some? ==>
              var en := EnumMeant(d).value;
              && en.name == d.name && en.isClass == d.isClass && |en.items| == |d.items|
              && forall i :: 0 <= i < |en.items| ==> ItemIs(en.items, d.items, i)
  {
    hide ItemsMeant, ItemRefused, ItemIs;
    ItemsExactly(d.items);
  }

  lemma {:induction false} ItemsExactly(forms: seq<ItemForm>)
    ensures ItemsMeant([], forms).None? <==> exists i :: 0 <= i < |forms| && ItemRefused(forms, i)
    ensures ItemsMeant([], forms).Some? ==>
              && |ItemsMeant([], forms).value| == |forms|
              && forall i :: 0 <= i < |forms| ==> ItemIs(ItemsMeant([], forms).value, forms, i)
    decreases |forms|
  {
    hide ItemsMeant, ItemMeant, ItemRefused, ItemIs;
    if forms == [] {
      NoItemsMeant();
    } else {
      var (front, f) := (forms[..|forms| - 1], forms[|forms| - 1]);
      assert forms == front + [f];
      ItemsExactly(front);
      RefusedBefore(front, f);
      ItemsMeantNext([], front, f);
      if ItemsMeant([], front).Some? {
        ItemExactly(ItemsMeant([], front).value, front, f);
      }
    }
  }

  lemma NoItemsMeant()
    ensures ItemsMeant([], []) == Some([])
  {
  }

  lemma {:induction false} ItemsMeantNext(done: seq<Item>, forms: seq<ItemForm>, f: ItemForm)
    ensures ItemsMeant(done, forms + [f])
         == match ItemsMeant(done, forms)
            case None => None
            case Some(items) => match ItemMeant(items, f) case None => None case Some(i) => Some(items + [i])
    decreases forms
  {
    hide ItemMeant;
    if forms == [] {
      assert [f][1..] == [] && [] + [f] == [f];
    } else {
      assert (forms + [f])[1..] == forms[1..] + [f];
      if ItemMeant(done, forms[0]).Some? {
        ItemsMeantNext(done + [ItemMeant(done, forms[0]).value], forms[1..], f);
      }
    }
  }

  lemma RefusedBefore(forms: seq<ItemForm>, f: ItemForm)
    ensures forall i :: 0 <= i < |forms| ==> (ItemRefused(forms + [f], i) <==> ItemRefused(forms, i))
    ensures (exists i :: 0 <= i < |forms + [f]| && ItemRefused(forms + [f], i))
       <==> ItemRefused(forms + [f], |forms|) || exists i :: 0 <= i < |forms| && ItemRefused(forms, i)
  {
    hide IsInteger;
    var more := forms + [f];
    forall i | 0 <= i < |forms|
      ensures ItemRefused(more, i) <==> ItemRefused(forms, i)
    {
      assert forall k :: 0 <= k <= i ==> more[k] == forms[k];
    }
  }

  lemma ItemExactly(items: seq<Item>, forms: seq<ItemForm>, f: ItemForm)
    requires |items| == |forms| && forall i :: 0 <= i < |forms| ==> ItemIs(items, forms, i)
    ensures ItemMeant(items, f).None? <==> ItemRefused(forms + [f], |forms|)
    ensures ItemMeant(items, f).Some? ==>
              forall i :: 0 <= i <= |forms| ==> ItemIs(items + [ItemMeant(items, f).value], forms + [f], i)
  {
    hide Evaluate, Meaning;
    var more := forms + [f];
    forall k | 0 <= k < |forms|
      ensures items[k].name == more[k].name
    {
      assert ItemIs(items, forms, k);
    }
    if ItemMeant(items, f).Some? {
      var all := items + [ItemMeant(items, f).value];
      forall i | 0 <= i <= |forms|
        ensures ItemIs(all, more, i)
      {
        if i < |forms| {
          assert ItemIs(items, forms, i);
        }
      }
    }
  }
  // ----- whole schemas

  ghost predicate DeclRefused(d: Decl) {
    if d.StructForm? then StructMeant(d).None? else EnumMeant(d).None?
  }

  ghost predicate AnyRefused(ds: seq<Decl>) {
    exists i :: 0 <= i < |ds| && DeclRefused(ds[i])
  }

  ghost predicate TopRefused(t: Top) {
    AnyRefused(if t.Within? then t.decls else [t.decl])
  }

  function StructsOf(ds: seq<Decl>): (r: seq<Decl>)
    ensures forall i :: 0 <= i < |r| ==> r[i].StructForm?
  {
    if ds == [] then [] else (if ds[0].StructForm? then [ds[0]] else []) + StructsOf(ds[1..])
  }

  function EnumsOf(ds: seq<Decl>): (r: seq<Decl>)
    ensures forall i :: 0 <= i < |r| ==> r[i].EnumForm?
  {
    if ds == [] then [] else (if ds[0].EnumForm? then [ds[0]] else []) + EnumsOf(ds[1..])
  }

  /** What the declarations mean, in order. */
  ghost predicate Holding(structs: seq<StructDecl>, enums: seq<EnumDecl>, ds: seq<Decl>) {
    && |structs| == |StructsOf(ds)| && |enums| == |EnumsOf(ds)|
    && (forall i :: 0 <= i < |structs| ==> StructMeant(StructsOf(ds)[i]) == Some(structs[i]))
    && forall i :: 0 <= i < |enums| ==> EnumMeant(EnumsOf(ds)[i]) == Some(enums[i])
  }

  /** A namespace is refused exactly if a declaration is; otherwise it has what it had, and then what they mean. */
  lemma {:induction false} DeclsExactly(sp: Space, ds: seq<Decl>)
    ensures WithDecls(sp, ds).None? <==> AnyRefused(ds)
    ensures WithDecls(sp, ds).Some? ==>
              var now := WithDecls(sp, ds).value;
              && now.name == sp.name && sp.structs <= now.structs && sp.enums <= now.enums
              && Holding(now.structs[|sp.structs|..], now.enums[|sp.enums|..], ds)
    decreases ds
  {
    hide StructMeant, EnumMeant;
    if ds != [] {
      var d := ds[0];
      assert AnyRefused(ds) <==> DeclRefused(d) || AnyRefused(ds[1..]) by {
        FirstRefused(ds);
      }
      if !DeclRefused(d) {
        var next := if d.StructForm? then sp.(structs := sp.structs + [StructMeant(d).value])
                    else sp.(enums := sp.enums + [EnumMeant(d).value]);
        DeclsExactly(next, ds[1..]);
        if WithDecls(sp, ds).Some? {
          HeldBehind(sp, next, WithDecls(sp, ds).value, ds);
        }
      }
    }
  }

  lemma FirstRefused(ds: seq<Decl>)
    requires ds != []
    ensures AnyRefused(ds) <==> DeclRefused(ds[0]) || AnyRefused(ds[1..])
  {
    hide DeclRefused;
    if AnyRefused(ds) {
      var i :| 0 <= i < |ds| && DeclRefused(ds[i]);
      if i > 0 {
        assert ds[1..][i - 1] == ds[i];
      }
    }
    if AnyRefused(ds[1..]) {
      var i :| 0 <= i < |ds[1..]| && DeclRefused(ds[1..][i]);
      assert ds[i + 1] == ds[1..][i];
    }
  }

  lemma HeldBehind(sp: Space, next: Space, now: Space, ds: seq<Decl>)
    requires ds != [] && next.structs <= now.structs && next.enums <= now.enums
    requires Holding(now.structs[|next.structs|..], now.enums[|next.enums|..], ds[1..])
    requires
      if ds[0].StructForm? then
        StructMeant(ds[0]).Some? && next == sp.(structs := sp.structs + [StructMeant(ds[0]).value])
      else EnumMeant(ds[0]).Some? && next == sp.(enums := sp.enums + [EnumMeant(ds[0]).value])
    ensures Holding(now.structs[|sp.structs|..], now.enums[|sp.enums|..], ds)
  {
    hide StructMeant, EnumMeant;
    if ds[0].StructForm? {
      assert now.structs[|sp.structs|..] == [StructMeant(ds[0]).value] + now.structs[|next.structs|..];
    } else {
      assert now.enums[|sp.enums|..] == [EnumMeant(ds[0]).value] + now.enums[|next.enums|..];
    }
  }

  /** All that a text declares in a namespace, however often that is opened. */
  function DeclsIn(ts: seq<Top>, name: string): seq<Decl> {
    if ts == [] then []
    else (if ts[0].Within? && ts[0].space == name then ts[0].decls else []) + DeclsIn(ts[1..], name)
  }

  function DeclsOutside(ts: seq<Top>): seq<Decl> {
    if ts == [] then [] else (if ts[0].Outside? then [ts[0].decl] else []) + DeclsOutside(ts[1..])
  }

  ghost predicate Opened(ts: seq<Top>, name: string) {
    exists i :: 0 <= i < |ts| && ts[i].Within? && ts[i].space == name
  }

  function SpaceOf(ast: Ast, name: string): Space {
    match FindSpace(ast.spaces, name)
    case None => Space(name, [], [])
    case Some(i) => ast.spaces[i]
  }

  function GlobalOf(ast: Ast): Space {
    Space("", ast.global, ast.enums)
  }

  ghost predicate NamesApart(ast: Ast) {
    forall i, j :: 0 <= i < j < |ast.spaces| ==> ast.spaces[i].name != ast.spaces[j].name
  }

  // Each of these holds of one namespace or declaration more, and so of all.

  lemma {:induction false} WithDeclsBoth(sp: Space, a: seq<Decl>, b: seq<Decl>)
    ensures WithDecls(sp, a + b) == match WithDecls(sp, a) case None => None case Some(now) => WithDecls(now, b)
    decreases a
  {
    hide StructMeant, EnumMeant;
    if a == [] {
      assert [] + b == b;
    } else {
      assert (a + b)[1..] == a[1..] + b;
      if !DeclRefused(a[0]) {
        var next := if a[0].StructForm? then sp.(structs := sp.structs + [StructMeant(a[0]).value])
                    else sp.(enums := sp.enums + [EnumMeant(a[0]).value]);
        WithDeclsBoth(next, a[1..], b);
      }
    }
  }

  lemma {:induction false} FoundChanged(spaces: seq<Space>, i: nat, sp: Space, name: string)
    requires i < |spaces| && spaces[i].name == sp.name
    ensures FindSpace(spaces[i := sp], name) == FindSpace(spaces, name)
  {
    if i == 0 {
      assert spaces[0 := sp][1..] == spaces[1..];
    } else {
      assert spaces[i := sp][1..] == spaces[1..][i - 1 := sp];
      FoundChanged(spaces[1..], i - 1, sp, name);
    }
  }

  lemma TopStep(ast: Ast, t: Top, name: string)
    ensures WithTop(ast, t).None? <==> TopRefused(t)
    ensures WithTop(ast, t).Some? ==>
              var next := WithTop(ast, t).value;
              && WithDecls(GlobalOf(ast), DeclsOutside([t])) == Some(GlobalOf(next))
              && WithDecls(SpaceOf(ast, name), DeclsIn([t], name)) == Some(SpaceOf(next, name))
              && (FindSpace(next.spaces, name).Some?
                  <==> FindSpace(ast.spaces, name).Some? || (t.Within? && t.space == name))
              && (NamesApart(ast) ==> NamesApart(next))
  {
    hide StructMeant, EnumMeant;
    assert [t][1..] == [] && DeclsIn([], name) == [] && DeclsOutside([]) == [];
    if t.Outside? {
      assert [t.decl] + [] == [t.decl] && [t.decl][1..] == [];
      FirstRefused([t.decl]);
    } else {
      WithinStep(ast, t.space, t.decls, name);
      assert t.decls + [] == t.decls;
    }
  }

  lemma WithinStep(ast: Ast, space: string, ds: seq<Decl>, name: string)
    ensures WithTop(ast, Within(space, ds)).None? <==> AnyRefused(ds)
    ensures WithTop(ast, Within(space, ds)).Some? ==>
              var next := WithTop(ast, Within(space, ds)).value;
              && GlobalOf(next) == GlobalOf(ast)
              && (if space == name then WithDecls(SpaceOf(ast, name), ds) == Some(SpaceOf(next, name))
                  else SpaceOf(next, name) == SpaceOf(ast, name))
              && (FindSpace(next.spaces, name).Some? <==> FindSpace(ast.spaces, name).Some? || space == name)
              && (NamesApart(ast) ==> NamesApart(next))
  {
    hide WithDecls, AnyRefused, FindSpace;
    var start := SpaceOf(ast, space);
    DeclsExactly(start, ds);
    if WithDecls(start, ds).Some? {
      match FindSpace(ast.spaces, space)
      case None =>
        FindAppend(ast.spaces, [WithDecls(start, ds).value], name);
        FindOne(WithDecls(start, ds).value, name);
      case Some(i) => FoundChanged(ast.spaces, i, WithDecls(start, ds).value, name);
    }
  }

  lemma {:induction false} TopsRefused(ast: Ast, ts: seq<Top>)
    ensures WithTops(ast, ts).None? <==> exists i :: 0 <= i < |ts| && TopRefused(ts[i])
    decreases ts
  {
    hide WithTop, TopRefused;
    if ts != [] {
      TopStep(ast, ts[0], "");
      if TopRefused(ts[0]) {
        assert 0 < |ts| && TopRefused(ts[0]);
      } else {
        TopsRefused(WithTop(ast, ts[0]).value, ts[1..]);
        assert forall i :: 0 <= i < |ts[1..]| ==> ts[1..][i] == ts[i + 1];
        if i :| 0 <= i < |ts| && TopRefused(ts[i]) {
          assert TopRefused(ts[1..][i - 1]);
        }
      }
    }
  }

  lemma {:induction false} OutsideStays(ast: Ast, ts: seq<Top>)
    requires WithTops(ast, ts).Some?
    ensures WithDecls(GlobalOf(ast), DeclsOutside(ts)) == Some(GlobalOf(WithTops(ast, ts).value))
    decreases ts
  {
    hide WithTop, WithDecls, GlobalOf, TopRefused;
    if ts == [] {
      NoDecls(GlobalOf(ast));
    } else {
      TopStep(ast, ts[0], "");
      var next := WithTop(ast, ts[0]).value;
      OutsideStays(next, ts[1..]);
      OutsideFirst(ts);
      WithDeclsBoth(GlobalOf(ast), DeclsOutside([ts[0]]), DeclsOutside(ts[1..]));
    }
  }

  lemma OutsideFirst(ts: seq<Top>)
    requires ts != []
    ensures DeclsOutside(ts) == DeclsOutside([ts[0]]) + DeclsOutside(ts[1..])
    ensures forall name :: DeclsIn(ts, name) == DeclsIn([ts[0]], name) + DeclsIn(ts[1..], name)
  {
    assert [ts[0]][1..] == [];
  }

  lemma {:induction false} SpaceStays(ast: Ast, ts: seq<Top>, name: string)
    requires WithTops(ast, ts).Some?
    ensures WithDecls(SpaceOf(ast, name), DeclsIn(ts, name)) == Some(SpaceOf(WithTops(ast, ts).value, name))
    ensures FindSpace(WithTops(ast, ts).value.spaces, name).Some?
       <==> FindSpace(ast.spaces, name).Some? || Opened(ts, name)
    decreases ts
  {
    hide WithTop, WithDecls, SpaceOf, TopRefused, FindSpace, Opened;
    if ts == [] {
      NoDecls(SpaceOf(ast, name));
      OpenedFirst(ts, name);
    } else {
      TopStep(ast, ts[0], name);
      var next := WithTop(ast, ts[0]).value;
      SpaceStays(next, ts[1..], name);
      OutsideFirst(ts);
      OpenedFirst(ts, name);
      WithDeclsBoth(SpaceOf(ast, name), DeclsIn([ts[0]], name), DeclsIn(ts[1..], name));
    }
  }

  lemma OpenedFirst(ts: seq<Top>, name: string)
    ensures Opened(ts, name) <==> ts != [] && ((ts[0].Within? && ts[0].space == name) || Opened(ts[1..], name))
  {
    if ts != [] {
      assert forall i :: 0 <= i < |ts[1..]| ==> ts[1..][i] == ts[i + 1];
      if i :| 0 <= i < |ts| && ts[i].Within? && ts[i].space == name {
        if i > 0 {
          assert ts[1..][i - 1] == ts[i];
        }
      }
    }
  }

  lemma {:induction false} StayApart(ast: Ast, ts: seq<Top>)
    requires NamesApart(ast) && WithTops(ast, ts).Some?
    ensures NamesApart(WithTops(ast, ts).value)
    decreases ts
  {
    hide WithTop, NamesApart, TopRefused;
    if ts != [] {
      TopStep(ast, ts[0], "");
      StayApart(WithTop(ast, ts[0]).value, ts[1..]);
    }
  }

  /**
    A text is refused exactly if one of its declarations is. Otherwise there is one namespace of each
    name that is opened, with all that is declared in it; what stands outside of namespaces is global.
  */
  lemma SchemaExactly(ts: seq<Top>)
    ensures WithTops(NOTHING, ts).None? <==> exists i :: 0 <= i < |ts| && TopRefused(ts[i])
    ensures WithTops(NOTHING, ts).Some? ==>
              var ast := WithTops(NOTHING, ts).value;
              && NamesApart(ast) && Holding(ast.global, ast.enums, DeclsOutside(ts))
              && forall name ::
                   && (FindSpace(ast.spaces, name).Some? <==> Opened(ts, name))
                   && Holding(SpaceOf(ast, name).structs, SpaceOf(ast, name).enums, DeclsIn(ts, name))
  {
    hide WithDecls, WithTops, Holding, TopRefused, Opened, NamesApart, DeclsIn, DeclsOutside;
    TopsRefused(NOTHING, ts);
    if WithTops(NOTHING, ts).Some? {
      var ast := WithTops(NOTHING, ts).value;
      OutsideStays(NOTHING, ts);
      Behind(GlobalOf(NOTHING), DeclsOutside(ts));
      assert NamesApart(NOTHING) by {
        NothingApart();
      }
      StayApart(NOTHING, ts);
      forall name
        ensures FindSpace(ast.spaces, name).Some? <==> Opened(ts, name)
        ensures Holding(SpaceOf(ast, name).structs, SpaceOf(ast, name).enums, DeclsIn(ts, name))
      {
        SpaceStays(NOTHING, ts, name);
        Behind(Space(name, [], []), DeclsIn(ts, name));
      }
    }
  }

  lemma NothingApart()
    ensures NamesApart(NOTHING)
  {
  }

  /** From nothing, there is what is declared and no more. */
  lemma Behind(sp: Space, ds: seq<Decl>)
    requires sp.structs == [] && sp.enums == []
    ensures WithDecls(sp, ds).Some? ==> Holding(WithDecls(sp, ds).value.structs, WithDecls(sp, ds).value.enums, ds)
  {
    hide WithDecls, Holding;
    DeclsExactly(sp, ds);
    if WithDecls(sp, ds).Some? {
      var now := WithDecls(sp, ds).value;
      assert now.structs[0..] == now.structs && now.enums[0..] == now.enums;
    }
  }
}
