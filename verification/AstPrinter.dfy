/** Writing out the namespace of a struct and, in front of it, all namespaces that it needs. */
module AstPrinter {
  import opened WireFormat
  import opened SchemaText
  import opened SymbolTable

  /** The texts of the namespaces, one after the other. */
  function TextOf(ast: seq<Space>, order: seq<nat>): seq<Token>
    requires forall i :: 0 <= i < |order| ==> order[i] < |ast|
  {
    if order == [] then [] else SpaceTokens(ast[order[0]]) + TextOf(ast, order[1..])
  }

  /** Namespace d declares the type of the element. */
  predicate ElemNeeds(ast: seq<Space>, s: nat, e: Elem, d: nat)
    requires s < |ast|
  {
    StructOf(ast, ast[s].name, e.typ) == Some(d) || EnumOf(ast, ast[s].name, e.typ) == Some(d)
  }

  ghost predicate StructNeeds(ast: seq<Space>, s: nat, st: StructDecl, d: nat)
    requires s < |ast|
  {
    exists i :: 0 <= i < |st.elems| && ElemNeeds(ast, s, st.elems[i], d)
  }

  ghost predicate Needs(ast: seq<Space>, s: nat, d: nat)
    requires s < |ast|
  {
    exists k :: 0 <= k < |ast[s].structs| && StructNeeds(ast, s, ast[s].structs[k], d)
  }

  ghost predicate IsPath(ast: seq<Space>, path: seq<nat>) {
    && (forall i :: 0 <= i < |path| ==> path[i] < |ast|)
    && forall i, j :: 0 <= i < |path| && j == i + 1 < |path| ==> Needs(ast, path[i], path[j])
  }

  /** Namespace d is needed by s, directly or through others. */
  ghost predicate Reaches(ast: seq<Space>, s: nat, d: nat) {
    exists path :: IsPath(ast, path) && |path| > 1 && path[0] == s && path[|path| - 1] == d
  }

  function Below(n: nat): (r: set<nat>)
    ensures forall i :: i in r <==> 0 <= i < n
  {
    if n == 0 then {} else Below(n - 1) + {n - 1}
  }

  ghost function Members(order: seq<nat>): set<nat> {
    set x | x in order
  }

  /** Reached through the type of one element, or of an element of one struct. */
  ghost predicate ViaElem(ast: seq<Space>, s: nat, e: Elem, d: nat)
    requires s < |ast|
  {
    exists i :: ElemNeeds(ast, s, e, i) && (i == d || Reaches(ast, i, d))
  }

  ghost predicate ViaStruct(ast: seq<Space>, s: nat, st: StructDecl, d: nat)
    requires s < |ast|
  {
    exists k :: 0 <= k < |st.elems| && ViaElem(ast, s, st.elems[k], d)
  }

  /** All printed for the sake of one namespace. */
  ghost predicate AllFor(ast: seq<Space>, target: Option<nat>, order: seq<nat>) {
    forall i :: 0 <= i < |order| ==>
      target.Some? && (order[i] == target.value || Reaches(ast, target.value, order[i]))
  }

  /**
    The namespaces just printed, in the order of the text: each once, none printed before, and
    all that they need printed by now.
  */
  ghost predicate Printed(ast: seq<Space>, was: set<nat>, order: seq<nat>, now: set<nat>) {
    && (forall i :: 0 <= i < |order| ==> order[i] < |ast| && order[i] !in was)
    && (forall i, j :: 0 <= i < j < |order| ==> order[i] != order[j])
    && now == was + Members(order)
    && (forall i, d :: 0 <= i < |order| && Needs(ast, order[i], d) ==> d in now)
  }

  lemma PrintedMore(ast: seq<Space>, was: set<nat>, a: seq<nat>, mid: set<nat>, b: seq<nat>, now: set<nat>)
    requires Printed(ast, was, a, mid) && Printed(ast, mid, b, now)
    ensures Printed(ast, was, b + a, now)
    ensures TextOf(ast, b + a) == TextOf(ast, b) + TextOf(ast, a)
  {
    hide Needs, TextOf, Members;
    var all := b + a;
    TextOfAppend(ast, b, a);
    MembersAppend(b, a);
    MembersAre(a);
    MembersAre(b);
    forall i | 0 <= i < |all|
      ensures all[i] < |ast| && all[i] !in was && forall d :: Needs(ast, all[i], d) ==> d in now
    {
      if i >= |b| {
        assert all[i] == a[i - |b|];
      }
    }
    forall i, j | 0 <= i < j < |all|
      ensures all[i] != all[j]
    {
      if i >= |b| {
        assert all[i] == a[i - |b|] && all[j] == a[j - |b|];
      } else if j >= |b| {
        assert all[j] == a[j - |b|];
      }
    }
  }

  lemma MembersAppend(a: seq<nat>, b: seq<nat>)
    ensures Members(a + b) == Members(a) + Members(b)
  {
  }

  lemma MembersAre(a: seq<nat>)
    ensures forall i :: 0 <= i < |a| ==> a[i] in Members(a)
  {
  }

  lemma {:induction false} TextOfAppend(ast: seq<Space>, a: seq<nat>, b: seq<nat>)
    requires forall i :: 0 <= i < |a| ==> a[i] < |ast|
    requires forall i :: 0 <= i < |b| ==> b[i] < |ast|
    ensures TextOf(ast, a + b) == TextOf(ast, a) + TextOf(ast, b)
  {
    if a == [] {
      assert a + b == b;
    } else {
      assert (a + b)[1..] == a[1..] + b;
      TextOfAppend(ast, a[1..], b);
      var head := SpaceTokens(ast[a[0]]);
      assert head + (TextOf(ast, a[1..]) + TextOf(ast, b)) == head + TextOf(ast, a[1..]) + TextOf(ast, b);
    }
  }

  /** A namespace and those printed for it. */
  lemma PrintedSpace(ast: seq<Space>, was: set<nat>, i: nat, order: seq<nat>, now: set<nat>)
    requires i < |ast| && i !in was && Printed(ast, was + {i}, order, now) && forall d :: Needs(ast, i, d) ==> d in now
    ensures Printed(ast, was, order + [i], now)
    ensures TextOf(ast, order + [i]) == TextOf(ast, order) + SpaceTokens(ast[i])
  {
    hide Needs, TextOf, Members;
    MembersAppend(order, [i]);
    assert Members([i]) == {i} by {
      MemberOne(i);
    }
    TextOfAppend(ast, order, [i]);
    TextOne(ast, i);
  }

  lemma MemberOne(i: nat)
    ensures Members([i]) == {i}
  {
  }

  lemma TextOne(ast: seq<Space>, i: nat)
    requires i < |ast|
    ensures TextOf(ast, [i]) == SpaceTokens(ast[i])
  {
    hide SpaceTokens;
    assert TextOf(ast, [i][1..]) == [];
  }

  /** Texts put in front of what has been written, and one written behind it. */
  lemma InFront(more: seq<Token>, had: seq<Token>, base: seq<Token>, body: seq<Token>, next: seq<Token>)
    ensures more + (had + base + body) + next == more + had + base + (body + next)
  {
  }

  lemma ReachesNext(ast: seq<Space>, s: nat, i: nat, d: nat)
    requires s < |ast| && Needs(ast, s, i) && i < |ast| && d < |ast| && (i == d || Reaches(ast, i, d))
    ensures Reaches(ast, s, d)
  {
    hide Needs;
    var path := [i];
    if i != d {
      path :| IsPath(ast, path) && |path| > 1 && path[0] == i && path[|path| - 1] == d;
    }
    var longer := [s] + path;
    assert IsPath(ast, longer) && longer[|longer| - 1] == path[|path| - 1];
  }

  lemma {:induction false} StructsTokensMore(sts: seq<StructDecl>, k: nat)
    requires k < |sts|
    ensures StructsTokens(sts[..k + 1]) == StructsTokens(sts[..k]) + StructTokens(sts[k])
  {
    hide StructTokens;
    if k == 0 {
      assert sts[..1][1..] == [];
    } else {
      StructsTokensMore(sts[1..], k - 1);
      assert sts[..k + 1][1..] == sts[1..][..k] && sts[..k][1..] == sts[1..][..k - 1];
    }
  }

  lemma {:induction false} ElemsTokensMore(es: seq<Elem>, k: nat)
    requires k < |es|
    ensures ElemsTokens(es[..k + 1]) == ElemsTokens(es[..k]) + ElemTokens(es[k])
  {
    hide ElemTokens;
    if k == 0 {
      assert es[..1][1..] == [];
    } else {
      ElemsTokensMore(es[1..], k - 1);
      assert es[..k + 1][1..] == es[1..][..k] && es[..k][1..] == es[1..][..k - 1];
    }
  }

  class Printer {
    const ast: seq<Space>
    var buffer: seq<Token>
    var printed: set<nat>

    constructor (spaces: seq<Space>)
      ensures ast == spaces && buffer == [] && printed == {}
    {
      ast, buffer, printed := spaces, [], {};
    }

    ghost function Unprinted(): set<nat>
      reads this
    {
      Below(|ast|) - printed
    }

    /** Prints a namespace behind the buffer and, in front of it, those it needs. */
    method PrintNamespace(s: nat) returns (ghost order: seq<nat>)
      requires s < |ast| && s in printed
      modifies this
      ensures Printed(ast, old(printed), order, printed) && (forall d :: Needs(ast, s, d) ==> d in printed)
      ensures buffer == TextOf(ast, order) + old(buffer) + SpaceTokens(ast[s])
      ensures forall i :: 0 <= i < |order| ==> Reaches(ast, s, order[i])
      decreases Unprinted(), 4
    {
      hide TextOf, EnumsTokens, StructsTokens, Needs, Reaches;
      ghost var base := buffer;
      var sp := ast[s];
      ghost var head := if sp.name != GLOBAL then [Word(Namespace), Identifier(sp.name), Punct(OpenBrace)] else [];
      if sp.name != GLOBAL {
        buffer := buffer + [Word(Namespace), Identifier(sp.name), Punct(OpenBrace)];
      }
      assert base + [] == base;
      PrintEnums(sp.enums);
      order := PrintStructs(s);
      Assemble(TextOf(ast, order), base, head, EnumsTokens(sp.enums), StructsTokens(sp.structs));
      if sp.name != GLOBAL {
        buffer := buffer + [Punct(CloseBrace)];
      }
    }

    method PrintEnums(ens: seq<EnumDecl>)
      modifies this`buffer
      ensures buffer == old(buffer) + EnumsTokens(ens)
    {
      var k := 0;
      while k < |ens|
        invariant k <= |ens| && buffer + EnumsTokens(ens[k..]) == old(buffer) + EnumsTokens(ens)
      {
        hide EnumTokens;
        assert ens[k..][1..] == ens[k + 1..];
        buffer := buffer + EnumTokens(ens[k]);
        k := k + 1;
      }
      assert ens[k..] == [];
    }

    method PrintStructs(s: nat) returns (ghost order: seq<nat>)
      requires s < |ast| && s in printed
      modifies this
      ensures Printed(ast, old(printed), order, printed) && (forall d :: Needs(ast, s, d) ==> d in printed)
      ensures buffer == TextOf(ast, order) + old(buffer) + StructsTokens(ast[s].structs)
      ensures forall i :: 0 <= i < |order| ==> Reaches(ast, s, order[i])
      decreases Unprinted(), 3
    {
      hide TextOf, StructsTokens, StructTokens, StructNeeds, ViaStruct, Reaches, Printed;
      ghost var was, base, sts := printed, buffer, ast[s].structs;
      order := [];
      Begin(ast, was);
      assert base + [] == base && [] + base == base && sts[..0] == [];
      var k := 0;
      while k < |ast[s].structs|
        invariant k <= |sts| && s in printed && Unprinted() <= old(Unprinted())
        invariant Printed(ast, was, order, printed) && (forall i :: 0 <= i < |order| ==> order[i] < |ast|)
        invariant forall j, d :: 0 <= j < k && StructNeeds(ast, s, sts[j], d) ==> d in printed
        invariant buffer == TextOf(ast, order) + base + StructsTokens(sts[..k])
        invariant forall i :: 0 <= i < |order| ==> Reaches(ast, s, order[i])
      {
        ghost var mid, had := printed, order;
        ghost var more := PrintStruct(s, ast[s].structs[k]);
        PrintedMore(ast, was, had, mid, more, printed);
        PrintedOnly(ast, mid, more, printed);
        ViaReaches(ast, s, k, more);
        StructsTokensMore(sts, k);
        InFront(TextOf(ast, more), TextOf(ast, had), base, StructsTokens(sts[..k]), StructTokens(sts[k]));
        order := more + had;
        k := k + 1;
      }
      assert sts[..k] == sts;
    }

    method PrintStruct(s: nat, st: StructDecl) returns (ghost order: seq<nat>)
      requires s < |ast| && s in printed
      modifies this
      ensures Printed(ast, old(printed), order, printed) && (forall d :: StructNeeds(ast, s, st, d) ==> d in printed)
      ensures buffer == TextOf(ast, order) + old(buffer) + StructTokens(st)
      ensures forall i :: 0 <= i < |order| ==> ViaStruct(ast, s, st, order[i])
      decreases Unprinted(), 2
    {
      hide TextOf, ElemsTokens, ElemTokens, ElemNeeds, ViaElem, Printed;
      ghost var was, base := printed, buffer;
      ghost var head := [Word(Struct), Identifier(st.name)] + (if st.naked then [Punct(AtNaked)] else [])
                        + [Punct(OpenBrace)];
      buffer := buffer + ([Word(Struct), Identifier(st.name)] + (if st.naked then [Punct(AtNaked)] else [])
                          + [Punct(OpenBrace)]);
      order := [];
      Begin(ast, was);
      assert [] + (base + head) + [] == base + head && st.elems[..0] == [];
      var k := 0;
      while k < |st.elems|
        invariant k <= |st.elems| && s in printed && Unprinted() <= old(Unprinted())
        invariant Printed(ast, was, order, printed) && (forall i :: 0 <= i < |order| ==> order[i] < |ast|)
        invariant forall j, d :: 0 <= j < k && ElemNeeds(ast, s, st.elems[j], d) ==> d in printed
        invariant buffer == TextOf(ast, order) + (base + head) + ElemsTokens(st.elems[..k])
        invariant forall i :: 0 <= i < |order| ==> ViaStruct(ast, s, st, order[i])
      {
        ghost var mid, had := printed, order;
        ghost var more := PrintElem(s, st.elems[k]);
        PrintedMore(ast, was, had, mid, more, printed);
        PrintedOnly(ast, mid, more, printed);
        ElemsTokensMore(st.elems, k);
        InFront(TextOf(ast, more), TextOf(ast, had), base + head, ElemsTokens(st.elems[..k]), ElemTokens(st.elems[k]));
        order := more + had;
        k := k + 1;
      }
      assert st.elems[..k] == st.elems;
      buffer := buffer + [Punct(CloseBrace)];
    }

    method PrintElem(s: nat, e: Elem) returns (ghost order: seq<nat>)
      requires s < |ast| && s in printed
      modifies this
      ensures Printed(ast, old(printed), order, printed) && (forall d :: ElemNeeds(ast, s, e, d) ==> d in printed)
      ensures buffer == TextOf(ast, order) + old(buffer) + ElemTokens(e)
      ensures forall i :: 0 <= i < |order| ==> ViaElem(ast, s, e, order[i])
      decreases Unprinted(), 1
    {
      hide TextOf, TypeTokens, SuffixTokens, ValueTokens, Reaches, Printed, StructOf, EnumOf, ViaElem, AllFor;
      ghost var was, base := printed, buffer;
      buffer := buffer + TypeTokens(e.typ);
      ghost var first := PrintNeeded(StructOf(ast, ast[s].name, e.typ));
      ghost var mid := printed;
      PrintedOnly(ast, was, first, mid);
      ghost var second := PrintNeeded(EnumOf(ast, ast[s].name, e.typ));
      PrintedOnly(ast, mid, second, printed);
      PrintedMore(ast, was, first, mid, second, printed);
      order := second + first;
      ViaNeeded(ast, s, e, first, StructOf(ast, ast[s].name, e.typ));
      ViaNeeded(ast, s, e, second, EnumOf(ast, ast[s].name, e.typ));
      ghost var text := TextOf(ast, second) + TextOf(ast, first);
      assert buffer == text + (base + TypeTokens(e.typ));
      buffer := buffer + [Identifier(e.name)] + SuffixTokens(e.suffix)
                + (if e.init.Some? then [Punct(Assign)] + ValueTokens(e.init.value) else [])
                + (if e.compact then [Punct(AtCompact)] else []) + [Punct(Semicolon)];
      assert buffer == text + base + ElemTokens(e);
    }

    /** Prepends a namespace that is not printed yet, built in a buffer of its own. */
    method PrintNeeded(target: Option<nat>) returns (ghost order: seq<nat>)
      requires target.Some? ==> target.value < |ast|
      modifies this
      ensures Printed(ast, old(printed), order, printed) && (target.Some? ==> target.value in printed)
      ensures buffer == TextOf(ast, order) + old(buffer)
      ensures AllFor(ast, target, order)
      decreases Unprinted(), 0
    {
      hide Needs, Reaches, TextOf, SpaceTokens, Printed, Members;
      order := [];
      Begin(ast, printed);
      assert [] + buffer == buffer;
      if target.Some? && target.value !in printed {
        ghost var was := printed;
        var t := target.value;
        printed := printed + {t};
        var saved := buffer;
        buffer := [];
        assert t !in Unprinted();
        order := PrintNamespace(t);
        PrintedOnly(ast, was + {t}, order, printed);
        PrintedSpace(ast, was, t, order, printed);
        assert TextOf(ast, order) + [] + SpaceTokens(ast[t]) == TextOf(ast, order) + SpaceTokens(ast[t]);
        buffer := buffer + saved;
        order := order + [t];
      }
    }

    /** Prints everything that a struct of the namespace depends on. */
    method PrintAst(s: nat) returns (ghost order: seq<nat>)
      requires s < |ast| && buffer == []
      modifies this
      ensures forall i :: 0 <= i < |order| ==> order[i] < |ast|
      ensures buffer == TextOf(ast, order)
      ensures forall i, j :: 0 <= i < j < |order| ==> order[i] != order[j]
      ensures forall d :: d in order <==> d == s || Reaches(ast, s, d)
    {
      hide Needs, Reaches, SpaceTokens, TextOf, Printed;
      printed := {s};
      order := PrintNamespace(s);
      PrintedOnly(ast, {s}, order, printed);
      assert {} + {s} == {s};
      PrintedSpace(ast, {}, s, order, printed);
      assert TextOf(ast, order) + [] + SpaceTokens(ast[s]) == TextOf(ast, order) + SpaceTokens(ast[s]);
      Complete(ast, s, order, printed);
      order := order + [s];
      printed := {};
    }
  }

  lemma Complete(ast: seq<Space>, s: nat, order: seq<nat>, now: set<nat>)
    requires s < |ast| && Printed(ast, {}, order + [s], now) && Printed(ast, {s}, order, now)
    requires forall d :: Needs(ast, s, d) ==> d in now
    requires forall i :: 0 <= i < |order| ==> Reaches(ast, s, order[i])
    ensures forall i :: 0 <= i < |order + [s]| ==> (order + [s])[i] < |ast|
    ensures forall i, j :: 0 <= i < j < |order + [s]| ==> (order + [s])[i] != (order + [s])[j]
    ensures forall d :: d in order + [s] <==> d == s || Reaches(ast, s, d)
  {
    hide Needs, Reaches;
    var all := order + [s];
    assert all[|order|] == s;
    forall d | Reaches(ast, s, d)
      ensures d in all
    {
      Closed(ast, now, s, d);
    }
  }

  lemma Assemble(deps: seq<Token>, base: seq<Token>, head: seq<Token>, enums: seq<Token>, structs: seq<Token>)
    ensures deps + (base + head + enums) + structs == deps + base + (head + (enums + structs))
    ensures forall close :: deps + base + (head + (enums + structs)) + close == deps + base + (head + (enums + structs) + close)
  {
  }

  lemma Begin(ast: seq<Space>, was: set<nat>)
    ensures Printed(ast, was, [], was)
    ensures TextOf(ast, []) == [] && StructsTokens([]) == [] && ElemsTokens([]) == []
  {
  }

  lemma PrintedOnly(ast: seq<Space>, was: set<nat>, order: seq<nat>, now: set<nat>)
    requires Printed(ast, was, order, now)
    ensures was <= now && forall i :: 0 <= i < |order| ==> order[i] < |ast|
  {
  }

  lemma ViaReaches(ast: seq<Space>, s: nat, k: nat, order: seq<nat>)
    requires s < |ast| && k < |ast[s].structs|
    requires forall i :: 0 <= i < |order| ==> order[i] < |ast| && ViaStruct(ast, s, ast[s].structs[k], order[i])
    ensures forall i :: 0 <= i < |order| ==> Reaches(ast, s, order[i])
  {
    hide ElemNeeds, Reaches;
    forall x | 0 <= x < |order|
      ensures Reaches(ast, s, order[x])
    {
      var st, d := ast[s].structs[k], order[x];
      var j :| 0 <= j < |st.elems| && ViaElem(ast, s, st.elems[j], d);
      var i :| ElemNeeds(ast, s, st.elems[j], i) && (i == d || Reaches(ast, i, d));
      assert StructNeeds(ast, s, st, i);
      NeededExists(ast, s, st.elems[j], i);
      ReachesNext(ast, s, i, d);
    }
  }

  lemma ViaNeeded(ast: seq<Space>, s: nat, e: Elem, order: seq<nat>, target: Option<nat>)
    requires s < |ast|
    requires target == StructOf(ast, ast[s].name, e.typ) || target == EnumOf(ast, ast[s].name, e.typ)
    requires AllFor(ast, target, order)
    ensures forall i :: 0 <= i < |order| ==> ViaElem(ast, s, e, order[i])
  {
    hide StructOf, EnumOf, Reaches;
    if target.Some? {
      assert ElemNeeds(ast, s, e, target.value);
    }
  }

  lemma NeededExists(ast: seq<Space>, s: nat, e: Elem, d: nat)
    requires s < |ast| && ElemNeeds(ast, s, e, d)
    ensures d < |ast|
  {
  }

  /** A set that contains all that its members need contains all that they reach. */
  lemma {:induction false} Closed(ast: seq<Space>, all: set<nat>, s: nat, d: nat)
    requires s in all && Reaches(ast, s, d)
    requires forall i, j :: i in all && i < |ast| && Needs(ast, i, j) ==> j in all
    ensures d in all
  {
    var path :| IsPath(ast, path) && |path| > 1 && path[0] == s && path[|path| - 1] == d;
    ClosedPath(ast, all, path, |path| - 1);
  }

  lemma {:induction false} ClosedPath(ast: seq<Space>, all: set<nat>, path: seq<nat>, k: nat)
    requires IsPath(ast, path) && k < |path| && path[0] in all
    requires forall i, j :: i in all && i < |ast| && Needs(ast, i, j) ==> j in all
    ensures path[k] in all
  {
    hide Needs;
    if k > 0 {
      ClosedPath(ast, all, path, k - 1);
      assert Needs(ast, path[k - 1], path[k]);
    }
  }
}
