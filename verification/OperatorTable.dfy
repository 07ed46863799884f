/**
  The operator table against the usual one, in which products bind tighter than sums: which
  expressions, written the usual way, are read as they are meant.
*/
module OperatorTable {
  import opened WireFormat
  import opened SchemaText
  import opened SchemaParser

  datatype Table = Given | Usual

  predicate IsSum(op: Op) {
    op.Plus? || op.Minus?
  }

  function PrecedenceIn(table: Table, op: Op): nat {
    match table
    case Given => Precedence(op)
    case Usual => if IsSum(op) then 1 else 2
  }

  /** A tree that can be written. */
  predicate Expressible(e: Expr) {
    match e
    case Lit(v) => Writeable(v)
    case Unary(op, inner) => IsSum(op) && Expressible(inner)
    case Binary(_, lhs, rhs) => Expressible(lhs) && Expressible(rhs)
    case Braces(es) => es != [] && forall i :: 0 <= i < |es| ==> Expressible(es[i])
  }

  /** Written with the parentheses that the table makes necessary, and only those. */
  function Minimal(table: Table, e: Expr, level: nat): (f: Form)
    ensures Meaning(f) == e
    decreases e, 1
  {
    match e
    case Lit(v) => Leaf(v)
    case Unary(op, inner) => Signed(op, Minimal(table, inner, TIGHTEST))
    case Binary(op, lhs, rhs) =>
      var p := PrecedenceIn(table, op);
      var joined := Joined(op, Minimal(table, lhs, p), Minimal(table, rhs, p + 1));
      if p < level then Parens(joined) else joined
    case Braces(es) => InBraces(MinimalAll(table, es))
  }

  function MinimalAll(table: Table, es: seq<Expr>): (fs: seq<Form>)
    ensures Meanings(fs) == es
    ensures |fs| == |es| && forall i :: 0 <= i < |es| ==> fs[i] == Minimal(table, es[i], 0)
    decreases es, 0
  {
    if es == [] then [] else [Minimal(table, es[0], 0)] + MinimalAll(table, es[1..])
  }

  /** Whether the expression is in parentheses where operators weaker than the level need them. */
  predicate InParens(table: Table, e: Expr, level: nat) {
    e.Binary? && PrecedenceIn(table, e.op) < level
  }

  // ----- which texts are read as meant

  /** Minimal text under the given table is read as meant. */
  lemma {:induction false} MinimalGrouped(e: Expr, level: nat)
    requires Expressible(e)
    ensures Grouped(Minimal(Given, e, level), level)
    decreases e
  {
    match e
    case Lit(_) =>
    case Unary(_, inner) => MinimalGrouped(inner, TIGHTEST);
    case Binary(op, lhs, rhs) =>
      MinimalGrouped(lhs, Precedence(op));
      MinimalGrouped(rhs, Precedence(op) + 1);
    case Braces(es) =>
      forall i | 0 <= i < |es|
        ensures Grouped(Minimal(Given, es[i], 0), 0)
      {
        MinimalGrouped(es[i], 0);
      }
  }

  predicate IsProduct(e: Expr) {
    e.Binary? && !IsSum(e.op)
  }

  /** Nowhere is a product an operand of a sum. */
  predicate NoBareProduct(e: Expr) {
    match e
    case Lit(_) => true
    case Unary(_, inner) => NoBareProduct(inner)
    case Binary(op, lhs, rhs) =>
      NoBareProduct(lhs) && NoBareProduct(rhs) && (IsSum(op) ==> !IsProduct(lhs) && !IsProduct(rhs))
    case Braces(es) => forall i :: 0 <= i < |es| ==> NoBareProduct(es[i])
  }

  /** Text under the usual table is read as meant exactly under that condition. */
  lemma {:induction false} UsualGrouped(e: Expr)
    requires Expressible(e)
    ensures Grouped(Minimal(Usual, e, 0), 0) <==> NoBareProduct(e)
    decreases e, 0
  {
    match e
    case Lit(_) =>
    case Unary(_, inner) => UsualOperand(inner, TIGHTEST, TIGHTEST);
    case Binary(op, lhs, rhs) =>
      UsualOperand(lhs, PrecedenceIn(Usual, op), Precedence(op));
      UsualOperand(rhs, PrecedenceIn(Usual, op) + 1, Precedence(op) + 1);
    case Braces(es) =>
      forall i | 0 <= i < |es|
        ensures Grouped(Minimal(Usual, es[i], 0), 0) <==> NoBareProduct(es[i])
      {
        UsualGrouped(es[i]);
      }
  }

  /** An operand that the usual table leaves without parentheses must bind tightly enough. */
  lemma {:induction false} UsualOperand(e: Expr, usual: nat, level: nat)
    requires Expressible(e)
    ensures Grouped(Minimal(Usual, e, usual), level)
            <==> NoBareProduct(e) && (e.Binary? && !InParens(Usual, e, usual) ==> Precedence(e.op) >= level)
    decreases e, 1
  {
    UsualGrouped(e);
  }

  // ----- a text with its meaning determines where its parentheses are

  /** The number of tokens that are not parentheses. */
  function Count(e: Expr): (n: nat)
    ensures n > 0
    decreases e, 0
  {
    match e
    case Lit(_) => 1
    case Unary(_, inner) => 1 + Count(inner)
    case Binary(_, lhs, rhs) => Count(lhs) + 1 + Count(rhs)
    case Braces(es) => 2 + CountAll(es)
  }

  function CountAll(es: seq<Expr>): nat
    decreases es, 0
  {
    if es == [] then 0
    else if |es| == 1 then Count(es[0])
    else Count(es[0]) + 1 + CountAll(es[1..])
  }

  predicate IsParen(t: Token) {
    t == Punct(OpenParen) || t == Punct(CloseParen)
  }

  /** The parentheses open behind a token, and behind a text. */
  function Behind(t: Token, open: int): int {
    if t == Punct(OpenParen) then open + 1 else if t == Punct(CloseParen) then open - 1 else open
  }

  function Opened(s: seq<Token>, open: int): int {
    if s == [] then open else Opened(s[1..], Behind(s[0], open))
  }

  /** How many parentheses are open at each token that is not a parenthesis. */
  function Nesting(s: seq<Token>, open: int): seq<int> {
    if s == [] then []
    else
      var rest := Nesting(s[1..], Behind(s[0], open));
      if IsParen(s[0]) then rest else [open] + rest
  }

  /** The same for the tokens of a form. */
  function Nested(f: Form, open: int): (r: seq<int>)
    ensures |r| == Count(Meaning(f))
    decreases f, 0
  {
    match f
    case Leaf(_) => [open]
    case Signed(_, inner) => [open] + Nested(inner, open)
    case Joined(_, lhs, rhs) => Nested(lhs, open) + [open] + Nested(rhs, open)
    case InBraces(fs) => [open] + NestedAll(fs, open) + [open]
    case Parens(inner) => Nested(inner, open + 1)
  }

  function NestedAll(fs: seq<Form>, open: int): (r: seq<int>)
    ensures |r| == CountAll(Meanings(fs))
    decreases fs, 0
  {
    if fs == [] then []
    else if |fs| == 1 then Nested(fs[0], open)
    else
      MeaningsRest(fs);
      Nested(fs[0], open) + [open] + NestedAll(fs[1..], open)
  }

  lemma MeaningsRest(fs: seq<Form>)
    requires fs != []
    ensures Meanings(fs)[1..] == Meanings(fs[1..])
  {
  }

  /** A text whose nesting is given, and which closes what it opens. */
  ghost predicate Nests(s: seq<Token>, open: int, r: seq<int>) {
    Nesting(s, open) == r && Opened(s, open) == open
  }

  lemma {:induction false} NestingAppend(a: seq<Token>, b: seq<Token>, open: int)
    ensures Nesting(a + b, open) == Nesting(a, open) + Nesting(b, Opened(a, open))
    ensures Opened(a + b, open) == Opened(b, Opened(a, open))
  {
    if a == [] {
      assert a + b == b;
    } else {
      assert (a + b)[1..] == a[1..] + b;
      NestingAppend(a[1..], b, Behind(a[0], open));
    }
  }

  lemma NestsBoth(a: seq<Token>, b: seq<Token>, open: int, r: seq<int>, t: seq<int>)
    requires Nests(a, open, r) && Nests(b, open, t)
    ensures Nests(a + b, open, r + t)
  {
    NestingAppend(a, b, open);
  }

  lemma NestsOne(t: Token, open: int)
    requires !IsParen(t)
    ensures Nests([t], open, [open])
  {
    assert [t][1..] == [];
  }

  lemma NestsInParens(s: seq<Token>, open: int, r: seq<int>)
    requires Nests(s, open + 1, r)
    ensures Nests([Punct(OpenParen)] + s + [Punct(CloseParen)], open, r)
  {
    var close := [Punct(CloseParen)];
    assert close[1..] == [] && r + [] == r;
    NestingAppend(s, close, open + 1);
    var all := [Punct(OpenParen)] + s + close;
    assert all[1..] == s + close;
  }

  lemma {:induction false} FormNests(f: Form, open: int)
    ensures Nests(FormTokens(f), open, Nested(f, open))
    decreases f, 1
  {
    hide Nests;
    match f
    case Leaf(v) => NestsOne(LiteralToken(v), open);
    case Signed(op, inner) =>
      NestsOne(Operator(op), open);
      FormNests(inner, open);
      NestsBoth([Operator(op)], FormTokens(inner), open, [open], Nested(inner, open));
    case Joined(op, lhs, rhs) =>
      var (a, b) := (FormTokens(lhs), [Operator(op)]);
      FormNests(lhs, open);
      NestsOne(Operator(op), open);
      FormNests(rhs, open);
      NestsBoth(a, b, open, Nested(lhs, open), [open]);
      NestsBoth(a + b, FormTokens(rhs), open, Nested(lhs, open) + [open], Nested(rhs, open));
    case InBraces(fs) =>
      var (first, last) := ([Punct(OpenBrace)], [Punct(CloseBrace)]);
      NestsOne(Punct(OpenBrace), open);
      NestsOne(Punct(CloseBrace), open);
      ListNests(fs, open);
      NestsBoth(first, ListTokens(fs), open, [open], NestedAll(fs, open));
      NestsBoth(first + ListTokens(fs), last, open, [open] + NestedAll(fs, open), [open]);
    case Parens(inner) =>
      FormNests(inner, open + 1);
      NestsInParens(FormTokens(inner), open, Nested(inner, open + 1));
  }

  lemma {:induction false} ListNests(fs: seq<Form>, open: int)
    ensures Nests(ListTokens(fs), open, NestedAll(fs, open))
    decreases fs, 0
  {
    if fs == [] {
    } else if |fs| == 1 {
      FormNests(fs[0], open);
    } else {
      hide Nests;
      var (a, b) := (FormTokens(fs[0]), [Punct(Comma)]);
      FormNests(fs[0], open);
      NestsOne(Punct(Comma), open);
      ListNests(fs[1..], open);
      NestsBoth(a, b, open, Nested(fs[0], open), [open]);
      NestsBoth(a + b, ListTokens(fs[1..]), open, Nested(fs[0], open) + [open], NestedAll(fs[1..], open));
    }
  }

  /** The place of the token that is the expression's own: its operator, sign, brace or literal. */
  function Own(e: Expr): (n: nat)
    ensures n < Count(e)
  {
    if e.Binary? then Count(e.lhs) else 0
  }

  /** That token is nested in the parentheses around the expression, and in no others. */
  lemma {:induction false} OwnNesting(f: Form, open: int)
    ensures Nested(f, open)[Own(Meaning(f))] >= open
    ensures f.Parens? <==> Nested(f, open)[Own(Meaning(f))] > open
  {
    match f
    case Parens(inner) => OwnNesting(inner, open + 1);
    case Joined(_, lhs, rhs) =>
      var a := Nested(lhs, open);
      assert (a + [open] + Nested(rhs, open))[|a|] == open;
    case _ =>
  }

  lemma Parts(a: seq<int>, b: seq<int>, c: seq<int>, d: seq<int>)
    requires a + b == c + d && |a| == |c|
    ensures a == c && b == d
  {
    assert a == (a + b)[..|a|] && c == (c + d)[..|c|];
    assert b == (a + b)[|a|..] && d == (c + d)[|c|..];
  }

  lemma {:induction false} SameNesting(f: Form, g: Form, open: int)
    requires Meaning(f) == Meaning(g) && Nested(f, open) == Nested(g, open)
    ensures f == g
    decreases f, 1
  {
    OwnNesting(f, open);
    OwnNesting(g, open);
    match f
    case Leaf(_) =>
    case Parens(inner) => SameNesting(inner, g.f, open + 1);
    case Signed(_, inner) =>
      Parts([open], Nested(inner, open), [open], Nested(g.f, open));
      SameNesting(inner, g.f, open);
    case Joined(_, lhs, rhs) =>
      Parts(Nested(lhs, open) + [open], Nested(rhs, open), Nested(g.lhs, open) + [open], Nested(g.rhs, open));
      Parts(Nested(lhs, open), [open], Nested(g.lhs, open), [open]);
      SameNesting(lhs, g.lhs, open);
      SameNesting(rhs, g.rhs, open);
    case InBraces(fs) =>
      Parts([open] + NestedAll(fs, open), [open], [open] + NestedAll(g.fs, open), [open]);
      Parts([open], NestedAll(fs, open), [open], NestedAll(g.fs, open));
      SameNestingAll(fs, g.fs, open);
  }

  lemma {:induction false} SameNestingAll(fs: seq<Form>, gs: seq<Form>, open: int)
    requires Meanings(fs) == Meanings(gs) && NestedAll(fs, open) == NestedAll(gs, open)
    ensures fs == gs
    decreases fs, 0
  {
    assert |fs| == |Meanings(fs)| == |Meanings(gs)| == |gs|;
    if |fs| == 1 {
      SameNesting(fs[0], gs[0], open);
    } else if fs != [] {
      MeaningsRest(fs);
      MeaningsRest(gs);
      var (a, c) := (Nested(fs[0], open), Nested(gs[0], open));
      Parts(a + [open], NestedAll(fs[1..], open), c + [open], NestedAll(gs[1..], open));
      Parts(a, [open], c, [open]);
      SameNesting(fs[0], gs[0], open);
      SameNestingAll(fs[1..], gs[1..], open);
      assert fs == [fs[0]] + fs[1..] && gs == [gs[0]] + gs[1..];
    }
  }

  /** So one text with one meaning has its parentheses in one place. */
  lemma SameForm(f: Form, g: Form)
    requires Meaning(f) == Meaning(g) && FormTokens(f) == FormTokens(g)
    ensures f == g
  {
    FormNests(f, 0);
    FormNests(g, 0);
    SameNesting(f, g, 0);
  }

  // ----- where such a text ends does not depend on what follows

  /** The length of a text of n tokens that are not parentheses, up to where all are closed. */
  function Span(s: seq<Token>, n: nat, open: int): nat {
    if (n == 0 && open <= 0) || s == [] then 0
    else 1 + Span(s[1..], if IsParen(s[0]) || n == 0 then n else n - 1, Behind(s[0], open))
  }

  lemma SpanNext(t: Token, s: seq<Token>, n: nat, open: int)
    requires n > 0 || open > 0
    ensures Span([t] + s, n, open) == 1 + Span(s, if IsParen(t) || n == 0 then n else n - 1, Behind(t, open))
  {
    assert ([t] + s)[1..] == s;
  }

  lemma {:induction false} SpanForm(f: Form, rest: seq<Token>, n: nat, open: nat)
    ensures Span(FormTokens(f) + rest, Count(Meaning(f)) + n, open) == |FormTokens(f)| + Span(rest, n, open)
    decreases f, 1
  {
    hide Span;
    match f
    case Leaf(v) => SpanNext(LiteralToken(v), rest, 1 + n, open);
    case Signed(op, inner) =>
      assert FormTokens(f) + rest == [Operator(op)] + (FormTokens(inner) + rest);
      SpanNext(Operator(op), FormTokens(inner) + rest, Count(Meaning(f)) + n, open);
      SpanForm(inner, rest, n, open);
    case Joined(op, lhs, rhs) => SpanJoined(op, lhs, rhs, rest, n, open);
    case InBraces(fs) => SpanBraces(fs, rest, n, open);
    case Parens(inner) => SpanParens(inner, rest, n, open);
  }

  lemma {:induction false} SpanBraces(fs: seq<Form>, rest: seq<Token>, n: nat, open: nat)
    ensures
      var f := InBraces(fs);
      Span(FormTokens(f) + rest, Count(Meaning(f)) + n, open) == |FormTokens(f)| + Span(rest, n, open)
    decreases InBraces(fs), 0
  {
    hide Span, ListTokens;
    var (f, close) := (InBraces(fs), [Punct(CloseBrace)] + rest);
    assert FormTokens(f) + rest == [Punct(OpenBrace)] + (ListTokens(fs) + close);
    SpanNext(Punct(OpenBrace), ListTokens(fs) + close, Count(Meaning(f)) + n, open);
    SpanList(fs, close, 1 + n, open);
    SpanNext(Punct(CloseBrace), rest, 1 + n, open);
  }

  lemma {:induction false} SpanParens(inner: Form, rest: seq<Token>, n: nat, open: nat)
    ensures
      var f := Parens(inner);
      Span(FormTokens(f) + rest, Count(Meaning(f)) + n, open) == |FormTokens(f)| + Span(rest, n, open)
    decreases Parens(inner), 0
  {
    hide Span, Count;
    var (f, close) := (Parens(inner), [Punct(CloseParen)] + rest);
    assert FormTokens(f) + rest == [Punct(OpenParen)] + (FormTokens(inner) + close);
    SpanNext(Punct(OpenParen), FormTokens(inner) + close, Count(Meaning(f)) + n, open);
    SpanForm(inner, close, n, open + 1);
    SpanNext(Punct(CloseParen), rest, n, open + 1);
  }

  lemma {:induction false} SpanJoined(op: Op, lhs: Form, rhs: Form, rest: seq<Token>, n: nat, open: nat)
    ensures
      var f := Joined(op, lhs, rhs);
      Span(FormTokens(f) + rest, Count(Meaning(f)) + n, open) == |FormTokens(f)| + Span(rest, n, open)
    decreases Joined(op, lhs, rhs), 0
  {
    hide Span;
    var (f, s, m) := (Joined(op, lhs, rhs), FormTokens(rhs) + rest, Count(Meaning(rhs)) + n);
    Bracketed(FormTokens(lhs), [Operator(op)], FormTokens(rhs), rest);
    SpanForm(lhs, [Operator(op)] + s, 1 + m, open);
    SpanNext(Operator(op), s, 1 + m, open);
    SpanForm(rhs, rest, n, open);
  }

  lemma {:induction false} SpanList(fs: seq<Form>, rest: seq<Token>, n: nat, open: nat)
    ensures Span(ListTokens(fs) + rest, CountAll(Meanings(fs)) + n, open) == |ListTokens(fs)| + Span(rest, n, open)
    decreases fs, 0
  {
    hide Span, FormTokens;
    if fs == [] {
      assert [] + rest == rest;
    } else if |fs| == 1 {
      SpanForm(fs[0], rest, n, open);
    } else {
      MeaningsRest(fs);
      var s := ListTokens(fs[1..]) + rest;
      var m := CountAll(Meanings(fs[1..])) + n;
      Bracketed(FormTokens(fs[0]), [Punct(Comma)], ListTokens(fs[1..]), rest);
      SpanForm(fs[0], [Punct(Comma)] + s, 1 + m, open);
      SpanNext(Punct(Comma), s, 1 + m, open);
      SpanList(fs[1..], rest, n, open);
    }
  }

  lemma SameText(f: Form, g: Form, x: seq<Token>, y: seq<Token>)
    requires Meaning(f) == Meaning(g) && FormTokens(f) + x == FormTokens(g) + y
    ensures f == g
  {
    SpanForm(f, x, 0, 0);
    SpanForm(g, y, 0, 0);
    assert Span(x, 0, 0) == 0 && Span(y, 0, 0) == 0;
    assert FormTokens(f) == (FormTokens(f) + x)[..|FormTokens(f)|];
    assert FormTokens(g) == (FormTokens(g) + y)[..|FormTokens(g)|];
    SameForm(f, g);
  }

  // ----- the two tables

  /** The table lets a sum bind tighter than a product: 2*3+4 is 2*(3+4). */
  lemma SumsBindTighter()
    ensures
      var (two, three, four) := (Lit(Int(2)), Lit(Int(3)), Lit(Int(4)));
      var grouped := Binary(Star, two, Binary(Plus, three, four));
      && FormTokens(Minimal(Given, grouped, 0))
         == [Number(2, false), Operator(Star), Number(3, false), Operator(Plus), Number(4, false)]
      && Evaluate(grouped) == Some(Int(14))
  {
  }

  /**
    An expression written the usual way is read as it is meant exactly if nowhere a product is an
    operand of a sum; a sum that is an operand of a product is in parentheses anyway.
  */
  method ParseUsual(p: Parser, ghost e: Expr, ghost rest: seq<Token>) returns (r: Option<Expr>)
    requires p.Valid()
    modifies p
    ensures Expressible(e) && Stops(rest, 0) && old(p.At(FormTokens(Minimal(Usual, e, 0)) + rest)) ==>
              (r == Some(e) <==> NoBareProduct(e))
  {
    hide FormTokens, Minimal, Grouped, Meaning, Expressible, NoBareProduct;
    ghost var f, from := Minimal(Usual, e, 0), p.pos;
    ghost var known := Expressible(e) && Stops(rest, 0) && p.At(FormTokens(f) + rest);
    ghost var g;
    r, g := p.ParseExpression(f, rest);
    if known {
      UsualGrouped(e);
      if r == Some(e) {
        assert p.tokens[from..] == p.tokens[from..p.pos] + p.tokens[p.pos..];
        SameText(g, f, p.tokens[p.pos..], rest);
      }
    }
  }

  /** The same for minimal text under the given table: it is always read as meant. */
  method ParseMinimal(p: Parser, ghost e: Expr, ghost rest: seq<Token>) returns (r: Option<Expr>)
    requires p.Valid()
    modifies p
    ensures Expressible(e) && Stops(rest, 0) && old(p.At(FormTokens(Minimal(Given, e, 0)) + rest)) ==>
              r == Some(e) && p.At(rest)
  {
    hide FormTokens, Minimal, Grouped;
    if Expressible(e) {
      MinimalGrouped(e, 0);
    }
    ghost var g;
    r, g := p.ParseExpression(Minimal(Given, e, 0), rest);
  }

  /** No sum is an operand of a product, and no product of a sum. */
  predicate Unmixed(e: Expr) {
    match e
    case Lit(_) => true
    case Unary(_, inner) => Unmixed(inner)
    case Binary(op, lhs, rhs) => Unmixed(lhs) && Unmixed(rhs) && Alike(op, lhs) && Alike(op, rhs)
    case Braces(es) => forall i :: 0 <= i < |es| ==> Unmixed(es[i])
  }

  predicate Alike(op: Op, operand: Expr) {
    operand.Binary? ==> IsSum(operand.op) == IsSum(op)
  }

  /** Operands of their own kind need parentheses under both tables or under neither; others under one. */
  lemma OperandParens(op: Op, operand: Expr)
    ensures
      var (p, q) := (PrecedenceIn(Given, op), PrecedenceIn(Usual, op));
      && (InParens(Given, operand, p) == InParens(Usual, operand, q) <==> Alike(op, operand))
      && (InParens(Given, operand, p + 1) == InParens(Usual, operand, q + 1) <==> Alike(op, operand))
  {
  }

  lemma {:induction false} OneForm(e: Expr, p: nat, q: nat)
    ensures Minimal(Given, e, p) == Minimal(Usual, e, q)
            <==> Unmixed(e) && InParens(Given, e, p) == InParens(Usual, e, q)
    decreases e
  {
    match e
    case Lit(_) =>
    case Unary(_, inner) => OneForm(inner, TIGHTEST, TIGHTEST);
    case Binary(op, lhs, rhs) =>
      OperandParens(op, lhs);
      OperandParens(op, rhs);
      OneForm(lhs, PrecedenceIn(Given, op), PrecedenceIn(Usual, op));
      OneForm(rhs, PrecedenceIn(Given, op) + 1, PrecedenceIn(Usual, op) + 1);
    case Braces(es) =>
      forall i | 0 <= i < |es|
        ensures Minimal(Given, es[i], 0) == Minimal(Usual, es[i], 0) <==> Unmixed(es[i])
      {
        OneForm(es[i], 0, 0);
      }
  }

  /** An expression is written alike under both tables exactly if products and sums are nowhere mixed. */
  lemma UsualText(e: Expr)
    ensures FormTokens(Minimal(Given, e, 0)) == FormTokens(Minimal(Usual, e, 0)) <==> Unmixed(e)
  {
    OneForm(e, 0, 0);
    if FormTokens(Minimal(Given, e, 0)) == FormTokens(Minimal(Usual, e, 0)) {
      SameForm(Minimal(Given, e, 0), Minimal(Usual, e, 0));
    }
  }
}
