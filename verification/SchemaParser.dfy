/** The recursive descent parser, over a token cursor. */
module SchemaParser {
  import opened WireFormat
  import opened SchemaText
  import opened DeclSyntax

  // ----- a form as its leftmost operand and the operators applied to it in turn

  datatype Apply = Apply(op: Op, rhs: Form)

  function Leftmost(f: Form): Form {
    if f.Joined? then Leftmost(f.lhs) else f
  }

  function Applied(f: Form): seq<Apply> {
    if f.Joined? then Applied(f.lhs) + [Apply(f.op, f.rhs)] else []
  }

  function Rebuild(lhs: Form, steps: seq<Apply>): Form
    decreases steps
  {
    if steps == [] then lhs else Rebuild(Joined(steps[0].op, lhs, steps[0].rhs), steps[1..])
  }

  function ApplyTokens(steps: seq<Apply>): seq<Token> {
    if steps == [] then [] else [Operator(steps[0].op)] + FormTokens(steps[0].rhs) + ApplyTokens(steps[1..])
  }

  /** Operators apply from the tightest to the weakest, none of them weaker than the level. */
  predicate Descending(steps: seq<Apply>, level: nat) {
    && (forall i :: 0 <= i < |steps| ==>
          Precedence(steps[i].op) >= level && Grouped(steps[i].rhs, Precedence(steps[i].op) + 1))
    && (forall i, j :: 0 <= i < j < |steps| ==> Precedence(steps[i].op) >= Precedence(steps[j].op))
  }

  lemma {:induction false} RebuildMore(lhs: Form, steps: seq<Apply>, last: Apply)
    ensures Rebuild(lhs, steps + [last]) == Joined(last.op, Rebuild(lhs, steps), last.rhs)
    decreases steps
  {
    if steps == [] {
      assert steps + [last] == [last];
    } else {
      assert (steps + [last])[1..] == steps[1..] + [last];
      RebuildMore(Joined(steps[0].op, lhs, steps[0].rhs), steps[1..], last);
    }
  }

  lemma {:induction false} ApplyTokensMore(steps: seq<Apply>, last: Apply)
    ensures ApplyTokens(steps + [last]) == ApplyTokens(steps) + ([Operator(last.op)] + FormTokens(last.rhs))
  {
    var one := [Operator(last.op)] + FormTokens(last.rhs);
    if steps == [] {
      assert steps + [last] == [last] && ApplyTokens([last][1..]) == [];
      assert [] + one == one + [];
    } else {
      assert (steps + [last])[1..] == steps[1..] + [last];
      ApplyTokensMore(steps[1..], last);
      var head := [Operator(steps[0].op)] + FormTokens(steps[0].rhs);
      assert head + (ApplyTokens(steps[1..]) + one) == head + ApplyTokens(steps[1..]) + one;
    }
  }

  lemma NothingRebuilt(f: Form)
    ensures Rebuild(f, []) == f
  {
  }

  lemma DescendingMore(steps: seq<Apply>, level: nat, last: Apply)
    requires Descending(steps, Precedence(last.op)) && Precedence(last.op) >= level
    requires Grouped(last.rhs, Precedence(last.op) + 1)
    ensures Descending(steps + [last], level)
  {
  }

  lemma NoSteps(level: nat)
    ensures Descending([], level)
  {
  }

  lemma DescendingRest(steps: seq<Apply>, level: nat)
    requires Descending(steps, level) && steps != []
    ensures Precedence(steps[0].op) >= level && Grouped(steps[0].rhs, Precedence(steps[0].op) + 1)
    ensures Descending(steps[1..], level)
    ensures |steps| > 1 ==> Precedence(steps[1].op) <= Precedence(steps[0].op)
  {
  }

  lemma NothingApplied(rest: seq<Token>)
    ensures ApplyTokens([]) + rest == rest
  {
  }

  lemma FirstApply(steps: seq<Apply>, rest: seq<Token>, level: nat)
    requires Descending(steps, level) && Stops(rest, level) && steps != []
    ensures
      var (p, after) := (Precedence(steps[0].op), ApplyTokens(steps[1..]) + rest);
      && ApplyTokens(steps) + rest == [Operator(steps[0].op)] + (FormTokens(steps[0].rhs) + after)
      && Stops(after, p + 1) && Descending(steps[1..], level) && p >= level && Grouped(steps[0].rhs, p + 1)
  {
    hide FormTokens, Grouped, Descending;
    DescendingRest(steps, level);
    Bracketed([Operator(steps[0].op)], FormTokens(steps[0].rhs), ApplyTokens(steps[1..]), rest);
    var after := ApplyTokens(steps[1..]) + rest;
    if steps[1..] == [] {
      assert after == rest;
    } else {
      assert after[0] == Operator(steps[1].op);
    }
  }

  /** Text that is read as the table says is a leftmost operand and operators of descending precedence. */
  lemma {:induction false} Spine(f: Form, level: nat)
    requires Grouped(f, level)
    ensures FormTokens(f) == FormTokens(Leftmost(f)) + ApplyTokens(Applied(f))
    ensures Rebuild(Leftmost(f), Applied(f)) == f
    ensures Single(Leftmost(f)) && Descending(Applied(f), level)
    decreases f
  {
    hide Descending;
    NoSteps(level);
    if f.Joined? {
      var (first, steps, last) := (Leftmost(f.lhs), Applied(f.lhs), Apply(f.op, f.rhs));
      Spine(f.lhs, Precedence(f.op));
      RebuildMore(first, steps, last);
      DescendingMore(steps, level, last);
      ApplyTokensMore(steps, last);
      var one := [Operator(f.op)] + FormTokens(f.rhs);
      assert FormTokens(first) + ApplyTokens(steps) + [Operator(f.op)] + FormTokens(f.rhs)
          == FormTokens(first) + (ApplyTokens(steps) + one);
    } else {
      assert FormTokens(f) + [] == FormTokens(f);
    }
  }

  // ----- the parser

  class Parser {
    const tokens: seq<Token>
    var pos: nat

    ghost predicate Valid()
      reads this
    {
      pos <= |tokens|
    }

    /** What is left to parse. */
    ghost predicate At(rest: seq<Token>)
      reads this
    {
      pos <= |tokens| && tokens[pos..] == rest
    }

    constructor (text: seq<Token>)
      ensures Valid() && tokens == text && At(text)
    {
      tokens, pos := text, 0;
    }

    function Peek(): (t: Token)
      requires Valid()
      reads this
      ensures pos < |tokens| ==> t == tokens[pos..][0]
    {
      if pos < |tokens| then tokens[pos] else LastToken
    }

    method Next(ghost rest: seq<Token>) returns (t: Token)
      requires Valid()
      modifies this
      ensures Valid() && t == old(Peek())
      ensures pos == if old(pos) < |tokens| then old(pos) + 1 else old(pos)
      ensures old(At([Peek()] + rest)) ==> At(rest)
      ensures t != LastToken ==> Read(old(pos), [t])
    {
      t := Peek();
      if pos < |tokens| {
        assert tokens[pos + 1..] == tokens[pos..][1..];
        pos := pos + 1;
      }
    }

    /** The tokens from a position up to the cursor are a text. */
    ghost predicate Read(from: nat, s: seq<Token>)
      reads this
    {
      from <= pos <= |tokens| && tokens[from..pos] == s
    }

    /** One text read behind another. */
    lemma {:induction false} ReadBoth(from: nat, mid: nat, a: seq<Token>, b: seq<Token>)
      requires from <= mid <= pos <= |tokens| && tokens[from..mid] == a && Read(mid, b)
      ensures Read(from, a + b)
    {
      assert tokens[from..pos] == tokens[from..mid] + tokens[mid..pos];
    }

    /** What is left does not go on with an expression at the level. */
    ghost predicate Ended(level: nat)
      reads this
    {
      pos <= |tokens| && Stops(tokens[pos..], level)
    }

    // The contracts of the methods for expressions have two parts. Whatever is returned is what
    // the tokens read mean, read as the table says, the form being a ghost result. And in front of
    // the tokens of a form so read, followed by anything that cannot go on with it, that form is read.

    method ParseExpression(ghost f: Form, ghost rest: seq<Token>) returns (r: Option<Expr>, ghost g: Form)
      requires Valid()
      modifies this
      ensures Valid() && pos >= old(pos) && (r.Some? ==> pos > old(pos))
      ensures r.Some? ==> Grouped(g, 0) && r.value == Meaning(g) && Read(old(pos), FormTokens(g)) && Ended(0)
      ensures Grouped(f, 0) && Stops(rest, 0) && old(At(FormTokens(f) + rest)) ==> r.Some? && g == f && At(rest)
      decreases |tokens| - pos, 4
    {
      hide FormTokens, ApplyTokens, Grouped, Descending, Meaning;
      ghost var known := Grouped(f, 0) && Stops(rest, 0) && At(FormTokens(f) + rest);
      ghost var steps := Applied(f);
      if known {
        Spine(f, 0);
        assert FormTokens(f) + rest == FormTokens(Leftmost(f)) + (ApplyTokens(steps) + rest);
      }
      var lhs;
      lhs, g := ParseUnary(Leftmost(f), ApplyTokens(steps) + rest);
      if lhs.None? {
        return None, g;
      }
      AnyLevel(g, 0);
      r, g := ParseBinary(0, lhs.value, g, old(pos), steps, rest);
    }

    /** The loop over the operators that are not weaker than the level. */
    method ParseBinary(level: nat, start: Expr, ghost first: Form, ghost from: nat, ghost steps: seq<Apply>,
                       ghost rest: seq<Token>)
      returns (r: Option<Expr>, ghost g: Form)
      requires Valid() && Grouped(first, level) && !first.Joined? && start == Meaning(first) && Read(from, FormTokens(first))
      modifies this
      ensures Valid() && pos >= old(pos)
      ensures r.Some? ==> Grouped(g, level) && r.value == Meaning(g) && Read(from, FormTokens(g)) && Ended(level)
      ensures Descending(steps, level) && Stops(rest, level) && old(At(ApplyTokens(steps) + rest)) ==>
                r.Some? && g == Rebuild(first, steps) && At(rest)
      decreases |tokens| - pos, 3
    {
      hide FormTokens, Grouped;
      ghost var known := Descending(steps, level) && Stops(rest, level) && At(ApplyTokens(steps) + rest);
      ghost var left := steps;
      var lhs := start;
      g := first;
      while Peek().Operator? && Precedence(Peek().op) >= level
        invariant Valid() && pos >= old(pos)
        invariant Grouped(g, level) && lhs == Meaning(g) && Read(from, FormTokens(g))
        invariant g.Joined? ==> Ended(Precedence(g.op) + 1)
        invariant known ==> At(ApplyTokens(left) + rest) && Descending(left, level)
        invariant known ==> Rebuild(g, left) == Rebuild(first, steps)
        decreases |tokens| - pos
      {
        ghost var mid := pos;
        var op := Peek().op;
        var rhs;
        ghost var h;
        rhs, h := ParseOperand(op, level, left, rest);
        if rhs.None? {
          return None, g;
        }
        JoinedNext(op, g, h, level);
        ReadBoth(from, mid, FormTokens(g), [Operator(op)] + FormTokens(h));
        lhs, g := Binary(op, lhs, rhs.value), Joined(op, g, h);
        left := if known then left[1..] else left;
      }
      NoneLeft(left, rest, level);
      r := Some(lhs);
    }

    /** The rest of the text begins with no operator of the level, so no step is left. */
    lemma {:induction false} NoneLeft(left: seq<Apply>, rest: seq<Token>, level: nat)
      requires Valid() && !(Peek().Operator? && Precedence(Peek().op) >= level)
      ensures Ended(level)
      ensures At(ApplyTokens(left) + rest) && Descending(left, level) ==> left == [] && At(rest)
    {
      hide FormTokens;
      assert ApplyTokens([]) + rest == rest;
      assert left != [] ==> (ApplyTokens(left) + rest)[0] == Operator(left[0].op);
    }

    /** An operator and its right operand. */
    method ParseOperand(op: Op, ghost level: nat, ghost left: seq<Apply>, ghost rest: seq<Token>)
      returns (r: Option<Expr>, ghost g: Form)
      requires Valid() && Peek() == Operator(op) && Precedence(op) >= level
      modifies this
      ensures Valid() && pos > old(pos)
      ensures r.Some? ==>
                && Grouped(g, Precedence(op) + 1) && r.value == Meaning(g)
                && Read(old(pos), [Operator(op)] + FormTokens(g)) && Ended(Precedence(op) + 1)
      ensures Descending(left, level) && Stops(rest, level) && old(At(ApplyTokens(left) + rest)) ==>
                && left != [] && op == left[0].op && r.Some? && g == left[0].rhs
                && At(ApplyTokens(left[1..]) + rest) && Descending(left[1..], level)
      decreases |tokens| - pos, 0
    {
      hide FormTokens, Grouped, ApplyTokens, Descending, Meaning, Stops;
      ghost var known := Descending(left, level) && Stops(rest, level) && At(ApplyTokens(left) + rest);
      ghost var rhs, after := Leaf(Int(0)), ApplyTokens(if known && left != [] then left[1..] else []) + rest;
      if known {
        FirstStep(left, rest, level, op);
        rhs := left[0].rhs;
      }
      var _ := Next(FormTokens(rhs) + after);
      ghost var from := pos;
      r, g := ParseTighter(Precedence(op), rhs, after);
      if r.Some? {
        ReadBoth(old(pos), from, [Operator(op)], FormTokens(g));
      }
    }

    /** An operand with all operators behind it that bind tighter. */
    method ParseTighter(p: nat, ghost f: Form, ghost rest: seq<Token>) returns (r: Option<Expr>, ghost g: Form)
      requires Valid()
      modifies this
      ensures Valid() && pos >= old(pos)
      ensures r.Some? ==>
                Grouped(g, p + 1) && r.value == Meaning(g) && Read(old(pos), FormTokens(g)) && Ended(p + 1)
      ensures Grouped(f, p + 1) && Stops(rest, p + 1) && old(At(FormTokens(f) + rest)) ==>
                r.Some? && g == f && At(rest)
      decreases |tokens| - pos, 4
    {
      hide FormTokens, Grouped, ApplyTokens, Applied, Leftmost, Descending, Meaning, Rebuild, Single;
      ghost var known := Grouped(f, p + 1) && Stops(rest, p + 1) && At(FormTokens(f) + rest);
      ghost var first, steps := Leftmost(f), Applied(f);
      if known {
        Spine(f, p + 1);
        assert FormTokens(f) + rest == FormTokens(first) + (ApplyTokens(steps) + rest);
      }
      r, g := ParseUnary(first, ApplyTokens(steps) + rest);
      if r.None? {
        return;
      }
      AnyLevel(g, p + 1);
      if Peek().Operator? && Precedence(Peek().op) > p {
        r, g := ParseBinary(p + 1, r.value, g, old(pos), steps, rest);
      } else {
        NoneLeft(steps, rest, p + 1);
        NothingRebuilt(g);
      }
    }

    lemma {:induction false} FirstStep(left: seq<Apply>, rest: seq<Token>, level: nat, op: Op)
      requires Descending(left, level) && Stops(rest, level) && At(ApplyTokens(left) + rest)
      requires Peek() == Operator(op) && Precedence(op) >= level
      ensures left != [] && left[0].op == op && Grouped(left[0].rhs, Precedence(op) + 1)
      ensures
        var (p, after) := (Precedence(op), ApplyTokens(left[1..]) + rest);
        && At([Peek()] + (FormTokens(left[0].rhs) + after))
        && Stops(after, p + 1) && Descending(left[1..], level)
    {
      hide FormTokens, Grouped, Descending, ApplyTokens;
      NothingApplied(rest);
      FirstApply(left, rest, level);
    }

    method ParseUnary(ghost f: Form, ghost rest: seq<Token>) returns (r: Option<Expr>, ghost g: Form)
      requires Valid()
      modifies this
      ensures Valid() && pos >= old(pos) && (r.Some? ==> pos > old(pos))
      ensures r.Some? ==> Single(g) && r.value == Meaning(g) && Read(old(pos), FormTokens(g))
      ensures Single(f) && old(At(FormTokens(f) + rest)) ==> r.Some? && g == f && At(rest)
      decreases |tokens| - pos, 2
    {
      hide Grouped;
      ghost var known := Single(f) && At(FormTokens(f) + rest);
      if known {
        FirstOfForm(f, rest);
        assert Peek() == (FormTokens(f) + rest)[0];
      }
      var t := Peek();
      if t == Operator(Plus) || t == Operator(Minus) {
        ghost var inner := if known then f.f else f;
        if known {
          assert FormTokens(f) + rest == [t] + (FormTokens(inner) + rest);
        }
        var _ := Next(FormTokens(inner) + rest);
        ghost var from := pos;
        var operand;
        operand, g := ParseUnary(inner, rest);
        if operand.None? {
          return None, g;
        }
        ReadBoth(old(pos), from, [t], FormTokens(g));
        SignedSingle(t.op, g);
        return Some(Unary(t.op, operand.value)), Signed(t.op, g);
      }
      r, g := ParseLiteral(f, rest);
    }

    method ParseLiteral(ghost f: Form, ghost rest: seq<Token>) returns (r: Option<Expr>, ghost g: Form)
      requires Valid()
      modifies this
      ensures Valid() && pos >= old(pos) && (r.Some? ==> pos > old(pos))
      ensures r.Some? ==> Single(g) && r.value == Meaning(g) && Read(old(pos), FormTokens(g))
      ensures Single(f) && !f.Signed? && old(At(FormTokens(f) + rest)) ==> r.Some? && g == f && At(rest)
      decreases |tokens| - pos, 1
    {
      hide Grouped, ListTokens;
      ghost var known := Single(f) && !f.Signed? && At(FormTokens(f) + rest);
      g := f;
      if known {
        FirstOfForm(f, rest);
        assert Peek() == (FormTokens(f) + rest)[0];
      }
      if Peek() == Punct(OpenBrace) {
        ghost var fs := if known then f.fs else [];
        var list;
        ghost var gs;
        list, gs := ParseArray(fs, rest);
        g := InBraces(gs);
        if list.Some? {
          ListedSingle(gs);
        }
        return if list.None? then None else Some(Braces(list.value)), g;
      }
      r, g := ParseSimpleLiteral(f, rest);
    }

    method ParseSimpleLiteral(ghost f: Form, ghost rest: seq<Token>) returns (r: Option<Expr>, ghost g: Form)
      requires Valid()
      modifies this
      ensures Valid() && pos >= old(pos) && (r.Some? ==> pos > old(pos))
      ensures r.Some? ==> Single(g) && r.value == Meaning(g) && Read(old(pos), FormTokens(g))
      ensures Single(f) && (f.Leaf? || f.Parens?) && old(At(FormTokens(f) + rest)) ==> r.Some? && g == f && At(rest)
      decreases |tokens| - pos, 0
    {
      hide FormTokens, Single, LiteralToken, Writeable, Meaning;
      ghost var known := Single(f) && (f.Leaf? || f.Parens?) && At(FormTokens(f) + rest);
      ghost var inner := if known && f.Parens? then f.f else Leaf(Int(0));
      ghost var inside := if known && f.Parens? then FormTokens(inner) + ([Punct(CloseParen)] + rest) else rest;
      if known {
        LeafOrParens(f, rest);
        assert Peek() == (FormTokens(f) + rest)[0];
      }
      g := f;
      var t := Next(inside);
      if t == Punct(OpenParen) {
        ghost var from := pos;
        r, g := ParseClosed(inner, rest);
        if r.Some? {
          ReadBoth(old(pos), from, [t], FormTokens(g) + [Punct(CloseParen)]);
          InParens(g);
        }
        g := Parens(g);
        return;
      }
      r := LiteralOf(t);
      if r.Some? {
        g := Leaf(r.value.value);
        LeafRead(r.value.value);
      }
    }

    /** An expression and the parenthesis that closes it. */
    method ParseClosed(ghost f: Form, ghost rest: seq<Token>) returns (r: Option<Expr>, ghost g: Form)
      requires Valid()
      modifies this
      ensures Valid() && pos >= old(pos)
      ensures r.Some? ==> Grouped(g, 0) && r.value == Meaning(g) && Read(old(pos), FormTokens(g) + [Punct(CloseParen)])
      ensures Grouped(f, 0) && old(At(FormTokens(f) + ([Punct(CloseParen)] + rest))) ==> r.Some? && g == f && At(rest)
      decreases |tokens| - pos, 5
    {
      hide FormTokens, Grouped, Meaning;
      r, g := ParseExpression(f, [Punct(CloseParen)] + rest);
      if r.None? {
        return;
      }
      ghost var end := pos;
      var close := Next(rest);
      if close == Punct(CloseParen) {
        ReadBoth(old(pos), end, FormTokens(g), [close]);
      } else {
        r := None;
      }
    }

    /** A list in braces. */
    method ParseArray(ghost fs: seq<Form>, ghost rest: seq<Token>) returns (r: Option<seq<Expr>>, ghost gs: seq<Form>)
      requires Valid() && Peek() == Punct(OpenBrace)
      modifies this
      ensures Valid() && pos > old(pos)
      ensures r.Some? ==>
                && gs != [] && AllGrouped(gs) && r.value == Meanings(gs)
                && Read(old(pos), FormTokens(InBraces(gs)))
      ensures fs != [] && AllGrouped(fs) && old(At(FormTokens(InBraces(fs)) + rest)) ==> r.Some? && gs == fs && At(rest)
      decreases |tokens| - pos, 0
    {
      hide Grouped, FormTokens, ListTokens, Meaning, Meanings, AllGrouped, ItemsRead, Begun, Parted;
      ghost var close := [Punct(CloseBrace)] + rest;
      ghost var known := fs != [] && AllGrouped(fs) && At(FormTokens(InBraces(fs)) + rest);
      if known {
        OpenList(fs, rest);
      }
      var open := Next(ListTokens(fs) + close);
      var list: seq<Expr> := [];
      gs := [];
      ghost var left := fs;
      var more := true;
      EmptyList();
      NoItems(fs);
      ListOpened(old(pos));
      while more
        invariant Valid() && pos > old(pos)
        invariant AllGrouped(gs) && list == Meanings(gs) && (!more ==> gs != [])
        invariant ItemsRead(old(pos), gs, more)
        invariant known ==> Parted(fs, gs, left) && more == (left != [])
        invariant known ==> At(if more then ListTokens(left) + close else close)
        invariant !more ==> Peek() == Punct(CloseBrace)
        decreases more, |tokens| - pos
      {
        if known {
          NextParted(fs, gs, left);
        }
        var e;
        ghost var g;
        e, more, g := ParseEntry(old(pos), gs, if known then left else [], close);
        if e.None? {
          return None, gs;
        }
        ListMore(gs, g);
        list, gs := list + [e.value], gs + [g];
        left := if known then left[1..] else left;
      }
      if known {
        AllItems(fs, gs);
      }
      ListClosed(old(pos), gs);
      var last := Next(rest);
      r := Some(list);
    }

    /** The tokens from a position are the opening brace of a list and items, with a comma if there are more. */
    ghost predicate ItemsRead(from: nat, gs: seq<Form>, more: bool)
      reads this
    {
      Read(from, [Punct(OpenBrace)] + Begun(gs, more))
    }

    lemma {:induction false} ListOpened(from: nat)
      requires Read(from, [Punct(OpenBrace)])
      ensures ItemsRead(from, [], true)
    {
      EmptyList();
      assert [Punct(OpenBrace)] + [] == [Punct(OpenBrace)];
    }

    lemma {:induction false} ListClosed(from: nat, gs: seq<Form>)
      requires Valid() && ItemsRead(from, gs, false) && Peek() == Punct(CloseBrace)
      ensures pos < |tokens| && tokens[from..pos + 1] == FormTokens(InBraces(gs))
    {
      hide FormTokens, Begun;
      ClosedList(gs);
      assert tokens[from..pos + 1] == tokens[from..pos] + [tokens[pos]];
    }

    /** One item of a list, and the comma if there are more. */
    method ParseEntry(ghost from: nat, ghost gs: seq<Form>, ghost left: seq<Form>, ghost close: seq<Token>)
      returns (r: Option<Expr>, more: bool, ghost g: Form)
      requires Valid() && ItemsRead(from, gs, true)
      requires close != [] && close[0] == Punct(CloseBrace)
      modifies this
      ensures Valid() && pos >= old(pos) && (r.Some? ==> pos > old(pos))
      ensures r.Some? ==>
                && Grouped(g, 0) && r.value == Meaning(g) && ItemsRead(from, gs + [g], more)
                && (!more ==> Peek() == Punct(CloseBrace))
      ensures left != [] && Grouped(left[0], 0) && old(At(ListTokens(left) + close)) ==>
                && r.Some? && g == left[0] && more == (|left| > 1)
                && At(if more then ListTokens(left[1..]) + close else close)
      decreases |tokens| - pos, 5
    {
      hide Grouped, FormTokens, ListTokens, Meaning, Begun;
      ghost var known := left != [] && Grouped(left[0], 0) && At(ListTokens(left) + close);
      ghost var after, mid := AfterItem(left, close), pos;
      if known {
        NextItem(left, close);
      }
      more := false;
      r, g := ParseExpression(if known then left[0] else Leaf(Int(0)), after);
      if r.None? {
        return;
      }
      ghost var end := pos;
      ReadBoth(from, mid, [Punct(OpenBrace)] + Begun(gs, true), FormTokens(g));
      ListMore(gs, g);
      Bracketed([Punct(OpenBrace)], Begun(gs, true), FormTokens(g), [Punct(Comma)]);
      assert known ==> Peek() == after[0];
      if Peek() == Punct(Comma) {
        more := true;
        var comma := Next(ListTokens(if known && |left| > 1 then left[1..] else []) + close);
        ReadBoth(from, end, [Punct(OpenBrace)] + Begun(gs + [g], false), [comma]);
      } else if Peek() != Punct(CloseBrace) {
        r := None;
      }
    }

    // ----- declarations

    // The contracts of these methods have two parts as well. Whatever is returned is what a text of
    // the grammar means, and that text has been read; and in front of any such text what it means
    // is returned, or nothing, if it is refused.

    /** The next token, behind what has been read. */
    method Take(ghost from: nat, ghost sofar: seq<Token>, ghost rest: seq<Token>) returns (t: Token)
      requires Valid() && Read(from, sofar)
      modifies this
      ensures Valid() && t == old(Peek()) && pos >= old(pos)
      ensures old(At([Peek()] + rest)) ==> At(rest)
      ensures t != LastToken ==> Read(from, sofar + [t]) && pos > old(pos)
    {
      ghost var mid := pos;
      t := Next(rest);
      if t != LastToken {
        ReadBoth(from, mid, sofar, [t]);
      }
    }

    lemma {:induction false} PeekIs(s: seq<Token>)
      requires At(s) && s != []
      ensures Valid() && Peek() == s[0] && s == [Peek()] + s[1..]
    {
    }

    lemma {:induction false} SoFar(from: nat, s: seq<Token>)
      requires Read(from, s)
      ensures from <= pos <= |tokens| && tokens[from..pos] == s
    {
    }

    lemma {:induction false} NothingRead()
      requires Valid()
      ensures Read(pos, [])
    {
    }

    /** A constant expression's value. */
    method ParseValue(ghost f: Form, ghost rest: seq<Token>) returns (r: Option<Literal>, ghost g: Form)
      requires Valid()
      modifies this
      ensures Valid() && pos >= old(pos) && (r.Some? ==> pos > old(pos))
      ensures r.Some? ==> Grouped(g, 0) && r == Evaluate(Meaning(g)) && Read(old(pos), FormTokens(g))
      ensures Grouped(f, 0) && Stops(rest, 0) && old(At(FormTokens(f) + rest)) ==> r == Evaluate(Meaning(f)) && At(rest)
    {
      hide FormTokens, Grouped, Meaning, Evaluate;
      var e;
      e, g := ParseExpression(f, rest);
      r := if e.None? then None else Evaluate(e.value);
    }

    /** The size of an array, behind its opening bracket: the product of numbers, 0 if there is none. */
    method ParseSize(ghost ns: seq<Factor>, ghost rest: seq<Token>) returns (r: Option<nat>, ghost g: seq<Factor>)
      requires Valid()
      modifies this
      ensures Valid() && pos >= old(pos)
      ensures r.Some? ==> r.value == Product(g) && Read(old(pos), FactorsText(g) + [Punct(CloseSquare)])
      ensures old(At(FactorsText(ns) + ([Punct(CloseSquare)] + rest))) ==> r == Some(Product(ns)) && At(rest)
    {
      hide MoreFactors, DeclSyntax.Times, Read, FactorsText, Product;
      ghost var close := [Punct(CloseSquare)] + rest;
      ghost var known := At(FactorsText(ns) + close);
      ghost var left: seq<Factor> := if ns == [] then [] else ns[1..];
      if known {
        FactorsFirst(ns, close);
        assert Peek() == (FactorsText(ns) + close)[0];
      }
      var size: nat := 0;
      g := [];
      NothingRead();
      NoFactors();
      if Peek().Number? {
        size := Peek().n % LIMIT64;
        g := [Factor(Peek().n, Peek().hex)];
        OneFactor(g[0]);
        var first := Take(old(pos), [], MoreFactors(left) + close);
        assert [] + [first] == [first];
        while Peek() != Punct(CloseSquare)
          invariant Valid() && pos >= old(pos)
          invariant g != [] && size == Product(g) && Read(old(pos), FactorsText(g))
          invariant known ==> DeclSyntax.Times(size, left) == Product(ns) && At(MoreFactors(left) + close)
          decreases |tokens| - pos
        {
          if known {
            FactorsNext(left, close);
            assert Peek() == Operator(Star);
          }
          if Peek() != Operator(Star) {
            return None, g;
          }
          ghost var n := if known then left[0] else Factor(0, false);
          ghost var more := MoreFactors(if known then left[1..] else []) + close;
          var star := Take(old(pos), FactorsText(g), [Number(n.n, n.hex)] + more);
          assert known ==> Peek() == Number(n.n, n.hex);
          var t := Take(old(pos), FactorsText(g) + [star], more);
          if !t.Number? {
            return None, g;
          }
          TimesNext(size, left);
          FactorsMore(g, Factor(t.n, t.hex));
          left := if known then left[1..] else left;
          size, g := size * t.n % LIMIT64, g + [Factor(t.n, t.hex)];
        }
        if known {
          FactorsNext(left, close);
          TimesNext(size, left);
        }
      }
      var close' := Take(old(pos), FactorsText(g), rest);
      r := if close' == Punct(CloseSquare) then Some(size) else None;
    }

    method ParseType(ghost t: ElemType, ghost rest: seq<Token>) returns (r: Option<ElemType>)
      requires Valid()
      modifies this
      ensures Valid() && pos >= old(pos) && (r.Some? ==> pos > old(pos))
      ensures r.Some? ==> Read(old(pos), TypeTokens(r.value))
      ensures rest != [] && rest[0].Identifier? && old(At(TypeTokens(t) + rest)) ==> r == Some(t) && At(rest)
    {
      hide TypeTokens, Read;
      ghost var known := rest != [] && rest[0].Identifier? && At(TypeTokens(t) + rest);
      ghost var qualified := t.Custom? && t.space.Some?;
      ghost var last := if qualified then [Identifier(t.name)] + rest else [];
      ghost var after := if qualified then [Punct(DoubleColon)] + last else rest;
      TypeText(t, rest);
      NothingRead();
      var first := Take(old(pos), [], after);
      assert [] + [first] == [first];
      match first {
        case TypeName(b) =>
          TypeText(Plain(b), []);
          return Some(Plain(b));
        case Identifier(name) =>
          assert known ==> Peek() == after[0];
          TypeText(Custom(None, name), []);
          if Peek() != Punct(DoubleColon) {
            return Some(Custom(None, name));
          }
          var colon := Take(old(pos), [first], last);
          assert known ==> Peek() == last[0];
          var second := Take(old(pos), [first] + [colon], rest);
          if !second.Identifier? {
            return None;
          }
          TypeText(Custom(Some(name), second.name), []);
          return Some(Custom(Some(name), second.name));
        case _ => return None;
      }
    }

    /** An element, up to its semicolon; what stands there instead makes it an error. */
    method ParseElement(ghost e: ElemForm, ghost end: seq<Token>) returns (r: Option<Elem>, ghost g: ElemForm)
      requires Valid()
      modifies this
      ensures Valid() && pos >= old(pos) && (r.Some? ==> pos > old(pos))
      ensures r.Some? ==> ElemGrouped(g) && r == ElemMeant(g) && Read(old(pos), ElemText(g))
      ensures ElemGrouped(e) && Ends(e.parts, end) && old(At(HeadText(e) + end)) ==>
                if end[0] == Punct(Semicolon) then r == ElemMeant(e) && (r.Some? ==> At(end[1..])) else r == None
    {
      hide TypeTokens, PartsText, ElemText, HeadText, Read, PartGrouped, WithParts, Ends;
      ghost var known := ElemGrouped(e) && Ends(e.parts, end) && At(HeadText(e) + end);
      ghost var tail := PartsText(e.parts) + end;
      HeadIs(e, end);
      g := e;
      var typ := ParseType(e.typ, [Identifier(e.name)] + tail);
      if typ.None? {
        return None, g;
      }
      assert known ==> Peek() == Identifier(e.name);
      var name := Take(old(pos), TypeTokens(typ.value), tail);
      if !name.Identifier? {
        return None, g;
      }
      ghost var mid, gs := pos, [];
      r, gs := ParseSuffixes(Elem(name.name, typ.value, None, false, None), e.parts, end);
      g := ElemForm(typ.value, name.name, gs);
      if r.Some? {
        HeadIs(g, []);
        ReadBoth(old(pos), mid, TypeTokens(typ.value) + [name], PartsText(gs) + [Punct(Semicolon)]);
      }
    }

    /** Array suffixes, @compact and initialisers, up to the semicolon. */
    method ParseSuffixes(start: Elem, ghost ps: seq<Part>, ghost end: seq<Token>)
      returns (r: Option<Elem>, ghost gs: seq<Part>)
      requires Valid()
      modifies this
      ensures Valid() && pos >= old(pos)
      ensures r.Some? ==> PartsGrouped(gs) && r == WithParts(start, gs) && Read(old(pos), PartsText(gs) + [Punct(Semicolon)])
      ensures PartsGrouped(ps) && Ends(ps, end) && old(At(PartsText(ps) + end)) ==>
                if end[0] == Punct(Semicolon) then r == WithParts(start, ps) && (r.Some? ==> At(end[1..])) else r == None
    {
      hide PartText, PartsText, PartGrouped, PartsGrouped, WithPart, WithParts, Read, Ends, At, Follows;
      ghost var known := PartsGrouped(ps) && Ends(ps, end) && At(PartsText(ps) + end);
      ghost var left := ps;
      var elem := start;
      gs := [];
      NothingRead();
      NoParts(start);
      while Peek() != Punct(Semicolon)
        invariant Valid() && pos >= old(pos)
        invariant PartsGrouped(gs) && WithParts(start, gs) == Some(elem) && Read(old(pos), PartsText(gs))
        invariant known ==> PartsGrouped(left) && Ends(left, end) && At(PartsText(left) + end)
        invariant known ==> WithParts(elem, left) == WithParts(start, ps)
        decreases |tokens| - pos
      {
        ghost var p, rest := InitName(""), end;
        if known {
          EndsWhere(left, end);
          PeekIs(PartsText(left) + end);
          PartsNext(left, end);
          if left != [] {
            p, rest := left[0], PartsText(left[1..]) + end;
            PartEnds(left, end);
            PartsGroupedMore(left, left[0]);
            WithPartsNext(elem, left);
          }
        }
        SoFar(old(pos), PartsText(gs));
        ghost var from := pos;
        var with;
        ghost var q;
        with, q := ParsePart(elem, p, rest);
        if with.None? {
          return None, gs;
        }
        WithPartsMore(start, gs, q);
        PartsTextMore(gs, q);
        PartsGroupedMore(gs, q);
        ReadBoth(old(pos), from, PartsText(gs), PartText(q));
        elem, gs, left := with.value, gs + [q], if known then left[1..] else left;
      }
      if known {
        EndsWhere(left, end);
        PeekIs(PartsText(left) + end);
        PartsNext(left, end);
        NoParts(elem);
      }
      var _ := Take(old(pos), PartsText(gs), if known then end[1..] else []);
      r := Some(elem);
    }

    /** One of them. */
    method ParsePart(elem: Elem, ghost p: Part, ghost rest: seq<Token>) returns (r: Option<Elem>, ghost g: Part)
      requires Valid()
      modifies this
      ensures Valid() && pos >= old(pos) && (r.Some? ==> pos > old(pos))
      ensures r.Some? ==> PartGrouped(g) && r == WithPart(elem, g) && Read(old(pos), PartText(g))
      ensures PartGrouped(p) && Follows(p, rest) && old(At(PartText(p) + rest)) ==> r == WithPart(elem, p) && (r.Some? ==> At(rest))
      ensures old(Peek()) != Punct(OpenSquare) && old(Peek()) != Punct(Assign) ==> r == None
    {
      hide PartGrouped, WithPart, Read, FactorsText, FormTokens;
      if Peek() == Punct(OpenSquare) {
        r, g := ParseArraySuffix(elem, p, rest);
      } else if Peek() == Punct(Assign) {
        r, g := ParseInitialiser(elem, p, rest);
      } else {
        r, g := None, p;
      }
    }

    /** One array suffix, and @compact right behind it; a second suffix or an odd @compact is refused. */
    method ParseArraySuffix(elem: Elem, ghost p: Part, ghost rest: seq<Token>) returns (r: Option<Elem>, ghost g: Part)
      requires Valid() && Peek() == Punct(OpenSquare)
      modifies this
      ensures Valid() && pos > old(pos)
      ensures r.Some? ==> PartGrouped(g) && r == WithPart(elem, g) && Read(old(pos), PartText(g))
      ensures p.Size? && rest != [] && (!p.compact ==> rest[0] != Punct(AtCompact)) && old(At(PartText(p) + rest)) ==>
                r == WithPart(elem, p) && (r.Some? ==> At(rest))
    {
      hide Product, FactorsText, Read, PartText;
      ghost var known := p.Size? && rest != [] && (!p.compact ==> rest[0] != Punct(AtCompact)) && At(PartText(p) + rest);
      ghost var (ns, compact) := if known then (p.ns, p.compact) else ([], false);
      ghost var mark := MarkText(compact) + rest;
      SizeIs(ns, compact, rest);
      g := p;
      NothingRead();
      var open := Take(old(pos), [], FactorsText(ns) + ([Punct(CloseSquare)] + mark));
      assert [] + [open] == [open];
      ghost var mid := pos;
      var size;
      ghost var factors;
      size, factors := ParseSize(ns, mark);
      if size.None? || elem.suffix.Some? {
        return None, g;
      }
      ghost var sofar := [open] + (FactorsText(factors) + [Punct(CloseSquare)]);
      ReadBoth(old(pos), mid, [open], FactorsText(factors) + [Punct(CloseSquare)]);
      var with := elem.(suffix := Some(size.value));
      if known {
        assert Peek() == mark[0];
      }
      g := Size(factors, Peek() == Punct(AtCompact));
      SizeIs(factors, g.compact, []);
      if Peek() == Punct(AtCompact) {
        assert known ==> mark == [Punct(AtCompact)] + rest;
        var _ := Take(old(pos), sofar, rest);
        if size.value == 0 || elem.typ == Plain(TextType) {
          return None, g;
        }
        with := with.(compact := true);
      } else {
        assert known ==> mark == rest;
        assert sofar + [] == sofar;
      }
      r := Some(with);
    }

    method ParseInitialiser(elem: Elem, ghost p: Part, ghost rest: seq<Token>) returns (r: Option<Elem>, ghost g: Part)
      requires Valid() && Peek() == Punct(Assign)
      modifies this
      ensures Valid() && pos > old(pos)
      ensures r.Some? ==> PartGrouped(g) && r == WithPart(elem, g) && Read(old(pos), PartText(g))
      ensures !p.Size? && PartGrouped(p) && Stops(rest, 0) && old(At(PartText(p) + rest)) ==>
                r == WithPart(elem, p) && (r.Some? ==> At(rest))
    {
      hide FormTokens, Grouped, Read, Meaning, Evaluate, TypesAgree, ShapesAgree;
      ghost var known := !p.Size? && PartGrouped(p) && Stops(rest, 0) && At(PartText(p) + rest);
      ghost var f := if known && p.InitValue? then p.f else Leaf(Int(0));
      ghost var value' := if known && p.InitName? then [Identifier(p.s)] + rest else FormTokens(f) + rest;
      if known {
        assert PartText(p) + rest == [Punct(Assign)] + value';
      }
      g := p;
      NothingRead();
      var assign := Take(old(pos), [], value');
      assert [] + [assign] == [assign];
      if known {
        assert Peek() == value'[0];
        if p.InitValue? {
          NotAName(f, 0);
        }
      }
      var value: Option<Literal>;
      if Peek().Identifier? {
        value, g := Some(Name(Peek().name)), InitName(Peek().name);
        var name := Take(old(pos), [assign], rest);
        assert [assign] + [name] == [assign, name];
      } else {
        ghost var mid, read := pos, f;
        value, read := ParseValue(f, rest);
        if value.None? {
          return None, g;
        }
        g := InitValue(read);
        ReadBoth(old(pos), mid, [assign], FormTokens(read));
      }
      if !TypesAgree(elem.typ, value.value) || !ShapesAgree(elem.suffix, value.value) {
        return None, g;
      }
      r := Some(elem.(init := value));
    }

    method ParseStruct(ghost d: Decl, ghost rest: seq<Token>) returns (r: Option<StructDecl>, ghost g: Decl)
      requires Valid()
      modifies this
      ensures Valid() && pos >= old(pos) && (r.Some? ==> pos > old(pos))
      ensures r.Some? ==> g.StructForm? && DeclGrouped(g) && r == StructMeant(g) && Read(old(pos), DeclText(g))
      ensures d.StructForm? && DeclGrouped(d) && old(At(DeclText(d) + rest)) ==>
                r == StructMeant(d) && (r.Some? ==> At(rest))
    {
      hide ElemsText, ElemGrouped, ElemsMeant, Read, DeclText;
      ghost var known := d.StructForm? && DeclGrouped(d) && At(DeclText(d) + rest);
      ghost var es := if known then d.elems else [];
      ghost var body := ElemsText(es) + ([Punct(CloseBrace)] + rest);
      ghost var open := [Punct(OpenBrace)] + body;
      ghost var naked := (if known then NakedText(d.naked) else []) + open;
      ghost var named := if known then [Identifier(d.name)] + naked else naked;
      if known {
        StructIs(d.name, d.naked, es, rest);
      }
      g := d;
      NothingRead();
      var t := Take(old(pos), [], named);
      if t != Word(Struct) {
        return None, g;
      }
      var name := Take(old(pos), [t], naked);
      if !name.Identifier? {
        return None, g;
      }
      assert known ==> Peek() == naked[0];
      var isNaked := Peek() == Punct(AtNaked);
      ghost var sofar := [t] + [name];
      if isNaked {
        assert known ==> naked == [Punct(AtNaked)] + open;
        var _ := Take(old(pos), sofar, open);
      } else {
        assert known ==> naked == open;
        assert sofar + [] == sofar;
      }
      sofar := sofar + NakedText(isNaked);
      var brace := Take(old(pos), sofar, body);
      if brace != Punct(OpenBrace) {
        return None, g;
      }
      ghost var mid, gs := pos, [];
      var elems;
      elems, gs := ParseElements(es, rest);
      if elems.None? {
        return None, g;
      }
      g := StructForm(name.name, isNaked, gs);
      StructIs(name.name, isNaked, gs, rest);
      ReadBoth(old(pos), mid, sofar + [brace], ElemsText(gs) + [Punct(CloseBrace)]);
      r := Some(StructDecl(name.name, isNaked, elems.value));
    }

    /** The elements of a struct, and its closing brace. */
    method ParseElements(ghost es: seq<ElemForm>, ghost rest: seq<Token>)
      returns (r: Option<seq<Elem>>, ghost gs: seq<ElemForm>)
      requires Valid()
      modifies this
      ensures Valid() && pos >= old(pos)
      ensures r.Some? ==>
                && (forall i :: 0 <= i < |gs| ==> ElemGrouped(gs[i])) && r == ElemsMeant(gs)
                && Read(old(pos), ElemsText(gs) + [Punct(CloseBrace)])
      ensures (forall i :: 0 <= i < |es| ==> ElemGrouped(es[i])) && old(At(ElemsText(es) + ([Punct(CloseBrace)] + rest))) ==>
                r == ElemsMeant(es) && (r.Some? ==> At(rest))
    {
      hide ElemText, ElemsText, ElemGrouped, ElemMeant, ElemsMeant, Read, HeadText;
      ghost var close := [Punct(CloseBrace)] + rest;
      ghost var known := (forall i :: 0 <= i < |es| ==> ElemGrouped(es[i])) && At(ElemsText(es) + close);
      ghost var left := es;
      var elems: seq<Elem> := [];
      gs := [];
      NothingRead();
      NoElems();
      NoneBehind([]);
      while Peek() != Punct(CloseBrace)
        invariant Valid() && pos >= old(pos)
        invariant (forall i :: 0 <= i < |gs| ==> ElemGrouped(gs[i])) && ElemsMeant(gs) == Some(elems)
        invariant Read(old(pos), ElemsText(gs))
        invariant known ==> (forall i :: 0 <= i < |left| ==> ElemGrouped(left[i])) && At(ElemsText(left) + close)
        invariant known ==> ElemsMeant(es) == ElemsBehind(elems, ElemsMeant(left))
        decreases |tokens| - pos
      {
        ghost var e := if known && left != [] then left[0] else ElemForm(Plain(U8), "", []);
        ghost var end := [Punct(Semicolon)] + (ElemsText(if known && left != [] then left[1..] else []) + close);
        if known {
          ElemsNext(left, close);
          assert left != [];
          HeadIs(e, end);
          MeantNext(elems, left);
        }
        SoFar(old(pos), ElemsText(gs));
        ghost var from := pos;
        var elem;
        ghost var g;
        elem, g := ParseElement(e, end);
        if elem.None? {
          return None, gs;
        }
        ElemsTextMore(gs, g);
        ElemsMeantMore(gs, g);
        ReadBoth(old(pos), from, ElemsText(gs), ElemText(g));
        elems, gs, left := elems + [elem.value], gs + [g], if known then left[1..] else left;
      }
      if known {
        ElemsNext(left, close);
        assert Peek() == (ElemsText(left) + close)[0];
        NoneBehind(elems);
      }
      var _ := Take(old(pos), ElemsText(gs), rest);
      r := Some(elems);
    }

    method ParseEnum(ghost d: Decl, ghost rest: seq<Token>) returns (r: Option<EnumDecl>, ghost g: Decl)
      requires Valid()
      modifies this
      ensures Valid() && pos >= old(pos) && (r.Some? ==> pos > old(pos))
      ensures r.Some? ==> g.EnumForm? && DeclGrouped(g) && r == EnumMeant(g) && Read(old(pos), DeclText(g))
      ensures d.EnumForm? && DeclGrouped(d) && old(At(DeclText(d) + rest)) ==>
                r == EnumMeant(d) && (r.Some? ==> At(rest))
    {
      hide ItemsText, ItemGrouped, ItemsMeant, Read, DeclText, At;
      ghost var known := d.EnumForm? && DeclGrouped(d) && At(DeclText(d) + rest);
      ghost var d' := if known then d else EnumForm("", false, [], false);
      ghost var body := ItemsText(d'.items, d'.comma) + ([Punct(CloseBrace)] + rest);
      EnumIs(d'.name, d'.isClass, d'.items, d'.comma, rest);
      g := d;
      var ok, name, isClass := ParseEnumHead(d'.name, d'.isClass, body);
      if !ok {
        return None, g;
      }
      SoFar(old(pos), HeadOfEnum(name, isClass));
      ghost var mid, gs, comma := pos, [], false;
      var items;
      items, gs, comma := ParseItems(d'.items, d'.comma, rest);
      if items.None? {
        return None, g;
      }
      g := EnumForm(name, isClass, gs, comma);
      EnumIs(name, isClass, gs, comma, rest);
      ReadBoth(old(pos), mid, HeadOfEnum(name, isClass), ItemsText(gs, comma) + [Punct(CloseBrace)]);
      r := Some(EnumDecl(name, isClass, items.value));
    }

    /** An enum up to its opening brace. */
    method ParseEnumHead(ghost name': string, ghost class': bool, ghost body: seq<Token>)
      returns (ok: bool, name: string, isClass: bool)
      requires Valid()
      modifies this
      ensures Valid() && pos >= old(pos) && (ok ==> pos > old(pos))
      ensures ok ==> Read(old(pos), HeadOfEnum(name, isClass))
      ensures old(At([Word(Enum)] + (ClassText(class') + ([Identifier(name')] + ([Punct(OpenBrace)] + body))))) ==>
                ok && name == name' && isClass == class' && At(body)
    {
      hide Read, At;
      ghost var open := [Punct(OpenBrace)] + body;
      ghost var named := [Identifier(name')] + open;
      ghost var known := At([Word(Enum)] + (ClassText(class') + named));
      NothingRead();
      if known {
        PeekIs([Word(Enum)] + (ClassText(class') + named));
      }
      var t := Take(old(pos), [], ClassText(class') + named);
      assert [] + [t] == [t];
      if t != Word(Enum) {
        return false, "", false;
      }
      if known {
        PeekIs(ClassText(class') + named);
        assert !class' ==> ClassText(class') + named == named;
      }
      isClass := Peek() == Word(Class);
      if isClass {
        var _ := Take(old(pos), [t], named);
      }
      assert !isClass ==> [t] + [] == [t];
      if known {
        PeekIs(named);
      }
      var id := Take(old(pos), [t] + ClassText(isClass), open);
      if !id.Identifier? {
        return false, "", isClass;
      }
      if known {
        PeekIs(open);
      }
      var brace := Take(old(pos), [t] + ClassText(isClass) + [id], body);
      return brace == Punct(OpenBrace), id.name, isClass;
    }

    /** The items of an enum, and its closing brace. */
    method ParseItems(ghost items: seq<ItemForm>, ghost comma: bool, ghost rest: seq<Token>)
      returns (r: Option<seq<Item>>, ghost gs: seq<ItemForm>, ghost last: bool)
      requires Valid()
      modifies this
      ensures Valid() && pos >= old(pos)
      ensures r.Some? ==>
                && (forall i :: 0 <= i < |gs| ==> ItemGrouped(gs[i])) && r == ItemsMeant([], gs)
                && Read(old(pos), ItemsText(gs, last) + [Punct(CloseBrace)])
      ensures (forall i :: 0 <= i < |items| ==> ItemGrouped(items[i]))
              && old(At(ItemsText(items, comma) + ([Punct(CloseBrace)] + rest))) ==>
                r == ItemsMeant([], items) && (r.Some? ==> At(rest))
    {
      hide ItemText, ItemsText, ItemGrouped, ItemMeant, ItemsMeant, Read;
      ghost var close := [Punct(CloseBrace)] + rest;
      ghost var known := (forall i :: 0 <= i < |items| ==> ItemGrouped(items[i])) && At(ItemsText(items, comma) + close);
      ghost var left := items;
      var done: seq<Item> := [];
      gs, last := [], true;
      NothingRead();
      NoItemForms([]);
      while Peek() != Punct(CloseBrace)
        invariant Valid() && pos >= old(pos)
        invariant (forall i :: 0 <= i < |gs| ==> ItemGrouped(gs[i])) && ItemsMeant([], gs) == Some(done)
        invariant Read(old(pos), ItemsText(gs, last)) && (!last ==> Peek() == Punct(CloseBrace))
        invariant known ==> (forall i :: 0 <= i < |left| ==> ItemGrouped(left[i])) && At(ItemsText(left, comma) + close)
        invariant known ==> ItemsMeant(done, left) == ItemsMeant([], items)
        decreases |tokens| - pos
      {
        ghost var i := if known && left != [] then left[0] else ItemForm("", None);
        ghost var after := ItemsText(if known && left != [] then left[1..] else [], comma) + close;
        ghost var sep := comma || |left| > 1;
        if known {
          ItemsNext(left, comma, close);
          assert left != [];
          MeantItem(done, left);
        }
        SoFar(old(pos), ItemsText(gs, last));
        ghost var from := pos;
        var item;
        ghost var g, c;
        item, g, c := ParseItem(done, i, sep, after);
        if item.None? {
          return None, gs, last;
        }
        ItemsTextMore(gs, g, c);
        ItemsMeantMore([], gs, g);
        ReadBoth(old(pos), from, ItemsText(gs, true), ItemText(g, c));
        done, gs, last, left := done + [item.value], gs + [g], c, if known then left[1..] else left;
      }
      if known {
        ItemsNext(left, comma, close);
        assert Peek() == (ItemsText(left, comma) + close)[0];
        NoItemForms(done);
      }
      var _ := Take(old(pos), ItemsText(gs, last), rest);
      r := Some(done);
    }

    /** An item of an enum and the comma behind it, which may only be missing before the brace. */
    method ParseItem(done: seq<Item>, ghost i: ItemForm, ghost comma: bool, ghost rest: seq<Token>)
      returns (r: Option<Item>, ghost g: ItemForm, ghost c: bool)
      requires Valid()
      modifies this
      ensures Valid() && pos >= old(pos) && (r.Some? ==> pos > old(pos))
      ensures r.Some? ==> ItemGrouped(g) && r == ItemMeant(done, g) && Read(old(pos), ItemText(g, c))
      ensures r.Some? && !c ==> Peek() == Punct(CloseBrace)
      ensures ItemGrouped(i) && rest != [] && (!comma ==> rest[0] == Punct(CloseBrace)) && old(At(ItemText(i, comma) + rest)) ==>
                r == ItemMeant(done, i) && (r.Some? ==> At(rest))
    {
      hide GivenText, GivenMeant, Read, ItemText, Grouped, FormTokens, At;
      ghost var known := ItemGrouped(i) && rest != [] && (!comma ==> rest[0] == Punct(CloseBrace))
                         && At(ItemText(i, comma) + rest);
      ghost var end := CommaText(comma) + rest;
      ItemIs(i, comma, rest);
      g, c := i, comma;
      NothingRead();
      if known {
        PeekIs(ItemText(i, comma) + rest);
      }
      var t := Take(old(pos), [], GivenText(i.value) + end);
      assert [] + [t] == [t];
      if !t.Identifier? || Listed(done, t.name) {
        return None, g, c;
      }
      SoFar(old(pos), [t]);
      ghost var mid, read := pos, None;
      var ok, v;
      ok, v, read := ParseGiven(i.value, end);
      if !ok {
        return None, g, c;
      }
      var item := if v.Some? then Item(t.name, true, v.value) else Item(t.name, false, NextValue(done));
      ghost var sofar := [t] + GivenText(read);
      ReadBoth(old(pos), mid, [t], GivenText(read));
      g, c := ItemForm(t.name, read), Peek() == Punct(Comma);
      ItemIs(g, c, []);
      if known {
        PeekIs(end);
        assert !comma ==> end == rest;
      }
      if Peek() == Punct(Comma) {
        var _ := Take(old(pos), sofar, rest);
      } else if Peek() != Punct(CloseBrace) {
        return None, g, c;
      }
      assert sofar + [] == sofar;
      r := Some(item);
    }

    /** The value given to an item, if one is. */
    method ParseGiven(ghost value: Option<Form>, ghost end: seq<Token>)
      returns (ok: bool, v: Option<int>, ghost read: Option<Form>)
      requires Valid()
      modifies this
      ensures Valid() && pos >= old(pos)
      ensures ok ==> (read.Some? ==> Grouped(read.value, 0)) && GivenMeant(read) == Some(v) && Read(old(pos), GivenText(read))
      ensures (value.Some? ==> Grouped(value.value, 0)) && end != [] && !end[0].Operator? && end[0] != Punct(Assign)
              && old(At(GivenText(value) + end)) ==>
                ok == GivenMeant(value).Some? && (ok ==> GivenMeant(value) == Some(v) && At(end))
    {
      hide FormTokens, Grouped, Read, Meaning, Evaluate;
      ghost var known := (value.Some? ==> Grouped(value.value, 0)) && end != [] && !end[0].Operator? && end[0] != Punct(Assign)
                         && At(GivenText(value) + end);
      ghost var f := if known && value.Some? then value.value else Leaf(Int(0));
      read := None;
      NothingRead();
      if known {
        assert value.None? ==> GivenText(value) + end == end;
        assert value.Some? ==> GivenText(value) + end == [Punct(Assign)] + (FormTokens(f) + end);
        assert Peek() == (GivenText(value) + end)[0];
      }
      if Peek() != Punct(Assign) {
        return true, None, None;
      }
      var assign := Take(old(pos), [], FormTokens(f) + end);
      SoFar(old(pos), [] + [assign]);
      ghost var mid, g := pos, f;
      var val;
      val, g := ParseValue(f, end);
      if val.None? || !val.value.Int? {
        return false, None, read;
      }
      ReadBoth(old(pos), mid, [] + [assign], FormTokens(g));
      assert [] + [assign] + FormTokens(g) == GivenText(Some(g));
      return true, Some(val.value.n), Some(g);
    }
  }

  /** An enum's text up to its opening brace. */
  function HeadOfEnum(name: string, isClass: bool): seq<Token> {
    [Word(Enum)] + ClassText(isClass) + [Identifier(name)] + [Punct(OpenBrace)]
  }

  lemma TypeText(t: ElemType, rest: seq<Token>)
    ensures
      match t
      case Plain(b) => TypeTokens(t) == [TypeName(b)] && TypeTokens(t) + rest == [TypeName(b)] + rest
      case Custom(None, name) => TypeTokens(t) == [Identifier(name)] && TypeTokens(t) + rest == [Identifier(name)] + rest
      case Custom(Some(space), name) =>
        && TypeTokens(t) == [Identifier(space)] + [Punct(DoubleColon)] + [Identifier(name)]
        && TypeTokens(t) + rest == [Identifier(space)] + ([Punct(DoubleColon)] + ([Identifier(name)] + rest))
  {
  }

  /** What follows an item of a list. */
  function AfterItem(left: seq<Form>, close: seq<Token>): seq<Token> {
    if |left| > 1 then [Punct(Comma)] + (ListTokens(left[1..]) + close) else close
  }

  lemma OpenList(fs: seq<Form>, rest: seq<Token>)
    ensures FormTokens(InBraces(fs)) + rest
         == [Punct(OpenBrace)] + (ListTokens(fs) + ([Punct(CloseBrace)] + rest))
  {
    hide ListTokens;
    Bracketed([Punct(OpenBrace)], ListTokens(fs), [Punct(CloseBrace)], rest);
  }

  lemma Bracketed(open: seq<Token>, inside: seq<Token>, close: seq<Token>, rest: seq<Token>)
    ensures open + inside + close + rest == open + (inside + (close + rest))
  {
  }

  lemma NextItem(left: seq<Form>, close: seq<Token>)
    requires left != [] && close != [] && close[0] == Punct(CloseBrace)
    ensures ListTokens(left) + close == FormTokens(left[0]) + AfterItem(left, close)
    ensures Stops(AfterItem(left, close), 0) && AfterItem(left, close) != []
    ensures AfterItem(left, close)[0] == if |left| > 1 then Punct(Comma) else Punct(CloseBrace)
  {
    hide FormTokens, ListTokens;
    ListHead(left);
    if |left| > 1 {
      Bracketed(FormTokens(left[0]), [Punct(Comma)], ListTokens(left[1..]), close);
    }
  }

  lemma ListHead(left: seq<Form>)
    requires left != []
    ensures ListTokens(left)
         == if |left| > 1 then FormTokens(left[0]) + [Punct(Comma)] + ListTokens(left[1..]) else FormTokens(left[0])
  {
    hide FormTokens;
  }

  predicate AllGrouped(fs: seq<Form>) {
    forall i :: 0 <= i < |fs| ==> Grouped(fs[i], 0)
  }

  /** The items of a list that have been read, and those that are left. */
  predicate Parted(fs: seq<Form>, gs: seq<Form>, left: seq<Form>) {
    fs == gs + left
  }

  lemma NoItems(fs: seq<Form>)
    ensures Parted(fs, [], fs)
  {
    assert [] + fs == fs;
  }

  lemma NextParted(fs: seq<Form>, gs: seq<Form>, left: seq<Form>)
    requires AllGrouped(fs) && Parted(fs, gs, left) && left != []
    ensures Grouped(left[0], 0) && Parted(fs, gs + [left[0]], left[1..])
  {
    hide Grouped;
    assert fs[|gs|] == left[0];
    assert gs + [left[0]] + left[1..] == gs + left;
  }

  lemma AllItems(fs: seq<Form>, gs: seq<Form>)
    requires Parted(fs, gs, [])
    ensures gs == fs
  {
    assert gs + [] == gs;
  }

  /** The items of a list read so far, with the comma behind them if more are to come. */
  function Begun(gs: seq<Form>, more: bool): seq<Token> {
    ListTokens(gs) + if more && gs != [] then [Punct(Comma)] else []
  }

  lemma EmptyList()
    ensures Begun([], true) == [] && AllGrouped([]) && Meanings([]) == []
  {
  }

  lemma {:induction false} ListMore(gs: seq<Form>, g: Form)
    ensures ListTokens(gs + [g]) == Begun(gs, true) + FormTokens(g)
    ensures Begun(gs + [g], true) == Begun(gs, true) + FormTokens(g) + [Punct(Comma)]
    ensures Begun(gs + [g], false) == Begun(gs, true) + FormTokens(g)
    ensures Meanings(gs + [g]) == Meanings(gs) + [Meaning(g)]
    ensures AllGrouped(gs) && Grouped(g, 0) ==> AllGrouped(gs + [g])
    decreases gs
  {
    hide FormTokens, Grouped, Meaning;
    if gs == [] {
      assert gs + [g] == [g] && [g][1..] == [];
    } else {
      assert (gs + [g])[1..] == gs[1..] + [g];
      ListMore(gs[1..], g);
      if |gs| == 1 {
        assert gs[1..] + [g] == [g];
      }
    }
  }

  lemma ClosedList(gs: seq<Form>)
    ensures FormTokens(InBraces(gs)) == [Punct(OpenBrace)] + Begun(gs, false) + [Punct(CloseBrace)]
  {
    hide ListTokens;
    assert ListTokens(gs) + [] == ListTokens(gs);
  }

  // ----- single operands

  /** The literal that a token stands for; hexadecimal numbers are none. */
  function LiteralOf(t: Token): (r: Option<Expr>)
    ensures r.Some? ==> r.value.Lit? && Writeable(r.value.value) && LiteralToken(r.value.value) == t
    ensures forall v :: Writeable(v) && LiteralToken(v) == t ==> r == Some(Lit(v))
  {
    match t
    case Number(n, hex) => if hex then None else Some(Lit(Int(n)))
    case Decimal(text) => Some(Lit(Float(false, text)))
    case Quoted(s) => Some(Lit(Text(s)))
    case True => Some(Lit(Bool(true)))
    case False => Some(Lit(Bool(false)))
    case _ => None
  }

  lemma LeafOrParens(f: Form, rest: seq<Token>)
    requires Single(f)
    ensures f.Leaf? ==> Writeable(f.v) && FormTokens(f) + rest == [LiteralToken(f.v)] + rest
    ensures f.Leaf? ==> LiteralToken(f.v) != Punct(OpenParen)
    ensures f.Parens? ==>
              Grouped(f.f, 0) && FormTokens(f) + rest == [Punct(OpenParen)] + (FormTokens(f.f) + ([Punct(CloseParen)] + rest))
  {
    hide ListTokens;
    if f.Parens? {
      Bracketed([Punct(OpenParen)], FormTokens(f.f), [Punct(CloseParen)], rest);
    }
  }

  lemma LeafRead(v: Literal)
    requires Writeable(v)
    ensures Single(Leaf(v)) && Meaning(Leaf(v)) == Lit(v) && FormTokens(Leaf(v)) == [LiteralToken(v)]
  {
  }

  lemma InParens(f: Form)
    requires Grouped(f, 0)
    ensures Single(Parens(f)) && Meaning(Parens(f)) == Meaning(f)
    ensures FormTokens(Parens(f)) == [Punct(OpenParen)] + (FormTokens(f) + [Punct(CloseParen)])
  {
  }

  /** What may stand between two operators. */
  predicate Single(f: Form) {
    !f.Joined? && Grouped(f, TIGHTEST)
  }

  lemma AnyLevel(f: Form, level: nat)
    requires Single(f)
    ensures Grouped(f, level) && !f.Joined?
  {
  }

  lemma SignedSingle(op: Op, f: Form)
    requires Single(f) && (op.Plus? || op.Minus?)
    ensures Single(Signed(op, f))
  {
  }

  lemma ListedSingle(fs: seq<Form>)
    requires fs != [] && AllGrouped(fs)
    ensures Single(InBraces(fs))
  {
  }

  lemma JoinedNext(op: Op, g: Form, h: Form, level: nat)
    requires Grouped(g, level) && Grouped(h, Precedence(op) + 1) && Precedence(op) >= level
    requires g.Joined? ==> Precedence(op) <= Precedence(g.op)
    ensures Grouped(Joined(op, g, h), level)
    ensures FormTokens(Joined(op, g, h)) == FormTokens(g) + ([Operator(op)] + FormTokens(h))
  {
  }

  lemma FirstOfForm(f: Form, rest: seq<Token>)
    requires Single(f)
    ensures FormTokens(f)[0] == (FormTokens(f) + rest)[0]
    ensures f.Signed? <==> FormTokens(f)[0] == Operator(Plus) || FormTokens(f)[0] == Operator(Minus)
    ensures f.Signed? ==> Single(f.f) && FormTokens(f)[0] == Operator(f.op)
    ensures f.InBraces? <==> FormTokens(f)[0] == Punct(OpenBrace)
    ensures f.InBraces? ==> f.fs != [] && AllGrouped(f.fs)
  {
    if f.Signed? {
      TightIsSingle(f.f);
    }
  }

  lemma TightIsSingle(f: Form)
    requires Grouped(f, TIGHTEST)
    ensures Single(f)
  {
  }
}
