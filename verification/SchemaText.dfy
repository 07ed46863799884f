/**
  Schemas as text, at the level of tokens: constant expressions, elements, structs, enums and
  namespaces, and how they are written out.
*/
module SchemaText {
  import opened WireFormat

  datatype Op = Plus | Minus | Star | Div | Mod

  datatype Mark =
    | OpenParen | CloseParen | OpenBrace | CloseBrace | OpenSquare | CloseSquare
    | Comma | Semicolon | Assign | DoubleColon | AtCompact | AtNaked

  datatype Keyword = Struct | Enum | Class | Namespace

  datatype Builtin = U8 | U16 | U32 | U64 | S8 | S16 | S32 | S64 | F32 | F64 | TextType | ShortTextType | BoolType

  datatype Token =
    | Number(n: nat, hex: bool) | Decimal(text: string) | Quoted(s: string) | True | False
    | Identifier(name: string) | Operator(op: Op) | Punct(mark: Mark) | Word(word: Keyword) | TypeName(t: Builtin)
    | LastToken

  /** Values of initialisers. A float is the text it is written as, and its sign. */
  datatype Literal =
    | Int(n: int) | Float(negative: bool, text: string) | Text(s: string) | Bool(b: bool)
    | Name(s: string) | List(items: seq<Literal>)

  datatype Expr =
    | Lit(value: Literal)
    | Unary(op: Op, e: Expr)
    | Binary(op: Op, lhs: Expr, rhs: Expr)
    | Braces(es: seq<Expr>)

  // ----- expressions

  /** As the table has it: the larger number binds tighter. */
  function Precedence(op: Op): nat {
    match op
    case Star | Div | Mod => 1
    case Plus | Minus => 2
  }

  const TIGHTEST: nat := 3

  /** An expression as it is written, with the parentheses that are there. */
  datatype Form =
    | Leaf(v: Literal)
    | Signed(op: Op, f: Form)
    | Joined(op: Op, lhs: Form, rhs: Form)
    | InBraces(fs: seq<Form>)
    | Parens(f: Form)

  /** The tree that is meant. */
  function Meaning(f: Form): Expr
    decreases f, 0
  {
    match f
    case Leaf(v) => Lit(v)
    case Signed(op, inner) => Unary(op, Meaning(inner))
    case Joined(op, lhs, rhs) => Binary(op, Meaning(lhs), Meaning(rhs))
    case InBraces(fs) => Braces(Meanings(fs))
    case Parens(inner) => Meaning(inner)
  }

  function Meanings(fs: seq<Form>): (es: seq<Expr>)
    ensures |es| == |fs| && forall i :: 0 <= i < |fs| ==> es[i] == Meaning(fs[i])
    decreases fs, 0
  {
    if fs == [] then [] else [Meaning(fs[0])] + Meanings(fs[1..])
  }

  /** What a literal token can stand for. */
  predicate Writeable(v: Literal) {
    match v
    case Int(n) => n >= 0
    case Float(negative, _) => !negative
    case Name(_) | List(_) => false
    case _ => true
  }

  /**
    Read as the table says: operands of an operator bind tighter, on the left also as tight, or
    are in parentheses; signs bind tightest.
  */
  predicate Grouped(f: Form, level: nat) {
    match f
    case Leaf(v) => Writeable(v)
    case Signed(op, inner) => (op.Plus? || op.Minus?) && Grouped(inner, TIGHTEST)
    case Joined(op, lhs, rhs) =>
      Precedence(op) >= level && Grouped(lhs, Precedence(op)) && Grouped(rhs, Precedence(op) + 1)
    case InBraces(fs) => fs != [] && forall i :: 0 <= i < |fs| ==> Grouped(fs[i], 0)
    case Parens(inner) => Grouped(inner, 0)
  }

  /** The next token does not go on with an expression at the level. */
  predicate Stops(rest: seq<Token>, level: nat) {
    rest != [] && rest[0].Operator? ==> Precedence(rest[0].op) < level
  }

  function LiteralToken(v: Literal): Token {
    match v
    case Int(n) => if n >= 0 then Number(n, false) else LastToken
    case Float(_, text) => Decimal(text)
    case Text(s) => Quoted(s)
    case Bool(b) => if b then True else False
    case Name(s) => Identifier(s)
    case List(_) => LastToken
  }

  function FormTokens(f: Form): (s: seq<Token>)
    ensures s != []
    decreases f, 0
  {
    match f
    case Leaf(v) => [LiteralToken(v)]
    case Signed(op, inner) => [Operator(op)] + FormTokens(inner)
    case Joined(op, lhs, rhs) => FormTokens(lhs) + [Operator(op)] + FormTokens(rhs)
    case InBraces(fs) => [Punct(OpenBrace)] + ListTokens(fs) + [Punct(CloseBrace)]
    case Parens(inner) => [Punct(OpenParen)] + FormTokens(inner) + [Punct(CloseParen)]
  }

  function ListTokens(fs: seq<Form>): seq<Token>
    decreases fs, 0
  {
    if fs == [] then []
    else if |fs| == 1 then FormTokens(fs[0])
    else FormTokens(fs[0]) + [Punct(Comma)] + ListTokens(fs[1..])
  }

  /** C++ division and remainder truncate towards zero. */
  function Quotient(a: int, b: int): int
    requires b != 0
  {
    if (a >= 0) == (b > 0) || a == 0 then Abs(a) / Abs(b) else -(Abs(a) / Abs(b))
  }

  function Abs(a: int): nat {
    if a < 0 then -a else a
  }

  /** The value of a constant expression; float arithmetic and division by zero are not modelled. */
  function Evaluate(e: Expr): Option<Literal> {
    match e
    case Lit(v) => Some(v)
    case Braces(es) =>
      var vals := EvaluateAll(es);
      if vals.Some? then Some(List(vals.value)) else None
    case Unary(op, inner) =>
      (match Evaluate(inner)
       case Some(Int(n)) => if op.Minus? then Some(Int(-n)) else if op.Plus? then Some(Int(n)) else None
       case Some(Float(negative, text)) =>
         if op.Minus? then Some(Float(!negative, text)) else if op.Plus? then Some(Float(negative, text)) else None
       case _ => None)
    case Binary(op, lhs, rhs) =>
      (match (Evaluate(lhs), Evaluate(rhs))
       case (Some(Int(a)), Some(Int(b))) =>
         (match op
          case Plus => Some(Int(a + b))
          case Minus => Some(Int(a - b))
          case Star => Some(Int(a * b))
          case Div => if b == 0 then None else Some(Int(Quotient(a, b)))
          case Mod => if b == 0 then None else Some(Int(a - b * Quotient(a, b))))
       case _ => None)
  }

  function EvaluateAll(es: seq<Expr>): Option<seq<Literal>> {
    if es == [] then Some([])
    else
      match (Evaluate(es[0]), EvaluateAll(es[1..]))
      case (Some(v), Some(vs)) => Some([v] + vs)
      case _ => None
  }

  /** Operators on integers mean what they do in C++: the quotient is cut, the remainder has the sign of the dividend. */
  lemma OperatorsMean(x: Expr, y: Expr, a: int, b: int)
    requires Evaluate(x) == Some(Int(a)) && Evaluate(y) == Some(Int(b))
    ensures Evaluate(Unary(Plus, x)) == Some(Int(a)) && Evaluate(Unary(Minus, x)) == Some(Int(-a))
    ensures Evaluate(Binary(Plus, x, y)) == Some(Int(a + b)) && Evaluate(Binary(Minus, x, y)) == Some(Int(a - b))
    ensures Evaluate(Binary(Star, x, y)) == Some(Int(a * b))
    ensures b == 0 ==> Evaluate(Binary(Div, x, y)) == None && Evaluate(Binary(Mod, x, y)) == None
    ensures b != 0 ==> exists q, r ::
              && Evaluate(Binary(Div, x, y)) == Some(Int(q)) && Evaluate(Binary(Mod, x, y)) == Some(Int(r))
              && a == b * q + r && Abs(r) < Abs(b) && (r == 0 || (r > 0) == (a > 0))
  {
    if b != 0 {
      QuotientIs(a, b);
      assert Evaluate(Binary(Div, x, y)) == Some(Int(Quotient(a, b)));
      assert Evaluate(Binary(Mod, x, y)) == Some(Int(a - b * Quotient(a, b)));
    }
  }

  /** Nothing else than numbers can be calculated with. */
  lemma OnlyNumbers(x: Expr, y: Expr, op: Op)
    requires match Evaluate(x) case Some(Int(_)) => false case Some(Float(_, _)) => false case _ => true
    ensures Evaluate(Unary(op, x)) == None && Evaluate(Binary(op, x, y)) == None && Evaluate(Binary(op, y, x)) == None
  {
  }

  /** A list has the value of every expression in it, in order, or none if one has none. */
  lemma {:induction false} ListsMean(es: seq<Expr>)
    ensures Evaluate(Braces(es)).None? <==> exists i :: 0 <= i < |es| && Evaluate(es[i]).None?
    ensures Evaluate(Braces(es)).Some? ==>
              var v := Evaluate(Braces(es)).value;
              && v.List? && |v.items| == |es|
              && forall i :: 0 <= i < |es| ==> Evaluate(es[i]) == Some(v.items[i])
  {
    if es != [] {
      ListsMean(es[1..]);
      assert forall i :: 0 <= i < |es[1..]| ==> es[1..][i] == es[i + 1];
      if EvaluateAll(es[1..]).None? {
        var i :| 0 <= i < |es[1..]| && Evaluate(es[1..][i]).None?;
        assert Evaluate(es[i + 1]).None?;
      } else if Evaluate(es[0]).Some? {
        forall i | 0 <= i < |es|
          ensures Evaluate(es[i]) == Some(EvaluateAll(es).value[i])
        {
          if i > 0 {
            assert Evaluate(es[1..][i - 1]) == Some(EvaluateAll(es[1..]).value[i - 1]);
          }
        }
      }
    }
  }

  lemma QuotientIs(a: int, b: int)
    requires b != 0
    ensures
      var r := a - b * Quotient(a, b);
      Abs(r) < Abs(b) && (r == 0 || (r > 0) == (a > 0))
  {
    var m: int, n: int := Abs(a), Abs(b);
    var q: int, r: int := m / n, m % n;
    assert m == n * q + r;
    Negated(n, q);
  }

  lemma Negated(n: int, q: int)
    ensures -n * q == -(n * q) && n * -q == -(n * q) && -n * -q == n * q
  {
  }

  // ----- declarations

  datatype ElemType = Plain(t: Builtin) | Custom(space: Option<string>, name: string)

  /** An element; an array of size 0 is dynamic. */
  datatype Elem = Elem(name: string, typ: ElemType, suffix: Option<nat>, compact: bool, init: Option<Literal>)

  datatype StructDecl = StructDecl(name: string, naked: bool, elems: seq<Elem>)

  datatype Item = Item(name: string, given: bool, value: int)

  datatype EnumDecl = EnumDecl(name: string, isClass: bool, items: seq<Item>)

  datatype Space = Space(name: string, structs: seq<StructDecl>, enums: seq<EnumDecl>)

  const GLOBAL: string := "__global_namespace"

  /** A value, with a minus sign of its own where it is negative. */
  function ValueTokens(v: Literal): seq<Token> {
    match v
    case Int(n) => if n < 0 then [Operator(Minus), Number(-n, false)] else [Number(n, false)]
    case Float(negative, text) => if negative then [Operator(Minus), Decimal(text)] else [Decimal(text)]
    case Text(s) => [Quoted(s)]
    case Bool(b) => [if b then True else False]
    case Name(s) => [Identifier(s)]
    case List(items) => [Punct(OpenBrace)] + ValuesTokens(items) + [Punct(CloseBrace)]
  }

  function ValuesTokens(vs: seq<Literal>): seq<Token> {
    if vs == [] then []
    else if |vs| == 1 then ValueTokens(vs[0])
    else ValueTokens(vs[0]) + [Punct(Comma)] + ValuesTokens(vs[1..])
  }

  function TypeTokens(t: ElemType): seq<Token> {
    match t
    case Plain(b) => [TypeName(b)]
    case Custom(None, name) => [Identifier(name)]
    case Custom(Some(space), name) => [Identifier(space), Punct(DoubleColon), Identifier(name)]
  }

  function SuffixTokens(suffix: Option<nat>): seq<Token> {
    match suffix
    case None => []
    case Some(n) =>
      if n != 0 then [Punct(OpenSquare), Number(n, false), Punct(CloseSquare)]
      else [Punct(OpenSquare), Punct(CloseSquare)]
  }

  function ElemTokens(e: Elem): seq<Token> {
    TypeTokens(e.typ) + [Identifier(e.name)] + SuffixTokens(e.suffix)
    + (if e.init.Some? then [Punct(Assign)] + ValueTokens(e.init.value) else [])
    + (if e.compact then [Punct(AtCompact)] else []) + [Punct(Semicolon)]
  }

  function ElemsTokens(es: seq<Elem>): seq<Token> {
    if es == [] then [] else ElemTokens(es[0]) + ElemsTokens(es[1..])
  }

  function StructTokens(st: StructDecl): seq<Token> {
    [Word(Struct), Identifier(st.name)] + (if st.naked then [Punct(AtNaked)] else []) + [Punct(OpenBrace)]
    + ElemsTokens(st.elems) + [Punct(CloseBrace)]
  }

  function ItemTokens(i: Item): seq<Token> {
    [Identifier(i.name)] + (if i.given then [Punct(Assign)] + ValueTokens(Int(i.value)) else []) + [Punct(Comma)]
  }

  function ItemsTokens(items: seq<Item>): seq<Token> {
    if items == [] then [] else ItemTokens(items[0]) + ItemsTokens(items[1..])
  }

  /** Whether it is an enum class is not written. */
  function EnumTokens(en: EnumDecl): seq<Token> {
    [Word(Enum), Identifier(en.name), Punct(OpenBrace)] + ItemsTokens(en.items) + [Punct(CloseBrace)]
  }

  function EnumsTokens(ens: seq<EnumDecl>): seq<Token> {
    if ens == [] then [] else EnumTokens(ens[0]) + EnumsTokens(ens[1..])
  }

  function StructsTokens(sts: seq<StructDecl>): seq<Token> {
    if sts == [] then [] else StructTokens(sts[0]) + StructsTokens(sts[1..])
  }

  function SpaceTokens(sp: Space): seq<Token> {
    if sp.name == GLOBAL then EnumsTokens(sp.enums) + StructsTokens(sp.structs)
    else [Word(Namespace), Identifier(sp.name), Punct(OpenBrace)]
         + (EnumsTokens(sp.enums) + StructsTokens(sp.structs)) + [Punct(CloseBrace)]
  }
}
