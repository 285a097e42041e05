/**
  * The cfgscript token kinds, the expression trees the parser builds, and the
  * expression grammar of the language as a predicate over concrete trees: which trees
  * exist at each precedence level and which token run each of them spells.
  */
module CfgGrammar {
  import opened Common
  import Doubles

  datatype Token =
    | Eof
    | Ident(name: bytes)
    | IntLit(i: i64)
    | FloatLit(f: Doubles.Double)
    | StringLit(text: bytes)
    | True | False | Null | Include
    | LBrace | RBrace | LBracket | RBracket | LParen | RParen
    | Semicolon | Comma | Assign | Dot | Question | Colon
    | Plus | Minus | Star | Slash | Percent
    | Shl | Shr | Lt | Le | Gt | Ge | EqEq | Ne
    | Amp | Caret | Pipe | AndAnd | OrOr
    | Bang | Tilde

  /** The tree `parser.cpp` hands to the evaluator; parentheses leave no node. */
  datatype Expr =
    | ENull
    | EBool(b: bool)
    | EInt(i: i64)
    | EFloat(f: Doubles.Double)
    | EStr(s: bytes)
    | EIdent(name: bytes)
    | EArray(elements: seq<Expr>)
    | EObject(fields: seq<FieldExpr>)
    | EUnary(op: Token, operand: Expr)
    | EBinary(op: Token, lhs: Expr, rhs: Expr)
    | ETernary(cond: Expr, thenBranch: Expr, elseBranch: Expr)

  datatype FieldExpr = FieldExpr(key: bytes, val: Expr)

  /** Binary operator precedence; -1 for every other token. Higher binds tighter. */
  function BinaryPrecedence(t: Token): (p: int)
    ensures p == -1 || 2 <= p <= 11
  {
    match t
    case Star | Slash | Percent => 11
    case Plus | Minus => 10
    case Shl | Shr => 9
    case Lt | Le | Gt | Ge => 8
    case EqEq | Ne => 7
    case Amp => 6
    case Caret => 5
    case Pipe => 4
    case AndAnd => 3
    case OrOr => 2
    case _ => -1
  }

  predicate IsUnaryOp(t: Token) {
    t == Minus || t == Bang || t == Tilde
  }

  /** The tokens that are an expression by themselves. */
  predicate IsLeaf(t: Token) {
    t.IntLit? || t.FloatLit? || t.StringLit? || t.True? || t.False? || t.Null? || t.Ident?
  }

  /** A concrete tree: it remembers parentheses, trailing commas and stray semicolons. */
  datatype Cst =
    | Leaf(tok: Token)
    | Paren(inner: Cst)
    | Arr(elems: seq<Cst>, trailing: bool)
    | Obj(items: seq<Item>)
    | Un(op: Token, arg: Cst)
    | Bin(op: Token, left: Cst, right: Cst)
    | Tern(cond: Cst, yes: Cst, no: Cst)

  datatype Item = Stray | Field(key: bytes, val: Cst)

  /**
    * What a parser can still see: the tokens up to the first lexical error, closed by that
    * error, or by None where the input ends cleanly.
    */
  datatype Stream = End(fault: Option<ErrorCode>) | Tok(head: Token, rest: Stream)

  function Length(s: Stream): nat {
    match s
    case End(_) => 0
    case Tok(_, rest) => 1 + Length(rest)
  }

  /** What is left where a stream says that it is at its end. */
  function Ending(s: Stream): Stream {
    if s.End? || s.head == Eof then s else Ending(s.rest)
  }

  /** The stream that starts with the tokens a concrete tree spells and goes on with `k`. */
  function Spell(c: Cst, k: Stream): Stream
    decreases c, 1
  {
    match c
    case Leaf(t) => Tok(t, k)
    case Paren(x) => Tok(LParen, Spell(x, Tok(RParen, k)))
    case Arr(es, trailing) =>
      Tok(LBracket, SpellElems(es, if trailing then Tok(Comma, Tok(RBracket, k)) else Tok(RBracket, k)))
    case Obj(items) => Tok(LBrace, SpellItems(items, Tok(RBrace, k)))
    case Un(op, x) => Tok(op, Spell(x, k))
    case Bin(op, l, r) => Spell(l, Tok(op, Spell(r, k)))
    case Tern(x, a, b) => Spell(x, Tok(Question, Spell(a, Tok(Colon, Spell(b, k)))))
  }

  function SpellElems(es: seq<Cst>, k: Stream): Stream
    decreases es, 0
  {
    if es == [] then k
    else if |es| == 1 then Spell(es[0], k)
    else Spell(es[0], Tok(Comma, SpellElems(es[1..], k)))
  }

  function SpellItems(items: seq<Item>, k: Stream): Stream
    decreases items, 0
  {
    if items == [] then k
    else if items[0].Stray? then Tok(Semicolon, SpellItems(items[1..], k))
    else Tok(Ident(items[0].key), Tok(Assign,
             Spell(items[0].val, Tok(Semicolon, SpellItems(items[1..], k)))))
  }

  /** The abstract tree of a concrete one. */
  function Ast(c: Cst): Expr
    decreases c, 1
  {
    match c
    case Leaf(t) => LeafExpr(t)
    case Paren(x) => Ast(x)
    case Arr(es, _) => EArray(AstElems(es))
    case Obj(items) => EObject(AstItems(items))
    case Un(op, x) => EUnary(op, Ast(x))
    case Bin(op, l, r) => EBinary(op, Ast(l), Ast(r))
    case Tern(x, a, b) => ETernary(Ast(x), Ast(a), Ast(b))
  }

  /** The node of a one-token expression; any other token never becomes a leaf. */
  function LeafExpr(t: Token): Expr {
    match t
    case IntLit(i) => EInt(i)
    case FloatLit(f) => EFloat(f)
    case StringLit(s) => EStr(s)
    case True => EBool(true)
    case False => EBool(false)
    case Ident(n) => EIdent(n)
    case _ => ENull
  }

  function AstElems(es: seq<Cst>): seq<Expr>
    decreases es, 0
  {
    if es == [] then [] else [Ast(es[0])] + AstElems(es[1..])
  }

  function AstItems(items: seq<Item>): seq<FieldExpr>
    decreases items, 0
  {
    if items == [] then []
    else if items[0].Stray? then AstItems(items[1..])
    else [FieldExpr(items[0].key, Ast(items[0].val))] + AstItems(items[1..])
  }

  lemma {:induction false} AstElemsAppend(es: seq<Cst>, c: Cst)
    ensures AstElems(es + [c]) == AstElems(es) + [Ast(c)]
  {
    if es == [] {
      assert AstElems([c][1..]) == [];
    } else {
      AstElemsAppend(es[1..], c);
      assert (es + [c])[1..] == es[1..] + [c];
    }
  }

  lemma {:induction false} AstItemsAppend(items: seq<Item>, item: Item)
    ensures AstItems(items + [item])
         == AstItems(items) + if item.Stray? then [] else [FieldExpr(item.key, Ast(item.val))]
  {
    if items == [] {
      assert AstItems([item][1..]) == [];
    } else {
      AstItemsAppend(items[1..], item);
      assert (items + [item])[1..] == items[1..] + [item];
    }
  }

  /**
    * The level a tree lives at: 0 for a ternary, its operator's precedence for a binary
    * node, 12 for a unary one, 13 for a primary.
    */
  function Level(c: Cst): int
  {
    match c
    case Tern(_, _, _) => 0
    case Bin(op, _, _) => BinaryPrecedence(op)
    case Un(_, _) => 12
    case _ => 13
  }

  /**
    * The stratified grammar of parser.hpp: a binary node's left child binds at least as
    * tightly as its operator, its right child strictly tighter; a unary operand is unary
    * or primary; only a ternary's condition is barred from being a ternary itself.
    */
  predicate Formed(c: Cst)
    decreases c, 1
  {
    match c
    case Leaf(t) => IsLeaf(t)
    case Paren(x) => Formed(x)
    case Arr(es, trailing) => (trailing ==> es != []) && FormedElems(es)
    case Obj(items) => FormedItems(items)
    case Un(op, x) => IsUnaryOp(op) && Level(x) >= 12 && Formed(x)
    case Bin(op, l, r) =>
      && BinaryPrecedence(op) >= 2
      && Level(l) >= BinaryPrecedence(op) && Level(r) > BinaryPrecedence(op)
      && Formed(l) && Formed(r)
    case Tern(x, a, b) => Level(x) >= 1 && Formed(x) && Formed(a) && Formed(b)
  }

  predicate FormedElems(es: seq<Cst>)
    decreases es, 0
  {
    es == [] || (Formed(es[0]) && FormedElems(es[1..]))
  }

  predicate FormedItems(items: seq<Item>)
    decreases items, 0
  {
    items == [] || ((items[0].Field? ==> Formed(items[0].val)) && FormedItems(items[1..]))
  }

  /**
    * The greatest depth the descent reaches on a tree whose `parse_expr` call is made at
    * depth `d`; NeedBinary, NeedUnary and NeedPrimary are the same for the inner
    * productions. Every operator on a left spine is read at one depth.
    */
  ghost function Need(c: Cst, d: nat): (n: nat)
    ensures n >= d
    decreases c, 5
  {
    match c
    case Tern(x, a, b) => Max(NeedBinary(x, d), Max(Need(a, d + 1), Need(b, d + 1)))
    case _ => NeedBinary(c, d)
  }

  ghost function NeedBinary(c: Cst, d: nat): (n: nat)
    ensures n >= d
    decreases c, 4
  {
    match c
    case Bin(_, l, r) => Max(NeedBinary(l, d), NeedBinary(r, d + 1))
    case _ => NeedUnary(c, d + 1)
  }

  ghost function NeedUnary(c: Cst, d: nat): (n: nat)
    ensures n >= d
    decreases c, 3
  {
    match c
    case Un(_, x) => NeedUnary(x, d + 1)
    case _ => NeedPrimary(c, d)
  }

  ghost function NeedPrimary(c: Cst, d: nat): (n: nat)
    ensures n >= d
    decreases c, 2
  {
    match c
    case Paren(x) => Need(x, d + 1)
    case Arr(es, _) => NeedElems(es, d)
    case Obj(items) => NeedItems(items, d)
    case _ => d
  }

  ghost function NeedElems(es: seq<Cst>, d: nat): (n: nat)
    ensures n >= d
    decreases es, 0
  {
    if es == [] then d else Max(Need(es[0], d + 1), NeedElems(es[1..], d))
  }

  ghost function NeedItems(items: seq<Item>, d: nat): (n: nat)
    ensures n >= d
    decreases items, 0
  {
    if items == [] then d
    else if items[0].Stray? then NeedItems(items[1..], d)
    else Max(Need(items[0].val, d + 1), NeedItems(items[1..], d))
  }
}
