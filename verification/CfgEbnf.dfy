/** The grammar as its header writes it. */
module CfgEbnf {
  // One production for each name of the grammar, lowest precedence first, and the proof that the
  // trees it derives are those the parser is exact about.

  import opened CfgGrammar
  import opened CfgParserSpec
  import opened Common

  /** From `logic_or` down to `multiply`, each loop over the next; the last is `unary`. */
  datatype Production =
    | LogicOr | LogicAnd | BitOr | BitXor | BitAnd
    | Equality | Relational | Shift | Additive | Multiply

  function Rank(p: Production): nat {
    match p
    case LogicOr => 0
    case LogicAnd => 1
    case BitOr => 2
    case BitXor => 3
    case BitAnd => 4
    case Equality => 5
    case Relational => 6
    case Shift => 7
    case Additive => 8
    case Multiply => 9
  }

  /** The operators a production repeats. */
  predicate Repeats(p: Production, op: Token) {
    match p
    case LogicOr => op == OrOr
    case LogicAnd => op == AndAnd
    case BitOr => op == Pipe
    case BitXor => op == Caret
    case BitAnd => op == Amp
    case Equality => op == EqEq || op == Ne
    case Relational => op == Lt || op == Le || op == Gt || op == Ge
    case Shift => op == Shl || op == Shr
    case Additive => op == Plus || op == Minus
    case Multiply => op == Star || op == Slash || op == Percent
  }

  /** What a production is a loop over. */
  predicate DerivesNext(p: Production, c: Cst)
    decreases c, 14 - Rank(p), 0
  {
    match p
    case LogicOr => Derives(LogicAnd, c)
    case LogicAnd => Derives(BitOr, c)
    case BitOr => Derives(BitXor, c)
    case BitXor => Derives(BitAnd, c)
    case BitAnd => Derives(Equality, c)
    case Equality => Derives(Relational, c)
    case Relational => Derives(Shift, c)
    case Shift => Derives(Additive, c)
    case Additive => Derives(Multiply, c)
    case Multiply => IsUnary(c)
  }

  /** `p := next (op next)*`, grouped to the left. */
  predicate Derives(p: Production, c: Cst)
    decreases c, 14 - Rank(p), 1
  {
    DerivesNext(p, c) || (c.Bin? && Repeats(p, c.op) && Derives(p, c.left) && DerivesNext(p, c.right))
  }

  /** `expr := logic_or ('?' expr ':' expr)?` */
  predicate IsExpr(c: Cst)
    decreases c, 15, 0
  {
    Derives(LogicOr, c) || (c.Tern? && Derives(LogicOr, c.cond) && IsExpr(c.yes) && IsExpr(c.no))
  }

  /** `unary := ('-' | '!' | '~') unary | primary` */
  predicate IsUnary(c: Cst)
    decreases c, 4, 0
  {
    IsPrimary(c) || (c.Un? && (c.op == Minus || c.op == Bang || c.op == Tilde) && IsUnary(c.arg))
  }

  /** A literal, a name, an array, an object or an expression in parentheses. */
  predicate IsPrimary(c: Cst)
    decreases c, 3, 0
  {
    match c
    case Leaf(t) =>
      t.IntLit? || t.FloatLit? || t.StringLit? || t == True || t == False || t == Null || t.Ident?
    case Paren(x) => IsExpr(x)
    case Arr(es, trailing) => (trailing ==> es != []) && AreExprs(es)
    case Obj(items) => AreFields(items)
    case _ => false
  }

  predicate AreExprs(es: seq<Cst>)
    decreases es, 0, 0
  {
    es == [] || (IsExpr(es[0]) && AreExprs(es[1..]))
  }

  /** `IDENT '=' expr ';'` any number of times, and stray semicolons, which only the code allows. */
  predicate AreFields(items: seq<Item>)
    decreases items, 0, 0
  {
    items == [] || ((items[0].Field? ==> IsExpr(items[0].val)) && AreFields(items[1..]))
  }

  // ---- it is the grammar of the parser

  /** The production that repeats an operator, if it is one. */
  function ProductionOf(op: Token): Option<Production> {
    match BinaryPrecedence(op)
    case 2 => Some(LogicOr)
    case 3 => Some(LogicAnd)
    case 4 => Some(BitOr)
    case 5 => Some(BitXor)
    case 6 => Some(BitAnd)
    case 7 => Some(Equality)
    case 8 => Some(Relational)
    case 9 => Some(Shift)
    case 10 => Some(Additive)
    case 11 => Some(Multiply)
    case _ => None
  }

  lemma RepeatedLow(p: Production, op: Token)
    requires Repeats(p, op) && Rank(p) < 6
    ensures BinaryPrecedence(op) == Rank(p) + 2
  {
  }

  lemma RepeatedHigh(p: Production, op: Token)
    requires Repeats(p, op) && Rank(p) >= 6
    ensures BinaryPrecedence(op) == Rank(p) + 2
  {
  }

  lemma SomewhereLow(op: Token)
    requires BinaryPrecedence(op) < 8
    ensures ProductionOf(op).Some? ==> Repeats(ProductionOf(op).value, op)
  {
  }

  lemma SomewhereHigh(op: Token)
    requires BinaryPrecedence(op) >= 8
    ensures ProductionOf(op).Some? ==> Repeats(ProductionOf(op).value, op)
  {
  }

  lemma RanksArePrecedences(p: Production, op: Token)
    ensures Repeats(p, op) <==> BinaryPrecedence(op) == Rank(p) + 2
  {
    hide Repeats, BinaryPrecedence;
    if Repeats(p, op) {
      if Rank(p) < 6 {
        RepeatedLow(p, op);
      } else {
        RepeatedHigh(p, op);
      }
    }
    if BinaryPrecedence(op) < 8 {
      SomewhereLow(op);
    } else {
      SomewhereHigh(op);
    }
  }

  lemma {:induction false} DerivesExactly(p: Production, c: Cst)
    ensures Derives(p, c) <==> Formed(c) && Level(c) >= Rank(p) + 2
    decreases c, 14 - Rank(p), 1
  {
    hide Formed, IsUnary, BinaryPrecedence, Repeats, DerivesNext;
    NextExactly(p, c);
    if c.Bin? {
      RanksArePrecedences(p, c.op);
      DerivesExactly(p, c.left);
      NextExactly(p, c.right);
      FormedBinary(c);
    }
  }

  lemma FormedBinary(c: Cst)
    requires c.Bin?
    ensures Formed(c) <==>
              && BinaryPrecedence(c.op) >= 2 && Level(c.left) >= BinaryPrecedence(c.op)
              && Level(c.right) > BinaryPrecedence(c.op) && Formed(c.left) && Formed(c.right)
    ensures Level(c) == BinaryPrecedence(c.op)
  {
  }

  lemma {:induction false} NextExactly(p: Production, c: Cst)
    ensures DerivesNext(p, c) <==> Formed(c) && Level(c) >= Rank(p) + 3
    decreases c, 14 - Rank(p), 0
  {
    hide Formed, IsUnary, Derives, BinaryPrecedence;
    match p
    case LogicOr => DerivesExactly(LogicAnd, c);
    case LogicAnd => DerivesExactly(BitOr, c);
    case BitOr => DerivesExactly(BitXor, c);
    case BitXor => DerivesExactly(BitAnd, c);
    case BitAnd => DerivesExactly(Equality, c);
    case Equality => DerivesExactly(Relational, c);
    case Relational => DerivesExactly(Shift, c);
    case Shift => DerivesExactly(Additive, c);
    case Additive => DerivesExactly(Multiply, c);
    case Multiply => UnaryExactly(c);
  }

  lemma {:induction false} UnaryExactly(c: Cst)
    ensures IsUnary(c) <==> Formed(c) && Level(c) >= 12
    decreases c, 4, 0
  {
    hide BinaryPrecedence;
    PrimaryExactly(c);
    match c
    case Un(op, x) => UnaryExactly(x);
    case Bin(op, _, _) => AtMostEleven(op);
    case _ =>
  }

  lemma AtMostEleven(op: Token)
    ensures BinaryPrecedence(op) <= 11
  {
  }

  lemma {:induction false} PrimaryExactly(c: Cst)
    ensures IsPrimary(c) <==> Formed(c) && Level(c) >= 13
    decreases c, 3, 0
  {
    hide BinaryPrecedence;
    match c
    case Paren(x) => ExprExactly(x);
    case Arr(es, _) => ExprsExactly(es);
    case Obj(items) => FieldsExactly(items);
    case Bin(op, _, _) => AtMostEleven(op);
    case _ =>
  }

  /** The header's grammar, stray semicolons aside, derives exactly the trees the parser answers. */
  lemma {:induction false} ExprExactly(c: Cst)
    ensures IsExpr(c) <==> Formed(c)
    decreases c, 15, 0
  {
    hide Derives, BinaryPrecedence;
    DerivesExactly(LogicOr, c);
    match c
    case Tern(x, a, b) =>
      DerivesExactly(LogicOr, x);
      ExprExactly(a);
      ExprExactly(b);
      LevelsOfFormed(x);
    case _ => LevelsOfFormed(c);
  }

  /** A tree of the grammar that is no ternary is at level 2 or above. */
  lemma LevelsOfFormed(c: Cst)
    ensures Formed(c) ==> (Level(c) >= 1 <==> Level(c) >= 2) && (!c.Tern? ==> Level(c) >= 2)
  {
  }

  lemma {:induction false} ExprsExactly(es: seq<Cst>)
    ensures AreExprs(es) <==> FormedElems(es)
    decreases es, 0, 0
  {
    hide IsExpr, Formed;
    if es != [] {
      ExprExactly(es[0]);
      ExprsExactly(es[1..]);
    }
  }

  lemma {:induction false} FieldsExactly(items: seq<Item>)
    ensures AreFields(items) <==> FormedItems(items)
    decreases items, 0, 0
  {
    hide IsExpr, Formed;
    if items != [] {
      if items[0].Field? {
        ExprExactly(items[0].val);
      }
      FieldsExactly(items[1..]);
    }
  }
}
