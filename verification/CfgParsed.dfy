/** What parsed documents are like. */
module CfgParsed {
  // Whatever text parses to, every name in it is an identifier of the scanner and every float a
  // double, an infinity or NaN: from the tokens through the trees to the values.

  import opened CfgDocumentSpec
  import opened CfgEvaluator
  import opened CfgFloatLaw
  import opened CfgGrammar
  import opened CfgLexRoundTrip
  import opened CfgLexSpec
  import opened CfgModel
  import opened CfgParserSpec
  import opened CfgRoundTrip
  import opened CfgStatements
  import opened Common
  import Doubles

  // ---- tokens

  ghost predicate ProperToken(t: Token) {
    match t
    case Ident(w) => IsName(w)
    case FloatLit(f) => Doubles.IsRounded(f)
    case _ => true
  }

  ghost predicate Scanned(s: Stream) {
    match s
    case End(_) => true
    case Tok(t, rest) => ProperToken(t) && Scanned(rest)
  }

  lemma WordProper(s: bytes)
    requires s != [] && IsIdentStart(s[0])
    ensures ProperToken(LexWord(s).0)
  {
    var n := Span(s, IsIdentPart);
    assert n > 0 && s[..n][0] == s[0];
    hide Span;
  }

  lemma FloatProper(x: real)
    requires x >= 0.0
    ensures FloatToken(x).Ok? ==> ProperToken(FloatToken(x).value)
  {
    hide Doubles.IsRounded, Doubles.Round;
    Doubles.RoundIsRounded(x);
  }

  lemma NumberProper(s: bytes)
    requires s != [] && IsDigit(s[0])
    ensures LexNumber(s).Ok? ==> ProperToken(LexNumber(s).value.0)
  {
    hide Doubles.IsRounded, FloatToken, FloatValue, DigitsValue, HexAccumulator, Span, FractionLength, ExponentStart;
    forall x: real | x >= 0.0
      ensures FloatToken(x).Ok? ==> ProperToken(FloatToken(x).value)
    {
      FloatProper(x);
    }
  }

  lemma NextProper(s: bytes)
    ensures Next(s).Ok? ==> ProperToken(Next(s).value.0)
  {
    hide LexNumber, LexWord, StringBody, SkipTrivia, IsName, Doubles.IsRounded;
    var rest := SkipTrivia(s);
    if rest.Ok? && rest.value != [] {
      var s1 := rest.value;
      if IsIdentStart(s1[0]) {
        WordProper(s1);
      } else if IsDigit(s1[0]) {
        NumberProper(s1);
      }
    }
  }

  /** Every token the scanner gives is proper. */
  lemma {:induction false} LexProper(s: bytes)
    ensures Scanned(Lex(s))
    decreases |s|
  {
    hide Next, ProperToken;
    NextProper(s);
    if Next(s).Ok? && Next(s).value.0 != Eof {
      LexProper(Next(s).value.1);
    }
  }

  // ---- trees

  lemma LeafProper(t: Token)
    requires ProperToken(t)
    ensures RoundedExpr(LeafExpr(t), IsName)
  {
  }

  lemma {:induction false} TreeProper(c: Cst, k: Stream)
    requires Formed(c) && Scanned(Spell(c, k))
    ensures RoundedExpr(Ast(c), IsName) && Scanned(k)
    decreases c, 1
  {
    hide IsName, ProperToken, LeafExpr, Level, BinaryPrecedence, IsLeaf, IsUnaryOp, Doubles.IsRounded, RoundedExprs,
         RoundedFields, SpellElems, SpellItems, AstElems, AstItems, FormedElems, FormedItems;
    match c
    case Leaf(t) => LeafProper(t);
    case Paren(x) => TreeProper(x, Tok(RParen, k));
    case Arr(es, trailing) => ElemsProper(es, if trailing then Tok(Comma, Tok(RBracket, k)) else Tok(RBracket, k));
    case Obj(items) => ItemsProper(items, Tok(RBrace, k));
    case Un(_, x) => TreeProper(x, k);
    case Bin(op, l, r) =>
      TreeProper(l, Tok(op, Spell(r, k)));
      TreeProper(r, k);
    case Tern(x, a, b) =>
      TreeProper(x, Tok(Question, Spell(a, Tok(Colon, Spell(b, k)))));
      TreeProper(a, Tok(Colon, Spell(b, k)));
      TreeProper(b, k);
  }

  lemma {:induction false} ElemsProper(es: seq<Cst>, k: Stream)
    requires FormedElems(es) && Scanned(SpellElems(es, k))
    ensures RoundedExprs(AstElems(es), IsName) && Scanned(k)
    decreases es, 0
  {
    hide Spell, Formed, Ast, RoundedExpr, ProperToken;
    if es != [] {
      TreeProper(es[0], if |es| == 1 then k else Tok(Comma, SpellElems(es[1..], k)));
      if |es| > 1 {
        ElemsProper(es[1..], k);
      } else {
        assert es[1..] == [];
      }
      assert AstElems(es)[1..] == AstElems(es[1..]);
    }
  }

  lemma {:induction false} ItemsProper(items: seq<Item>, k: Stream)
    requires FormedItems(items) && Scanned(SpellItems(items, k))
    ensures RoundedFields(AstItems(items), IsName) && Scanned(k)
    decreases items, 0
  {
    hide Spell, Formed, Ast, RoundedExpr, IsName, Doubles.IsRounded;
    if items != [] {
      if items[0].Field? {
        TreeProper(items[0].val, Tok(Semicolon, SpellItems(items[1..], k)));
        ItemsProper(items[1..], k);
        assert AstItems(items)[1..] == AstItems(items[1..]);
      } else {
        ItemsProper(items[1..], k);
      }
    }
  }

  // ---- statements

  ghost predicate ProperStatement(st: Statement)
    decreases st, 1
  {
    match st
    case AssignStmt(path, e) => path != [] && AllNames(path) && RoundedExpr(e, IsName)
    case BlockStmt(name, _, children) => IsName(name) && ProperStatements(children)
    case IncludeStmt(_) => true
  }

  ghost predicate ProperStatements(sts: seq<Statement>)
    decreases sts, 0
  {
    sts == [] || (ProperStatement(sts[0]) && ProperStatements(sts[1..]))
  }

  lemma {:induction false} PathProper(path: seq<bytes>, k: Stream)
    requires path != [] && Scanned(SpellPath(path, k))
    ensures AllNames(path) && Scanned(k)
  {
    hide IsName;
    if |path| > 1 {
      PathProper(path[1..], k);
      assert path == [path[0]] + path[1..];
    }
  }

  lemma {:induction false} StatementProper(c: Cstmt, k: Stream)
    requires FormedStatement(c) && Scanned(SpellStatement(c, k))
    ensures Scanned(k) && (c != Empty ==> ProperStatement(StatementAst(c)))
    decreases c, 1
  {
    hide IsName, AllNames, Doubles.IsRounded, Spell, Formed, Ast, RoundedExpr, SpellPath, SpellStatements,
         StatementsAst,
         FormedStatements, ProperStatements;
    match c
    case Empty =>
    case Inclusion(file) =>
      assert Scanned(Tok(StringLit(file), Tok(Semicolon, k)));
      assert Scanned(Tok(Semicolon, k));
    case Named(name, tag, body) =>
      assert Scanned(SpellTag(tag, SpellBody(body, k)));
      assert Scanned(SpellBody(body, k));
      StatementsProper(body, Tok(RBrace, k));
    case Assigned(path, value) =>
      PathProper(path, Tok(Assign, Spell(value, Tok(Semicolon, k))));
      TreeProper(value, Tok(Semicolon, k));
  }

  lemma {:induction false} StatementsProper(cs: seq<Cstmt>, k: Stream)
    requires FormedStatements(cs) && Scanned(SpellStatements(cs, k))
    ensures ProperStatements(StatementsAst(cs)) && Scanned(k)
    decreases cs, 0
  {
    hide SpellStatement, FormedStatement, StatementAst, ProperStatement, ProperToken;
    if cs != [] {
      StatementProper(cs[0], SpellStatements(cs[1..], k));
      StatementsProper(cs[1..], k);
      if cs[0] != Empty {
        assert StatementsAst(cs)[1..] == StatementsAst(cs[1..]);
      }
    }
  }

  // ---- values

  ghost predicate ProperNode(node: Node)
    decreases node, 1
  {
    match node
    case Assignment(path, value) => path != [] && AllNames(path) && Rounded(value, IsName)
    case Block(name, _, children) => IsName(name) && ProperNodes(children)
    case IncludeNode(_) => true
  }

  /** Names are identifiers, floats are doubles. */
  ghost predicate ProperNodes(nodes: seq<Node>)
    decreases nodes, 0
  {
    nodes == [] || (ProperNode(nodes[0]) && ProperNodes(nodes[1..]))
  }

  lemma {:induction false} BuiltProper(sts: seq<Statement>, env: Scopes)
    requires ProperStatements(sts) && env != [] && RoundedScopes(env, IsName)
    ensures var r := BuildNodes(sts, env); r.Ok? ==> ProperNodes(r.value.0) && RoundedScopes(r.value.1, IsName)
    decreases sts, 0
  {
    hide BuildNode, ProperStatement, ProperNode, RoundedScopes;
    if sts != [] {
      BuiltNodeProper(sts[0], env);
      var first := BuildNode(sts[0], env);
      if first.Ok? {
        BuiltProper(sts[1..], first.value.1);
        var r := BuildNodes(sts, env);
        assert r.Ok? ==> r.value.0[1..] == BuildNodes(sts[1..], first.value.1).value.0;
      }
    }
  }

  lemma {:induction false} BuiltNodeProper(st: Statement, env: Scopes)
    requires ProperStatement(st) && env != [] && RoundedScopes(env, IsName)
    ensures var r := BuildNode(st, env); r.Ok? ==> ProperNode(r.value.0) && RoundedScopes(r.value.1, IsName)
    decreases st, 1
  {
    hide IsName, AllNames, Rounded, RoundedExpr, Evaluate;
    match st
    case AssignStmt(path, e) => EvaluateRounded(e, env, IsName, 1);
    case BlockStmt(name, tag, children) => BuiltProper(children, [map[]] + env);
    case IncludeStmt(_) =>
  }

  // ---- main result

  /** Every document that text parses to has identifiers for names and doubles for floats. */
  lemma ParsedIsProper(text: bytes)
    ensures Parse(text).Ok? ==> ProperNodes(Parse(text).value)
  {
    hide Lex, ParseDocument, BuildNodes, ProperNodes, ProperStatements, FormedStatements, SpellStatements,
         StatementsAst;
    if Parse(text).Ok? {
      var s := Lex(text);
      LexProper(text);
      var cs := DocumentSound(s);
      StatementsProper(cs, ParseDocument(s).value.1);
      BuiltProper(ParseDocument(s).value.0, [map[]]);
    }
  }
}
