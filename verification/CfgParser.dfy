/**
  * The recursive descent of parser.cpp over a scanner with one token of lookahead. Every
  * method is proved to consume and answer what the specification reads from the stream: the
  * same tree, the same rest and the same error.
  */
module CfgParser {
  import opened Common
  import opened CfgGrammar
  import opened CfgModel
  import opened CfgParserSpec
  import opened CfgLexer
  import opened CfgLexSpec
  import Spec = CfgDocumentSpec

  /** A method answered what the specification reads, and stands where it stops. */
  ghost predicate Agrees(spec: Parsed, r: Result<Expr>, rest: Stream) {
    match spec
    case Got(c, k) => r == Ok(Ast(c)) && rest == k
    case Fail(code) => r == Err(code)
  }

  class Parser {
    const lexer: Lexer
    var cur: Token
    ghost const scan: bytes -> Stream
    ghost var ahead: Stream  // the tokens still to be taken, `cur` first

    ghost predicate Valid()
      reads this, lexer
    {
      && lexer.Valid() && IsScanner(scan) && Ready(ahead)
      && ahead == if cur == Eof then End(None) else Tok(cur, scan(lexer.Rest()))
    }

    constructor (lexer: Lexer, first: Token)
      requires lexer.Valid()
      ensures Valid() && this.lexer == lexer
      ensures ahead == if first == Eof then End(None) else Tok(first, Lex(lexer.Rest()))
    {
      this.lexer := lexer;
      cur := first;
      scan := Lex;
      ahead := if first == Eof then End(None) else Tok(first, Lex(lexer.Rest()));
    }

    /** The C++ constructor: it loads the first token, and throws when that is malformed. */
    static method Open(data: bytes) returns (r: Result<Parser>)
      ensures match Lex(data)
              case End(Some(code)) => r == Err(code)
              case s => r.Ok? && fresh(r.value) && fresh(r.value.lexer) && r.value.Valid() && r.value.ahead == s
    {
      var lexer := new Lexer(data);
      var first :- lexer.Next();
      var parser := new Parser(lexer, first);
      r := Ok(parser);
    }

    method Take() returns (r: Result<Token>)
      requires Valid() && cur != Eof
      modifies this, lexer
      ensures r.Ok? ==> Valid()
      ensures match Spec.Advance(old(ahead))
              case Ok(rest) => r == Ok(old(cur)) && ahead == rest
              case Err(code) => r == Err(code)
    {
      var t := cur;
      ghost var rest := lexer.Rest();
      assert scan(rest) == Lex(rest);
      var next := lexer.Next();
      if next.Err? {
        return Err(next.code);
      }
      assert next.value != Eof ==> scan(lexer.Rest()) == Lex(lexer.Rest());
      cur := next.value;
      ahead := ahead.rest;
      r := Ok(t);
    }

    method ExpectToken(t: Token) returns (r: Result<()>)
      requires Valid() && t != Eof
      modifies this, lexer
      ensures r.Ok? ==> Valid()
      ensures match Spec.Eat(old(ahead), t)
              case Ok(rest) => r == Ok(()) && ahead == rest
              case Err(code) => r == Err(code)
    {
      if cur != t {
        return Err(BadType);
      }
      var _ :- Take();
      r := Ok(());
    }

    // ---- expressions

    method ParseTernary(depth: nat) returns (r: Result<Expr>)
      requires Valid()
      modifies this, lexer
      ensures r.Ok? ==> Valid()
      ensures Agrees(CfgParserSpec.ParseTernary(old(ahead), depth, MAX_DEPTH), r, ahead)
      decreases ahead, 5
    {
      hide IsScanner, Lexer.Valid, CfgParserSpec.ParseBinary, Guarded;
      if depth > MAX_DEPTH {
        return Err(DepthExceeded);
      }
      ghost var s := ahead;
      var cond :- ParseBinary(1, depth);
      TernaryIsBranches(s, depth);
      if cur != Question {
        return Ok(cond);
      }
      ghost var c := CfgParserSpec.ParseBinary(s, 1, depth, MAX_DEPTH).tree;
      r := ParseBranches(cond, depth, c);
    }

    /** The two branches of a ternary whose condition has been read. */
    method ParseBranches(cond: Expr, depth: nat, ghost c: Cst) returns (r: Result<Expr>)
      requires Valid() && cond == Ast(c)
      modifies this, lexer
      ensures r.Ok? ==> Valid()
      ensures Agrees(Branches(c, old(ahead), depth), r, ahead)
      decreases ahead, 7
    {
      hide IsScanner, Lexer.Valid, Guarded, LeafExpr;
      var yes :- ParseGuarded(Question, depth + 1);
      var no :- ParseGuarded(Colon, depth + 1);
      r := Ok(ETernary(cond, yes, no));
    }

    /** The token `t` and then an expression. */
    method ParseGuarded(t: Token, depth: nat) returns (r: Result<Expr>)
      requires Valid() && t != Eof
      modifies this, lexer
      ensures r.Ok? ==> Valid()
      ensures Agrees(Guarded(old(ahead), t, depth), r, ahead)
      decreases ahead, 6
    {
      hide IsScanner, Lexer.Valid, CfgParserSpec.ParseTernary, Ast;
      var _ :- ExpectToken(t);
      r := ParseTernary(depth);
    }

    method ParseBinary(minPrec: nat, depth: nat) returns (r: Result<Expr>)
      requires Valid()
      modifies this, lexer
      ensures r.Ok? ==> Valid()
      ensures Agrees(CfgParserSpec.ParseBinary(old(ahead), minPrec, depth, MAX_DEPTH), r, ahead)
      decreases ahead, 4
    {
      hide IsScanner, Lexer.Valid, CfgParserSpec.ParseUnary, RightOperand, BinaryLoop, BinaryPrecedence, LeafExpr;
      if depth > MAX_DEPTH {
        return Err(DepthExceeded);
      }
      ghost var start := ahead;
      var lhs :- ParseUnary(depth + 1);
      ghost var left := CfgParserSpec.ParseUnary(start, depth + 1, MAX_DEPTH).tree;
      while true
        invariant Valid() && lhs == Ast(left) && ahead < start
        invariant CfgParserSpec.ParseBinary(start, minPrec, depth, MAX_DEPTH)
               == BinaryLoop(left, ahead, minPrec, depth, MAX_DEPTH)
        decreases ahead
      {
        ClimbStep(left, ahead, minPrec, depth);
        var prec := BinaryPrecedence(cur);
        if prec < minPrec {
          return Ok(lhs);
        }
        var op := cur;
        ghost var right := RightOperand(ahead, prec, depth);
        var rhs :- ParseRight(prec, depth);
        left := Bin(op, left, right.tree);
        lhs := EBinary(op, lhs, rhs);
      }
    }

    /** The operator just seen and its right operand, whose operators bind tighter. */
    method ParseRight(prec: nat, depth: nat) returns (r: Result<Expr>)
      requires Valid() && cur != Eof
      modifies this, lexer
      ensures r.Ok? ==> Valid()
      ensures Agrees(RightOperand(old(ahead), prec, depth), r, ahead)
      decreases ahead, 3
    {
      hide IsScanner, Lexer.Valid, CfgParserSpec.ParseBinary, Ast;
      var _ :- Take();
      r := ParseBinary(prec + 1, depth + 1);
    }

    method ParseUnary(depth: nat) returns (r: Result<Expr>)
      requires Valid()
      modifies this, lexer
      ensures r.Ok? ==> Valid()
      ensures Agrees(CfgParserSpec.ParseUnary(old(ahead), depth, MAX_DEPTH), r, ahead)
      decreases ahead, 3
    {
      hide IsScanner, Lexer.Valid, CfgParserSpec.ParsePrimary, LeafExpr;
      if depth > MAX_DEPTH {
        return Err(DepthExceeded);
      }
      if IsUnaryOp(cur) {
        var op :- Take();
        var operand :- ParseUnary(depth + 1);
        return Ok(EUnary(op, operand));
      }
      r := ParsePrimary(depth);
    }

    method ParsePrimary(depth: nat) returns (r: Result<Expr>)
      requires Valid()
      modifies this, lexer
      ensures r.Ok? ==> Valid()
      ensures Agrees(CfgParserSpec.ParsePrimary(old(ahead), depth, MAX_DEPTH), r, ahead)
      decreases ahead, 2
    {
      hide IsScanner, Lexer.Valid, CfgParserSpec.ParseTernary;
      if depth > MAX_DEPTH {
        return Err(DepthExceeded);
      }
      if IsLeaf(cur) {
        var t :- Take();
        return Ok(LeafExpr(t));
      }
      if cur == LParen {
        var _ :- Take();
        var inner :- ParseTernary(depth + 1);
        var _ :- ExpectToken(RParen);
        return Ok(inner);
      }
      if cur == LBracket {
        r := ParseArray(depth);
        return;
      }
      if cur == LBrace {
        r := ParseObject(depth);
        return;
      }
      r := Err(BadType);
    }

    method ParseArray(depth: nat) returns (r: Result<Expr>)
      requires Valid() && cur == LBracket && depth <= MAX_DEPTH
      modifies this, lexer
      ensures r.Ok? ==> Valid()
      ensures Agrees(CfgParserSpec.ParsePrimary(old(ahead), depth, MAX_DEPTH), r, ahead)
      decreases ahead, 1
    {
      hide IsScanner, Lexer.Valid, ParseElems, Ast;
      var _ :- ExpectToken(LBracket);
      r := ParseArrayTail(depth + 1);
    }

    method ParseArrayTail(depth: nat) returns (r: Result<Expr>)
      requires Valid()
      modifies this, lexer
      ensures r.Ok? ==> Valid()
      ensures Agrees(ArrayTail(old(ahead), depth), r, ahead)
      decreases ahead, 7
    {
      hide IsScanner, Lexer.Valid, ParseElems;
      var elements: seq<Expr> := [];
      if cur != RBracket {
        elements :- ParseElements(depth);
      }
      var _ :- ExpectToken(RBracket);
      r := Ok(EArray(elements));
    }

    method ParseElements(depth: nat) returns (r: Result<seq<Expr>>)
      requires Valid()
      modifies this, lexer
      ensures r.Ok? ==> Valid()
      ensures match ParseElems(old(ahead), depth, MAX_DEPTH)
              case Got(list, rest) => r == Ok(AstElems(list.elems)) && ahead == rest
              case Fail(code) => r == Err(code)
      decreases ahead, 6
    {
      hide IsScanner, Lexer.Valid, CfgParserSpec.ParseTernary;
      var elements: seq<Expr> := [];
      ghost var start, done := ahead, [];
      NothingDone(start, depth);
      while true
        invariant Valid() && elements == AstElems(done) && (ahead == start || ahead < start)
        invariant ParseElems(start, depth, MAX_DEPTH) == AfterElems(done, ahead, depth)
        decreases ahead
      {
        ghost var here := ahead;
        ElemsStep(done, here, depth);
        var e :- ParseTernary(depth);
        ghost var c := CfgParserSpec.ParseTernary(here, depth, MAX_DEPTH).tree;
        AstElemsAppend(done, c);
        elements := elements + [e];
        var more :- TakeSeparator();
        if !more {
          return Ok(elements);
        }
        done := done + [c];
      }
    }

    /** Whether another element follows; a trailing comma is taken but promises none. */
    method TakeSeparator() returns (r: Result<bool>)
      requires Valid()
      modifies this, lexer
      ensures r.Ok? ==> Valid()
      ensures if Peek(old(ahead)) != Comma then r == Ok(false) && ahead == old(ahead)
              else match Spec.Advance(old(ahead))
                   case Ok(rest) => r == Ok(Peek(rest) != RBracket) && ahead == rest
                   case Err(code) => r == Err(code)
    {
      if cur != Comma {
        return Ok(false);
      }
      var _ :- Take();
      r := Ok(cur != RBracket);
    }

    method ParseObject(depth: nat) returns (r: Result<Expr>)
      requires Valid() && cur == LBrace && depth <= MAX_DEPTH
      modifies this, lexer
      ensures r.Ok? ==> Valid()
      ensures Agrees(CfgParserSpec.ParsePrimary(old(ahead), depth, MAX_DEPTH), r, ahead)
      decreases ahead, 1
    {
      hide IsScanner, Lexer.Valid, CfgParserSpec.ParseTernary, ParseItems, AstItems;
      var _ :- ExpectToken(LBrace);
      var fields :- ParseFields(depth + 1);
      var _ :- ExpectToken(RBrace);
      r := Ok(EObject(fields));
    }

    method ParseFields(depth: nat) returns (r: Result<seq<FieldExpr>>)
      requires Valid()
      modifies this, lexer
      ensures r.Ok? ==> Valid()
      ensures match ParseItems(old(ahead), depth, MAX_DEPTH)
              case Got(list, rest) => r == Ok(AstItems(list.items)) && ahead == rest
              case Fail(code) => r == Err(code)
      decreases ahead, 6
    {
      hide IsScanner, Lexer.Valid, ParseMember;
      var fields: seq<FieldExpr> := [];
      ghost var start, done := ahead, [];
      NothingDone(start, depth);
      while cur != RBrace
        invariant Valid() && fields == AstItems(done) && (ahead == start || ahead < start)
        invariant ParseItems(start, depth, MAX_DEPTH) == AfterItems(done, ahead, depth)
        decreases ahead
      {
        ghost var here := ahead;
        ItemsStep(done, here, depth);
        if cur == Semicolon {
          var _ :- Take();
          AstItemsAppend(done, Stray);
          done := done + [Stray];
        } else {
          var field :- ParseField(depth);
          fields := fields + [field];
          ghost var item := Field(field.key, ParseMember(here, depth, MAX_DEPTH).tree);
          AstItemsAppend(done, item);
          done := done + [item];
        }
      }
      assert done + [] == done;
      r := Ok(fields);
    }

    /** One `key = expr ;` member. */
    method ParseField(depth: nat) returns (r: Result<FieldExpr>)
      requires Valid()
      modifies this, lexer
      ensures r.Ok? ==> Valid()
      ensures match ParseMember(old(ahead), depth, MAX_DEPTH)
              case Got(v, rest) => r == Ok(FieldExpr(Peek(old(ahead)).name, Ast(v))) && ahead == rest
              case Fail(code) => r == Err(code)
      decreases ahead, 5
    {
      hide IsScanner, Lexer.Valid, Assigned, ParseMember, Ast;
      if !cur.Ident? {
        NoMember(ahead, depth);
        return Err(BadType);
      }
      MemberIsAssigned(ahead, depth);
      var key :- Take();
      var v :- ParseAssigned(depth);
      r := Ok(FieldExpr(key.name, v));
    }

    /** `= expr ;` */
    method ParseAssigned(depth: nat) returns (r: Result<Expr>)
      requires Valid()
      modifies this, lexer
      ensures r.Ok? ==> Valid()
      ensures Agrees(Assigned(old(ahead), depth), r, ahead)
      decreases ahead, 7
    {
      hide IsScanner, Lexer.Valid, Guarded, Ast;
      var v :- ParseGuarded(Assign, depth);
      var _ :- ExpectToken(Semicolon);
      r := Ok(v);
    }

    // ---- statements

    method ParseDocument() returns (r: Result<seq<Statement>>)
      requires Valid()
      modifies this, lexer
      ensures match Spec.ParseDocument(old(ahead))
              case Ok((statements, _)) => r == Ok(statements)
              case Err(code) => r == Err(code)
    {
      var statements: seq<Statement> := [];
      ghost var start := ahead;
      NoStatements(start, 0);
      while cur != Eof
        invariant Valid()
        invariant Spec.ParseDocument(start) == AfterStatements(statements, Spec.ParseDocument(ahead))
        decreases ahead
      {
        DocumentStep(statements, ahead);
        if cur == Semicolon {
          var _ :- Take();
        } else {
          var st :- ParseStatement(1);
          statements := statements + [st];
        }
      }
      assert statements + [] == statements;
      r := Ok(statements);
    }

    method ParseStatement(depth: nat) returns (r: Result<Statement>)
      requires Valid()
      modifies this, lexer
      ensures r.Ok? ==> Valid()
      ensures AgreesOn(Spec.ParseStatement(old(ahead), depth), r, ahead)
      decreases ahead, 1
    {
      if depth > MAX_DEPTH {
        return Err(DepthExceeded);
      }
      if cur == Include {
        r := ParseInclude(depth);
        return;
      }
      if !cur.Ident? {
        return Err(BadType);
      }
      var first :- Take();
      if cur.StringLit? {
        var tag :- Take();
        r := ParseBlock(first.name, Some(tag.text), depth);
        return;
      }
      if cur == LBrace {
        r := ParseBlock(first.name, None, depth);
        return;
      }
      var path :- ParsePath();
      r := ParseAssignment([first.name] + path);
    }

    method ParseInclude(depth: nat) returns (r: Result<Statement>)
      requires Valid() && cur == Include && depth <= MAX_DEPTH
      modifies this, lexer
      ensures r.Ok? ==> Valid()
      ensures AgreesOn(Spec.ParseStatement(old(ahead), depth), r, ahead)
    {
      var _ :- Take();
      if !cur.StringLit? {
        return Err(BadType);
      }
      var path :- Take();
      var _ :- ExpectToken(Semicolon);
      r := Ok(IncludeStmt(path.text));
    }

    method ParseBlock(name: bytes, tag: Option<bytes>, depth: nat) returns (r: Result<Statement>)
      requires Valid()
      modifies this, lexer
      ensures r.Ok? ==> Valid()
      ensures AgreesOn(Spec.ParseBlock(name, tag, old(ahead), depth), r, ahead)
      decreases ahead, 2
    {
      hide IsScanner, Lexer.Valid, Spec.ParseStatement;
      var _ :- ExpectToken(LBrace);
      var children: seq<Statement> := [];
      ghost var start := ahead;
      NoStatements(start, depth);
      while cur != RBrace
        invariant Valid() && (ahead == start || ahead < start)
        invariant Spec.ParseChildren(start, depth) == AfterStatements(children, Spec.ParseChildren(ahead, depth))
        decreases ahead
      {
        if cur == Eof {
          return Err(BadType);
        }
        ChildrenStep(children, ahead, depth);
        if cur == Semicolon {
          var _ :- Take();
        } else {
          var st :- ParseStatement(depth + 1);
          children := children + [st];
        }
      }
      assert children + [] == children;
      var _ :- ExpectToken(RBrace);
      r := Ok(BlockStmt(name, tag, children));
    }

    method ParsePath() returns (r: Result<seq<bytes>>)
      requires Valid()
      modifies this, lexer
      ensures r.Ok? ==> Valid()
      ensures AgreesOn(Spec.ParsePath(old(ahead)), r, ahead)
    {
      var path: seq<bytes> := [];
      ghost var start := ahead;
      ghost var rest := Spec.ParsePath(start);
      assert rest.Ok? ==> [] + rest.value.0 == rest.value.0;
      while cur == Dot
        invariant Valid()
        invariant Spec.ParsePath(start) == AfterPath(path, ahead)
        decreases ahead
      {
        PathStep(path, ahead);
        var _ :- Take();
        if !cur.Ident? {
          return Err(BadType);
        }
        var part :- Take();
        path := path + [part.name];
      }
      assert path + [] == path;
      r := Ok(path);
    }

    method ParseAssignment(path: seq<bytes>) returns (r: Result<Statement>)
      requires Valid()
      modifies this, lexer
      ensures r.Ok? ==> Valid()
      ensures AgreesOn(Spec.ParseAssignment(path, old(ahead)), r, ahead)
    {
      var _ :- ExpectToken(Assign);
      var e :- ParseTernary(1);
      var _ :- ExpectToken(Semicolon);
      r := Ok(AssignStmt(path, e));
    }
  }

  ghost predicate AgreesOn<T(!new)>(spec: Result<(T, Stream)>, r: Result<T>, rest: Stream) {
    match spec
    case Ok((x, k)) => r == Ok(x) && rest == k
    case Err(code) => r == Err(code)
  }

  /** What a statement loop answers once `done` has been read. */
  ghost function AfterStatements(done: seq<Statement>, spec: Spec.Statements): Spec.Statements {
    var (statements, rest) :- spec;
    Ok((done + statements, rest))
  }

  lemma NoStatements(s: Stream, depth: nat)
    requires Ready(s)
    ensures Spec.ParseDocument(s) == AfterStatements([], Spec.ParseDocument(s))
    ensures Spec.ParseChildren(s, depth) == AfterStatements([], Spec.ParseChildren(s, depth))
  {
    var document, children := Spec.ParseDocument(s), Spec.ParseChildren(s, depth);
    assert document.Ok? ==> [] + document.value.0 == document.value.0;
    assert children.Ok? ==> [] + children.value.0 == children.value.0;
  }

  /** One turn of a statement loop: an empty statement, or a statement and then the rest. */
  lemma DocumentStep(done: seq<Statement>, s: Stream)
    requires Ready(s) && Peek(s) != Eof
    ensures Peek(s) == Semicolon ==>
              var next := Spec.Advance(s);
              AfterStatements(done, Spec.ParseDocument(s))
              == if next.Err? then Err(next.code) else AfterStatements(done, Spec.ParseDocument(next.value))
    ensures Peek(s) != Semicolon ==>
              var st := Spec.ParseStatement(s, 1);
              AfterStatements(done, Spec.ParseDocument(s))
              == if st.Err? then Err(st.code)
                 else AfterStatements(done + [st.value.0], Spec.ParseDocument(st.value.1))
  {
    hide Spec.ParseStatement;
    var st := Spec.ParseStatement(s, 1);
    if Peek(s) != Semicolon && st.Ok? {
      var rest := Spec.ParseDocument(st.value.1);
      assert rest.Ok? ==> done + ([st.value.0] + rest.value.0) == (done + [st.value.0]) + rest.value.0;
    }
  }

  lemma ChildrenStep(done: seq<Statement>, s: Stream, depth: nat)
    requires Ready(s) && Peek(s) != Eof && Peek(s) != RBrace
    ensures Peek(s) == Semicolon ==>
              var next := Spec.Advance(s);
              AfterStatements(done, Spec.ParseChildren(s, depth))
              == if next.Err? then Err(next.code) else AfterStatements(done, Spec.ParseChildren(next.value, depth))
    ensures Peek(s) != Semicolon ==>
              var st := Spec.ParseStatement(s, depth + 1);
              AfterStatements(done, Spec.ParseChildren(s, depth))
              == if st.Err? then Err(st.code)
                 else AfterStatements(done + [st.value.0], Spec.ParseChildren(st.value.1, depth))
  {
    hide Spec.ParseStatement;
    var st := Spec.ParseStatement(s, depth + 1);
    if Peek(s) != Semicolon && st.Ok? {
      var rest := Spec.ParseChildren(st.value.1, depth);
      assert rest.Ok? ==> done + ([st.value.0] + rest.value.0) == (done + [st.value.0]) + rest.value.0;
    }
  }

  ghost function AfterPath(done: seq<bytes>, s: Stream): Result<(seq<bytes>, Stream)>
    requires Ready(s)
  {
    var (path, rest) :- Spec.ParsePath(s);
    Ok((done + path, rest))
  }

  lemma PathStep(done: seq<bytes>, s: Stream)
    requires Ready(s) && Peek(s) == Dot
    ensures match Spec.Advance(s)
            case Err(code) => AfterPath(done, s) == Err(code)
            case Ok(s1) =>
              if !Peek(s1).Ident? then AfterPath(done, s) == Err(BadType)
              else match Spec.Advance(s1)
                   case Err(code) => AfterPath(done, s) == Err(code)
                   case Ok(s2) => AfterPath(done, s) == AfterPath(done + [Peek(s1).name], s2)
  {
    assert forall name: bytes, path: seq<bytes> :: done + ([name] + path) == (done + [name]) + path;
  }

  ghost function RightOperand(s: Stream, prec: nat, d: nat): (r: Parsed)
    requires s.Tok?
    ensures r.Got? ==> r.rest < s
  {
    var op :- CfgParserSpec.Take(s);
    CfgParserSpec.ParseBinary(op.rest, prec + 1, d + 1, MAX_DEPTH)
  }

  /** One turn of the climbing loop. */
  lemma ClimbStep(left: Cst, s: Stream, minPrec: nat, d: nat)
    ensures var prec := BinaryPrecedence(Peek(s));
            if prec < minPrec then BinaryLoop(left, s, minPrec, d, MAX_DEPTH) == Got(left, s)
            else
              && s.Tok? && s.head != Eof
              && BinaryLoop(left, s, minPrec, d, MAX_DEPTH) ==
                 var right :- RightOperand(s, prec, d);
                 BinaryLoop(Bin(s.head, left, right.tree), right.rest, minPrec, d, MAX_DEPTH)
  {
    hide CfgParserSpec.ParseBinary;
  }

  ghost function Guarded(s: Stream, t: Token, d: nat): (r: Parsed)
    requires t != Eof
    ensures r.Got? ==> r.rest < s
  {
    var guard :- Expect(s, t);
    CfgParserSpec.ParseTernary(guard.rest, d, MAX_DEPTH)
  }

  /** What `parse_ternary` still reads after a condition `c`. */
  ghost function Branches(c: Cst, s: Stream, d: nat): Parsed {
    var a :- Guarded(s, Question, d + 1);
    var b :- Guarded(a.rest, Colon, d + 1);
    Got(Tern(c, a.tree, b.tree), b.rest)
  }

  lemma TernaryIsBranches(s: Stream, d: nat)
    requires d <= MAX_DEPTH && CfgParserSpec.ParseBinary(s, 1, d, MAX_DEPTH).Got?
    ensures var c := CfgParserSpec.ParseBinary(s, 1, d, MAX_DEPTH);
            && CfgParserSpec.ParseTernary(s, d, MAX_DEPTH)
               == if Peek(c.rest) == Question then Branches(c.tree, c.rest, d) else c
  {
    hide CfgParserSpec.ParseBinary;
  }

  ghost function Assigned(s: Stream, d: nat): Parsed {
    var v :- Guarded(s, Assign, d);
    var semicolon :- Expect(v.rest, Semicolon);
    Got(v.tree, semicolon.rest)
  }

  lemma NoMember(s: Stream, d: nat)
    requires !Peek(s).Ident?
    ensures ParseMember(s, d, MAX_DEPTH) == Fail(BadType)
  {
  }

  lemma MemberIsAssigned(s: Stream, d: nat)
    requires Peek(s).Ident?
    ensures var key := CfgParserSpec.Take(s);
            ParseMember(s, d, MAX_DEPTH) == if key.Fail? then key else Assigned(key.rest, d)
  {
    hide CfgParserSpec.ParseTernary;
  }

  /** What `parse_array` still reads after its opening bracket. */
  ghost function ArrayTail(s: Stream, d: nat): Parsed {
    if Peek(s) == RBracket then
      var close :- CfgParserSpec.Take(s);
      Got(Arr([], false), close.rest)
    else
      var list :- ParseElems(s, d, MAX_DEPTH);
      var close :- Expect(list.rest, RBracket);
      Got(list.tree, close.rest)
  }

  /** What the element loop answers once `done` has been read and `s` lies ahead. */
  ghost function AfterElems(done: seq<Cst>, s: Stream, d: nat): Parsed {
    var list :- ParseElems(s, d, MAX_DEPTH);
    Got(Arr(done + list.tree.elems, list.tree.trailing), list.rest)
  }

  ghost function AfterItems(done: seq<Item>, s: Stream, d: nat): Parsed {
    var list :- ParseItems(s, d, MAX_DEPTH);
    Got(Obj(done + list.tree.items), list.rest)
  }

  lemma NothingDone(s: Stream, d: nat)
    ensures AfterElems([], s, d) == ParseElems(s, d, MAX_DEPTH)
    ensures AfterItems([], s, d) == ParseItems(s, d, MAX_DEPTH)
  {
    var elems, items := ParseElems(s, d, MAX_DEPTH), ParseItems(s, d, MAX_DEPTH);
    hide ParseElems, ParseItems;
    assert elems.Got? ==> [] + elems.tree.elems == elems.tree.elems;
    assert items.Got? ==> [] + items.tree.items == items.tree.items;
  }

  lemma ElemsStep(done: seq<Cst>, s: Stream, d: nat)
    ensures match CfgParserSpec.ParseTernary(s, d, MAX_DEPTH)
            case Fail(code) => AfterElems(done, s, d) == Fail(code)
            case Got(c, s1) =>
              if Peek(s1) != Comma then AfterElems(done, s, d) == Got(Arr(done + [c], false), s1)
              else match Spec.Advance(s1)
                   case Err(code) => AfterElems(done, s, d) == Fail(code)
                   case Ok(s2) =>
                     if Peek(s2) == RBracket then AfterElems(done, s, d) == Got(Arr(done + [c], true), s2)
                     else AfterElems(done, s, d) == AfterElems(done + [c], s2, d)
  {
    hide CfgParserSpec.ParseTernary;
    assert forall c: Cst, es: seq<Cst> :: done + ([c] + es) == (done + [c]) + es;
  }

  lemma ItemsStep(done: seq<Item>, s: Stream, d: nat)
    requires Peek(s) != RBrace
    ensures Peek(s) == Semicolon ==>
              var next := Spec.Advance(s);
              AfterItems(done, s, d)
              == if next.Err? then Fail(next.code) else AfterItems(done + [Stray], next.value, d)
    ensures Peek(s) != Semicolon ==>
              var v := ParseMember(s, d, MAX_DEPTH);
              AfterItems(done, s, d)
              == if v.Fail? then v else AfterItems(done + [Field(Peek(s).name, v.tree)], v.rest, d)
  {
    hide ParseMember;
    assert forall item: Item, items: seq<Item> :: done + ([item] + items) == (done + [item]) + items;
  }
}
