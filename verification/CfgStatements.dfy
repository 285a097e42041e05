/** The statement grammar. */
module CfgStatements {
  // The statements of parser.hpp as concrete trees that remember empty statements, and the proof
  // that the statement parser computes exactly the trees a token run spells.

  import opened Common
  import opened CfgGrammar
  import opened CfgModel
  import opened CfgParserSpec
  import opened CfgDocumentSpec

  datatype Cstmt =
    | Empty
    | Inclusion(file: bytes)
    | Named(name: bytes, tag: Option<bytes>, body: seq<Cstmt>)
    | Assigned(path: seq<bytes>, value: Cst)

  function SpellPath(path: seq<bytes>, k: Stream): Stream {
    if path == [] then k
    else if |path| == 1 then Tok(Ident(path[0]), k)
    else Tok(Ident(path[0]), Tok(Dot, SpellPath(path[1..], k)))
  }

  function SpellTag(tag: Option<bytes>, k: Stream): Stream {
    if tag.Some? then Tok(StringLit(tag.value), k) else k
  }

  /** The tokens of a statement, and then `k`. */
  function SpellStatement(c: Cstmt, k: Stream): Stream
    decreases c, 1
  {
    match c
    case Empty => Tok(Semicolon, k)
    case Inclusion(file) => Tok(Include, Tok(StringLit(file), Tok(Semicolon, k)))
    case Named(name, tag, body) => Tok(Ident(name), SpellTag(tag, SpellBody(body, k)))
    case Assigned(path, value) => SpellPath(path, Tok(Assign, Spell(value, Tok(Semicolon, k))))
  }

  function SpellBody(body: seq<Cstmt>, k: Stream): Stream
    decreases body, 1
  {
    Tok(LBrace, SpellStatements(body, Tok(RBrace, k)))
  }

  function SpellStatements(cs: seq<Cstmt>, k: Stream): Stream
    decreases cs, 0
  {
    if cs == [] then k else SpellStatement(cs[0], SpellStatements(cs[1..], k))
  }

  predicate FormedStatement(c: Cstmt)
    decreases c, 1
  {
    match c
    case Assigned(path, value) => path != [] && Formed(value)
    case Named(_, _, body) => FormedStatements(body)
    case _ => true
  }

  predicate FormedStatements(cs: seq<Cstmt>)
    decreases cs, 0
  {
    cs == [] || (FormedStatement(cs[0]) && FormedStatements(cs[1..]))
  }

  /** The parsed statement; an empty one leaves none. */
  function StatementAst(c: Cstmt): Statement
    requires c != Empty
    decreases c, 1
  {
    match c
    case Inclusion(file) => IncludeStmt(file)
    case Named(name, tag, body) => BlockStmt(name, tag, StatementsAst(body))
    case Assigned(path, value) => AssignStmt(path, Ast(value))
  }

  function StatementsAst(cs: seq<Cstmt>): seq<Statement>
    decreases cs, 0
  {
    if cs == [] then []
    else if cs[0] == Empty then StatementsAst(cs[1..])
    else [StatementAst(cs[0])] + StatementsAst(cs[1..])
  }

  /** The greatest depth the parser reaches on a statement read at `depth`. */
  ghost function NeedStatement(c: Cstmt, depth: nat): (n: nat)
    ensures n >= depth
    decreases c, 1
  {
    match c
    case Assigned(_, value) => Max(depth, Need(value, 1))
    case Named(_, _, body) => NeedStatements(body, depth + 1)
    case _ => depth
  }

  /** Statements at `depth`, which is one more than their block's; empty ones cost nothing. */
  ghost function NeedStatements(cs: seq<Cstmt>, depth: nat): (n: nat)
    requires depth > 0
    ensures n >= depth - 1
    decreases cs, 0
  {
    if cs == [] then depth - 1
    else if cs[0] == Empty then NeedStatements(cs[1..], depth)
    else Max(NeedStatement(cs[0], depth), NeedStatements(cs[1..], depth))
  }

  // ---- every statement tree is read back

  lemma ParseValueTree(c: Cst, k: Stream)
    requires Formed(c) && Ready(k)
    ensures Spell(c, Tok(Semicolon, k)).Tok?
    ensures ParseExpr(Spell(c, Tok(Semicolon, k)), 1)
         == if Need(c, 1) <= MAX_DEPTH then Ok((Ast(c), Tok(Semicolon, k))) else Err(DepthExceeded)
  {
    hide ParseTernary, Spell, Formed, Need;
    ClosersAreNoOperators();
    SpellStarts(c, Tok(Semicolon, k));
    TernaryComplete(c, Tok(Semicolon, k), 1, MAX_DEPTH);
  }

  lemma {:induction false} PathComplete(path: seq<bytes>, k: Stream)
    requires path != [] && Ready(k) && Peek(k) != Dot
    ensures SpellPath(path, k).Tok? && Peek(SpellPath(path, k)) == Ident(path[0]) && Ready(SpellPath(path, k).rest)
    ensures ParsePath(SpellPath(path, k).rest) == Ok((path[1..], k))
  {
    if |path| == 1 {
      assert path[1..] == [];
    } else {
      PathComplete(path[1..], k);
      var s := SpellPath(path, k).rest;
      assert s == Tok(Dot, SpellPath(path[1..], k));
      assert path[1..] == [path[1]] + path[1..][1..];
    }
  }

  lemma AssignmentComplete(path: seq<bytes>, value: Cst, depth: nat, k: Stream)
    requires path != [] && Formed(value) && Ready(k)
    ensures var s := SpellStatement(Assigned(path, value), k);
            && s.Tok? && Peek(s).Ident?
            && ParseStatement(s, depth)
            == if Max(depth, Need(value, 1)) <= MAX_DEPTH then Ok((AssignStmt(path, Ast(value)), k))
               else Err(DepthExceeded)
  {
    hide ParseExpr, Spell, Need, Formed, Ast;
    var s := Tok(Assign, Spell(value, Tok(Semicolon, k)));
    SpellStarts(value, Tok(Semicolon, k));
    PathComplete(path, s);
    ParseValueTree(value, k);
    assert path == [path[0]] + path[1..];
    assert ParseAssignment(path, s)
        == if Need(value, 1) <= MAX_DEPTH then Ok((AssignStmt(path, Ast(value)), k)) else Err(DepthExceeded);
    assert Peek(SpellPath(path, s).rest) == Dot || SpellPath(path, s).rest == s;
  }

  lemma {:induction false} StatementComplete(c: Cstmt, depth: nat, k: Stream)
    requires FormedStatement(c) && Ready(k)
    ensures var s := SpellStatement(c, k);
            && s.Tok? && Peek(s) != RBrace && Peek(s) != Eof
            && (Peek(s) == Semicolon <==> c == Empty) && (c == Empty ==> s == Tok(Semicolon, k))
            && (c != Empty ==>
                  ParseStatement(s, depth)
                  == if NeedStatement(c, depth) <= MAX_DEPTH then Ok((StatementAst(c), k)) else Err(DepthExceeded))
    decreases c, 1
  {
    hide ParseExpr, Spell, Formed, Ast, ParseChildren, SpellStatements;
    match c
    case Empty =>
    case Inclusion(_) =>
    case Assigned(path, value) => AssignmentComplete(path, value, depth, k);
    case Named(name, tag, body) =>
      if depth <= MAX_DEPTH {
        var open := SpellBody(body, k);
        ChildrenComplete(body, depth, Tok(RBrace, k));
        assert ParseBlock(name, tag, open, depth)
            == if NeedStatements(body, depth + 1) <= MAX_DEPTH
               then Ok((BlockStmt(name, tag, StatementsAst(body)), k)) else Err(DepthExceeded);
      }
  }

  lemma {:induction false} ChildrenComplete(cs: seq<Cstmt>, depth: nat, k: Stream)
    requires FormedStatements(cs) && Ready(k) && Peek(k) == RBrace && depth <= MAX_DEPTH
    ensures Ready(SpellStatements(cs, k))
    ensures ParseChildren(SpellStatements(cs, k), depth)
         == if NeedStatements(cs, depth + 1) <= MAX_DEPTH then Ok((StatementsAst(cs), k)) else Err(DepthExceeded)
    decreases cs, 0
  {
    hide SpellStatement, ParseStatement, FormedStatement, NeedStatement, StatementAst;
    if cs != [] {
      ChildrenComplete(cs[1..], depth, k);
      StatementComplete(cs[0], depth + 1, SpellStatements(cs[1..], k));
    }
  }

  lemma {:induction false} DocumentComplete(cs: seq<Cstmt>, k: Stream)
    requires FormedStatements(cs) && Ready(k) && Peek(k) == Eof
    ensures Ready(SpellStatements(cs, k))
    ensures ParseDocument(SpellStatements(cs, k))
         == if NeedStatements(cs, 1) <= MAX_DEPTH then Ok((StatementsAst(cs), k)) else Err(DepthExceeded)
    decreases cs
  {
    hide SpellStatement, ParseStatement, FormedStatement, NeedStatement, StatementAst;
    if cs != [] {
      DocumentComplete(cs[1..], k);
      StatementComplete(cs[0], 1, SpellStatements(cs[1..], k));
    }
  }

  // ---- whatever is parsed is a statement tree spelled by the tokens consumed

  lemma {:induction false} PathSound(name: bytes, s: Stream)
    requires Ready(s) && ParsePath(s).Ok?
    ensures var (path, rest) := ParsePath(s).value;
            Tok(Ident(name), s) == SpellPath([name] + path, rest)
    decreases s
  {
    if Peek(s) == Dot {
      var next := s.rest;
      PathSound(Peek(next).name, next.rest);
      var path := ParsePath(s).value.0;
      assert ([name] + path)[1..] == path == [path[0]] + path[1..];
    }
  }

  /** A parsed expression is a grammar tree. */
  lemma ExprSound(s: Stream) returns (c: Cst)
    requires Ready(s) && ParseExpr(s, 1).Ok?
    ensures Formed(c) && s == Spell(c, ParseExpr(s, 1).value.1) && Ast(c) == ParseExpr(s, 1).value.0
  {
    hide ParseTernary, Formed, Spell;
    TernarySound(s, 1, MAX_DEPTH);
    c := ParseTernary(s, 1, MAX_DEPTH).tree;
  }

  /** `c` is what was read from `s`. */
  predicate Reads(c: Cstmt, s: Stream, r: Result<(Statement, Stream)>) {
    r.Ok? && c != Empty && FormedStatement(c) && s == SpellStatement(c, r.value.1) && StatementAst(c) == r.value.0
  }

  lemma AssignmentSound(name: bytes, s: Stream) returns (c: Cstmt)
    requires Ready(s) && ParsePath(s).Ok?
    requires ParseAssignment([name] + ParsePath(s).value.0, ParsePath(s).value.1).Ok?
    ensures Reads(c, Tok(Ident(name), s), ParseAssignment([name] + ParsePath(s).value.0, ParsePath(s).value.1))
  {
    hide ParsePath, ParseExpr, Formed, Spell, Ast;
    PathSound(name, s);
    var (path, s1) := ParsePath(s).value;
    var value := ExprSound(s1.rest);
    c := Assigned([name] + path, value);
  }

  lemma {:induction false} StatementSound(s: Stream, depth: nat) returns (c: Cstmt)
    requires Ready(s) && ParseStatement(s, depth).Ok?
    ensures Reads(c, s, ParseStatement(s, depth))
    decreases s, 1
  {
    hide ParsePath, ParseAssignment, ParseBlock;
    if Peek(s) == Include {
      c := Inclusion(Peek(s.rest).text);
    } else {
      var name, s1 := Peek(s).name, s.rest;
      if Peek(s1).StringLit? {
        c := BlockSound(name, Some(Peek(s1).text), s1.rest, depth);
      } else if Peek(s1) == LBrace {
        c := BlockSound(name, None, s1, depth);
      } else {
        c := AssignmentSound(name, s1);
      }
    }
  }

  lemma {:induction false} BlockSound(name: bytes, tag: Option<bytes>, s: Stream, depth: nat) returns (c: Cstmt)
    requires Ready(s) && ParseBlock(name, tag, s, depth).Ok?
    ensures Reads(c, Tok(Ident(name), SpellTag(tag, s)), ParseBlock(name, tag, s, depth))
    decreases s, 2
  {
    hide ParseChildren;
    var body := ChildrenSound(s.rest, depth);
    c := Named(name, tag, body);
    var end := ParseChildren(s.rest, depth).value.1;
    assert end == Tok(RBrace, end.rest) && s == SpellBody(body, end.rest);
  }

  lemma {:induction false} ChildrenSound(s: Stream, depth: nat) returns (cs: seq<Cstmt>)
    requires Ready(s) && ParseChildren(s, depth).Ok?
    ensures FormedStatements(cs) && s == SpellStatements(cs, ParseChildren(s, depth).value.1)
    ensures StatementsAst(cs) == ParseChildren(s, depth).value.0
    decreases s, 2
  {
    assert FormedStatement(Empty);
    hide ParseStatement, StatementAst, FormedStatement, FormedStatements, SpellStatements, StatementsAst;
    if Peek(s) == RBrace {
      cs := [];
      NoStatement(s);
    } else if Peek(s) == Semicolon {
      var rest := ChildrenSound(s.rest, depth);
      cs := Then(Empty, rest);
      assert ParseChildren(s, depth) == ParseChildren(s.rest, depth);
      assert s == SpellStatement(Empty, s.rest);
    } else {
      var c := StatementSound(s, depth + 1);
      var rest := ChildrenSound(ParseStatement(s, depth + 1).value.1, depth);
      cs := Then(c, rest);
    }
  }

  lemma {:induction false} DocumentSound(s: Stream) returns (cs: seq<Cstmt>)
    requires Ready(s) && ParseDocument(s).Ok?
    ensures FormedStatements(cs) && s == SpellStatements(cs, ParseDocument(s).value.1)
    ensures StatementsAst(cs) == ParseDocument(s).value.0
    ensures Ready(ParseDocument(s).value.1) && Peek(ParseDocument(s).value.1) == Eof
    decreases s
  {
    assert FormedStatement(Empty);
    hide ParseStatement, StatementAst, FormedStatement, FormedStatements, SpellStatements, StatementsAst;
    if Peek(s) == Eof {
      cs := [];
      NoStatement(s);
    } else if Peek(s) == Semicolon {
      var rest := DocumentSound(s.rest);
      cs := Then(Empty, rest);
      assert ParseDocument(s) == ParseDocument(s.rest);
      assert s == SpellStatement(Empty, s.rest);
    } else {
      var c := StatementSound(s, 1);
      var rest := DocumentSound(ParseStatement(s, 1).value.1);
      cs := Then(c, rest);
    }
  }

  lemma NoStatement(k: Stream)
    ensures FormedStatements([]) && SpellStatements([], k) == k && StatementsAst([]) == []
  {
  }

  /** A statement in front of others. */
  function Then(c: Cstmt, rest: seq<Cstmt>): (cs: seq<Cstmt>)
    ensures FormedStatements(cs) <==> FormedStatement(c) && FormedStatements(rest)
    ensures forall k :: SpellStatements(cs, k) == SpellStatement(c, SpellStatements(rest, k))
    ensures StatementsAst(cs) == if c == Empty then StatementsAst(rest) else [StatementAst(c)] + StatementsAst(rest)
  {
    assert ([c] + rest)[1..] == rest;
    [c] + rest
  }

  // ---- main result

  /** The tokens are those statements, and the depth budget covers them. */
  ghost predicate IsDocument(cs: seq<Cstmt>, s: Stream, statements: seq<Statement>, rest: Stream) {
    && FormedStatements(cs) && s == SpellStatements(cs, rest) && StatementsAst(cs) == statements
    && NeedStatements(cs, 1) <= MAX_DEPTH
  }

  /**
    * The statement parser answers a statement list exactly when the input spells it, empty
    * statements aside, up to the end of the input, and the depth budget covers it.
    */
  lemma DocumentExact(s: Stream, statements: seq<Statement>, rest: Stream)
    requires Ready(s)
    ensures ParseDocument(s) == Ok((statements, rest))
       <==> Ready(rest) && Peek(rest) == Eof && exists cs :: IsDocument(cs, s, statements, rest)
  {
    hide ParseDocument, FormedStatements, SpellStatements, StatementsAst, NeedStatements;
    if ParseDocument(s) == Ok((statements, rest)) {
      var cs := DocumentSound(s);
      DocumentComplete(cs, rest);
      assert IsDocument(cs, s, statements, rest);
    }
    if Ready(rest) && Peek(rest) == Eof && exists cs :: IsDocument(cs, s, statements, rest) {
      var cs :| IsDocument(cs, s, statements, rest);
      DocumentComplete(cs, rest);
    }
  }
}
