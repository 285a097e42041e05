/**
  * The statement level: parser.cpp's statements over the token stream, and document.cpp's
  * evaluation of a statement list in a chain of scopes.
  */
module CfgDocumentSpec {
  import opened Common
  import opened CfgGrammar
  import opened CfgModel
  import opened CfgParserSpec
  import opened CfgLexSpec
  import opened CfgEvaluator

  /** `take` where only what lies behind the token matters. */
  function Advance(s: Stream): (r: Result<Stream>)
    requires s.Tok?
    ensures r.Ok? ==> Ready(r.value) && s == Tok(Peek(s), r.value)
  {
    if Ready(s.rest) then Ok(s.rest) else Err(s.rest.fault.value)
  }

  /** `expect` where only what lies behind the token matters. */
  function Eat(s: Stream, t: Token): (r: Result<Stream>)
    requires t != Eof
    ensures r.Ok? ==> Ready(r.value) && s == Tok(t, r.value)
  {
    if Peek(s) == t then Advance(s) else Err(BadType)
  }

  type Statements = Result<(seq<Statement>, Stream)>

  function ParseDocument(s: Stream): (r: Statements)
    requires Ready(s)
    decreases s
  {
    if Peek(s) == Eof then Ok(([], s))
    else if Peek(s) == Semicolon then
      var s1 :- Advance(s);
      ParseDocument(s1)
    else
      var (st, s1) :- ParseStatement(s, 1);
      var (rest, s2) :- ParseDocument(s1);
      Ok(([st] + rest, s2))
  }

  function ParseStatement(s: Stream, depth: nat): (r: Result<(Statement, Stream)>)
    requires Ready(s)
    ensures r.Ok? ==> Ready(r.value.1) && r.value.1 < s
    decreases s, 1
  {
    if depth > MAX_DEPTH then Err(DepthExceeded)
    else if Peek(s) == Include then
      var s1 :- Advance(s);
      if !Peek(s1).StringLit? then Err(BadType) else
      var s2 :- Advance(s1);
      var s3 :- Eat(s2, Semicolon);
      Ok((IncludeStmt(Peek(s1).text), s3))
    else if !Peek(s).Ident? then Err(BadType)
    else
      var name := Peek(s).name;
      var s1 :- Advance(s);
      if Peek(s1).StringLit? then
        var s2 :- Advance(s1);
        ParseBlock(name, Some(Peek(s1).text), s2, depth)
      else if Peek(s1) == LBrace then ParseBlock(name, None, s1, depth)
      else
        var (path, s2) :- ParsePath(s1);
        ParseAssignment([name] + path, s2)
  }

  function ParseBlock(name: bytes, tag: Option<bytes>, s: Stream, depth: nat): (r: Result<(Statement, Stream)>)
    requires Ready(s)
    ensures r.Ok? ==> Ready(r.value.1) && r.value.1 < s
    decreases s, 2
  {
    var s1 :- Eat(s, LBrace);
    var (children, s2) :- ParseChildren(s1, depth);
    var s3 :- Eat(s2, RBrace);
    Ok((BlockStmt(name, tag, children), s3))
  }

  /** The statements of a block up to (not including) its closing brace. */
  function ParseChildren(s: Stream, depth: nat): (r: Statements)
    requires Ready(s)
    ensures r.Ok? ==> Ready(r.value.1) && (r.value.1 == s || r.value.1 < s)
    decreases s, 2
  {
    if Peek(s) == RBrace then Ok(([], s))
    else if Peek(s) == Eof then Err(BadType)
    else if Peek(s) == Semicolon then
      var s1 :- Advance(s);
      ParseChildren(s1, depth)
    else
      var (st, s1) :- ParseStatement(s, depth + 1);
      var (rest, s2) :- ParseChildren(s1, depth);
      Ok(([st] + rest, s2))
  }

  /** The components after the first of a dotted path. */
  function ParsePath(s: Stream): (r: Result<(seq<bytes>, Stream)>)
    requires Ready(s)
    ensures r.Ok? ==> Ready(r.value.1) && (r.value.1 == s || r.value.1 < s)
    decreases s
  {
    if Peek(s) != Dot then Ok(([], s)) else
    var s1 :- Advance(s);
    if !Peek(s1).Ident? then Err(BadType) else
    var s2 :- Advance(s1);
    var (path, s3) :- ParsePath(s2);
    Ok(([Peek(s1).name] + path, s3))
  }

  function ParseAssignment(path: seq<bytes>, s: Stream): (r: Result<(Statement, Stream)>)
    requires Ready(s)
    ensures r.Ok? ==> Ready(r.value.1) && r.value.1 < s
  {
    var s1 :- Eat(s, Assign);
    var (e, s2) :- ParseExpr(s1, 1);
    var s3 :- Eat(s2, Semicolon);
    Ok((AssignStmt(path, e), s3))
  }

  /** `parse_expr`: the abstract tree of what the descent reads. */
  function ParseExpr(s: Stream, depth: nat): (r: Result<(Expr, Stream)>)
    requires Ready(s)
    ensures r.Ok? ==> Ready(r.value.1) && r.value.1 < s
  {
    match ParseTernary(s, depth, MAX_DEPTH)
    case Fail(code) => Err(code)
    case Got(c, rest) =>
      TernarySound(s, depth, MAX_DEPTH);
      Ok((Ast(c), rest))
  }

  /** The whole input as a statement list; a malformed first token fails at once. */
  function ParseStatements(text: bytes): Result<seq<Statement>> {
    var s := Lex(text);
    if !Ready(s) then Err(s.fault.value) else
    var (statements, _) :- ParseDocument(s);
    Ok(statements)
  }

  function Define(env: Scopes, name: bytes, v: Value): Scopes
    requires env != []
  {
    [env[0][name := v]] + env[1..]
  }

  /** `build_nodes`: the nodes, and the scopes with the bindings the list made in the innermost. */
  function BuildNodes(statements: seq<Statement>, env: Scopes): (r: Result<(seq<Node>, Scopes)>)
    requires env != []
    ensures r.Ok? ==> r.value.1 != [] && r.value.1[1..] == env[1..]
    decreases statements
  {
    if statements == [] then Ok(([], env)) else
    var (node, env1) :- BuildNode(statements[0], env);
    var (rest, env2) :- BuildNodes(statements[1..], env1);
    Ok(([node] + rest, env2))
  }

  function BuildNode(st: Statement, env: Scopes): (r: Result<(Node, Scopes)>)
    requires env != []
    ensures r.Ok? ==> r.value.1 != [] && r.value.1[1..] == env[1..]
    decreases st
  {
    match st
    case AssignStmt(path, e) =>
      var v :- Evaluate(e, env, 1);
      Ok((Assignment(path, v), if path == [] then env else Define(env, path[|path| - 1], v)))
    case BlockStmt(name, tag, children) =>
      var (nodes, _) :- BuildNodes(children, [map[]] + env);
      Ok((Block(name, tag, nodes), env))
    case IncludeStmt(file) => Ok((IncludeNode(file), env))
  }

  /** `parse`: text to evaluated document. */
  function Parse(text: bytes): Result<Document> {
    var statements :- ParseStatements(text);
    var (nodes, _) :- BuildNodes(statements, [map[]]);
    Ok(nodes)
  }
}
