module CfgDocumentLaw {
  // Reading back what the serializer writes returns the document, its floats as their text is
  // read, for every layout, exactly as far as the nesting budget reaches.

  import opened Common
  import opened CfgGrammar
  import opened CfgModel
  import opened CfgLexSpec
  import opened CfgSerializer
  import opened CfgParserSpec
  import opened CfgEvaluator
  import opened CfgDocumentSpec
  import opened CfgStatements
  import opened CfgFloatText
  import opened CfgRoundTrip
  import Doubles

  /** The parsed statement a node's text denotes. */
  function StatementOf(node: Node, opts: SerializeOptions): Statement
    requires NodeWritable(node)
  {
    StatementAst(NodeCst(node, opts))
  }

  function StatementsOf(nodes: seq<Node>, opts: SerializeOptions): seq<Statement>
    requires NodesWritable(nodes)
  {
    StatementsAst(NodeCsts(nodes, opts))
  }

  lemma StatementsCons(nodes: seq<Node>, opts: SerializeOptions)
    requires NodesWritable(nodes) && nodes != []
    ensures StatementsOf(nodes, opts) == [StatementOf(nodes[0], opts)] + StatementsOf(nodes[1..], opts)
  {
    hide NodeWritable, NodeCst, StatementAst;
    var csts := NodeCsts(nodes, opts);
    NodeFormed(nodes[0], opts, 0);
    assert csts[1..] == NodeCsts(nodes[1..], opts);
  }

  /** The tokens of a node parse to its statement, or run out of depth. */
  lemma ParseNode(node: Node, opts: SerializeOptions, depth: nat, k: Stream)
    requires NodeWritable(node) && Ready(k)
    ensures NodeReadable(node) && NodeTokens(node, opts, k).Tok?
    ensures ParseStatement(NodeTokens(node, opts, k), depth)
         == if NodeNeed(node, depth) <= MAX_DEPTH then Ok((StatementOf(node, opts), k)) else Err(DepthExceeded)
  {
    hide NodeCst, NodeWritable, NodeReadable, NodeTokens, StatementAst, SpellStatement, ParseStatement, NeedStatement,
         FormedStatement, NodeNeed;
    NodeFormed(node, opts, depth);
    NodeSpells(node, opts, k);
    StatementComplete(NodeCst(node, opts), depth, k);
  }

  /** The same for a whole document. */
  lemma ParseTop(nodes: seq<Node>, opts: SerializeOptions)
    requires NodesWritable(nodes)
    ensures NodesReadable(nodes)
    ensures var s := NodesTokens(nodes, opts, End(None));
            && Ready(s)
            && ParseDocument(s)
            == if NodesNeed(nodes, 1) <= MAX_DEPTH then Ok((StatementsOf(nodes, opts), End(None)))
               else Err(DepthExceeded)
  {
    hide NodeCsts, NodesWritable, NodesReadable, NodesTokens, StatementsAst, SpellStatements, ParseDocument,
         NeedStatements, FormedStatements, NodesNeed;
    NodesFormed(nodes, opts, 1);
    NodesSpell(nodes, opts, End(None));
    DocumentComplete(NodeCsts(nodes, opts), End(None));
  }

  // ---- evaluating it gives the document back, in any scope

  lemma {:induction false} EvaluateValue(v: Value, opts: SerializeOptions, env: Scopes, e: nat, d: nat)
    requires Writable(v) && Finite(v) && e <= d && ValueNeed(v, d) <= MAX_DEPTH
    ensures Formed(ValueCst(v, opts))
    ensures Evaluate(Ast(ValueCst(v, opts)), env, e) == Ok(Reread(v))
    decreases v, 1
  {
    hide Printed, RereadAll, RereadMembers, AstElems, AstItems, EvaluateAll, EvaluateFields, ItemCsts, MemberCsts,
         FormedElems, FormedItems;
    ValueFormed(v, opts, d);
    match v
    case VArray(items) => EvaluateItems(items, opts, env, e, d);
    case VObject(members) => EvaluateMembers(members, opts, env, e, d);
    case VInt(i) =>
      if i < 0 {
        assert Evaluate(EInt(0 - i), env, e + 1) == Ok(VInt(0 - i));
      }
    case VFloat(f) =>
      if Doubles.IsNegative(f) {
        assert Evaluate(EFloat(Printed(f)), env, e + 1) == Ok(VFloat(Printed(f)));
      }
    case _ =>
  }

  lemma {:induction false} EvaluateItems(items: seq<Value>, opts: SerializeOptions, env: Scopes, e: nat, d: nat)
    requires AllWritable(items) && AllFinite(items) && e <= d && ItemsNeed(items, d) <= MAX_DEPTH
    ensures FormedElems(ItemCsts(items, opts))
    ensures EvaluateAll(AstElems(ItemCsts(items, opts)), env, e + 1) == Ok(RereadAll(items))
    decreases items, 0
  {
    hide Evaluate, Ast, ValueCst, Formed, ValueNeed;
    ItemsFormed(items, opts, d);
    if items != [] {
      var csts := ItemCsts(items, opts);
      assert csts[1..] == ItemCsts(items[1..], opts);
      EvaluateValue(items[0], opts, env, e + 1, d + 2);
      EvaluateItems(items[1..], opts, env, e, d);
      assert AstElems(csts)[1..] == AstElems(csts[1..]);
    }
  }

  lemma {:induction false} EvaluateMembers(members: seq<Member>, opts: SerializeOptions, env: Scopes, e: nat, d: nat)
    requires MembersWritable(members) && MembersFinite(members) && e <= d && MembersNeed(members, d) <= MAX_DEPTH
    ensures FormedItems(MemberCsts(members, opts))
    ensures EvaluateFields(AstItems(MemberCsts(members, opts)), env, e + 1) == Ok(RereadMembers(members))
    decreases members, 0
  {
    hide Evaluate, Ast, ValueCst, Formed, ValueNeed;
    MembersFormed(members, opts, d);
    if members != [] {
      var csts := MemberCsts(members, opts);
      assert csts[1..] == MemberCsts(members[1..], opts);
      EvaluateValue(members[0].val, opts, env, e + 1, d + 2);
      EvaluateMembers(members[1..], opts, env, e, d);
      assert AstItems(csts)[1..] == AstItems(csts[1..]);
    }
  }

  lemma {:induction false} BuildBack(nodes: seq<Node>, opts: SerializeOptions, env: Scopes, depth: nat)
    requires NodesWritable(nodes) && NodesFinite(nodes) && env != []
    requires depth > 0 && NodesNeed(nodes, depth) <= MAX_DEPTH
    ensures var r := BuildNodes(StatementsOf(nodes, opts), env);
            r.Ok? && r.value.0 == RereadNodes(nodes)
    decreases nodes, 0
  {
    if nodes != [] {
      var statements := StatementsOf(nodes, opts);
      StatementsCons(nodes, opts);
      assert statements[0] == StatementOf(nodes[0], opts) && statements[1..] == StatementsOf(nodes[1..], opts);
      BuildNodeBack(nodes[0], opts, env, depth);
      BuildBack(nodes[1..], opts, BuildNode(statements[0], env).value.1, depth);
    }
  }

  lemma {:induction false} BuildNodeBack(node: Node, opts: SerializeOptions, env: Scopes, depth: nat)
    requires NodeWritable(node) && NodeFinite(node) && env != []
    requires depth > 0 && NodeNeed(node, depth) <= MAX_DEPTH
    ensures var r := BuildNode(StatementOf(node, opts), env);
            r.Ok? && r.value.0 == RereadNode(node)
    decreases node, 1
  {
    match node
    case Assignment(path, value) => EvaluateValue(value, opts, env, 1, 1);
    case Block(name, tag, children) => BuildBack(children, opts, [map[]] + env, depth + 1);
    case IncludeNode(_) =>
  }

  // ---- the law

  /**
    * For every layout, the canonical text of a document of finite writable values under writable
    * names reads back as that document, its floats as printed, when its nesting fits the budget,
    * and is refused for depth, and for nothing else, when it does not.
    */
  lemma DocumentRoundTrip(doc: Document, opts: SerializeOptions)
    requires NodesWritable(doc) && NodesFinite(doc)
    ensures Parse(DocumentText(doc, opts))
         == if NodesNeed(doc, 1) <= MAX_DEPTH then Ok(RereadNodes(doc)) else Err(DepthExceeded)
  {
    hide DocumentText, ParseStatements, NodesWritable, NodesFinite, BuildNodes;
    TextParsed(doc, opts);
    if NodesNeed(doc, 1) <= MAX_DEPTH {
      BuildBack(doc, opts, [map[]], 1);
    }
  }

  /** The text of a document parses to its statements, infinities and NaN as names. */
  lemma TextParsed(doc: Document, opts: SerializeOptions)
    requires NodesWritable(doc)
    ensures ParseStatements(DocumentText(doc, opts))
         == if NodesNeed(doc, 1) <= MAX_DEPTH then Ok(StatementsOf(doc, opts)) else Err(DepthExceeded)
  {
    var text := DocumentText(doc, opts);
    assert text + [] == text;
    ParseTop(doc, opts);
    LexNodes(Lex, doc, opts, 0, []);
    assert Lex([]) == End(None);
  }

  // ---- no text of a document evaluates to an infinity or NaN

  ghost predicate ScopesFinite(env: Scopes) {
    env == [] || ((forall name | name in env[0] :: Finite(env[0][name])) && ScopesFinite(env[1..]))
  }

  lemma {:induction false} LookupFinite(env: Scopes, name: bytes)
    requires ScopesFinite(env)
    ensures Lookup(env, name).Some? ==> Finite(Lookup(env, name).value)
  {
    if env != [] {
      LookupFinite(env[1..], name);
    }
  }

  lemma LeafFinite(t: Token, env: Scopes, e: nat)
    requires ScopesFinite(env) && (t.FloatLit? ==> t.f.Finite?)
    ensures var r := Evaluate(LeafExpr(t), env, e);
            r.Ok? ==> Finite(r.value) && (r.value.VFloat? ==> Doubles.Negate(r.value.f).Finite?)
  {
    hide ScopesFinite;
    if t.Ident? {
      LookupFinite(env, t.name);
    }
  }

  /** The text of a value, infinities and NaN included, evaluates to finite floats or not at all. */
  lemma {:induction false} EvaluatedFinite(v: Value, opts: SerializeOptions, env: Scopes, e: nat)
    requires Writable(v) && ScopesFinite(env)
    ensures var r := Evaluate(Ast(ValueCst(v, opts)), env, e); r.Ok? ==> Finite(r.value)
    decreases v, 1
  {
    hide Printed, AstElems, AstItems, EvaluateAll, EvaluateFields, ItemCsts, MemberCsts, ScopesFinite, Lookup;
    match v
    case VArray(items) => EvaluatedAllFinite(items, opts, env, e + 1);
    case VObject(members) => EvaluatedMembersFinite(members, opts, env, e + 1);
    case VFloat(f) =>
      LeafFinite(SizeToken(f), env, e);
      LeafFinite(SizeToken(f), env, e + 1);
    case _ =>
  }

  lemma {:induction false} EvaluatedAllFinite(items: seq<Value>, opts: SerializeOptions, env: Scopes, e: nat)
    requires AllWritable(items) && ScopesFinite(env)
    ensures var r := EvaluateAll(AstElems(ItemCsts(items, opts)), env, e); r.Ok? ==> AllFinite(r.value)
    decreases items, 0
  {
    hide Evaluate, Ast, ValueCst, Writable, Finite, ScopesFinite;
    if items != [] {
      var csts := ItemCsts(items, opts);
      assert csts[1..] == ItemCsts(items[1..], opts);
      EvaluatedFinite(items[0], opts, env, e);
      EvaluatedAllFinite(items[1..], opts, env, e);
      assert AstElems(csts)[1..] == AstElems(csts[1..]);
      var r, rest := EvaluateAll(AstElems(csts), env, e), EvaluateAll(AstElems(csts[1..]), env, e);
      assert r.Ok? ==> r.value[1..] == rest.value;
    }
  }

  lemma {:induction false} EvaluatedMembersFinite(members: seq<Member>, opts: SerializeOptions, env: Scopes, e: nat)
    requires MembersWritable(members) && ScopesFinite(env)
    ensures var r := EvaluateFields(AstItems(MemberCsts(members, opts)), env, e); r.Ok? ==> MembersFinite(r.value)
    decreases members, 0
  {
    hide Evaluate, Ast, ValueCst, Writable, Finite, ScopesFinite;
    if members != [] {
      var csts := MemberCsts(members, opts);
      assert csts[1..] == MemberCsts(members[1..], opts);
      EvaluatedFinite(members[0].val, opts, env, e);
      EvaluatedMembersFinite(members[1..], opts, env, e);
      assert AstItems(csts)[1..] == AstItems(csts[1..]);
      var r, rest := EvaluateFields(AstItems(csts), env, e), EvaluateFields(AstItems(csts[1..]), env, e);
      assert r.Ok? ==> r.value[1..] == rest.value;
    }
  }

  lemma {:induction false} BuiltFinite(nodes: seq<Node>, opts: SerializeOptions, env: Scopes)
    requires NodesWritable(nodes) && env != [] && ScopesFinite(env)
    ensures var r := BuildNodes(StatementsOf(nodes, opts), env);
            r.Ok? ==> NodesFinite(r.value.0) && ScopesFinite(r.value.1)
    decreases nodes, 0
  {
    hide BuildNode, StatementOf, NodeWritable, NodeFinite, ScopesFinite;
    if nodes != [] {
      var statements := StatementsOf(nodes, opts);
      StatementsCons(nodes, opts);
      assert statements[0] == StatementOf(nodes[0], opts) && statements[1..] == StatementsOf(nodes[1..], opts);
      BuiltNodeFinite(nodes[0], opts, env);
      var first := BuildNode(statements[0], env);
      if first.Ok? {
        BuiltFinite(nodes[1..], opts, first.value.1);
        var r := BuildNodes(statements, env);
        assert r.Ok? ==> r.value.0[1..] == BuildNodes(statements[1..], first.value.1).value.0;
      }
    }
  }

  lemma {:induction false} BuiltNodeFinite(node: Node, opts: SerializeOptions, env: Scopes)
    requires NodeWritable(node) && env != [] && ScopesFinite(env)
    ensures var r := BuildNode(StatementOf(node, opts), env);
            r.Ok? ==> NodeFinite(r.value.0) && ScopesFinite(r.value.1)
    decreases node, 1
  {
    match node
    case Assignment(path, value) => EvaluatedFinite(value, opts, env, 1);
    case Block(name, tag, children) => BuiltFinite(children, opts, [map[]] + env);
    case IncludeNode(_) =>
  }

  /** Whatever the text of a document reads back as, its floats are finite. */
  lemma TextIsFinite(doc: Document, opts: SerializeOptions)
    requires NodesWritable(doc) && Parse(DocumentText(doc, opts)).Ok?
    ensures NodesFinite(Parse(DocumentText(doc, opts)).value)
  {
    hide DocumentText, ParseStatements, NodesWritable, NodesFinite, BuildNodes;
    TextParsed(doc, opts);
    BuiltFinite(doc, opts, [map[]]);
  }
}
