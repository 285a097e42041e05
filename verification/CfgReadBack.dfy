module CfgReadBack {
  // A document reads back if and only if everything in it has a source form of its own and its
  // nesting fits the budget: names are identifiers, INT64_MIN is nowhere and every float is the
  // double nearest to some number of six decimals. The text of INT64_MIN ends the token stream
  // with an error, and no document is parsed from a stream that ends so; infinities and NaN are
  // written as names, and no name in such text stands for one.

  import opened Common
  import opened CfgGrammar
  import opened CfgModel
  import opened CfgLexSpec
  import opened CfgSerializer
  import opened CfgParserSpec
  import opened CfgDocumentSpec
  import opened CfgStatements
  import opened CfgFloatLaw
  import opened CfgFloatText
  import opened CfgLexRoundTrip
  import opened CfgRoundTrip
  import opened CfgDocumentLaw
  import opened CfgParsed
  import Doubles

  lemma Behind(a: Token, b: Token, c: Token, k: Stream)
    requires a != Eof && b != Eof && c != Eof
    ensures Ending(Tok(a, Tok(b, Tok(c, k)))) == Ending(Tok(a, Tok(c, k))) == Ending(Tok(c, k)) == Ending(k)
  {
    assert Ending(Tok(b, Tok(c, k))) == Ending(Tok(c, k));
  }

  // ---- the tokens of a tree leave the ending alone

  lemma {:induction false} SpellEnding(c: Cst, k: Stream)
    requires Formed(c)
    ensures Ending(Spell(c, k)) == Ending(k)
    decreases c, 1
  {
    match c
    case Leaf(_) =>
    case Paren(x) => SpellEnding(x, Tok(RParen, k));
    case Arr(es, trailing) => ElemsEnding(es, if trailing then Tok(Comma, Tok(RBracket, k)) else Tok(RBracket, k));
    case Obj(items) => ItemsEnding(items, Tok(RBrace, k));
    case Un(_, x) => SpellEnding(x, k);
    case Bin(op, l, r) =>
      SpellEnding(r, k);
      SpellEnding(l, Tok(op, Spell(r, k)));
    case Tern(x, a, b) =>
      SpellEnding(b, k);
      SpellEnding(a, Tok(Colon, Spell(b, k)));
      SpellEnding(x, Tok(Question, Spell(a, Tok(Colon, Spell(b, k)))));
  }

  lemma {:induction false} ElemsEnding(es: seq<Cst>, k: Stream)
    requires FormedElems(es)
    ensures Ending(SpellElems(es, k)) == Ending(k)
    decreases es, 0
  {
    hide Spell, Formed;
    if |es| == 1 {
      SpellEnding(es[0], k);
    } else if |es| > 1 {
      ElemsEnding(es[1..], k);
      SpellEnding(es[0], Tok(Comma, SpellElems(es[1..], k)));
    }
  }

  lemma {:induction false} ItemsEnding(items: seq<Item>, k: Stream)
    requires FormedItems(items)
    ensures Ending(SpellItems(items, k)) == Ending(k)
    decreases items, 0
  {
    hide Spell, Formed;
    if items != [] {
      ItemsEnding(items[1..], k);
      if items[0].Field? {
        SpellEnding(items[0].val, Tok(Semicolon, SpellItems(items[1..], k)));
      }
    }
  }

  lemma {:induction false} PathEnding(path: seq<bytes>, k: Stream)
    ensures Ending(SpellPath(path, k)) == Ending(k)
  {
    if |path| > 1 {
      PathEnding(path[1..], k);
    }
  }

  lemma {:induction false} StatementEnding(c: Cstmt, k: Stream)
    requires FormedStatement(c)
    ensures Ending(SpellStatement(c, k)) == Ending(k)
    decreases c, 1
  {
    hide Spell, Formed, SpellPath;
    match c
    case Assigned(path, value) =>
      PathEnding(path, Tok(Assign, Spell(value, Tok(Semicolon, k))));
      SpellEnding(value, Tok(Semicolon, k));
    case Named(name, tag, body) =>
      var inner := SpellStatements(body, Tok(RBrace, k));
      StatementsEnding(body, Tok(RBrace, k));
      Behind(Ident(name), if tag.Some? then StringLit(tag.value) else Semicolon, LBrace, inner);
    case Inclusion(file) => Behind(Include, StringLit(file), Semicolon, k);
    case Empty =>
  }

  lemma {:induction false} StatementsEnding(cs: seq<Cstmt>, k: Stream)
    requires FormedStatements(cs)
    ensures Ending(SpellStatements(cs, k)) == Ending(k)
    decreases cs, 0
  {
    hide SpellStatement, FormedStatement;
    if cs != [] {
      StatementsEnding(cs[1..], k);
      StatementEnding(cs[0], SpellStatements(cs[1..], k));
    }
  }

  /** A document is parsed to the end of its stream, and no error stands there. */
  lemma ParsedToTheEnd(s: Stream)
    requires Ready(s) && ParseDocument(s).Ok?
    ensures ParseDocument(s).value.1 == Ending(s) && Ready(Ending(s))
  {
    hide ParseDocument, SpellStatements, FormedStatements;
    var cs := DocumentSound(s);
    StatementsEnding(cs, ParseDocument(s).value.1);
  }

  // ---- the tokens of canonical text end with an error exactly where INT64_MIN is

  lemma {:induction false} ValueEnding(v: Value, opts: SerializeOptions, k: Stream)
    requires Readable(v)
    ensures Ending(ValueTokens(v, opts, k)) == if HasSmallest(v) then End(Some(BadLength)) else Ending(k)
    decreases v, 1
  {
    match v
    case VArray(items) => ItemTokensEnding(items, opts, ListEnd(items, opts, k));
    case VObject(members) => MemberTokensEnding(members, opts, Tok(RBrace, k));
    case _ =>
  }

  lemma {:induction false} ItemTokensEnding(items: seq<Value>, opts: SerializeOptions, k: Stream)
    requires AllReadable(items)
    ensures Ending(ItemTokens(items, opts, k)) == if AnySmallest(items) then End(Some(BadLength)) else Ending(k)
    decreases items, 0
  {
    hide Readable, HasSmallest, ValueTokens;
    if |items| == 1 {
      ValueEnding(items[0], opts, k);
      assert items[1..] == [];
    } else if |items| > 1 {
      ItemTokensEnding(items[1..], opts, k);
      ValueEnding(items[0], opts, Tok(Comma, ItemTokens(items[1..], opts, k)));
    }
  }

  lemma {:induction false} MemberTokensEnding(members: seq<Member>, opts: SerializeOptions, k: Stream)
    requires MembersReadable(members)
    ensures Ending(MemberTokens(members, opts, k))
         == if MembersSmallest(members) then End(Some(BadLength)) else Ending(k)
    decreases members, 0
  {
    hide Readable, HasSmallest, ValueTokens;
    if members != [] {
      MemberTokensEnding(members[1..], opts, k);
      ValueEnding(members[0].val, opts, Tok(Semicolon, MemberTokens(members[1..], opts, k)));
    }
  }

  /** Whether INT64_MIN is assigned anywhere in a document. */
  predicate SmallestIn(node: Node)
    decreases node, 1
  {
    match node
    case Assignment(_, value) => HasSmallest(value)
    case Block(_, _, children) => SmallestAmong(children)
    case IncludeNode(_) => false
  }

  predicate SmallestAmong(nodes: seq<Node>)
    decreases nodes, 0
  {
    nodes != [] && (SmallestIn(nodes[0]) || SmallestAmong(nodes[1..]))
  }

  lemma {:induction false} NodeEnding(node: Node, opts: SerializeOptions, k: Stream)
    requires NodeReadable(node)
    ensures Ending(NodeTokens(node, opts, k)) == if SmallestIn(node) then End(Some(BadLength)) else Ending(k)
    decreases node, 1
  {
    hide Readable, HasSmallest, ValueTokens, SpellPath;
    match node
    case Assignment(path, value) =>
      PathEnding(path, Tok(Assign, ValueTokens(value, opts, Tok(Semicolon, k))));
      ValueEnding(value, opts, Tok(Semicolon, k));
    case Block(name, tag, children) =>
      var inner := NodesTokens(children, opts, Tok(RBrace, k));
      NodesEnding(children, opts, Tok(RBrace, k));
      Behind(Ident(name), if tag.Some? then StringLit(tag.value) else Semicolon, LBrace, inner);
    case IncludeNode(file) => Behind(Include, StringLit(file), Semicolon, k);
  }

  lemma {:induction false} NodesEnding(nodes: seq<Node>, opts: SerializeOptions, k: Stream)
    requires NodesReadable(nodes)
    ensures Ending(NodesTokens(nodes, opts, k)) == if SmallestAmong(nodes) then End(Some(BadLength)) else Ending(k)
    decreases nodes, 0
  {
    hide NodeReadable, SmallestIn, NodeTokens;
    if nodes != [] {
      NodesEnding(nodes[1..], opts, k);
      NodeEnding(nodes[0], opts, NodesTokens(nodes[1..], opts, k));
    }
  }

  // ---- what has a source form

  lemma {:induction false} WritableExactly(v: Value)
    ensures Writable(v) <==> Readable(v) && !HasSmallest(v)
    decreases v, 1
  {
    match v
    case VArray(items) => ItemsWritableExactly(items);
    case VObject(members) => MembersWritableExactly(members);
    case _ =>
  }

  lemma {:induction false} ItemsWritableExactly(items: seq<Value>)
    ensures AllWritable(items) <==> AllReadable(items) && !AnySmallest(items)
    decreases items, 0
  {
    if items != [] {
      WritableExactly(items[0]);
      ItemsWritableExactly(items[1..]);
    }
  }

  lemma {:induction false} MembersWritableExactly(members: seq<Member>)
    ensures MembersWritable(members) <==> MembersReadable(members) && !MembersSmallest(members)
    decreases members, 0
  {
    if members != [] {
      WritableExactly(members[0].val);
      MembersWritableExactly(members[1..]);
    }
  }

  lemma {:induction false} NodeWritableExactly(node: Node)
    ensures NodeWritable(node) <==> NodeReadable(node) && !SmallestIn(node)
    decreases node, 1
  {
    match node
    case Assignment(_, value) => WritableExactly(value);
    case Block(_, _, children) => NodesWritableExactly(children);
    case IncludeNode(_) =>
  }

  lemma {:induction false} NodesWritableExactly(nodes: seq<Node>)
    ensures NodesWritable(nodes) <==> NodesReadable(nodes) && !SmallestAmong(nodes)
    decreases nodes, 0
  {
    if nodes != [] {
      NodeWritableExactly(nodes[0]);
      NodesWritableExactly(nodes[1..]);
    }
  }

  /** A document with INT64_MIN anywhere in it never reads back, in any layout. */
  lemma SmallestRefused(doc: Document, opts: SerializeOptions)
    requires NodesReadable(doc) && SmallestAmong(doc)
    ensures Parse(DocumentText(doc, opts)).Err?
  {
    hide ParseDocument, NodesReadable, NodesTokens, SmallestAmong, BuildNodes, Lex, NodesText;
    var text := DocumentText(doc, opts);
    assert text + [] == text;
    LexNodes(Lex, doc, opts, 0, []);
    NodesEnding(doc, opts, Lex([]));
    var s := Lex(text);
    if Ready(s) && ParseDocument(s).Ok? {
      ParsedToTheEnd(s);
      assert false;
    }
  }

  // ---- floats that survive

  /** Every float in a value is read back as it was. */
  predicate FloatsSurvive(v: Value)
    decreases v, 1
  {
    match v
    case VFloat(f) => f.Finite? ==> Survives(f)
    case VArray(items) => AllSurvive(items)
    case VObject(members) => MembersSurvive(members)
    case _ => true
  }

  predicate AllSurvive(items: seq<Value>)
    decreases items, 0
  {
    items == [] || (FloatsSurvive(items[0]) && AllSurvive(items[1..]))
  }

  predicate MembersSurvive(members: seq<Member>)
    decreases members, 0
  {
    members == [] || (FloatsSurvive(members[0].val) && MembersSurvive(members[1..]))
  }

  predicate NodeSurvives(node: Node)
    decreases node, 1
  {
    match node
    case Assignment(_, value) => FloatsSurvive(value)
    case Block(_, _, children) => NodesSurvive(children)
    case IncludeNode(_) => true
  }

  predicate NodesSurvive(nodes: seq<Node>)
    decreases nodes, 0
  {
    nodes == [] || (NodeSurvives(nodes[0]) && NodesSurvive(nodes[1..]))
  }

  lemma {:induction false} RereadExactly(v: Value)
    requires Readable(v) && Finite(v)
    ensures Reread(v) == v <==> FloatsSurvive(v)
    decreases v, 1
  {
    hide Printed, RereadFloat;
    match v
    case VArray(items) => RereadAllExactly(items);
    case VObject(members) => RereadMembersExactly(members);
    case _ =>
  }

  lemma {:induction false} RereadAllExactly(items: seq<Value>)
    requires AllReadable(items) && AllFinite(items)
    ensures RereadAll(items) == items <==> AllSurvive(items)
    decreases items, 0
  {
    hide Readable, Reread, FloatsSurvive, Finite;
    if items != [] {
      RereadExactly(items[0]);
      RereadAllExactly(items[1..]);
      SameCons(Reread(items[0]), RereadAll(items[1..]), items);
    }
  }

  lemma SameCons<T>(x: T, xs: seq<T>, ys: seq<T>)
    requires ys != []
    ensures [x] + xs == ys <==> x == ys[0] && xs == ys[1..]
  {
    assert ys == [ys[0]] + ys[1..];
    assert ([x] + xs)[0] == x && ([x] + xs)[1..] == xs;
  }

  lemma {:induction false} RereadMembersExactly(members: seq<Member>)
    requires MembersReadable(members) && MembersFinite(members)
    ensures RereadMembers(members) == members <==> MembersSurvive(members)
    decreases members, 0
  {
    hide Readable, Reread, FloatsSurvive, Finite;
    if members != [] {
      var m := members[0];
      RereadExactly(m.val);
      RereadMembersExactly(members[1..]);
      SameCons(Member(m.key, Reread(m.val)), RereadMembers(members[1..]), members);
      assert Member(m.key, m.val) == m;
    }
  }

  lemma {:induction false} RereadNodeExactly(node: Node)
    requires NodeReadable(node) && NodeFinite(node)
    ensures RereadNode(node) == node <==> NodeSurvives(node)
    decreases node, 1
  {
    hide Readable, Reread, FloatsSurvive, Finite;
    match node
    case Assignment(_, value) => RereadExactly(value);
    case Block(_, _, children) => RereadNodesExactly(children);
    case IncludeNode(_) =>
  }

  lemma {:induction false} RereadNodesExactly(nodes: seq<Node>)
    requires NodesReadable(nodes) && NodesFinite(nodes)
    ensures RereadNodes(nodes) == nodes <==> NodesSurvive(nodes)
    decreases nodes, 0
  {
    hide NodeReadable, RereadNode, NodeSurvives, NodeFinite;
    if nodes != [] {
      RereadNodeExactly(nodes[0]);
      RereadNodesExactly(nodes[1..]);
      SameCons(RereadNode(nodes[0]), RereadNodes(nodes[1..]), nodes);
    }
  }

  // ---- documents the scanner can meet

  /**
    * A document whose text scans reads back from every layout exactly when INT64_MIN is nowhere
    * in it, its nesting fits the budget and each of its floats is finite and survives its six
    * decimals. Without infinities and NaN, text that parses at all parses to the document with
    * its floats as printed; where only the nesting is too deep the complaint is that.
    */
  lemma ReadableExactly(doc: Document, opts: SerializeOptions)
    requires NodesReadable(doc)
    ensures Parse(DocumentText(doc, opts)) == Ok(doc)
       <==> !SmallestAmong(doc) && NodesNeed(doc, 1) <= MAX_DEPTH && NodesFinite(doc) && NodesSurvive(doc)
    ensures NodesFinite(doc) && Parse(DocumentText(doc, opts)).Ok? ==>
              Parse(DocumentText(doc, opts)) == Ok(RereadNodes(doc))
    ensures NodesFinite(doc) ==>
              (Parse(DocumentText(doc, opts)).Ok? <==> !SmallestAmong(doc) && NodesNeed(doc, 1) <= MAX_DEPTH)
    ensures !SmallestAmong(doc) && NodesNeed(doc, 1) > MAX_DEPTH ==>
              Parse(DocumentText(doc, opts)) == Err(DepthExceeded)
  {
    hide Parse, DocumentText, NodesReadable, NodesWritable, SmallestAmong, NodesNeed, NodesFinite, NodesSurvive,
         RereadNodes;
    NodesWritableExactly(doc);
    if SmallestAmong(doc) {
      SmallestRefused(doc, opts);
    } else if NodesFinite(doc) {
      RereadNodesExactly(doc);
      DocumentRoundTrip(doc, opts);
    } else {
      NonFiniteLost(doc, opts);
    }
  }

  /** With an infinity or NaN in it a document never reads back. */
  lemma NonFiniteLost(doc: Document, opts: SerializeOptions)
    requires NodesWritable(doc) && !NodesFinite(doc)
    ensures Parse(DocumentText(doc, opts)) != Ok(doc)
    ensures NodesNeed(doc, 1) > MAX_DEPTH ==> Parse(DocumentText(doc, opts)) == Err(DepthExceeded)
  {
    hide DocumentText, ParseStatements, NodesWritable, NodesFinite, NodesNeed, BuildNodes;
    TextParsed(doc, opts);
    if Parse(DocumentText(doc, opts)).Ok? {
      TextIsFinite(doc, opts);
    }
  }

  // ---- values with a source form

  /** No INT64_MIN, identifiers for keys, and floats nearest to numbers of six decimals. */
  ghost predicate Expressible(v: Value)
    decreases v, 1
  {
    match v
    case VInt(i) => i != -TWO63
    case VFloat(f) => NearestToDecimals(f)
    case VArray(items) => AllExpressible(items)
    case VObject(members) => MembersExpressible(members)
    case _ => true
  }

  ghost predicate AllExpressible(items: seq<Value>)
    decreases items, 0
  {
    items == [] || (Expressible(items[0]) && AllExpressible(items[1..]))
  }

  ghost predicate MembersExpressible(members: seq<Member>)
    decreases members, 0
  {
    members == [] || (IsName(members[0].key) && Expressible(members[0].val) && MembersExpressible(members[1..]))
  }

  ghost predicate NodeExpressible(node: Node)
    decreases node, 1
  {
    match node
    case Assignment(path, value) => path != [] && AllNames(path) && Expressible(value)
    case Block(name, _, children) => IsName(name) && NodesExpressible(children)
    case IncludeNode(_) => true
  }

  ghost predicate NodesExpressible(nodes: seq<Node>)
    decreases nodes, 0
  {
    nodes == [] || (NodeExpressible(nodes[0]) && NodesExpressible(nodes[1..]))
  }

  lemma FloatExpressible(f: Doubles.Double)
    ensures NearestToDecimals(f) ==> Doubles.IsRounded(f)
    ensures Doubles.IsRounded(f) ==> (f.Finite? ==> Scans(f)) && (NearestToDecimals(f) <==> f.Finite? && Survives(f))
  {
    hide Doubles.Round, Doubles.IsRounded, Scans, Survives;
    if NearestToDecimals(f) {
      var m: nat :| NearestTo(f, m);
      NearestIsRounded(f, m);
    }
    if f.Finite? && Doubles.IsRounded(f) {
      FiniteScans(f);
      SurvivesExactly(f);
    }
  }

  lemma NearestIsRounded(f: Doubles.Double, m: nat)
    requires NearestTo(f, m)
    ensures Doubles.IsRounded(f)
  {
    hide Doubles.Round, Doubles.IsRounded;
    Doubles.RoundIsRounded(m as real / 1000000.0);
    if f.r < 0.0 {
      Doubles.NegatedIsRounded(Doubles.Finite(0.0 - f.r));
    }
  }

  /** Values with a source form are proper, and proper ones have one unless a float or integer in them is lost. */
  lemma {:induction false} ExpressibleExactly(v: Value)
    ensures Expressible(v) ==> Rounded(v, IsName)
    ensures Rounded(v, IsName) ==>
              Readable(v) && (Expressible(v) <==> !HasSmallest(v) && Finite(v) && FloatsSurvive(v))
    decreases v, 1
  {
    hide NearestToDecimals, Doubles.IsRounded, Scans, Survives, IsName;
    match v
    case VFloat(f) => FloatExpressible(f);
    case VArray(items) => AllExpressibleExactly(items);
    case VObject(members) => MembersExpressibleExactly(members);
    case _ =>
  }

  lemma {:induction false} AllExpressibleExactly(items: seq<Value>)
    ensures AllExpressible(items) ==> AllRounded(items, IsName)
    ensures AllRounded(items, IsName) ==>
              && AllReadable(items)
              && (AllExpressible(items) <==> !AnySmallest(items) && AllFinite(items) && AllSurvive(items))
    decreases items, 0
  {
    hide Expressible, Rounded, Readable, HasSmallest, Finite, FloatsSurvive;
    if items != [] {
      ExpressibleExactly(items[0]);
      AllExpressibleExactly(items[1..]);
    }
  }

  lemma {:induction false} MembersExpressibleExactly(members: seq<Member>)
    ensures MembersExpressible(members) ==> MembersRounded(members, IsName)
    ensures MembersRounded(members, IsName) ==>
              && MembersReadable(members)
              && (MembersExpressible(members)
                  <==> !MembersSmallest(members) && MembersFinite(members) && MembersSurvive(members))
    decreases members, 0
  {
    hide Expressible, Rounded, Readable, HasSmallest, Finite, FloatsSurvive, IsName;
    if members != [] {
      ExpressibleExactly(members[0].val);
      MembersExpressibleExactly(members[1..]);
    }
  }

  lemma {:induction false} NodeExpressibleExactly(node: Node)
    ensures NodeExpressible(node) ==> ProperNode(node)
    ensures ProperNode(node) ==>
              && NodeReadable(node)
              && (NodeExpressible(node) <==> !SmallestIn(node) && NodeFinite(node) && NodeSurvives(node))
    decreases node, 1
  {
    hide Expressible, Rounded, Readable, HasSmallest, Finite, FloatsSurvive, IsName, AllNames;
    match node
    case Assignment(_, value) => ExpressibleExactly(value);
    case Block(_, _, children) => NodesExpressibleExactly(children);
    case IncludeNode(_) =>
  }

  lemma {:induction false} NodesExpressibleExactly(nodes: seq<Node>)
    ensures NodesExpressible(nodes) ==> ProperNodes(nodes)
    ensures ProperNodes(nodes) ==>
              && NodesReadable(nodes)
              && (NodesExpressible(nodes) <==> !SmallestAmong(nodes) && NodesFinite(nodes) && NodesSurvive(nodes))
    decreases nodes, 0
  {
    hide NodeExpressible, ProperNode, NodeReadable, SmallestIn, NodeFinite, NodeSurvives;
    if nodes != [] {
      NodeExpressibleExactly(nodes[0]);
      NodesExpressibleExactly(nodes[1..]);
    }
  }

  // ---- main result

  /**
    * Any document whatever reads back from every layout exactly when everything in it has a
    * source form and its nesting fits the budget: its names are identifiers, INT64_MIN is nowhere
    * in it, and each of its floats is, but for the sign, the double nearest to some number of six
    * decimals.
    */
  lemma ReadsBackExactly(doc: Document, opts: SerializeOptions)
    ensures Parse(DocumentText(doc, opts)) == Ok(doc) <==> NodesExpressible(doc) && NodesNeed(doc, 1) <= MAX_DEPTH
  {
    hide Parse, DocumentText, NodesReadable, SmallestAmong, NodesNeed, NodesFinite, NodesSurvive, RereadNodes,
         NodesExpressible, ProperNodes;
    ParsedIsProper(DocumentText(doc, opts));
    NodesExpressibleExactly(doc);
    if ProperNodes(doc) {
      ReadableExactly(doc, opts);
    }
  }
}
