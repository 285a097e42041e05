/** How far the text law reaches. */
module CfgLimits {
  // The nesting that always fits, and the one integer that does not read back.

  import opened Common
  import opened CfgGrammar
  import opened CfgModel
  import opened CfgLexSpec
  import opened CfgSerializer
  import opened CfgParserSpec
  import opened CfgDocumentSpec
  import opened CfgLexRoundTrip
  import opened CfgRoundTrip
  import opened CfgDocumentLaw

  /** How deep arrays and objects nest in a value. */
  function Nesting(v: Value): nat
    decreases v, 1
  {
    match v
    case VArray(items) => 1 + ItemsNesting(items)
    case VObject(members) => 1 + MembersNesting(members)
    case _ => 0
  }

  function ItemsNesting(items: seq<Value>): nat
    decreases items, 0
  {
    if items == [] then 0 else Max(Nesting(items[0]), ItemsNesting(items[1..]))
  }

  function MembersNesting(members: seq<Member>): nat
    decreases members, 0
  {
    if members == [] then 0 else Max(Nesting(members[0].val), MembersNesting(members[1..]))
  }

  /** How deep blocks nest in a document. */
  function BlockNesting(nodes: seq<Node>): nat
    decreases nodes, 0
  {
    if nodes == [] then 0 else Max(NodeNesting(nodes[0]), BlockNesting(nodes[1..]))
  }

  function NodeNesting(node: Node): nat
    decreases node, 1
  {
    if node.Block? then 1 + BlockNesting(node.children) else 0
  }

  /** The deepest value assigned anywhere in a document. */
  function DeepestValue(nodes: seq<Node>): nat
    decreases nodes, 0
  {
    if nodes == [] then 0 else Max(DeepestIn(nodes[0]), DeepestValue(nodes[1..]))
  }

  function DeepestIn(node: Node): nat
    decreases node, 1
  {
    match node
    case Assignment(_, value) => Nesting(value)
    case Block(_, _, children) => DeepestValue(children)
    case IncludeNode(_) => 0
  }

  lemma {:induction false} ValueCost(v: Value, d: nat)
    ensures ValueNeed(v, d) <= d + 2 + 2 * Nesting(v)
    decreases v, 1
  {
    match v
    case VArray(items) => ItemsCost(items, d);
    case VObject(members) => MembersCost(members, d);
    case _ =>
  }

  lemma {:induction false} ItemsCost(items: seq<Value>, d: nat)
    ensures ItemsNeed(items, d) <= d + 4 + 2 * ItemsNesting(items)
    decreases items, 0
  {
    if items != [] {
      ValueCost(items[0], d + 2);
      ItemsCost(items[1..], d);
    }
  }

  lemma {:induction false} MembersCost(members: seq<Member>, d: nat)
    ensures MembersNeed(members, d) <= d + 4 + 2 * MembersNesting(members)
    decreases members, 0
  {
    if members != [] {
      ValueCost(members[0].val, d + 2);
      MembersCost(members[1..], d);
    }
  }

  lemma {:induction false} NodesCost(nodes: seq<Node>, depth: nat)
    requires depth > 0
    ensures NodesNeed(nodes, depth) <= Max(depth + BlockNesting(nodes), 3 + 2 * DeepestValue(nodes))
    decreases nodes, 0
  {
    if nodes != [] {
      NodeCost(nodes[0], depth);
      NodesCost(nodes[1..], depth);
    }
  }

  lemma {:induction false} NodeCost(node: Node, depth: nat)
    requires depth > 0
    ensures NodeNeed(node, depth) <= Max(depth + NodeNesting(node), 3 + 2 * DeepestIn(node))
    decreases node, 1
  {
    match node
    case Assignment(_, value) => ValueCost(value, 1);
    case Block(_, _, children) => NodesCost(children, depth + 1);
    case IncludeNode(_) =>
  }

  /** Blocks nested up to 63 deep and values nested up to 30 deep read back from every layout, floats as printed. */
  lemma WithinLimits(doc: Document, opts: SerializeOptions)
    requires NodesWritable(doc) && NodesFinite(doc) && BlockNesting(doc) <= 63 && DeepestValue(doc) <= 30
    ensures Parse(DocumentText(doc, opts)) == Ok(RereadNodes(doc))
  {
    hide Parse, DocumentText, NodesWritable, NodesFinite, NodesNeed, BlockNesting, DeepestValue;
    NodesCost(doc, 1);
    DocumentRoundTrip(doc, opts);
  }

  /** Thirty is tight: a negative integer inside `n` arrays reads back exactly up to that. */
  lemma LimitIsTight(name: bytes, i: i64, n: nat, opts: SerializeOptions)
    requires IsName(name) && -TWO63 < i < 0
    ensures var doc := [Assignment([name], Wrapped(VInt(i), n))];
            Parse(DocumentText(doc, opts)) == if n <= 30 then Ok(doc) else Err(DepthExceeded)
  {
    hide Parse, DocumentText, ValueNeed, Wrapped, IsName;
    var doc := [Assignment([name], Wrapped(VInt(i), n))];
    WrappedCost(i, n, 1);
    WrappedWritable(i, n);
    assert doc[1..] == [];
    assert RereadNodes(doc) == doc;
    assert NodesNeed(doc, 1) == Max(NodeNeed(doc[0], 1), 0);
    assert NodesWritable(doc[1..]) && NodesFinite(doc[1..]) && AllNames([name]);
    DocumentRoundTrip(doc, opts);
  }

  lemma {:induction false} WrappedWritable(i: i64, n: nat)
    requires i != -TWO63
    ensures Writable(Wrapped(VInt(i), n)) && Finite(Wrapped(VInt(i), n))
    ensures Reread(Wrapped(VInt(i), n)) == Wrapped(VInt(i), n)
    decreases n
  {
    if n > 0 {
      WrappedWritable(i, n - 1);
      var items := [Wrapped(VInt(i), n - 1)];
      assert items[1..] == [];
    }
  }

  /** `n` arrays of one element around a value. */
  function Wrapped(v: Value, n: nat): Value
    decreases n, v
  {
    if n == 0 then v else VArray([Wrapped(v, n - 1)])
  }

  lemma {:induction false} WrappedCost(i: i64, n: nat, d: nat)
    requires i < 0
    ensures ValueNeed(Wrapped(VInt(i), n), d) == d + 2 + 2 * n && Nesting(Wrapped(VInt(i), n)) == n
    decreases n
  {
    if n > 0 {
      WrappedCost(i, n - 1, d + 2);
      var items := [Wrapped(VInt(i), n - 1)];
      assert items[1..] == [] && ItemsNeed([], d) == d + 1;
      assert ItemsNeed(items, d) == Max(ValueNeed(items[0], d + 2), d + 1);
      assert ItemsNesting(items) == Nesting(items[0]);
    }
  }

  /**
    * The smallest integer does not read back, under any name and in any layout: its digits
    * are scanned without their sign and are one too large.
    */
  lemma SmallestIntRefused(name: bytes, opts: SerializeOptions)
    requires IsName(name)
    ensures Parse(DocumentText([Assignment([name], VInt(-TWO63))], opts)) == Err(BadLength)
  {
    hide NatText, PathText, Lex, IsName, Parse;
    var digits := NatText(TWO63);
    var value := [45] + digits + [59, LF];
    TextOf(name, -TWO63, opts);
    LexPath(Lex, [name], EQUALS + value);
    LexEquals(Lex, value);
    assert value == [45] + (digits + [59, LF]);
    ScanMark(Lex, 45, digits + [59, LF], Minus);
    ScanNat(Lex, TWO63, [59, LF]);
    RefusedTokens(name);
    ParseRefused(DocumentText([Assignment([name], VInt(-TWO63))], opts), name);
  }

  /** The one line an assigned integer takes. */
  lemma TextOf(name: bytes, i: i64, opts: SerializeOptions)
    requires i < 0
    ensures DocumentText([Assignment([name], VInt(i))], opts)
         == PathText([name]) + (EQUALS + ([45] + NatText(0 - i) + [59, LF]))
  {
    hide NatText, PathText;
    var node := Assignment([name], VInt(i));
    assert [node][1..] == [] && NodesText([], opts, 0) == [];
    assert DocumentText([node], opts) == NodeText(node, opts, 0) + [];
    assert IntText(i) == [45] + NatText(0 - i);
    assert NodeText(node, opts, 0) == [] + (PathText([name]) + EQUALS + ([45] + NatText(0 - i)) + [59, LF]);
  }

  lemma ParseRefused(text: bytes, name: bytes)
    requires Lex(text) == Tok(Ident(name), Tok(Assign, Tok(Minus, End(Some(BadLength)))))
    ensures Parse(text) == Err(BadLength)
  {
    hide Lex, ParseDocument;
    RefusedTokens(name);
  }

  lemma RefusedTokens(name: bytes)
    ensures var s := Tok(Ident(name), Tok(Assign, Tok(Minus, End(Some(BadLength)))));
            ParseDocument(s) == Err(BadLength)
  {
    var s := Tok(Minus, End(Some(BadLength)));
    RefusedValue(s);
    hide ParseExpr;
    assert ParsePath(Tok(Assign, s)) == Ok(([], Tok(Assign, s)));
    assert ParseAssignment([name], Tok(Assign, s)) == Err(BadLength);
  }

  lemma RefusedValue(s: Stream)
    requires s == Tok(Minus, End(Some(BadLength)))
    ensures ParseExpr(s, 1) == Err(BadLength)
  {
    assert ParseUnary(s, 2, MAX_DEPTH) == Fail(BadLength);
    assert ParseBinary(s, 1, 1, MAX_DEPTH) == Fail(BadLength);
  }
}
