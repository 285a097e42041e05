/** Scanning canonical text. */
module CfgRoundTrip {
  // The tokens the scanner gives, for every layout: those of one concrete tree or statement, or,
  // where INT64_MIN is in the way, the tokens before it. And the depth the parser needs.

  import opened Common
  import opened CfgGrammar
  import opened CfgModel
  import opened CfgLexSpec
  import opened CfgSerializer
  import opened CfgParserSpec
  import opened CfgDocumentSpec
  import opened CfgStatements
  import opened CfgFloatText
  import Doubles
  import opened CfgLexRoundTrip
  import opened Seqs

  /** Values whose canonical text scans: finite floats are in range, object keys are names. */
  predicate Readable(v: Value)
    decreases v, 1
  {
    match v
    case VFloat(f) => f.Finite? ==> Scans(f)
    case VArray(items) => AllReadable(items)
    case VObject(members) => MembersReadable(members)
    case _ => true
  }

  predicate AllReadable(items: seq<Value>)
    decreases items, 0
  {
    items == [] || (Readable(items[0]) && AllReadable(items[1..]))
  }

  predicate MembersReadable(members: seq<Member>)
    decreases members, 0
  {
    members == [] || (IsName(members[0].key) && Readable(members[0].val) && MembersReadable(members[1..]))
  }

  /** Whether INT64_MIN is somewhere inside. */
  predicate HasSmallest(v: Value)
    decreases v, 1
  {
    match v
    case VInt(i) => i == -TWO63
    case VArray(items) => AnySmallest(items)
    case VObject(members) => MembersSmallest(members)
    case _ => false
  }

  predicate AnySmallest(items: seq<Value>)
    decreases items, 0
  {
    items != [] && (HasSmallest(items[0]) || AnySmallest(items[1..]))
  }

  predicate MembersSmallest(members: seq<Member>)
    decreases members, 0
  {
    members != [] && (HasSmallest(members[0].val) || MembersSmallest(members[1..]))
  }

  /** The tokens of a value's canonical text, and then `k`; INT64_MIN ends them with its error. */
  function ValueTokens(v: Value, opts: SerializeOptions, k: Stream): Stream
    requires Readable(v)
    decreases v, 1
  {
    match v
    case VNull => Tok(Null, k)
    case VBool(b) => Tok(if b then True else False, k)
    case VInt(i) => IntTokens(i, k)
    case VFloat(f) => FloatTokens(f, k)
    case VStr(s) => Tok(StringLit(s), k)
    case VArray(items) => Tok(LBracket, ItemTokens(items, opts, ListEnd(items, opts, k)))
    case VObject(members) => Tok(LBrace, MemberTokens(members, opts, Tok(RBrace, k)))
  }

  function IntTokens(i: i64, k: Stream): Stream {
    if i == -TWO63 then Tok(Minus, End(Some(BadLength)))
    else if i < 0 then Tok(Minus, Tok(IntLit(0 - i), k))
    else Tok(IntLit(i), k)
  }

  function FloatTokens(f: Doubles.Double, k: Stream): Stream {
    if Doubles.IsNegative(f) then Tok(Minus, Tok(SizeToken(f), k)) else Tok(SizeToken(f), k)
  }

  /** A float without its sign; infinities and NaN are written as names. */
  function SizeToken(f: Doubles.Double): Token {
    match f
    case NaN => Ident(NAN_WORD)
    case Infinity(_) => Ident(INF_WORD)
    case Finite(_) => FloatLit(Printed(f))
  }

  /** An array written over lines has a comma behind its last element. */
  function ListEnd(items: seq<Value>, opts: SerializeOptions, k: Stream): Stream {
    if !RendersInline(|items|, opts) && items != [] then Tok(Comma, Tok(RBracket, k)) else Tok(RBracket, k)
  }

  function ItemTokens(items: seq<Value>, opts: SerializeOptions, k: Stream): Stream
    requires AllReadable(items)
    decreases items, 0
  {
    if items == [] then k
    else if |items| == 1 then ValueTokens(items[0], opts, k)
    else ValueTokens(items[0], opts, Tok(Comma, ItemTokens(items[1..], opts, k)))
  }

  function MemberTokens(members: seq<Member>, opts: SerializeOptions, k: Stream): Stream
    requires MembersReadable(members)
    decreases members, 0
  {
    if members == [] then k
    else Tok(Ident(members[0].key), Tok(Assign,
             ValueTokens(members[0].val, opts, Tok(Semicolon, MemberTokens(members[1..], opts, k)))))
  }

  // ---- scanning the frames of canonical text, whatever text they enclose

  lemma LexInt(scan: bytes -> Stream, i: i64, k: bytes)
    requires IsScanner(scan)
    requires Delimits(k)
    ensures scan(IntText(i) + k) == IntTokens(i, scan(k))
  {
    if i < 0 {
      var digits := NatText(0 - i);
      ScanNat(scan, 0 - i, k);
      assert IntText(i) == [45] + digits;
      Regroup3([45], digits, k);
      ScanMark(scan, 45, digits + k, Minus);
    } else {
      ScanNat(scan, i, k);
    }
  }

  lemma LexFloatValue(scan: bytes -> Stream, f: Doubles.Double, k: bytes)
    requires IsScanner(scan)
    requires (f.Finite? ==> Scans(f)) && Delimits(k)
    ensures scan(FloatText(f) + k) == FloatTokens(f, scan(k))
  {
    if f.Finite? {
      LexFinite(scan, f, k);
    } else {
      var word := if f.NaN? then NAN_WORD else INF_WORD;
      ScanName(scan, word, k);
      if f == Doubles.Infinity(true) {
        Regroup3([45], word, k);
        ScanMark(scan, 45, word + k, Minus);
      } else {
        assert FloatText(f) == word;
      }
    }
  }

  lemma LexFinite(scan: bytes -> Stream, f: Doubles.Double, k: bytes)
    requires IsScanner(scan)
    requires Scans(f) && Delimits(k)
    ensures scan(FloatText(f) + k) == FloatTokens(f, scan(k))
  {
    hide NatText, PaddedText, Micros, Doubles.Round;
    var micros := Micros(Doubles.Size(f.r));
    var digits := NatText(micros / 1000000) + [46] + PaddedText(micros % 1000000, 6);
    assert EndsNumber(k);
    LexDecimals(micros, k);
    if f.r < 0.0 {
      Regroup3([45], digits, k);
      ScanMark(scan, 45, digits + k, Minus);
    } else {
      assert FloatText(f) == [] + digits == digits;
    }
  }

  /** A pair of brackets with nothing between them. */
  lemma LexEmptyPair(scan: bytes -> Stream, open: byte, close: byte, k: bytes, o: Token, c: Token)
    requires IsScanner(scan)
    requires IsPunctuation(open) && IsPunctuation(close)
    requires Punctuator(open, close) == Some((o, 1)) && Punctuator(close, At(k, 0)) == Some((c, 1))
    ensures scan([open, close] + k) == Tok(o, Tok(c, scan(k)))
  {
    SplitPair<byte>(open, close, k);
    ScanMark(scan, close, k, c);
    ScanMark(scan, open, [close] + k, o);
  }

  /** A mark followed by one blank. */
  lemma LexMark(scan: bytes -> Stream, mark: byte, blank: byte, k: bytes, t: Token)
    requires IsScanner(scan)
    requires IsPunctuation(mark) && IsSpace(blank) && Punctuator(mark, blank) == Some((t, 1))
    ensures scan([mark, blank] + k) == Tok(t, scan(k))
  {
    SplitPair<byte>(mark, blank, k);
    ScanMark(scan, mark, [blank] + k, t);
    ScanBlank(scan, blank, k);
  }

  /** ` = ` between a name and a value. */
  lemma LexEquals(scan: bytes -> Stream, k: bytes)
    requires IsScanner(scan)
    ensures scan(EQUALS + k) == Tok(Assign, scan(k))
  {
    assert EQUALS == [SPACE] + [61] + [SPACE];
    Regroup4([SPACE], [61], [SPACE], k);
    ScanBlank(scan, SPACE, [61] + ([SPACE] + k));
    ScanMark(scan, 61, [SPACE] + k, Assign);
    ScanBlank(scan, SPACE, k);
  }

  lemma LexMemberFrame(scan: bytes -> Stream, key: bytes, text: bytes, k: bytes)
    requires IsScanner(scan)
    requires IsName(key)
    ensures scan(key + EQUALS + text + [59] + k) == Tok(Ident(key), Tok(Assign, scan(text + ([59] + k))))
    ensures scan([59] + k) == Tok(Semicolon, scan(k))
  {
    Regroup5(key, EQUALS, text, [59], k);
    ScanName(scan, key, EQUALS + (text + ([59] + k)));
    LexEquals(scan, text + ([59] + k));
    ScanMark(scan, 59, k, Semicolon);
  }

  // ---- scanning the text of a value gives the tokens of its tree

  lemma {:induction false} LexValue(scan: bytes -> Stream, v: Value, opts: SerializeOptions, depth: nat, k: bytes)
    requires IsScanner(scan)
    requires Readable(v) && Delimits(k)
    ensures scan(ValueText(v, opts, depth) + k) == ValueTokens(v, opts, scan(k))
    decreases v, 1
  {
    hide IsScanner, NatText, Quoted, FloatText, FloatTokens;
    match v
    case VNull => ScanKeyword(scan, NULL_WORD, k);
    case VBool(b) => ScanKeyword(scan, if b then TRUE_WORD else FALSE_WORD, k);
    case VInt(i) =>
      LexInt(scan, i, k);
    case VFloat(f) => LexFloatValue(scan, f, k);
    case VStr(s) => ScanQuoted(scan, s, k);
    case VArray(items) => LexArray(scan, items, opts, depth, k);
    case VObject(members) => LexObject(scan, members, opts, depth, k);
  }

  lemma {:induction false} LexArray(scan: bytes -> Stream, items: seq<Value>, opts: SerializeOptions, depth: nat,
                                    k: bytes)
    requires IsScanner(scan)
    requires AllReadable(items) && Delimits(k)
    ensures scan(ValueText(VArray(items), opts, depth) + k) == ValueTokens(VArray(items), opts, scan(k))
    decreases items, 2
  {
    hide IsScanner, InlineItems, ItemLines, Indent, Readable, AllReadable;
    var close := [93] + k;
    ScanMark(scan, 93, k, RBracket);
    if items == [] {
      LexEmptyPair(scan, 91, 93, k, LBracket, RBracket);
    } else if RendersInline(|items|, opts) {
      var inner := InlineItems(items, opts, depth);
      Regroup4([91], inner, [93], k);
      ScanMark(scan, 91, inner + close, LBracket);
      LexInlineItems(scan, items, opts, depth, close);
    } else {
      var inner, indent := ItemLines(items, opts, depth), Indent(depth, opts.indentWidth);
      Regroup5([91, LF], inner, indent, [93], k);
      LexMark(scan, 91, LF, inner + (indent + close), LBracket);
      LexItemLines(scan, items, opts, depth, indent + close);
      ScanIndent(scan, depth, opts.indentWidth, close);
    }
  }

  lemma {:induction false} LexInlineItems(scan: bytes -> Stream, items: seq<Value>, opts: SerializeOptions, depth: nat,
                                          k: bytes)
    requires IsScanner(scan)
    requires AllReadable(items) && Delimits(k) && items != []
    ensures scan(InlineItems(items, opts, depth) + k) == ItemTokens(items, opts, scan(k))
    decreases items, 0
  {
    hide IsScanner, ValueText, ValueTokens, Readable;
    if |items| == 1 {
      LexValue(scan, items[0], opts, depth, k);
    } else {
      var first, rest := ValueText(items[0], opts, depth), InlineItems(items[1..], opts, depth);
      Regroup4(first, COMMA_SPACE, rest, k);
      LexMark(scan, 44, SPACE, rest + k, Comma);
      LexValue(scan, items[0], opts, depth, COMMA_SPACE + (rest + k));
      LexInlineItems(scan, items[1..], opts, depth, k);
    }
  }

  lemma {:induction false} LexItemLines(scan: bytes -> Stream, items: seq<Value>, opts: SerializeOptions, depth: nat,
                                        k: bytes)
    requires IsScanner(scan)
    requires AllReadable(items) && items != []
    ensures scan(ItemLines(items, opts, depth) + k) == ItemTokens(items, opts, Tok(Comma, scan(k)))
    decreases items, 0
  {
    hide IsScanner, ValueText, ValueTokens, Indent, Readable;
    var indent := Indent(depth + 1, opts.indentWidth);
    var first, rest := ValueText(items[0], opts, depth + 1), ItemLines(items[1..], opts, depth);
    Regroup5(indent, first, [44, LF], rest, k);
    ScanIndent(scan, depth + 1, opts.indentWidth, first + ([44, LF] + (rest + k)));
    LexValue(scan, items[0], opts, depth + 1, [44, LF] + (rest + k));
    LexMark(scan, 44, LF, rest + k, Comma);
    if |items| == 1 {
      assert rest + k == k;
    } else {
      LexItemLines(scan, items[1..], opts, depth, k);
    }
  }

  lemma {:induction false} LexObject(scan: bytes -> Stream, members: seq<Member>, opts: SerializeOptions, depth: nat,
                                     k: bytes)
    requires IsScanner(scan)
    requires MembersReadable(members) && Delimits(k)
    ensures scan(ValueText(VObject(members), opts, depth) + k) == ValueTokens(VObject(members), opts, scan(k))
    decreases members, 3
  {
    hide IsScanner, InlineMembers, MemberLines, Indent, Readable, MembersReadable;
    var close := [125] + k;
    ScanMark(scan, 125, k, RBrace);
    if members == [] {
      LexEmptyPair(scan, 123, 125, k, LBrace, RBrace);
    } else if RendersInline(|members|, opts) {
      var inner := InlineMembers(members, opts, depth);
      Regroup4([123, SPACE], inner, [SPACE, 125], k);
      SplitPair<byte>(SPACE, 125, k);
      LexMark(scan, 123, SPACE, inner + ([SPACE] + close), LBrace);
      LexInlineMembers(scan, members, opts, depth, [SPACE] + close);
      ScanBlank(scan, SPACE, close);
    } else {
      var inner, indent := MemberLines(members, opts, depth), Indent(depth, opts.indentWidth);
      Regroup5([123, LF], inner, indent, [125], k);
      LexMark(scan, 123, LF, inner + (indent + close), LBrace);
      LexMemberLines(scan, members, opts, depth, indent + close);
      ScanIndent(scan, depth, opts.indentWidth, close);
    }
  }

  lemma {:induction false} LexMember(scan: bytes -> Stream, m: Member, opts: SerializeOptions, depth: nat, k: bytes)
    requires IsScanner(scan)
    requires IsName(m.key) && Readable(m.val)
    ensures scan(MemberText(m, opts, depth) + k)
         == Tok(Ident(m.key), Tok(Assign, ValueTokens(m.val, opts, Tok(Semicolon, scan(k)))))
    decreases m, 2
  {
    hide IsScanner, ValueText, ValueTokens, Readable;
    LexMemberFrame(scan, m.key, ValueText(m.val, opts, depth), k);
    LexValue(scan, m.val, opts, depth, [59] + k);
  }

  lemma {:induction false} LexInlineMembers(scan: bytes -> Stream, members: seq<Member>, opts: SerializeOptions,
                                            depth: nat, k: bytes)
    requires IsScanner(scan)
    requires MembersReadable(members) && members != []
    ensures scan(InlineMembers(members, opts, depth) + k) == MemberTokens(members, opts, scan(k))
    decreases members, 0
  {
    hide IsScanner, MemberText, ValueTokens, Readable;
    if |members| == 1 {
      LexMember(scan, members[0], opts, depth, k);
    } else {
      var first, rest := MemberText(members[0], opts, depth), InlineMembers(members[1..], opts, depth);
      Regroup4(first, [SPACE], rest, k);
      LexMember(scan, members[0], opts, depth, [SPACE] + (rest + k));
      ScanBlank(scan, SPACE, rest + k);
      LexInlineMembers(scan, members[1..], opts, depth, k);
    }
  }

  lemma {:induction false} LexMemberLines(scan: bytes -> Stream, members: seq<Member>, opts: SerializeOptions,
                                          depth: nat, k: bytes)
    requires IsScanner(scan)
    requires MembersReadable(members)
    ensures scan(MemberLines(members, opts, depth) + k) == MemberTokens(members, opts, scan(k))
    decreases members, 0
  {
    hide IsScanner, MemberText, ValueTokens, Indent, Readable;
    if members == [] {
      assert MemberLines(members, opts, depth) + k == k;
    } else {
      var indent := Indent(depth + 1, opts.indentWidth);
      var first, rest := MemberText(members[0], opts, depth + 1), MemberLines(members[1..], opts, depth);
      Regroup5(indent, first, [LF], rest, k);
      ScanIndent(scan, depth + 1, opts.indentWidth, first + ([LF] + (rest + k)));
      LexMember(scan, members[0], opts, depth + 1, [LF] + (rest + k));
      ScanBlank(scan, LF, rest + k);
      LexMemberLines(scan, members[1..], opts, depth, k);
    }
  }

  // ---- statements

  predicate AllNames(path: seq<bytes>) {
    forall i | 0 <= i < |path| :: IsName(path[i])
  }

  /** Statements the scanner can meet in canonical text. */
  predicate NodeReadable(node: Node)
    decreases node, 1
  {
    match node
    case Assignment(path, value) => path != [] && AllNames(path) && Readable(value)
    case Block(name, _, children) => IsName(name) && NodesReadable(children)
    case IncludeNode(_) => true
  }

  predicate NodesReadable(nodes: seq<Node>)
    decreases nodes, 0
  {
    nodes == [] || (NodeReadable(nodes[0]) && NodesReadable(nodes[1..]))
  }

  function NodeTokens(node: Node, opts: SerializeOptions, k: Stream): Stream
    requires NodeReadable(node)
    decreases node, 1
  {
    match node
    case Assignment(path, value) =>
      SpellPath(path, Tok(Assign, ValueTokens(value, opts, Tok(Semicolon, k))))
    case Block(name, tag, children) =>
      Tok(Ident(name), SpellTag(tag, Tok(LBrace, NodesTokens(children, opts, Tok(RBrace, k)))))
    case IncludeNode(file) => Tok(Include, Tok(StringLit(file), Tok(Semicolon, k)))
  }

  function NodesTokens(nodes: seq<Node>, opts: SerializeOptions, k: Stream): Stream
    requires NodesReadable(nodes)
    decreases nodes, 0
  {
    if nodes == [] then k else NodeTokens(nodes[0], opts, NodesTokens(nodes[1..], opts, k))
  }

  lemma {:induction false} LexPath(scan: bytes -> Stream, path: seq<bytes>, k: bytes)
    requires IsScanner(scan)
    requires path != [] && AllNames(path) && k != [] && !IsIdentPart(k[0])
    ensures scan(PathText(path) + k) == SpellPath(path, scan(k))
  {
    if |path| == 1 {
      ScanName(scan, path[0], k);
    } else {
      var rest := PathText(path[1..]);
      Regroup4(path[0], [46], rest, k);
      ScanName(scan, path[0], [46] + (rest + k));
      ScanMark(scan, 46, rest + k, Dot);
      LexPath(scan, path[1..], k);
    }
  }

  lemma LexTag(scan: bytes -> Stream, tag: Option<bytes>, k: bytes)
    requires IsScanner(scan)
    ensures scan(LabelText(tag) + k) == SpellTag(tag, scan(k))
  {
    if tag.Some? {
      Regroup3([SPACE], Quoted(tag.value), k);
      ScanBlank(scan, SPACE, Quoted(tag.value) + k);
      ScanQuoted(scan, tag.value, k);
    } else {
      assert LabelText(tag) + k == k;
    }
  }

  lemma {:induction false} LexNode(scan: bytes -> Stream, node: Node, opts: SerializeOptions, depth: nat, k: bytes)
    requires IsScanner(scan) && NodeReadable(node)
    ensures scan(NodeText(node, opts, depth) + k) == NodeTokens(node, opts, scan(k))
    decreases node, 1
  {
    hide IsScanner, ValueText, ValueTokens, Readable, Indent, PathText, SpellPath, Quoted, LabelText, BodyText,
         NodesTokens;
    var indent := Indent(depth, opts.indentWidth);
    match node
    case Assignment(path, value) =>
      var p, text := PathText(path), ValueText(value, opts, depth);
      Regroup3(indent, p + EQUALS + text + [59, LF], k);
      Regroup5(p, EQUALS, text, [59, LF], k);
      ScanIndent(scan, depth, opts.indentWidth, p + (EQUALS + (text + ([59, LF] + k))));
      LexPath(scan, path, EQUALS + (text + ([59, LF] + k)));
      LexEquals(scan, text + ([59, LF] + k));
      LexValue(scan, value, opts, depth, [59, LF] + k);
      LexMark(scan, 59, LF, k, Semicolon);
    case Block(name, tag, children) =>
      LexBlockHead(scan, name, tag, depth, opts.indentWidth, BodyText(children, opts, depth), k);
      LexBody(scan, children, opts, depth, k);
    case IncludeNode(file) =>
      var q := Quoted(file);
      Regroup3(indent, INCLUDE_WORD + [SPACE] + q + [59, LF], k);
      Regroup5(INCLUDE_WORD, [SPACE], q, [59, LF], k);
      ScanIndent(scan, depth, opts.indentWidth, INCLUDE_WORD + ([SPACE] + (q + ([59, LF] + k))));
      ScanKeyword(scan, INCLUDE_WORD, [SPACE] + (q + ([59, LF] + k)));
      ScanBlank(scan, SPACE, q + ([59, LF] + k));
      ScanQuoted(scan, file, [59, LF] + k);
      LexMark(scan, 59, LF, k, Semicolon);
  }

  /** A block's name and label, before a body that starts with a blank. */
  lemma LexBlockHead(scan: bytes -> Stream, name: bytes, tag: Option<bytes>, depth: nat, width: int, body: bytes,
                     k: bytes)
    requires IsScanner(scan) && IsName(name) && body != [] && body[0] == SPACE
    ensures scan(Indent(depth, width) + (name + LabelText(tag) + body) + k)
         == Tok(Ident(name), SpellTag(tag, scan(body + k)))
  {
    var indent, mark := Indent(depth, width), LabelText(tag);
    Regroup3(indent, name + mark + body, k);
    Regroup4(name, mark, body, k);
    ScanIndent(scan, depth, width, name + (mark + (body + k)));
    ScanName(scan, name, mark + (body + k));
    LexTag(scan, tag, body + k);
  }

  lemma {:induction false} LexBody(scan: bytes -> Stream, children: seq<Node>, opts: SerializeOptions, depth: nat,
                                   k: bytes)
    requires IsScanner(scan) && NodesReadable(children)
    ensures scan(BodyText(children, opts, depth) + k)
         == Tok(LBrace, NodesTokens(children, opts, Tok(RBrace, scan(k))))
    decreases children, 1
  {
    hide IsScanner, NodesText, NodesReadable, Indent;
    LexMark(scan, 125, LF, k, RBrace);
    if children == [] {
      assert BodyText(children, opts, depth) + k == [SPACE] + ([123] + ([125, LF] + k));
      ScanBlank(scan, SPACE, [123] + ([125, LF] + k));
      ScanMark(scan, 123, [125, LF] + k, LBrace);
    } else {
      var indent, inner := Indent(depth, opts.indentWidth), NodesText(children, opts, depth + 1);
      Regroup5([SPACE, 123, LF], inner, indent, [125, LF], k);
      var after := inner + (indent + ([125, LF] + k));
      assert [SPACE, 123, LF] + after == [SPACE] + ([123, LF] + after);
      ScanBlank(scan, SPACE, [123, LF] + after);
      LexMark(scan, 123, LF, after, LBrace);
      LexNodes(scan, children, opts, depth + 1, indent + ([125, LF] + k));
      ScanIndent(scan, depth, opts.indentWidth, [125, LF] + k);
    }
  }

  lemma {:induction false} LexNodes(scan: bytes -> Stream, nodes: seq<Node>, opts: SerializeOptions, depth: nat,
                                    k: bytes)
    requires IsScanner(scan) && NodesReadable(nodes)
    ensures scan(NodesText(nodes, opts, depth) + k) == NodesTokens(nodes, opts, scan(k))
    decreases nodes, 0
  {
    if nodes == [] {
      assert NodesText(nodes, opts, depth) + k == k;
    } else {
      var first, rest := NodeText(nodes[0], opts, depth), NodesText(nodes[1..], opts, depth);
      Regroup3(first, rest, k);
      LexNode(scan, nodes[0], opts, depth, rest + k);
      LexNodes(scan, nodes[1..], opts, depth, k);
    }
  }

  // ---- without INT64_MIN the tokens are those of a tree

  /** Values with a source form of their own: readable ones without INT64_MIN. */
  predicate Writable(v: Value)
    decreases v, 1
  {
    match v
    case VFloat(f) => f.Finite? ==> Scans(f)
    case VInt(i) => i != -TWO63
    case VArray(items) => AllWritable(items)
    case VObject(members) => MembersWritable(members)
    case _ => true
  }

  predicate AllWritable(items: seq<Value>)
    decreases items, 0
  {
    items == [] || (Writable(items[0]) && AllWritable(items[1..]))
  }

  predicate MembersWritable(members: seq<Member>)
    decreases members, 0
  {
    members == [] || (IsName(members[0].key) && Writable(members[0].val) && MembersWritable(members[1..]))
  }

  /** The concrete tree the canonical text of a value spells. */
  function ValueCst(v: Value, opts: SerializeOptions): Cst
    requires Writable(v)
    decreases v, 1
  {
    match v
    case VNull => Leaf(Null)
    case VBool(b) => Leaf(if b then True else False)
    case VInt(i) => if i < 0 then Un(Minus, Leaf(IntLit(0 - i))) else Leaf(IntLit(i))
    case VFloat(f) => if Doubles.IsNegative(f) then Un(Minus, Leaf(SizeToken(f))) else Leaf(SizeToken(f))
    case VStr(s) => Leaf(StringLit(s))
    case VArray(items) => Arr(ItemCsts(items, opts), !RendersInline(|items|, opts) && items != [])
    case VObject(members) => Obj(MemberCsts(members, opts))
  }

  function ItemCsts(items: seq<Value>, opts: SerializeOptions): (r: seq<Cst>)
    requires AllWritable(items)
    ensures |r| == |items|
    decreases items, 0
  {
    if items == [] then [] else [ValueCst(items[0], opts)] + ItemCsts(items[1..], opts)
  }

  function MemberCsts(members: seq<Member>, opts: SerializeOptions): (r: seq<Item>)
    requires MembersWritable(members)
    ensures |r| == |members|
    decreases members, 0
  {
    if members == [] then []
    else [Field(members[0].key, ValueCst(members[0].val, opts))] + MemberCsts(members[1..], opts)
  }

  lemma {:induction false} TokensSpell(v: Value, opts: SerializeOptions, k: Stream)
    requires Writable(v)
    ensures Readable(v) && ValueTokens(v, opts, k) == Spell(ValueCst(v, opts), k)
    decreases v, 1
  {
    match v
    case VArray(items) => ItemsSpell(items, opts, ListEnd(items, opts, k));
    case VObject(members) => MembersSpell(members, opts, Tok(RBrace, k));
    case _ =>
  }

  lemma {:induction false} ItemsSpell(items: seq<Value>, opts: SerializeOptions, k: Stream)
    requires AllWritable(items)
    ensures AllReadable(items) && ItemTokens(items, opts, k) == SpellElems(ItemCsts(items, opts), k)
    decreases items, 0
  {
    hide Writable, Readable, ValueTokens, ValueCst, Spell;
    if items != [] {
      ItemsSpell(items[1..], opts, k);
      TokensSpell(items[0], opts, if |items| == 1 then k else Tok(Comma, ItemTokens(items[1..], opts, k)));
      assert ItemCsts(items, opts)[1..] == ItemCsts(items[1..], opts);
    }
  }

  lemma {:induction false} MembersSpell(members: seq<Member>, opts: SerializeOptions, k: Stream)
    requires MembersWritable(members)
    ensures MembersReadable(members) && MemberTokens(members, opts, k) == SpellItems(MemberCsts(members, opts), k)
    decreases members, 0
  {
    hide Writable, Readable, ValueTokens, ValueCst, Spell;
    if members != [] {
      MembersSpell(members[1..], opts, k);
      TokensSpell(members[0].val, opts, Tok(Semicolon, MemberTokens(members[1..], opts, k)));
      assert MemberCsts(members, opts)[1..] == MemberCsts(members[1..], opts);
    }
  }

  // ---- finite floats

  /** No float in the value is an infinity or NaN. */
  predicate Finite(v: Value)
    decreases v, 1
  {
    match v
    case VFloat(f) => f.Finite?
    case VArray(items) => AllFinite(items)
    case VObject(members) => MembersFinite(members)
    case _ => true
  }

  predicate AllFinite(items: seq<Value>)
    decreases items, 0
  {
    items == [] || (Finite(items[0]) && AllFinite(items[1..]))
  }

  predicate MembersFinite(members: seq<Member>)
    decreases members, 0
  {
    members == [] || (Finite(members[0].val) && MembersFinite(members[1..]))
  }

  predicate NodeFinite(node: Node)
    decreases node, 1
  {
    match node
    case Assignment(_, value) => Finite(value)
    case Block(_, _, children) => NodesFinite(children)
    case IncludeNode(_) => true
  }

  predicate NodesFinite(nodes: seq<Node>)
    decreases nodes, 0
  {
    nodes == [] || (NodeFinite(nodes[0]) && NodesFinite(nodes[1..]))
  }

  // ---- what the text says

  /** The value with every float as its text is read. */
  function Reread(v: Value): Value
    decreases v, 1
  {
    match v
    case VFloat(f) => if f.Finite? then VFloat(RereadFloat(f)) else v
    case VArray(items) => VArray(RereadAll(items))
    case VObject(members) => VObject(RereadMembers(members))
    case _ => v
  }

  function RereadAll(items: seq<Value>): (r: seq<Value>)
    ensures |r| == |items|
    decreases items, 0
  {
    if items == [] then [] else [Reread(items[0])] + RereadAll(items[1..])
  }

  function RereadMembers(members: seq<Member>): (r: seq<Member>)
    ensures |r| == |members|
    decreases members, 0
  {
    if members == [] then []
    else [Member(members[0].key, Reread(members[0].val))] + RereadMembers(members[1..])
  }

  function RereadNode(node: Node): Node
    decreases node, 1
  {
    match node
    case Assignment(path, value) => Assignment(path, Reread(value))
    case Block(name, tag, children) => Block(name, tag, RereadNodes(children))
    case IncludeNode(_) => node
  }

  function RereadNodes(nodes: seq<Node>): (r: seq<Node>)
    ensures |r| == |nodes|
    decreases nodes, 0
  {
    if nodes == [] then [] else [RereadNode(nodes[0])] + RereadNodes(nodes[1..])
  }

  /** Statements with a source form of their own. */
  predicate NodeWritable(node: Node)
    decreases node, 1
  {
    match node
    case Assignment(path, value) => path != [] && AllNames(path) && Writable(value)
    case Block(name, _, children) => IsName(name) && NodesWritable(children)
    case IncludeNode(_) => true
  }

  predicate NodesWritable(nodes: seq<Node>)
    decreases nodes, 0
  {
    nodes == [] || (NodeWritable(nodes[0]) && NodesWritable(nodes[1..]))
  }

  /** The concrete statement the canonical text of a node spells. */
  function NodeCst(node: Node, opts: SerializeOptions): Cstmt
    requires NodeWritable(node)
    decreases node, 1
  {
    match node
    case Assignment(path, value) => Assigned(path, ValueCst(value, opts))
    case Block(name, tag, children) => Named(name, tag, NodeCsts(children, opts))
    case IncludeNode(file) => Inclusion(file)
  }

  function NodeCsts(nodes: seq<Node>, opts: SerializeOptions): (r: seq<Cstmt>)
    requires NodesWritable(nodes)
    ensures |r| == |nodes|
    decreases nodes, 0
  {
    if nodes == [] then [] else [NodeCst(nodes[0], opts)] + NodeCsts(nodes[1..], opts)
  }

  lemma {:induction false} NodeSpells(node: Node, opts: SerializeOptions, k: Stream)
    requires NodeWritable(node)
    ensures NodeReadable(node) && NodeTokens(node, opts, k) == SpellStatement(NodeCst(node, opts), k)
    decreases node, 1
  {
    hide Writable, Readable, ValueTokens, ValueCst, Spell, SpellPath;
    match node
    case Assignment(_, value) => TokensSpell(value, opts, Tok(Semicolon, k));
    case Block(_, _, children) => NodesSpell(children, opts, Tok(RBrace, k));
    case IncludeNode(_) =>
  }

  lemma {:induction false} NodesSpell(nodes: seq<Node>, opts: SerializeOptions, k: Stream)
    requires NodesWritable(nodes)
    ensures NodesReadable(nodes) && NodesTokens(nodes, opts, k) == SpellStatements(NodeCsts(nodes, opts), k)
    decreases nodes, 0
  {
    hide NodeWritable, NodeReadable, NodeTokens, NodeCst, SpellStatement;
    if nodes != [] {
      NodesSpell(nodes[1..], opts, k);
      NodeSpells(nodes[0], opts, NodesTokens(nodes[1..], opts, k));
      assert NodeCsts(nodes, opts)[1..] == NodeCsts(nodes[1..], opts);
    }
  }

  // ---- the depth budget, on values and documents

  /**
    * The depth the descent reaches on a value whose expression starts at depth `d`: each
    * enclosing aggregate costs two levels, a minus sign one.
    */
  function ValueNeed(v: Value, d: nat): (n: nat)
    ensures n > d
    decreases v, 1
  {
    match v
    case VInt(i) => if i < 0 then d + 2 else d + 1
    case VFloat(f) => if Doubles.IsNegative(f) then d + 2 else d + 1
    case VArray(items) => ItemsNeed(items, d)
    case VObject(members) => MembersNeed(members, d)
    case _ => d + 1
  }

  function ItemsNeed(items: seq<Value>, d: nat): (n: nat)
    ensures n > d
    decreases items, 0
  {
    if items == [] then d + 1 else Max(ValueNeed(items[0], d + 2), ItemsNeed(items[1..], d))
  }

  function MembersNeed(members: seq<Member>, d: nat): (n: nat)
    ensures n > d
    decreases members, 0
  {
    if members == [] then d + 1 else Max(ValueNeed(members[0].val, d + 2), MembersNeed(members[1..], d))
  }

  function NodeNeed(node: Node, depth: nat): (n: nat)
    ensures n >= depth
    decreases node, 1
  {
    match node
    case Assignment(_, value) => Max(depth, ValueNeed(value, 1))
    case Block(_, _, children) => NodesNeed(children, depth + 1)
    case IncludeNode(_) => depth
  }

  /** Statements at `depth`, which is one more than their block's. */
  function NodesNeed(nodes: seq<Node>, depth: nat): (n: nat)
    requires depth > 0
    ensures n >= depth - 1
    decreases nodes, 0
  {
    if nodes == [] then depth - 1 else Max(NodeNeed(nodes[0], depth), NodesNeed(nodes[1..], depth))
  }

  lemma {:induction false} ValueFormed(v: Value, opts: SerializeOptions, d: nat)
    requires Writable(v)
    ensures Formed(ValueCst(v, opts)) && Level(ValueCst(v, opts)) >= 12
    ensures NeedUnary(ValueCst(v, opts), d + 1) == ValueNeed(v, d)
    ensures Need(ValueCst(v, opts), d) == ValueNeed(v, d)
    decreases v, 1
  {
    match v
    case VArray(items) => ItemsFormed(items, opts, d);
    case VObject(members) => MembersFormed(members, opts, d);
    case VInt(i) =>
      if i < 0 {
        assert NeedUnary(Leaf(IntLit(0 - i)), d + 2) == d + 2;
      }
    case VFloat(f) =>
      hide Printed;
      if Doubles.IsNegative(f) {
        assert NeedUnary(Leaf(SizeToken(f)), d + 2) == d + 2;
      }
    case _ =>
  }

  lemma {:induction false} ItemsFormed(items: seq<Value>, opts: SerializeOptions, d: nat)
    requires AllWritable(items)
    ensures FormedElems(ItemCsts(items, opts)) && NeedElems(ItemCsts(items, opts), d + 1) == ItemsNeed(items, d)
    decreases items, 0
  {
    if items != [] {
      ValueFormed(items[0], opts, d + 2);
      ItemsFormed(items[1..], opts, d);
      assert ItemCsts(items, opts)[1..] == ItemCsts(items[1..], opts);
    }
  }

  lemma {:induction false} MembersFormed(members: seq<Member>, opts: SerializeOptions, d: nat)
    requires MembersWritable(members)
    ensures FormedItems(MemberCsts(members, opts))
    ensures NeedItems(MemberCsts(members, opts), d + 1) == MembersNeed(members, d)
    decreases members, 0
  {
    if members != [] {
      ValueFormed(members[0].val, opts, d + 2);
      MembersFormed(members[1..], opts, d);
      assert MemberCsts(members, opts)[1..] == MemberCsts(members[1..], opts);
    }
  }

  /** The same for statements: they belong to the grammar and cost what their nodes do. */
  lemma {:induction false} NodeFormed(node: Node, opts: SerializeOptions, depth: nat)
    requires NodeWritable(node)
    ensures FormedStatement(NodeCst(node, opts)) && NodeCst(node, opts) != Empty
    ensures NeedStatement(NodeCst(node, opts), depth) == NodeNeed(node, depth)
    decreases node, 1
  {
    hide ValueCst, Formed, Need, ValueNeed;
    match node
    case Assignment(_, value) => ValueFormed(value, opts, 1);
    case Block(_, _, children) => NodesFormed(children, opts, depth + 1);
    case IncludeNode(_) =>
  }

  lemma {:induction false} NodesFormed(nodes: seq<Node>, opts: SerializeOptions, depth: nat)
    requires NodesWritable(nodes) && depth > 0
    ensures FormedStatements(NodeCsts(nodes, opts))
    ensures NeedStatements(NodeCsts(nodes, opts), depth) == NodesNeed(nodes, depth)
    decreases nodes, 0
  {
    hide NodeCst, FormedStatement, NeedStatement, NodeNeed;
    if nodes != [] {
      NodeFormed(nodes[0], opts, depth);
      NodesFormed(nodes[1..], opts, depth);
      assert NodeCsts(nodes, opts)[1..] == NodeCsts(nodes[1..], opts);
    }
  }
}
