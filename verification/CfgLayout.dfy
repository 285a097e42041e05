/** The layout of canonical text. */
module CfgLayout {
  // Which values are written on one line, and what every line holds where they are not: how far it
  // is indented, and what stands on it.

  import opened CfgLexSpec
  import opened CfgModel
  import opened CfgSerializer
  import opened Common
  import Doubles
  import opened Seqs

  // ---- lines

  /** The lines of a text: what stands before, between and behind its line feeds. */
  function Lines(t: bytes): (lines: seq<bytes>)
    ensures lines != []
  {
    if t == [] then [[]]
    else
      var rest := Lines(t[1..]);
      if t[0] == 10 then [[]] + rest else [[t[0]] + rest[0]] + rest[1..]
  }

  predicate OneLine(t: bytes) {
    forall i | 0 <= i < |t| :: t[i] != 10
  }

  lemma {:induction false} LineThen(a: bytes, b: bytes)
    requires OneLine(a)
    ensures Lines(a + [10] + b) == [a] + Lines(b)
  {
    if a == [] {
      assert (a + [10] + b)[1..] == b;
    } else {
      assert (a + [10] + b)[1..] == a[1..] + [10] + b;
      LineThen(a[1..], b);
      assert [a[0]] + a[1..] == a;
      assert ([a[1..]] + Lines(b))[1..] == Lines(b);
    }
  }

  lemma {:induction false} LastLine(a: bytes)
    requires OneLine(a)
    ensures Lines(a) == [a]
  {
    if a != [] {
      LastLine(a[1..]);
      assert [a[0]] + a[1..] == a;
    }
  }

  lemma OneLineJoin(a: bytes, b: bytes)
    ensures OneLine(a + b) <==> OneLine(a) && OneLine(b)
  {
    assert forall i | 0 <= i < |a| :: (a + b)[i] == a[i];
    assert forall i | 0 <= i < |b| :: (a + b)[|a| + i] == b[i];
  }

  function Blanks(n: nat): (t: bytes)
    ensures |t| == n && forall i | 0 <= i < n :: t[i] == 32
  {
    seq(n, _ => 32)
  }

  /** How far a line at a level is indented. */
  function Margin(depth: nat, opts: SerializeOptions): bytes {
    Blanks(depth * (if opts.indentWidth < 0 then 0 else opts.indentWidth))
  }

  lemma {:induction false} SpacesAreBlanks(n: int)
    ensures Spaces(n) == Blanks(if n < 0 then 0 else n)
    decreases if n < 0 then 0 else n
  {
    if n > 0 {
      SpacesAreBlanks(n - 1);
    }
  }

  lemma {:induction false} IndentIsMargin(depth: nat, opts: SerializeOptions)
    ensures Indent(depth, opts.indentWidth) == Margin(depth, opts) && OneLine(Margin(depth, opts))
  {
    var w := if opts.indentWidth < 0 then 0 else opts.indentWidth;
    if depth > 0 {
      IndentIsMargin(depth - 1, opts);
      SpacesAreBlanks(opts.indentWidth);
      assert depth * w == w + (depth - 1) * w;
    }
  }

  // ---- what is written on one line

  /** No key holds a line feed; a key that is an identifier holds none. */
  predicate CleanKeys(v: Value)
    decreases v, 1
  {
    match v
    case VArray(items) => AllCleanKeys(items)
    case VObject(members) => MembersCleanKeys(members)
    case _ => true
  }

  predicate AllCleanKeys(items: seq<Value>)
    decreases items, 0
  {
    items == [] || (CleanKeys(items[0]) && AllCleanKeys(items[1..]))
  }

  predicate MembersCleanKeys(members: seq<Member>)
    decreases members, 0
  {
    members == [] || (OneLine(members[0].key) && CleanKeys(members[0].val) && MembersCleanKeys(members[1..]))
  }

  /** No array or object inside has more than `n` members. */
  predicate Compact(v: Value, n: nat)
    decreases v, 1
  {
    match v
    case VArray(items) => |items| <= n && AllCompact(items, n)
    case VObject(members) => |members| <= n && MembersCompact(members, n)
    case _ => true
  }

  predicate AllCompact(items: seq<Value>, n: nat)
    decreases items, 0
  {
    items == [] || (Compact(items[0], n) && AllCompact(items[1..], n))
  }

  predicate MembersCompact(members: seq<Member>, n: nat)
    decreases members, 0
  {
    members == [] || (Compact(members[0].val, n) && MembersCompact(members[1..], n))
  }

  lemma {:induction false} NatOneLine(n: nat)
    ensures OneLine(NatText(n))
  {
    if n >= 10 {
      NatOneLine(n / 10);
      OneLineJoin(NatText(n / 10), [48 + n % 10]);
    }
  }

  lemma {:induction false} PaddedOneLine(n: nat, width: nat)
    ensures OneLine(PaddedText(n, width))
  {
    if width > 0 {
      PaddedOneLine(n / 10, width - 1);
      OneLineJoin(PaddedText(n / 10, width - 1), [48 + n % 10]);
    }
  }

  lemma FloatOneLine(f: Doubles.Double)
    ensures OneLine(FloatText(f))
  {
    hide NatText, PaddedText, Micros;
    if f.Finite? {
      var micros := Micros(Doubles.Size(f.r));
      NatOneLine(micros / 1000000);
      PaddedOneLine(micros % 1000000, 6);
    }
  }

  lemma {:induction false} EscapedOneLine(s: bytes)
    ensures OneLine(EscapeString(s))
  {
    if s != [] {
      EscapedOneLine(s[1..]);
      EscapeOneLine(s[0]);
      hide EscapeByte;
      OneLineJoin(EscapeByte(s[0]), EscapeString(s[1..]));
    }
  }

  lemma EscapeOneLine(c: byte)
    ensures OneLine(EscapeByte(c))
  {
  }

  lemma QuotedOneLine(s: bytes)
    ensures OneLine(Quoted(s))
  {
    EscapedOneLine(s);
    hide EscapeString;
  }

  /**
    * A value is written on one line exactly if none of its arrays and objects passes the threshold.
    * Strings are escaped; only a key that is no identifier could hold a line feed of its own.
    */
  lemma {:induction false} OneLineExactly(v: Value, opts: SerializeOptions, depth: nat)
    ensures OneLine(ValueText(v, opts, depth)) <==> Compact(v, opts.inlineThreshold) && CleanKeys(v)
    decreases v, 1
  {
    hide NatText, Quoted, FloatText, InlineItems, InlineMembers, ItemLines, MemberLines, Indent;
    match v
    case VInt(i) => NatOneLine(if i < 0 then 0 - i else i);
    case VFloat(f) => FloatOneLine(f);
    case VStr(s) => QuotedOneLine(s);
    case VArray(items) => ArrayOneLine(items, opts, depth);
    case VObject(members) => ObjectOneLine(members, opts, depth);
    case _ =>
  }

  lemma Framed(open: bytes, inner: bytes, close: bytes)
    requires OneLine(open) && OneLine(close)
    ensures OneLine(open + inner + close) <==> OneLine(inner)
  {
    OneLineJoin(open + inner, close);
    OneLineJoin(open, inner);
  }

  lemma Broken(t: bytes, i: nat)
    requires i < |t| && t[i] == 10
    ensures !OneLine(t)
  {
  }

  lemma {:induction false} ArrayOneLine(items: seq<Value>, opts: SerializeOptions, depth: nat)
    ensures OneLine(ValueText(VArray(items), opts, depth))
       <==> |items| <= opts.inlineThreshold && AllCompact(items, opts.inlineThreshold) && AllCleanKeys(items)
    decreases items, 2
  {
    hide InlineItems, ItemLines, Indent, OneLine, AllCompact, AllCleanKeys;
    var t := ValueText(VArray(items), opts, depth);
    if items == [] {
      EmptyPairs(opts.inlineThreshold);
    } else if |items| <= opts.inlineThreshold {
      InlineItemsOneLine(items, opts, depth);
      ShortMarks();
      Framed([91], InlineItems(items, opts, depth), [93]);
    } else {
      assert t[1] == 10;
      Broken(t, 1);
    }
  }

  lemma ShortMarks()
    ensures OneLine([91]) && OneLine([93]) && OneLine([123, 32]) && OneLine([32, 125])
    ensures OneLine(COMMA_SPACE) && OneLine([32]) && OneLine(EQUALS) && OneLine([59])
  {
  }

  lemma EmptyPairs(n: nat)
    ensures OneLine([91, 93]) && OneLine([123, 125]) && AllCompact([], n) && MembersCompact([], n)
    ensures AllCleanKeys([]) && MembersCleanKeys([])
  {
  }

  lemma {:induction false} InlineItemsOneLine(items: seq<Value>, opts: SerializeOptions, depth: nat)
    requires items != []
    ensures OneLine(InlineItems(items, opts, depth)) <==> AllCompact(items, opts.inlineThreshold) && AllCleanKeys(items)
    decreases items, 0
  {
    hide ValueText, Compact, OneLine, CleanKeys;
    OneLineExactly(items[0], opts, depth);
    if |items| > 1 {
      var first, rest := ValueText(items[0], opts, depth), InlineItems(items[1..], opts, depth);
      InlineItemsOneLine(items[1..], opts, depth);
      ShortMarks();
      OneLineJoin(first + COMMA_SPACE, rest);
      OneLineJoin(first, COMMA_SPACE);
    } else {
      assert items[1..] == [];
    }
  }

  lemma {:induction false} ObjectOneLine(members: seq<Member>, opts: SerializeOptions, depth: nat)
    ensures OneLine(ValueText(VObject(members), opts, depth))
       <==> && |members| <= opts.inlineThreshold && MembersCompact(members, opts.inlineThreshold)
            && MembersCleanKeys(members)
    decreases members, 2
  {
    hide InlineMembers, MemberLines, Indent, OneLine, MembersCompact, MembersCleanKeys;
    var t := ValueText(VObject(members), opts, depth);
    if members == [] {
      EmptyPairs(opts.inlineThreshold);
    } else if |members| <= opts.inlineThreshold {
      InlineMembersOneLine(members, opts, depth);
      ShortMarks();
      Framed([123, 32], InlineMembers(members, opts, depth), [32, 125]);
    } else {
      assert t[1] == 10;
      Broken(t, 1);
    }
  }

  lemma {:induction false} InlineMembersOneLine(members: seq<Member>, opts: SerializeOptions, depth: nat)
    requires members != []
    ensures OneLine(InlineMembers(members, opts, depth))
       <==> MembersCompact(members, opts.inlineThreshold) && MembersCleanKeys(members)
    decreases members, 0
  {
    hide ValueText, Compact, OneLine, CleanKeys;
    var m := members[0];
    OneLineExactly(m.val, opts, depth);
    MemberOneLine(m.key, ValueText(m.val, opts, depth));
    if |members| > 1 {
      var first, rest := MemberText(m, opts, depth), InlineMembers(members[1..], opts, depth);
      InlineMembersOneLine(members[1..], opts, depth);
      ShortMarks();
      OneLineJoin(first + [SPACE], rest);
      OneLineJoin(first, [SPACE]);
    } else {
      assert members[1..] == [];
    }
  }

  lemma MemberOneLine(key: bytes, text: bytes)
    ensures OneLine(key + EQUALS + text + [59]) <==> OneLine(key) && OneLine(text)
  {
    ShortMarks();
    hide OneLine;
    OneLineJoin(key + EQUALS + text, [59]);
    OneLineJoin(key + EQUALS, text);
    OneLineJoin(key, EQUALS);
  }

  // ---- the pieces on one line

  /** Texts with a separator between each two. */
  function Joined(texts: seq<bytes>, separator: bytes): bytes {
    if texts == [] then []
    else if |texts| == 1 then texts[0]
    else texts[0] + separator + Joined(texts[1..], separator)
  }

  function ItemTexts(items: seq<Value>, opts: SerializeOptions, depth: nat): (texts: seq<bytes>)
    ensures |texts| == |items| && forall i | 0 <= i < |items| :: texts[i] == ValueText(items[i], opts, depth)
  {
    seq(|items|, i requires 0 <= i < |items| => ValueText(items[i], opts, depth))
  }

  /** A member is its key, ` = `, its value and a semicolon. */
  function MemberTexts(members: seq<Member>, opts: SerializeOptions, depth: nat): (texts: seq<bytes>)
    ensures |texts| == |members|
    ensures forall i | 0 <= i < |members| ::
              texts[i] == members[i].key + [32, 61, 32] + ValueText(members[i].val, opts, depth) + [59]
  {
    seq(|members|, i requires 0 <= i < |members| =>
      members[i].key + [32, 61, 32] + ValueText(members[i].val, opts, depth) + [59])
  }

  lemma {:induction false} InlineItemsJoined(items: seq<Value>, opts: SerializeOptions, depth: nat)
    ensures InlineItems(items, opts, depth) == Joined(ItemTexts(items, opts, depth), [44, 32])
    decreases |items|
  {
    hide ValueText;
    if |items| > 1 {
      InlineItemsJoined(items[1..], opts, depth);
      assert ItemTexts(items, opts, depth)[1..] == ItemTexts(items[1..], opts, depth);
    }
  }

  lemma {:induction false} InlineMembersJoined(members: seq<Member>, opts: SerializeOptions, depth: nat)
    ensures InlineMembers(members, opts, depth) == Joined(MemberTexts(members, opts, depth), [32])
    decreases |members|
  {
    hide ValueText;
    if |members| > 0 {
      assert MemberText(members[0], opts, depth) == MemberTexts(members, opts, depth)[0];
    }
    if |members| > 1 {
      InlineMembersJoined(members[1..], opts, depth);
      assert MemberTexts(members, opts, depth)[1..] == MemberTexts(members[1..], opts, depth);
    }
  }

  /** Up to the threshold: in brackets with commas and blanks, in braces with blanks, nothing between empty ones. */
  lemma InlineLaw(items: seq<Value>, members: seq<Member>, opts: SerializeOptions, depth: nat)
    ensures ValueText(VArray([]), opts, depth) == [91, 93] && ValueText(VObject([]), opts, depth) == [123, 125]
    ensures 0 < |items| <= opts.inlineThreshold ==>
              ValueText(VArray(items), opts, depth) == [91] + Joined(ItemTexts(items, opts, depth), [44, 32]) + [93]
    ensures 0 < |members| <= opts.inlineThreshold ==>
              ValueText(VObject(members), opts, depth)
              == [123, 32] + Joined(MemberTexts(members, opts, depth), [32]) + [32, 125]
  {
    InlineItemsJoined(items, opts, depth);
    InlineMembersJoined(members, opts, depth);
    hide InlineItems, InlineMembers, Joined, ItemLines, MemberLines, Indent;
  }

  // ---- one member a line

  /** A line for each text, indented one level deeper, with its mark behind it. */
  function Indented(texts: seq<bytes>, mark: bytes, depth: nat, opts: SerializeOptions): (lines: seq<bytes>)
    ensures |lines| == |texts|
    ensures forall i | 0 <= i < |texts| :: lines[i] == Margin(depth + 1, opts) + texts[i] + mark
  {
    seq(|texts|, i requires 0 <= i < |texts| => Margin(depth + 1, opts) + texts[i] + mark)
  }

  predicate AllOneLine(texts: seq<bytes>) {
    forall i | 0 <= i < |texts| :: OneLine(texts[i])
  }

  lemma {:induction false} ItemLinesAre(items: seq<Value>, opts: SerializeOptions, depth: nat, k: bytes)
    requires AllOneLine(ItemTexts(items, opts, depth + 1))
    ensures Lines(ItemLines(items, opts, depth) + k)
         == Indented(ItemTexts(items, opts, depth + 1), [44], depth, opts) + Lines(k)
    decreases |items|
  {
    hide ValueText, Lines, OneLine, Margin;
    var texts := ItemTexts(items, opts, depth + 1);
    if items == [] {
      assert ItemLines(items, opts, depth) + k == k;
      assert Indented(texts, [44], depth, opts) == [];
    } else {
      var rest := ItemLines(items[1..], opts, depth) + k;
      var line := Margin(depth + 1, opts) + texts[0] + [44];
      IndentIsMargin(depth + 1, opts);
      ItemLineStep(items, opts, depth, k);
      Marked(Margin(depth + 1, opts), texts[0], [44]);
      LineThen(line, rest);
      ItemLinesAre(items[1..], opts, depth, k);
      assert texts[1..] == ItemTexts(items[1..], opts, depth + 1);
      assert Indented(texts, [44], depth, opts) == [line] + Indented(texts[1..], [44], depth, opts);
    }
  }

  lemma ItemLineStep(items: seq<Value>, opts: SerializeOptions, depth: nat, k: bytes)
    requires items != []
    ensures ItemLines(items, opts, depth) + k
         == Indent(depth + 1, opts.indentWidth) + ValueText(items[0], opts, depth + 1) + [44] + [10]
            + (ItemLines(items[1..], opts, depth) + k)
  {
    hide ValueText, Indent;
  }

  lemma Marked(a: bytes, b: bytes, c: bytes)
    requires OneLine(a) && OneLine(b) && (c == [] || c == [44])
    ensures OneLine(a + b + c)
  {
  }

  /**
    * Past the threshold an array takes a line for each element, one level deeper and with a comma
    * behind it, between a bracket and a bracket on a line of its own.
    */
  lemma ArrayLines(items: seq<Value>, opts: SerializeOptions, depth: nat)
    requires |items| > opts.inlineThreshold
    requires AllOneLine(ItemTexts(items, opts, depth + 1))
    ensures items != [] ==>
              Lines(ValueText(VArray(items), opts, depth))
              == [[91]] + Indented(ItemTexts(items, opts, depth + 1), [44], depth, opts) + [Margin(depth, opts) + [93]]
  {
    hide Lines, OneLine, Margin, ItemLines, Indent;
    if items != [] {
      var close := Indent(depth, opts.indentWidth) + [93];
      var inner := ItemLines(items, opts, depth);
      assert ValueText(VArray(items), opts, depth) == [91] + [10] + (inner + close);
      IndentIsMargin(depth, opts);
      Closes(Margin(depth, opts), [93]);
      LastLine(close);
      ItemLinesAre(items, opts, depth, close);
      Closes([], [91]);
      assert [] + [91] == [91];
      LineThen([91], inner + close);
    }
  }

  lemma Closes(a: bytes, mark: bytes)
    requires OneLine(a) && (mark == [93] || mark == [125] || mark == [91] || mark == [123])
    ensures OneLine(a + mark)
  {
  }

  lemma {:induction false} MemberLinesAre(members: seq<Member>, opts: SerializeOptions, depth: nat, k: bytes)
    requires AllOneLine(MemberTexts(members, opts, depth + 1))
    ensures Lines(MemberLines(members, opts, depth) + k)
         == Indented(MemberTexts(members, opts, depth + 1), [], depth, opts) + Lines(k)
    decreases |members|
  {
    hide ValueText, Lines, OneLine, Margin;
    var texts := MemberTexts(members, opts, depth + 1);
    if members == [] {
      assert MemberLines(members, opts, depth) + k == k;
      assert Indented(texts, [], depth, opts) == [];
    } else {
      var rest := MemberLines(members[1..], opts, depth) + k;
      var line := Margin(depth + 1, opts) + texts[0] + [];
      IndentIsMargin(depth + 1, opts);
      MemberLineStep(members, opts, depth, k);
      Marked(Margin(depth + 1, opts), texts[0], []);
      LineThen(line, rest);
      assert texts[1..] == MemberTexts(members[1..], opts, depth + 1);
      MemberLinesAre(members[1..], opts, depth, k);
      assert Indented(texts, [], depth, opts) == [line] + Indented(texts[1..], [], depth, opts);
    }
  }

  lemma MemberLineStep(members: seq<Member>, opts: SerializeOptions, depth: nat, k: bytes)
    requires members != []
    ensures MemberLines(members, opts, depth) + k
         == Indent(depth + 1, opts.indentWidth) + MemberTexts(members, opts, depth + 1)[0] + [] + [10]
            + (MemberLines(members[1..], opts, depth) + k)
  {
    hide ValueText, Indent;
  }

  /** The same for an object and its members. */
  lemma ObjectLines(members: seq<Member>, opts: SerializeOptions, depth: nat)
    requires |members| > opts.inlineThreshold
    requires AllOneLine(MemberTexts(members, opts, depth + 1))
    ensures members != [] ==>
              Lines(ValueText(VObject(members), opts, depth))
              == [[123]] + Indented(MemberTexts(members, opts, depth + 1), [], depth, opts)
                 + [Margin(depth, opts) + [125]]
  {
    hide Lines, OneLine, Margin, MemberLines, Indent;
    if members != [] {
      var close := Indent(depth, opts.indentWidth) + [125];
      var inner := MemberLines(members, opts, depth);
      assert ValueText(VObject(members), opts, depth) == [123] + [10] + (inner + close);
      IndentIsMargin(depth, opts);
      Closes(Margin(depth, opts), [125]);
      LastLine(close);
      MemberLinesAre(members, opts, depth, close);
      Closes([], [123]);
      assert [] + [123] == [123];
      LineThen([123], inner + close);
    }
  }

  lemma NatStarts(n: nat)
    ensures NatText(n) != [] && NatText(n)[0] != 32
  {
    if n >= 10 {
      NatStarts(n / 10);
    }
  }

  /** No value starts with a blank, so a line is indented by its margin and no further. */
  lemma ValueStarts(v: Value, opts: SerializeOptions, depth: nat)
    ensures ValueText(v, opts, depth) != [] && ValueText(v, opts, depth)[0] != 32
  {
    hide NatText, PaddedText, Micros, EscapeString, InlineItems, InlineMembers, ItemLines, MemberLines, Indent;
    match v
    case VInt(i) => NatStarts(if i < 0 then 0 - i else i);
    case VFloat(f) =>
      if f.Finite? {
        NatStarts(Micros(Doubles.Size(f.r)) / 1000000);
      }
    case _ =>
  }

  // ---- statements

  /** What stands on the first line of a statement, behind its indentation. */
  function Head(node: Node, opts: SerializeOptions, depth: nat): bytes {
    match node
    case Assignment(path, value) => Joined(path, [46]) + [32, 61, 32] + ValueText(value, opts, depth) + [59]
    case Block(name, tag, children) =>
      name + (if tag.Some? then [32] + Quoted(tag.value) else []) + [32, 123] + if children == [] then [125] else []
    case IncludeNode(file) => [105, 110, 99, 108, 117, 100, 101, 32] + Quoted(file) + [59]
  }

  lemma {:induction false} PathJoined(path: seq<bytes>)
    ensures PathText(path) == Joined(path, [46])
  {
    if |path| > 1 {
      PathJoined(path[1..]);
    }
  }

  /** A statement starts with its head at its own level; only a block with children goes on behind that line. */
  lemma StatementHead(node: Node, opts: SerializeOptions, depth: nat)
    ensures NodeText(node, opts, depth)
         == Margin(depth, opts) + Head(node, opts, depth) + [10]
            + if node.Block? && node.children != [] then
                NodesText(node.children, opts, depth + 1) + (Margin(depth, opts) + [125] + [10])
              else []
  {
    hide Quoted, ValueText, NodesText, Margin, Indent;
    IndentIsMargin(depth, opts);
    match node
    case Assignment(path, value) => PathJoined(path);
    case Block(name, tag, children) =>
      var mark := LabelText(tag);
      assert mark == if tag.Some? then [32] + Quoted(tag.value) else [];
      if children != [] {
        var inner, close := NodesText(children, opts, depth + 1), Indent(depth, opts.indentWidth) + [125, LF];
        assert close == Margin(depth, opts) + [125] + [10];
        assert BodyText(children, opts, depth) == [32, 123] + [10] + (inner + close);
      } else {
        assert BodyText(children, opts, depth) == [32, 123] + [125] + [10];
      }
    case IncludeNode(file) =>
  }

  /** The statement is written on one line. */
  predicate Flat(node: Node, opts: SerializeOptions, depth: nat) {
    !(node.Block? && node.children != []) && OneLine(Head(node, opts, depth))
  }

  function Heads(nodes: seq<Node>, opts: SerializeOptions, depth: nat): (heads: seq<bytes>)
    ensures |heads| == |nodes|
    ensures forall i | 0 <= i < |nodes| :: heads[i] == Margin(depth, opts) + Head(nodes[i], opts, depth)
  {
    seq(|nodes|, i requires 0 <= i < |nodes| => Margin(depth, opts) + Head(nodes[i], opts, depth))
  }

  lemma {:induction false} FlatLines(nodes: seq<Node>, opts: SerializeOptions, depth: nat, k: bytes)
    requires forall i | 0 <= i < |nodes| :: Flat(nodes[i], opts, depth)
    ensures Lines(NodesText(nodes, opts, depth) + k) == Heads(nodes, opts, depth) + Lines(k)
    decreases |nodes|
  {
    hide Head, Lines, OneLine, Margin, NodeText;
    if nodes == [] {
      assert NodesText(nodes, opts, depth) + k == k;
    } else {
      var head, rest := Margin(depth, opts) + Head(nodes[0], opts, depth), NodesText(nodes[1..], opts, depth) + k;
      StatementHead(nodes[0], opts, depth);
      assert NodeText(nodes[0], opts, depth) == head + [10] + [] == head + [10];
      Regroup3(head + [10], NodesText(nodes[1..], opts, depth), k);
      IndentIsMargin(depth, opts);
      OneLineJoin(Margin(depth, opts), Head(nodes[0], opts, depth));
      LineThen(head, rest);
      FlatLines(nodes[1..], opts, depth, k);
      assert Heads(nodes, opts, depth) == [head] + Heads(nodes[1..], opts, depth);
    }
  }

  /** A block of statements on one line each: the head, the statements one level deeper, the brace at its own. */
  lemma BlockLines(node: Node, opts: SerializeOptions, depth: nat)
    requires node.Block? && node.children != [] && OneLine(Head(node, opts, depth))
    requires forall i | 0 <= i < |node.children| :: Flat(node.children[i], opts, depth + 1)
    ensures Lines(NodeText(node, opts, depth))
         == [Margin(depth, opts) + Head(node, opts, depth)] + Heads(node.children, opts, depth + 1)
            + [Margin(depth, opts) + [125]] + [[]]
  {
    hide Head, Lines, OneLine, Margin, NodeText, NodesText;
    var head, close := Margin(depth, opts) + Head(node, opts, depth), Margin(depth, opts) + [125] + [10];
    StatementHead(node, opts, depth);
    IndentIsMargin(depth, opts);
    OneLineJoin(Margin(depth, opts), Head(node, opts, depth));
    LineThen(head, NodesText(node.children, opts, depth + 1) + close);
    FlatLines(node.children, opts, depth + 1, close);
    Closes(Margin(depth, opts), [125]);
    assert close == Margin(depth, opts) + [125] + [10] + [];
    LineThen(Margin(depth, opts) + [125], []);
    NoLines();
  }

  lemma NoLines()
    ensures Lines([]) == [[]]
  {
  }

  /** A document of statements on one line each, none of them indented. */
  lemma DocumentLines(doc: Document, opts: SerializeOptions)
    requires forall i | 0 <= i < |doc| :: Flat(doc[i], opts, 0)
    ensures Lines(DocumentText(doc, opts)) == Heads(doc, opts, 0) + [[]]
    ensures forall i | 0 <= i < |doc| :: Heads(doc, opts, 0)[i] == Head(doc[i], opts, 0)
  {
    hide Head, Lines, NodesText;
    FlatLines(doc, opts, 0, []);
    NoLines();
    assert NodesText(doc, opts, 0) + [] == NodesText(doc, opts, 0);
    assert Margin(0, opts) == [];
  }
}
