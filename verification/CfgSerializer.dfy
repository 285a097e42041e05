/**
  * serializer.cpp: the canonical text of a document. The functions say what the text is; the
  * renderer's methods append it to a shared output piece by piece and are proved to write
  * exactly this.
  */
module CfgSerializer {
  import opened Common
  import opened CfgModel
  import opened CfgLexSpec
  import Doubles

  const COMMA_SPACE: bytes := [44, SPACE]
  const EQUALS: bytes := [SPACE, 61, SPACE]

  function HexDigit(n: nat): byte
    requires n < 16
  {
    if n < 10 then 48 + n else 87 + n
  }

  /** The canonical escape of one byte. */
  function EscapeByte(c: byte): bytes {
    if c == BACKSLASH then [BACKSLASH, BACKSLASH]
    else if c == QUOTE then [BACKSLASH, QUOTE]
    else if c == LF then [BACKSLASH, 110]
    else if c == CR then [BACKSLASH, 114]
    else if c == TAB then [BACKSLASH, 116]
    else if c < 0x20 || c >= 0x7F then [BACKSLASH, 120, HexDigit(c / 16), HexDigit(c % 16)]
    else [c]
  }

  function EscapeString(s: bytes): bytes {
    if s == [] then [] else EscapeByte(s[0]) + EscapeString(s[1..])
  }

  function Quoted(s: bytes): bytes {
    [QUOTE] + EscapeString(s) + [QUOTE]
  }

  function Spaces(n: int): bytes {
    if n <= 0 then [] else [SPACE] + Spaces(n - 1)
  }

  function Indent(depth: nat, width: int): bytes {
    if depth == 0 then [] else Spaces(width) + Indent(depth - 1, width)
  }

  function NatText(n: nat): (t: bytes)
    ensures t != []
  {
    if n < 10 then [48 + n] else NatText(n / 10) + [48 + n % 10]
  }

  function IntText(i: i64): bytes {
    if i < 0 then [45] + NatText(0 - i) else NatText(i)
  }

  function PaddedText(n: nat, width: nat): bytes {
    if width == 0 then [] else PaddedText(n / 10, width - 1) + [48 + n % 10]
  }

  /** `std::to_string` of a double: fixed notation with six decimals, ties to even. */
  const NAN_WORD: bytes := [110, 97, 110]
  const INF_WORD: bytes := [105, 110, 102]

  function FloatText(f: Doubles.Double): bytes {
    match f
    case NaN => NAN_WORD
    case Infinity(negative) => (if negative then [45] else []) + INF_WORD
    case Finite(r) =>
      var micros := Micros(Doubles.Size(r));
      (if r < 0.0 then [45] else []) + (NatText(micros / 1000000) + [46] + PaddedText(micros % 1000000, 6))
  }

  /** The nearest number of millionths. */
  function Micros(size: real): nat
    requires size >= 0.0
  {
    var scaled := size * 1000000.0;
    Doubles.RoundParts(scaled.Floor, scaled - scaled.Floor as real, 1)
  }

  predicate RendersInline(count: nat, opts: SerializeOptions) {
    count <= opts.inlineThreshold
  }

  function ValueText(v: Value, opts: SerializeOptions, depth: nat): bytes
    decreases v, 1
  {
    match v
    case VNull => NULL_WORD
    case VBool(b) => if b then TRUE_WORD else FALSE_WORD
    case VInt(i) => IntText(i)
    case VFloat(f) => FloatText(f)
    case VStr(s) => Quoted(s)
    case VArray(items) =>
      if items == [] then [91, 93]
      else if RendersInline(|items|, opts) then [91] + InlineItems(items, opts, depth) + [93]
      else [91, LF] + ItemLines(items, opts, depth) + Indent(depth, opts.indentWidth) + [93]
    case VObject(members) =>
      if members == [] then [123, 125]
      else if RendersInline(|members|, opts) then [123, SPACE] + InlineMembers(members, opts, depth) + [SPACE, 125]
      else [123, LF] + MemberLines(members, opts, depth) + Indent(depth, opts.indentWidth) + [125]
  }

  /** Comma-separated elements of an array written on one line. */
  function InlineItems(items: seq<Value>, opts: SerializeOptions, depth: nat): bytes
    decreases items, 0
  {
    if items == [] then []
    else if |items| == 1 then ValueText(items[0], opts, depth)
    else ValueText(items[0], opts, depth) + COMMA_SPACE + InlineItems(items[1..], opts, depth)
  }

  /** One line per element, each closed by a comma. */
  function ItemLines(items: seq<Value>, opts: SerializeOptions, depth: nat): bytes
    decreases items, 0
  {
    if items == [] then []
    else
      Indent(depth + 1, opts.indentWidth) + ValueText(items[0], opts, depth + 1) + [44, LF]
      + ItemLines(items[1..], opts, depth)
  }

  function MemberText(m: Member, opts: SerializeOptions, depth: nat): bytes
    decreases m, 2
  {
    m.key + EQUALS + ValueText(m.val, opts, depth) + [59]
  }

  function InlineMembers(members: seq<Member>, opts: SerializeOptions, depth: nat): bytes
    decreases members, 0
  {
    if members == [] then []
    else if |members| == 1 then MemberText(members[0], opts, depth)
    else MemberText(members[0], opts, depth) + [SPACE] + InlineMembers(members[1..], opts, depth)
  }

  function MemberLines(members: seq<Member>, opts: SerializeOptions, depth: nat): bytes
    decreases members, 0
  {
    if members == [] then []
    else
      Indent(depth + 1, opts.indentWidth) + MemberText(members[0], opts, depth + 1) + [LF]
      + MemberLines(members[1..], opts, depth)
  }

  function PathText(path: seq<bytes>): bytes {
    if path == [] then []
    else if |path| == 1 then path[0]
    else path[0] + [46] + PathText(path[1..])
  }

  function LabelText(tag: Option<bytes>): bytes {
    if tag.Some? then [SPACE] + Quoted(tag.value) else []
  }

  function NodeText(node: Node, opts: SerializeOptions, depth: nat): bytes
    decreases node, 1
  {
    Indent(depth, opts.indentWidth) +
    match node
    case Assignment(path, value) => PathText(path) + EQUALS + ValueText(value, opts, depth) + [59, LF]
    case Block(name, tag, children) => name + LabelText(tag) + BodyText(children, opts, depth)
    case IncludeNode(file) => INCLUDE_WORD + [SPACE] + Quoted(file) + [59, LF]
  }

  function BodyText(children: seq<Node>, opts: SerializeOptions, depth: nat): (t: bytes)
    ensures t != [] && t[0] == SPACE
    decreases children, 1
  {
    if children == [] then [SPACE, 123, 125, LF]
    else [SPACE, 123, LF] + NodesText(children, opts, depth + 1) + Indent(depth, opts.indentWidth) + [125, LF]
  }

  function NodesText(nodes: seq<Node>, opts: SerializeOptions, depth: nat): bytes
    decreases nodes, 0
  {
    if nodes == [] then [] else NodeText(nodes[0], opts, depth) + NodesText(nodes[1..], opts, depth)
  }

  /** `serialize`: the canonical source of a whole document. */
  function DocumentText(doc: Document, opts: SerializeOptions): bytes {
    NodesText(doc, opts, 0)
  }
}
