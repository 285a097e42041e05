/**
  * The renderers of serializer.cpp: loops that append to a shared output. Each is proved to
  * append exactly the canonical text the specification gives for its argument, separators and
  * indentation included.
  */
module CfgRenderer {
  import opened Common
  import opened CfgModel
  import opened CfgLexSpec
  import opened CfgSerializer
  import opened Seqs

  method EscapeInto(s: bytes) returns (out: bytes)
    ensures out == EscapeString(s)
  {
    out := [];
    for i := 0 to |s|
      invariant out + EscapeString(s[i..]) == EscapeString(s)
    {
      assert s[i..][1..] == s[i + 1..];
      Regroup3(out, EscapeByte(s[i]), EscapeString(s[i + 1..]));
      out := out + EscapeByte(s[i]);
    }
    assert s[|s|..] == [];
  }

  method AppendQuoted(out: bytes, s: bytes) returns (r: bytes)
    ensures r == out + Quoted(s)
  {
    r := out + [QUOTE];
    var escaped := EscapeInto(s);
    r := r + escaped;
    r := r + [QUOTE];
  }

  method AppendIndent(out: bytes, depth: nat, width: int) returns (r: bytes)
    ensures r == out + Indent(depth, width)
  {
    r := out;
    var level := 0;
    while level < depth
      invariant 0 <= level <= depth && r + Indent(depth - level, width) == out + Indent(depth, width)
    {
      ghost var before := r;
      var k := 0;
      while k < width
        invariant 0 <= k && (k <= width || k == 0) && r + Spaces(width - k) == before + Spaces(width)
        decreases width - k
      {
        Regroup3(r, [SPACE], Spaces(width - k - 1));
        r := r + [SPACE];
        k := k + 1;
      }
      assert r == before + Spaces(width);
      Regroup3(before, Spaces(width), Indent(depth - level - 1, width));
      level := level + 1;
    }
  }

  method RenderValue(out: bytes, v: Value, opts: SerializeOptions, depth: nat) returns (r: bytes)
    ensures r == out + ValueText(v, opts, depth)
    decreases v, 3
  {
    match v
    case VNull => r := out + NULL_WORD;
    case VBool(b) => r := out + if b then TRUE_WORD else FALSE_WORD;
    case VInt(i) => r := out + IntText(i);
    case VFloat(f) => r := out + FloatText(f);
    case VStr(s) => r := AppendQuoted(out, s);
    case VArray(items) => r := RenderArray(out, items, opts, depth);
    case VObject(members) => r := RenderObject(out, members, opts, depth);
  }

  method RenderArray(out: bytes, items: seq<Value>, opts: SerializeOptions, depth: nat) returns (r: bytes)
    ensures r == out + ValueText(VArray(items), opts, depth)
    decreases items, 2
  {
    if items == [] {
      r := out + [91, 93];
    } else if RendersInline(|items|, opts) {
      var body := RenderInlineItems(out + [91], items, opts, depth);
      r := body + [93];
      Regroup4(out, [91], InlineItems(items, opts, depth), [93]);
      Regroup3([91], InlineItems(items, opts, depth), [93]);
    } else {
      var body := RenderItemLines(out + [91, LF], items, opts, depth);
      r := AppendIndent(body, depth, opts.indentWidth);
      r := r + [93];
      Regroup5(out, [91, LF], ItemLines(items, opts, depth), Indent(depth, opts.indentWidth), [93]);
      Regroup4([91, LF], ItemLines(items, opts, depth), Indent(depth, opts.indentWidth), [93]);
    }
  }

  /** What the inline loop still has to write when it reaches element `k`. */
  ghost function InlineRest(items: seq<Value>, k: nat, opts: SerializeOptions, depth: nat): bytes
    requires k <= |items|
  {
    if k == |items| then [] else (if k == 0 then [] else COMMA_SPACE) + InlineItems(items[k..], opts, depth)
  }

  method RenderInlineItems(out: bytes, items: seq<Value>, opts: SerializeOptions, depth: nat) returns (r: bytes)
    requires items != []
    ensures r == out + InlineItems(items, opts, depth)
    decreases items, 1
  {
    r := out;
    var k := 0;
    assert items[0..] == items && [] + InlineItems(items, opts, depth) == InlineItems(items, opts, depth);
    while k < |items|
      invariant 0 <= k <= |items|
      invariant r + InlineRest(items, k, opts, depth) == out + InlineItems(items, opts, depth)
    {
      assert items[k..][1..] == items[k + 1..];
      ghost var sep := if k == 0 then [] else COMMA_SPACE;
      ghost var text := ValueText(items[k], opts, depth);
      ghost var rest := InlineRest(items, k + 1, opts, depth);
      assert InlineItems(items[k..], opts, depth) == text + rest by {
        if k + 1 < |items| {
          Regroup3(text, COMMA_SPACE, InlineItems(items[k + 1..], opts, depth));
        } else {
          assert text + [] == text;
        }
      }
      Regroup4(r, sep, text, rest);
      assert r + [] == r;
      if k != 0 {
        r := r + COMMA_SPACE;
      }
      r := RenderValue(r, items[k], opts, depth);
      k := k + 1;
    }
    assert r + [] == r;
  }

  method RenderItemLines(out: bytes, items: seq<Value>, opts: SerializeOptions, depth: nat) returns (r: bytes)
    ensures r == out + ItemLines(items, opts, depth)
    decreases items, 1
  {
    r := out;
    var k := 0;
    assert items[0..] == items;
    while k < |items|
      invariant 0 <= k <= |items|
      invariant r + ItemLines(items[k..], opts, depth) == out + ItemLines(items, opts, depth)
    {
      assert items[k..][1..] == items[k + 1..];
      Regroup5(r, Indent(depth + 1, opts.indentWidth), ValueText(items[k], opts, depth + 1), [44, LF],
               ItemLines(items[k + 1..], opts, depth));
      Regroup4(Indent(depth + 1, opts.indentWidth), ValueText(items[k], opts, depth + 1), [44, LF],
               ItemLines(items[k + 1..], opts, depth));
      r := AppendIndent(r, depth + 1, opts.indentWidth);
      r := RenderValue(r, items[k], opts, depth + 1);
      r := r + [44, LF];
      k := k + 1;
    }
    assert items[k..] == [] && r + [] == r;
  }

  method RenderObject(out: bytes, members: seq<Member>, opts: SerializeOptions, depth: nat) returns (r: bytes)
    ensures r == out + ValueText(VObject(members), opts, depth)
    decreases members, 2
  {
    if members == [] {
      r := out + [123, 125];
    } else if RendersInline(|members|, opts) {
      var body := RenderInlineMembers(out + [123, SPACE], members, opts, depth);
      r := body + [SPACE, 125];
      Regroup4(out, [123, SPACE], InlineMembers(members, opts, depth), [SPACE, 125]);
      Regroup3([123, SPACE], InlineMembers(members, opts, depth), [SPACE, 125]);
    } else {
      var body := RenderMemberLines(out + [123, LF], members, opts, depth);
      r := AppendIndent(body, depth, opts.indentWidth);
      r := r + [125];
      Regroup5(out, [123, LF], MemberLines(members, opts, depth), Indent(depth, opts.indentWidth), [125]);
      Regroup4([123, LF], MemberLines(members, opts, depth), Indent(depth, opts.indentWidth), [125]);
    }
  }

  method RenderMember(out: bytes, m: Member, opts: SerializeOptions, depth: nat) returns (r: bytes)
    ensures r == out + MemberText(m, opts, depth)
    decreases m, 4
  {
    r := out + m.key;
    r := r + EQUALS;
    r := RenderValue(r, m.val, opts, depth);
    r := r + [59];
    Regroup5(out, m.key, EQUALS, ValueText(m.val, opts, depth), [59]);
    Regroup4(m.key, EQUALS, ValueText(m.val, opts, depth), [59]);
  }

  ghost function InlineMembersRest(members: seq<Member>, k: nat, opts: SerializeOptions, depth: nat): bytes
    requires k <= |members|
  {
    if k == |members| then [] else (if k == 0 then [] else [SPACE]) + InlineMembers(members[k..], opts, depth)
  }

  method RenderInlineMembers(out: bytes, members: seq<Member>, opts: SerializeOptions, depth: nat) returns (r: bytes)
    requires members != []
    ensures r == out + InlineMembers(members, opts, depth)
    decreases members, 1
  {
    r := out;
    var k := 0;
    assert members[0..] == members && [] + InlineMembers(members, opts, depth) == InlineMembers(members, opts, depth);
    while k < |members|
      invariant 0 <= k <= |members|
      invariant r + InlineMembersRest(members, k, opts, depth) == out + InlineMembers(members, opts, depth)
    {
      assert members[k..][1..] == members[k + 1..];
      ghost var sep := if k == 0 then [] else [SPACE];
      ghost var text := MemberText(members[k], opts, depth);
      ghost var rest := InlineMembersRest(members, k + 1, opts, depth);
      assert InlineMembers(members[k..], opts, depth) == text + rest by {
        if k + 1 < |members| {
          Regroup3(text, [SPACE], InlineMembers(members[k + 1..], opts, depth));
        } else {
          assert text + [] == text;
        }
      }
      Regroup4(r, sep, text, rest);
      assert r + [] == r;
      if k != 0 {
        r := r + [SPACE];
      }
      r := RenderMember(r, members[k], opts, depth);
      k := k + 1;
    }
    assert r + [] == r;
  }

  method RenderMemberLines(out: bytes, members: seq<Member>, opts: SerializeOptions, depth: nat) returns (r: bytes)
    ensures r == out + MemberLines(members, opts, depth)
    decreases members, 1
  {
    r := out;
    var k := 0;
    assert members[0..] == members;
    while k < |members|
      invariant 0 <= k <= |members|
      invariant r + MemberLines(members[k..], opts, depth) == out + MemberLines(members, opts, depth)
    {
      assert members[k..][1..] == members[k + 1..];
      Regroup5(r, Indent(depth + 1, opts.indentWidth), MemberText(members[k], opts, depth + 1), [LF],
               MemberLines(members[k + 1..], opts, depth));
      Regroup4(Indent(depth + 1, opts.indentWidth), MemberText(members[k], opts, depth + 1), [LF],
               MemberLines(members[k + 1..], opts, depth));
      r := AppendIndent(r, depth + 1, opts.indentWidth);
      r := RenderMember(r, members[k], opts, depth + 1);
      r := r + [LF];
      k := k + 1;
    }
    assert members[k..] == [] && r + [] == r;
  }

  method RenderPath(out: bytes, path: seq<bytes>) returns (r: bytes)
    ensures r == out + PathText(path)
  {
    r := out;
    var k := 0;
    assert path[0..] == path && [] + PathText(path) == PathText(path);
    while k < |path|
      invariant 0 <= k <= |path|
      invariant r + PathRest(path, k) == out + PathText(path)
    {
      assert path[k..][1..] == path[k + 1..];
      ghost var rest := PathRest(path, k + 1);
      assert PathText(path[k..]) == path[k] + rest by {
        if k + 1 < |path| {
          Regroup3(path[k], [46], PathText(path[k + 1..]));
        } else {
          assert path[k] + [] == path[k];
        }
      }
      Regroup4(r, if k == 0 then [] else [46], path[k], rest);
      assert r + [] == r;
      if k != 0 {
        r := r + [46];
      }
      r := r + path[k];
      k := k + 1;
    }
    assert r + [] == r;
  }

  ghost function PathRest(path: seq<bytes>, k: nat): bytes
    requires k <= |path|
  {
    if k == |path| then [] else (if k == 0 then [] else [46]) + PathText(path[k..])
  }

  method RenderNode(out: bytes, node: Node, opts: SerializeOptions, depth: nat) returns (r: bytes)
    ensures r == out + NodeText(node, opts, depth)
    decreases node, 2
  {
    var indent := AppendIndent(out, depth, opts.indentWidth);
    match node {
      case Assignment(path, value) =>
        r := RenderPath(indent, path);
        r := r + EQUALS;
        r := RenderValue(r, value, opts, depth);
        r := r + [59, LF];
        Regroup5(indent, PathText(path), EQUALS, ValueText(value, opts, depth), [59, LF]);
        Regroup4(PathText(path), EQUALS, ValueText(value, opts, depth), [59, LF]);
      case Block(name, tag, children) =>
        r := indent + name;
        if tag.Some? {
          r := r + [SPACE];
          r := AppendQuoted(r, tag.value);
          Regroup3(indent + name, [SPACE], Quoted(tag.value));
        }
        assert r == indent + name + LabelText(tag) by { assert indent + name + [] == indent + name; }
        r := RenderBody(r, children, opts, depth);
        Regroup4(indent, name, LabelText(tag), BodyText(children, opts, depth));
        Regroup3(name, LabelText(tag), BodyText(children, opts, depth));
      case IncludeNode(file) =>
        r := indent + (INCLUDE_WORD + [SPACE]);
        r := AppendQuoted(r, file);
        r := r + [59, LF];
        Regroup4(indent, INCLUDE_WORD + [SPACE], Quoted(file), [59, LF]);
        Regroup3(INCLUDE_WORD + [SPACE], Quoted(file), [59, LF]);
    }
    Regroup3(out, Indent(depth, opts.indentWidth), NodeTail(node, opts, depth));
  }

  /** The text of a node after its indentation. */
  ghost function NodeTail(node: Node, opts: SerializeOptions, depth: nat): bytes {
    match node
    case Assignment(path, value) => PathText(path) + EQUALS + ValueText(value, opts, depth) + [59, LF]
    case Block(name, tag, children) => name + LabelText(tag) + BodyText(children, opts, depth)
    case IncludeNode(file) => INCLUDE_WORD + [SPACE] + Quoted(file) + [59, LF]
  }

  method RenderBody(out: bytes, children: seq<Node>, opts: SerializeOptions, depth: nat) returns (r: bytes)
    ensures r == out + BodyText(children, opts, depth)
    decreases children, 1
  {
    if children == [] {
      r := out + [SPACE, 123, 125, LF];
    } else {
      r := RenderNodes(out + [SPACE, 123, LF], children, opts, depth + 1);
      r := AppendIndent(r, depth, opts.indentWidth);
      r := r + [125, LF];
      Regroup5(out, [SPACE, 123, LF], NodesText(children, opts, depth + 1), Indent(depth, opts.indentWidth), [125, LF]);
      Regroup4([SPACE, 123, LF], NodesText(children, opts, depth + 1), Indent(depth, opts.indentWidth), [125, LF]);
    }
  }

  method RenderNodes(out: bytes, nodes: seq<Node>, opts: SerializeOptions, depth: nat) returns (r: bytes)
    ensures r == out + NodesText(nodes, opts, depth)
    decreases nodes, 0
  {
    r := out;
    var k := 0;
    assert nodes[0..] == nodes;
    while k < |nodes|
      invariant 0 <= k <= |nodes| && r + NodesText(nodes[k..], opts, depth) == out + NodesText(nodes, opts, depth)
    {
      assert nodes[k..][1..] == nodes[k + 1..];
      Regroup3(r, NodeText(nodes[k], opts, depth), NodesText(nodes[k + 1..], opts, depth));
      r := RenderNode(r, nodes[k], opts, depth);
      k := k + 1;
    }
    assert nodes[k..] == [] && r + [] == r;
  }

  /** `serialize`. */
  method Serialize(doc: Document, opts: SerializeOptions) returns (text: bytes)
    ensures text == DocumentText(doc, opts)
  {
    text := RenderNodes([], doc, opts, 0);
    assert [] + DocumentText(doc, opts) == DocumentText(doc, opts);
  }
}
