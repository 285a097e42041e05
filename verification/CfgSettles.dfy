/** Writing and reading twice. */
module CfgSettles {
  // One pass through text changes a document only in its floats, and those it leaves survive: what
  // is read back once reads back as it is from then on.

  import opened CfgDocumentSpec
  import opened CfgFloatText
  import opened CfgGrammar
  import opened CfgLexRoundTrip
  import opened CfgModel
  import opened CfgReadBack
  import opened CfgRoundTrip
  import opened CfgSerializer
  import opened Common
  import Doubles

  /** The double a float is read back as is the nearest to the number that was printed. */
  lemma RereadNearest(f: Doubles.Double)
    requires Scans(f)
    ensures NearestToDecimals(RereadFloat(f))
  {
    hide Doubles.Round, Micros;
    Doubles.RoundIsNumber(PrintedSize(f));
    assert NearestTo(RereadFloat(f), Micros(Doubles.Size(f.r)));
  }

  lemma {:induction false} RereadExpressible(v: Value)
    requires Readable(v) && Finite(v) && !HasSmallest(v)
    ensures Expressible(Reread(v))
    decreases v, 1
  {
    hide NearestToDecimals, RereadFloat, Scans, IsName, AllExpressible, MembersExpressible;
    match v
    case VFloat(f) => RereadNearest(f);
    case VArray(items) => RereadAllExpressible(items);
    case VObject(members) => RereadMembersExpressible(members);
    case _ =>
  }

  lemma {:induction false} RereadAllExpressible(items: seq<Value>)
    requires AllReadable(items) && AllFinite(items) && !AnySmallest(items)
    ensures AllExpressible(RereadAll(items))
    decreases items, 0
  {
    hide Readable, Finite, HasSmallest, Expressible, Reread;
    if items != [] {
      RereadExpressible(items[0]);
      RereadAllExpressible(items[1..]);
      assert RereadAll(items)[1..] == RereadAll(items[1..]);
    }
  }

  lemma {:induction false} RereadMembersExpressible(members: seq<Member>)
    requires MembersReadable(members) && MembersFinite(members) && !MembersSmallest(members)
    ensures MembersExpressible(RereadMembers(members))
    decreases members, 0
  {
    hide Readable, Finite, HasSmallest, Expressible, Reread, IsName;
    if members != [] {
      RereadExpressible(members[0].val);
      RereadMembersExpressible(members[1..]);
      assert RereadMembers(members)[1..] == RereadMembers(members[1..]);
    }
  }

  /** Nothing nests deeper: a float printed as zero only loses its sign. */
  lemma {:induction false} RereadNeed(v: Value, d: nat)
    requires Readable(v) && Finite(v)
    ensures ValueNeed(Reread(v), d) <= ValueNeed(v, d)
    decreases v, 1
  {
    hide ItemsNeed, MembersNeed, Micros, Doubles.Round, IsName;
    match v
    case VFloat(f) => Doubles.RoundIsNumber(PrintedSize(f));
    case VArray(items) => RereadItemsNeed(items, d);
    case VObject(members) => RereadMembersNeed(members, d);
    case _ =>
  }

  lemma {:induction false} RereadItemsNeed(items: seq<Value>, d: nat)
    requires AllReadable(items) && AllFinite(items)
    ensures ItemsNeed(RereadAll(items), d) <= ItemsNeed(items, d)
    decreases items, 0
  {
    hide Readable, Finite, ValueNeed, Reread;
    if items != [] {
      RereadNeed(items[0], d + 2);
      RereadItemsNeed(items[1..], d);
      assert RereadAll(items)[1..] == RereadAll(items[1..]);
    }
  }

  lemma {:induction false} RereadMembersNeed(members: seq<Member>, d: nat)
    requires MembersReadable(members) && MembersFinite(members)
    ensures MembersNeed(RereadMembers(members), d) <= MembersNeed(members, d)
    decreases members, 0
  {
    hide Readable, Finite, ValueNeed, Reread, IsName;
    if members != [] {
      RereadNeed(members[0].val, d + 2);
      RereadMembersNeed(members[1..], d);
      assert RereadMembers(members)[1..] == RereadMembers(members[1..]);
    }
  }

  lemma {:induction false} RereadNodeOnce(node: Node, depth: nat)
    requires NodeReadable(node) && NodeFinite(node) && !SmallestIn(node) && depth > 0
    ensures NodeExpressible(RereadNode(node))
    ensures NodeNeed(RereadNode(node), depth) <= NodeNeed(node, depth)
    decreases node, 1
  {
    hide Readable, Finite, HasSmallest, Expressible, Reread, ValueNeed, IsName, AllNames;
    match node
    case Assignment(_, value) =>
      RereadExpressible(value);
      RereadNeed(value, 1);
    case Block(_, _, children) => RereadNodesOnce(children, depth + 1);
    case IncludeNode(_) =>
  }

  lemma {:induction false} RereadNodesOnce(nodes: seq<Node>, depth: nat)
    requires NodesReadable(nodes) && NodesFinite(nodes) && !SmallestAmong(nodes) && depth > 0
    ensures NodesExpressible(RereadNodes(nodes))
    ensures NodesNeed(RereadNodes(nodes), depth) <= NodesNeed(nodes, depth)
    decreases nodes, 0
  {
    hide NodeReadable, NodeFinite, SmallestIn, NodeExpressible, NodeNeed, RereadNode;
    if nodes != [] {
      RereadNodeOnce(nodes[0], depth);
      RereadNodesOnce(nodes[1..], depth);
      assert RereadNodes(nodes)[1..] == RereadNodes(nodes[1..]);
    }
  }

  /**
    * Whatever the text of a document of finite floats is read back as, whether the same or not,
    * reads back as itself, from any layout.
    */
  lemma SettlesAtOnce(doc: Document, opts: SerializeOptions, again: SerializeOptions)
    requires NodesReadable(doc) && NodesFinite(doc) && Parse(DocumentText(doc, opts)).Ok?
    ensures var once := Parse(DocumentText(doc, opts)).value;
            Parse(DocumentText(once, again)) == Ok(once)
  {
    hide Parse, DocumentText, NodesReadable, NodesFinite, SmallestAmong, NodesNeed, NodesSurvive, RereadNodes,
         NodesExpressible;
    ReadableExactly(doc, opts);
    RereadNodesOnce(doc, 1);
    ReadsBackExactly(RereadNodes(doc), again);
  }
}
