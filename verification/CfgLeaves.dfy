/** The lines of a flattened value. */
module CfgLeaves {
  // Flattening lists every place of a value where a walk ends, and nothing else, with the canonical
  // text of what stands there.

  import opened CfgFlatten
  import opened CfgModel
  import opened CfgQuery
  import opened CfgSerializer
  import opened Common

  /** Nothing lies below: a scalar, an empty array or an empty object. */
  predicate Ends(v: Value) {
    (v.VArray? ==> v.items == []) && (v.VObject? ==> v.members == [])
  }

  ghost predicate AllEnd(leaves: seq<Leaf>) {
    forall i | 0 <= i < |leaves| :: Ends(leaves[i].value)
  }

  lemma {:induction false} LeavesEnd(v: Value)
    ensures AllEnd(Leaves(v))
    decreases v, 1
  {
    match v
    case VArray(items) => ItemLeavesEnd(items, 0);
    case VObject(members) => MemberLeavesEnd(members);
    case _ =>
  }

  lemma {:induction false} ItemLeavesEnd(items: seq<Value>, k: nat)
    ensures AllEnd(ItemLeaves(items, k))
    decreases items, 0
  {
    if items != [] {
      LeavesEnd(items[0]);
      ItemLeavesEnd(items[1..], k + 1);
    }
  }

  lemma {:induction false} MemberLeavesEnd(members: seq<Member>)
    ensures AllEnd(MemberLeaves(members))
    decreases members, 0
  {
    if members != [] {
      LeavesEnd(members[0].val);
      MemberLeavesEnd(members[1..]);
    }
  }

  /** Where nothing lies below, the line has the value's canonical text, which no layout changes. */
  lemma EndText(v: Value, opts: SerializeOptions, depth: nat)
    requires Ends(v)
    ensures RenderScalar(v) == ValueText(v, opts, depth)
  {
    hide IntText, FloatText, Quoted;
  }

  lemma FoundUnder(step: Step, leaves: seq<Leaf>, others: seq<Leaf>, leaf: Leaf)
    requires leaf in leaves
    ensures Leaf([step] + leaf.steps, leaf.value) in Under(step, leaves) + others
  {
    var i :| 0 <= i < |leaves| && leaves[i] == leaf;
    assert (Under(step, leaves) + others)[i] == Leaf([step] + leaf.steps, leaf.value);
  }

  /** A walk that ends where nothing lies below ends at a leaf. */
  lemma {:induction false} WalkEndsAtLeaf(v: Value, steps: seq<Step>, end: Value)
    requires Addressable(v) && Walk(v, steps) == Some(end) && Ends(end)
    ensures Leaf(steps, end) in Leaves(v)
    decreases v, 1
  {
    hide Addressable, Ends, Under;
    if steps == [] {
      HereAlone(v);
    } else {
      var rest := steps[1..];
      assert steps == [steps[0]] + rest;
      match steps[0]
      case Index(k) =>
        ItemsReached(v);
        ItemListed(v.items, 0, k, rest, end);
      case Name(name) =>
        MembersReached(v);
        MemberListed(v.members, name, rest, end);
    }
  }

  lemma HereAlone(v: Value)
    requires Ends(v)
    ensures Leaf([], v) in Leaves(v)
  {
  }

  lemma ItemsReached(v: Value)
    requires Addressable(v) && v.VArray?
    ensures ItemsAddressable(v.items)
    ensures v.items != [] ==> Leaves(v) == ItemLeaves(v.items, 0)
  {
  }

  lemma MembersReached(v: Value)
    requires Addressable(v) && v.VObject?
    ensures MembersAddressable(v.members)
    ensures v.members != [] ==> Leaves(v) == MemberLeaves(v.members)
  {
  }

  lemma {:induction false} ItemListed(items: seq<Value>, from: nat, k: nat, rest: seq<Step>, end: Value)
    requires ItemsAddressable(items) && from <= k < from + |items|
    requires Walk(items[k - from], rest) == Some(end) && Ends(end)
    ensures Leaf([Index(k)] + rest, end) in ItemLeaves(items, from)
    decreases items, 0
  {
    hide Addressable, Ends, Walk, Leaves, Under;
    if k == from {
      WalkEndsAtLeaf(items[0], rest, end);
      FoundUnder(Index(k), Leaves(items[0]), ItemLeaves(items[1..], from + 1), Leaf(rest, end));
    } else {
      ItemListed(items[1..], from + 1, k, rest, end);
    }
  }

  lemma {:induction false} MemberListed(members: seq<Member>, name: bytes, rest: seq<Step>, end: Value)
    requires MembersAddressable(members) && MemberOf(members, name).Some?
    requires Walk(MemberOf(members, name).value, rest) == Some(end) && Ends(end)
    ensures Leaf([Name(name)] + rest, end) in MemberLeaves(members)
    decreases members, 0
  {
    hide Addressable, Ends, Walk, Leaves, Under, PathName;
    if members[0].key == name {
      WalkEndsAtLeaf(members[0].val, rest, end);
      FoundUnder(Name(name), Leaves(members[0].val), MemberLeaves(members[1..]), Leaf(rest, end));
    } else {
      MemberListed(members[1..], name, rest, end);
    }
  }

  ghost predicate IsLine(entry: FlatEntry, prefix: bytes, v: Value, steps: seq<Step>, end: Value) {
    && Walk(v, steps) == Some(end) && Ends(end)
    && TokenizeFrom(entry.path, false) == Some([Name(prefix)] + steps)
    && forall opts, depth :: entry.text == ValueText(end, opts, depth)
  }

  /**
    * Under a name: a walk leads to a place where nothing lies below exactly when there is a line
    * whose path reads back as the name and that walk, and that line has the text of what is there.
    */
  lemma LinesExactly(prefix: bytes, v: Value, steps: seq<Step>, end: Value)
    requires PathName(prefix) && Addressable(v)
    ensures Walk(v, steps) == Some(end) && Ends(end)
       <==> exists entry :: entry in FlattenValue(prefix, v) && IsLine(entry, prefix, v, steps, end)
  {
    hide PathName, Addressable, FlattenValue, Leaves, TokenizeFrom, Walk, Ends, RenderScalar, ValueText;
    if Walk(v, steps) == Some(end) && Ends(end) {
      FlattenedPathsResolve(prefix, v);
      WalkEndsAtLeaf(v, steps, end);
      var leaves, entries := Leaves(v), FlattenValue(prefix, v);
      var i :| 0 <= i < |leaves| && leaves[i] == Leaf(steps, end);
      forall opts, depth ensures entries[i].text == ValueText(end, opts, depth) {
        EndText(end, opts, depth);
      }
      assert entries[i] in entries && IsLine(entries[i], prefix, v, steps, end);
    }
  }

  /** And there is no other line. */
  lemma OnlySuchLines(prefix: bytes, v: Value, entry: FlatEntry) returns (steps: seq<Step>, end: Value)
    requires PathName(prefix) && Addressable(v) && entry in FlattenValue(prefix, v)
    ensures IsLine(entry, prefix, v, steps, end)
  {
    hide PathName, Addressable, FlattenValue, Leaves, TokenizeFrom, Walk, Ends, RenderScalar, ValueText;
    FlattenedPathsResolve(prefix, v);
    LeavesEnd(v);
    var leaves, entries := Leaves(v), FlattenValue(prefix, v);
    var i :| 0 <= i < |entries| && entries[i] == entry;
    steps, end := leaves[i].steps, leaves[i].value;
    assert Ends(leaves[i].value);
    forall opts, depth ensures entry.text == ValueText(end, opts, depth) {
      EndText(end, opts, depth);
    }
  }
}
