/** Flattened documents. */
module CfgFlatten {
  // flatten.cpp: a document as path/value lines, and the difference between two of them.

  import opened Common
  import opened CfgLexRoundTrip
  import opened CfgLexSpec
  import opened CfgModel
  import opened CfgQuery
  import opened CfgSerializer
  import opened Seqs

  datatype FlatEntry = FlatEntry(path: bytes, text: bytes)

  function JoinPath(prefix: bytes, leaf: bytes): bytes {
    if prefix == [] then leaf else prefix + [DOT] + leaf
  }

  function JoinIndex(prefix: bytes, k: nat): bytes {
    prefix + [OPEN] + NatText(k) + [CLOSE]
  }

  function RenderScalar(v: Value): bytes {
    match v
    case VNull => NULL_WORD
    case VBool(b) => if b then TRUE_WORD else FALSE_WORD
    case VInt(i) => IntText(i)
    case VFloat(f) => FloatText(f)
    case VStr(s) => Quoted(s)
    case VArray(_) => [OPEN, CLOSE]
    case VObject(_) => [123, 125]
  }

  /** One line for every scalar and every empty aggregate. */
  function FlattenValue(prefix: bytes, v: Value): seq<FlatEntry>
    decreases v, 1
  {
    match v
    case VArray(items) =>
      if items == [] then [FlatEntry(prefix, RenderScalar(v))] else FlattenItems(prefix, items, 0)
    case VObject(members) =>
      if members == [] then [FlatEntry(prefix, RenderScalar(v))] else FlattenMembers(prefix, members)
    case _ => [FlatEntry(prefix, RenderScalar(v))]
  }

  function FlattenItems(prefix: bytes, items: seq<Value>, k: nat): seq<FlatEntry>
    decreases items, 0
  {
    if items == [] then []
    else FlattenValue(JoinIndex(prefix, k), items[0]) + FlattenItems(prefix, items[1..], k + 1)
  }

  function FlattenMembers(prefix: bytes, members: seq<Member>): seq<FlatEntry>
    decreases members, 0
  {
    if members == [] then []
    else FlattenValue(JoinPath(prefix, members[0].key), members[0].val) + FlattenMembers(prefix, members[1..])
  }

  /** `flatten_into`: appended to what is already there. */
  method FlattenInto(prefix: bytes, v: Value, before: seq<FlatEntry>) returns (out: seq<FlatEntry>)
    ensures out == before + FlattenValue(prefix, v)
    decreases v, 1
  {
    hide RenderScalar, JoinIndex, JoinPath;
    match v {
      case VArray(items) =>
        if items == [] {
          return before + [FlatEntry(prefix, RenderScalar(v))];
        }
        out := before;
        assert items[0..] == items;
        for k := 0 to |items|
          invariant out + FlattenItems(prefix, items[k..], k) == before + FlattenItems(prefix, items, 0)
        {
          assert items[k..][0] == items[k] && items[k..][1..] == items[k + 1..];
          Regroup3(out, FlattenValue(JoinIndex(prefix, k), items[k]), FlattenItems(prefix, items[k + 1..], k + 1));
          out := FlattenInto(JoinIndex(prefix, k), items[k], out);
        }
        assert out + [] == out;
      case VObject(members) =>
        if members == [] {
          return before + [FlatEntry(prefix, RenderScalar(v))];
        }
        out := FlattenFields(prefix, members, before);
      case _ =>
        out := before + [FlatEntry(prefix, RenderScalar(v))];
    }
  }

  method FlattenFields(prefix: bytes, members: seq<Member>, before: seq<FlatEntry>) returns (out: seq<FlatEntry>)
    ensures out == before + FlattenMembers(prefix, members)
    decreases members, 0
  {
    hide JoinPath;
    out := before;
    assert members[0..] == members;
    for k := 0 to |members|
      invariant out + FlattenMembers(prefix, members[k..]) == before + FlattenMembers(prefix, members)
    {
      assert members[k..][0] == members[k] && members[k..][1..] == members[k + 1..];
      var path := JoinPath(prefix, members[k].key);
      Regroup3(out, FlattenValue(path, members[k].val), FlattenMembers(prefix, members[k + 1..]));
      out := FlattenInto(path, members[k].val, out);
    }
    assert out + [] == out;
  }

  // ---- flattened paths resolve

  /** A leaf of a value: the steps that lead to it. */
  datatype Leaf = Leaf(steps: seq<Step>, value: Value)

  function Under(step: Step, leaves: seq<Leaf>): (r: seq<Leaf>)
    ensures |r| == |leaves|
    ensures forall i | 0 <= i < |r| :: r[i] == Leaf([step] + leaves[i].steps, leaves[i].value)
  {
    seq(|leaves|, i requires 0 <= i < |leaves| => Leaf([step] + leaves[i].steps, leaves[i].value))
  }

  function Leaves(v: Value): seq<Leaf>
    decreases v, 1
  {
    match v
    case VArray(items) => if items == [] then [Leaf([], v)] else ItemLeaves(items, 0)
    case VObject(members) => if members == [] then [Leaf([], v)] else MemberLeaves(members)
    case _ => [Leaf([], v)]
  }

  function ItemLeaves(items: seq<Value>, k: nat): seq<Leaf>
    decreases items, 0
  {
    if items == [] then [] else Under(Index(k), Leaves(items[0])) + ItemLeaves(items[1..], k + 1)
  }

  function MemberLeaves(members: seq<Member>): seq<Leaf>
    decreases members, 0
  {
    if members == [] then []
    else Under(Name(members[0].key), Leaves(members[0].val)) + MemberLeaves(members[1..])
  }

  /** The text of steps behind a first name. */
  function StepsText(steps: seq<Step>): bytes {
    if steps == [] then [] else StepText(steps[0]) + StepsText(steps[1..])
  }

  function StepText(step: Step): bytes {
    match step
    case Name(name) => [DOT] + name
    case Index(k) => [OPEN] + NatText(k) + [CLOSE]
  }

  /** A key a path can carry: not empty, and free of the two separators. */
  predicate PathName(name: bytes) {
    name != [] && forall i | 0 <= i < |name| :: InName(name[i])
  }

  /** Keys a path can carry, distinct within each object; arrays no longer than an index can say. */
  predicate Addressable(v: Value)
    decreases v, 1
  {
    match v
    case VArray(items) => |items| < TWO64 && ItemsAddressable(items)
    case VObject(members) => MembersAddressable(members)
    case _ => true
  }

  predicate ItemsAddressable(items: seq<Value>)
    decreases items, 0
  {
    items == [] || (Addressable(items[0]) && ItemsAddressable(items[1..]))
  }

  predicate MembersAddressable(members: seq<Member>)
    decreases members, 0
  {
    members == []
    || (PathName(members[0].key) && MemberOf(members[1..], members[0].key) == None
        && Addressable(members[0].val) && MembersAddressable(members[1..]))
  }

  /** The lines of a value are its leaves, written out. */
  function Lines(prefix: bytes, leaves: seq<Leaf>): (r: seq<FlatEntry>)
    ensures |r| == |leaves|
    ensures forall i | 0 <= i < |r| ::
              r[i] == FlatEntry(prefix + StepsText(leaves[i].steps), RenderScalar(leaves[i].value))
  {
    seq(|leaves|, i requires 0 <= i < |leaves| =>
      FlatEntry(prefix + StepsText(leaves[i].steps), RenderScalar(leaves[i].value)))
  }

  lemma LinesUnder(prefix: bytes, step: Step, leaves: seq<Leaf>)
    ensures Lines(prefix, Under(step, leaves)) == Lines(prefix + StepText(step), leaves)
  {
    hide StepText, RenderScalar;
    var a, b := Lines(prefix, Under(step, leaves)), Lines(prefix + StepText(step), leaves);
    forall i | 0 <= i < |leaves| ensures a[i] == b[i] {
      var steps := leaves[i].steps;
      assert ([step] + steps)[1..] == steps;
      Regroup3(prefix, StepText(step), StepsText(steps));
    }
  }

  lemma LinesAppend(prefix: bytes, a: seq<Leaf>, b: seq<Leaf>)
    ensures Lines(prefix, a + b) == Lines(prefix, a) + Lines(prefix, b)
  {
    hide StepsText, RenderScalar;
  }

  lemma LineHere(prefix: bytes, v: Value)
    ensures Lines(prefix, [Leaf([], v)]) == [FlatEntry(prefix, RenderScalar(v))]
  {
    hide RenderScalar;
    assert prefix + StepsText([]) == prefix;
  }

  lemma {:induction false} FlattenIsLeaves(prefix: bytes, v: Value)
    requires prefix != []
    ensures FlattenValue(prefix, v) == Lines(prefix, Leaves(v))
    decreases v, 1
  {
    hide RenderScalar, Lines;
    LineHere(prefix, v);
    match v
    case VArray(items) => FlattenItemsAreLeaves(prefix, items, 0);
    case VObject(members) => FlattenMembersAreLeaves(prefix, members);
    case _ =>
  }

  lemma {:induction false} FlattenItemsAreLeaves(prefix: bytes, items: seq<Value>, k: nat)
    requires prefix != []
    ensures FlattenItems(prefix, items, k) == Lines(prefix, ItemLeaves(items, k))
    decreases items, 0
  {
    if items != [] {
      var step := Index(k);
      Regroup4(prefix, [OPEN], NatText(k), [CLOSE]);
      Regroup3([OPEN], NatText(k), [CLOSE]);
      assert JoinIndex(prefix, k) == prefix + StepText(step);
      hide JoinIndex, StepText, Lines, RenderScalar, NatText;
      FlattenIsLeaves(JoinIndex(prefix, k), items[0]);
      LinesUnder(prefix, step, Leaves(items[0]));
      FlattenItemsAreLeaves(prefix, items[1..], k + 1);
      LinesAppend(prefix, Under(step, Leaves(items[0])), ItemLeaves(items[1..], k + 1));
    }
  }

  lemma {:induction false} FlattenMembersAreLeaves(prefix: bytes, members: seq<Member>)
    requires prefix != []
    ensures FlattenMembers(prefix, members) == Lines(prefix, MemberLeaves(members))
    decreases members, 0
  {
    if members != [] {
      var step := Name(members[0].key);
      Regroup3(prefix, [DOT], members[0].key);
      assert JoinPath(prefix, members[0].key) == prefix + StepText(step);
      hide JoinPath, StepText, Lines, RenderScalar;
      FlattenIsLeaves(JoinPath(prefix, members[0].key), members[0].val);
      LinesUnder(prefix, step, Leaves(members[0].val));
      FlattenMembersAreLeaves(prefix, members[1..]);
      LinesAppend(prefix, Under(step, Leaves(members[0].val)), MemberLeaves(members[1..]));
    }
  }

  // ---- the steps of a leaf lead to it, and to no other

  ghost predicate Reachable(v: Value, leaves: seq<Leaf>) {
    forall i | 0 <= i < |leaves| :: Walk(v, leaves[i].steps) == Some(leaves[i].value)
  }

  ghost predicate Carried(leaves: seq<Leaf>) {
    forall i, j | 0 <= i < |leaves| && 0 <= j < |leaves[i].steps| :: Spellable(leaves[i].steps[j])
  }

  /** A step whose text reads back as itself. */
  predicate Spellable(step: Step) {
    match step
    case Name(name) => PathName(name)
    case Index(k) => k < TWO64
  }

  ghost predicate Distinct(leaves: seq<Leaf>) {
    forall i, j | 0 <= i < j < |leaves| :: leaves[i].steps != leaves[j].steps
  }

  /** Everything a leaf list has to satisfy. */
  ghost predicate Proper(leaves: seq<Leaf>) {
    Carried(leaves) && Distinct(leaves)
  }

  lemma {:induction false} LeavesProper(v: Value)
    requires Addressable(v)
    ensures Proper(Leaves(v)) && Reachable(v, Leaves(v))
    decreases v, 1
  {
    match v
    case VArray(items) =>
      if items != [] {
        ItemLeavesProper(items, 0, v);
      }
    case VObject(members) =>
      if members != [] {
        MemberLeavesProper(members);
      }
    case _ =>
  }

  /** Leaves under distinct first steps stay proper together. */
  lemma JoinProper(step: Step, first: seq<Leaf>, rest: seq<Leaf>)
    requires Proper(first) && Proper(rest) && Spellable(step)
    requires forall i | 0 <= i < |rest| :: rest[i].steps != [] && rest[i].steps[0] != step
    ensures Proper(Under(step, first) + rest)
  {
    var under := Under(step, first);
    var all := under + rest;
    forall i, j | 0 <= i < |all| && 0 <= j < |all[i].steps| ensures Spellable(all[i].steps[j]) {
      if i < |under| {
        assert all[i].steps == [step] + first[i].steps;
        assert j > 0 ==> all[i].steps[j] == first[i].steps[j - 1];
      } else {
        assert all[i] == rest[i - |under|];
      }
    }
    forall i, j | 0 <= i < j < |all| ensures all[i].steps != all[j].steps {
      if j < |under| {
        assert all[i].steps[1..] == first[i].steps && all[j].steps[1..] == first[j].steps;
      } else if i < |under| {
        assert all[i].steps[0] == step && all[j] == rest[j - |under|];
      } else {
        assert all[i] == rest[i - |under|] && all[j] == rest[j - |under|];
      }
    }
  }

  lemma UnderReachable(v: Value, step: Step, child: Value, leaves: seq<Leaf>)
    requires WalkStep(v, step) == Some(child) && Reachable(child, leaves)
    ensures Reachable(v, Under(step, leaves))
  {
    hide WalkStep;
    forall i | 0 <= i < |leaves| ensures Walk(v, Under(step, leaves)[i].steps) == Some(leaves[i].value) {
      assert ([step] + leaves[i].steps)[1..] == leaves[i].steps;
    }
  }

  lemma {:induction false} ItemLeavesProper(items: seq<Value>, k: nat, whole: Value)
    requires ItemsAddressable(items)
    requires whole.VArray? && k + |items| == |whole.items| < TWO64 && items == whole.items[k..]
    ensures Proper(ItemLeaves(items, k)) && Reachable(whole, ItemLeaves(items, k))
    ensures forall i | 0 <= i < |ItemLeaves(items, k)| ::
              var steps := ItemLeaves(items, k)[i].steps; steps != [] && steps[0].Index? && steps[0].index >= k
    decreases items, 0
  {
    if items != [] {
      assert items[1..] == whole.items[k + 1..];
      LeavesProper(items[0]);
      ItemLeavesProper(items[1..], k + 1, whole);
      hide Leaves, Proper, Reachable, Addressable, ItemsAddressable;
      JoinProper(Index(k), Leaves(items[0]), ItemLeaves(items[1..], k + 1));
      UnderReachable(whole, Index(k), items[0], Leaves(items[0]));
      ReachableAppend(whole, Under(Index(k), Leaves(items[0])), ItemLeaves(items[1..], k + 1));
    }
  }

  lemma ReachableAppend(v: Value, a: seq<Leaf>, b: seq<Leaf>)
    requires Reachable(v, a) && Reachable(v, b)
    ensures Reachable(v, a + b)
  {
  }

  lemma {:induction false} MemberLeavesProper(members: seq<Member>)
    requires MembersAddressable(members)
    ensures Proper(MemberLeaves(members)) && Reachable(VObject(members), MemberLeaves(members))
    ensures forall i | 0 <= i < |MemberLeaves(members)| ::
              var steps := MemberLeaves(members)[i].steps;
              steps != [] && steps[0].Name? && MemberOf(members, steps[0].name).Some?
    decreases members, 0
  {
    if members != [] {
      var key, rest := members[0].key, members[1..];
      LeavesProper(members[0].val);
      MemberLeavesProper(rest);
      hide Leaves, Proper, Addressable, MembersAddressable;
      JoinProper(Name(key), Leaves(members[0].val), MemberLeaves(rest));
      UnderReachable(VObject(members), Name(key), members[0].val, Leaves(members[0].val));
      OtherMembers(members, MemberLeaves(rest));
      ReachableAppend(VObject(members), Under(Name(key), Leaves(members[0].val)), MemberLeaves(rest));
    }
  }

  /** A member in front does not hide members of other names. */
  lemma OtherMembers(members: seq<Member>, leaves: seq<Leaf>)
    requires members != [] && Reachable(VObject(members[1..]), leaves)
    requires forall i | 0 <= i < |leaves| ::
               leaves[i].steps != [] && leaves[i].steps[0].Name? && leaves[i].steps[0].name != members[0].key
    ensures Reachable(VObject(members), leaves)
  {
  }

  // ---- the text of the steps reads back

  lemma {:induction false} IndexReadsBack(k: nat)
    requires k < TWO64
    ensures var t := NatText(k);
            (forall i | 0 <= i < |t| :: IsDigit(t[i])) && IndexValue(t) == k
  {
    var t := NatText(k);
    if k >= 10 {
      IndexReadsBack(k / 10);
      assert t[..|t| - 1] == NatText(k / 10);
    } else {
      assert t[..|t| - 1] == [];
    }
  }

  lemma OneToken(s: bytes)
    requires s != []
    ensures var read := ReadStep(if s[0] == DOT then s[1..] else s, true);
            TokenizeFrom(s, true)
            == if read.None? then None else Cons(read.value.0, TokenizeFrom(read.value.1, true))
  {
    hide ReadStep;
  }

  lemma StepReadsBack(step: Step, k: bytes)
    requires Spellable(step) && (k == [] || k[0] == DOT || k[0] == OPEN)
    ensures TokenizeFrom(StepText(step) + k, true) == Cons(step, TokenizeFrom(k, true))
  {
    hide ReadStep, PathName, NatText, TokenizeFrom;
    var s := StepText(step) + k;
    OneToken(s);
    match step
    case Name(name) =>
      assert s[0] == DOT && s[1..] == name + k;
      NameReadsBack(name, k, true);
    case Index(i) =>
      assert s[0] == OPEN;
      IndexStepReadsBack(i, k);
  }

  lemma IndexStepReadsBack(i: nat, k: bytes)
    requires i < TWO64
    ensures ReadStep(StepText(Index(i)) + k, true) == Some((Index(i), k))
  {
    var t := NatText(i);
    var s := StepText(Index(i)) + k;
    IndexReadsBack(i);
    hide NatText, IndexValue;
    Regroup4([OPEN], t, [CLOSE], k);
    SpanExact(t, [CLOSE] + k, IsDigit);
    hide Span;
    assert s[1..] == t + ([CLOSE] + k);
    assert s[1..][..|t|] == t;
    assert s[1 + |t|] == CLOSE && s[2 + |t|..] == k;
  }

  lemma NameReadsBack(name: bytes, k: bytes, started: bool)
    requires PathName(name) && (k == [] || k[0] == DOT || k[0] == OPEN)
    ensures ReadStep(name + k, started) == Some((Name(name), k))
  {
    SpanExact(name, k, InName);
    assert (name + k)[..|name|] == name && (name + k)[|name|..] == k;
    assert InName(name[0]) && (name + k)[0] == name[0];
  }

  lemma {:induction false} StepsReadBack(steps: seq<Step>)
    requires forall i | 0 <= i < |steps| :: Spellable(steps[i])
    ensures TokenizeFrom(StepsText(steps), true) == Some(steps)
    ensures var t := StepsText(steps); t == [] || t[0] == DOT || t[0] == OPEN
    decreases steps
  {
    if steps != [] {
      var rest := steps[1..];
      StepsReadBack(rest);
      hide TokenizeFrom;
      StepReadsBack(steps[0], StepsText(rest));
      assert steps == [steps[0]] + rest;
    }
  }

  lemma PathReadsBack(prefix: bytes, steps: seq<Step>)
    requires PathName(prefix) && forall i | 0 <= i < |steps| :: Spellable(steps[i])
    ensures TokenizeFrom(prefix + StepsText(steps), false) == Some([Name(prefix)] + steps)
  {
    StepsReadBack(steps);
    var k := StepsText(steps);
    NameReadsBack(prefix, k, false);
    assert InName(prefix[0]);
    assert (prefix + k)[0] == prefix[0];
    hide ReadStep, StepsText;
    assert TokenizeFrom(prefix + k, false) == Cons(Name(prefix), TokenizeFrom(k, true));
  }

  /**
    * Flattening under a name: every line's path reads back as steps that walk to the leaf the
    * line renders, and no two lines share a path.
    */
  lemma FlattenedPathsResolve(prefix: bytes, v: Value)
    requires PathName(prefix) && Addressable(v)
    ensures var entries, leaves := FlattenValue(prefix, v), Leaves(v);
            && |entries| == |leaves|
            && (forall i | 0 <= i < |entries| ::
                  && TokenizeFrom(entries[i].path, false) == Some([Name(prefix)] + leaves[i].steps)
                  && Walk(v, leaves[i].steps) == Some(leaves[i].value)
                  && entries[i].text == RenderScalar(leaves[i].value))
            && (forall i, j | 0 <= i < j < |entries| :: entries[i].path != entries[j].path)
  {
    var entries, leaves := FlattenValue(prefix, v), Leaves(v);
    FlattenIsLeaves(prefix, v);
    LeavesProper(v);
    hide FlattenValue, Leaves, RenderScalar, StepsText, TokenizeFrom, Addressable, PathName;
    forall i | 0 <= i < |entries|
      ensures TokenizeFrom(entries[i].path, false) == Some([Name(prefix)] + leaves[i].steps)
    {
      assert forall j | 0 <= j < |leaves[i].steps| :: Spellable(leaves[i].steps[j]);
      PathReadsBack(prefix, leaves[i].steps);
    }
    forall i, j | 0 <= i < j < |entries| ensures entries[i].path != entries[j].path {
      assert ([Name(prefix)] + leaves[i].steps)[1..] == leaves[i].steps;
      assert ([Name(prefix)] + leaves[j].steps)[1..] == leaves[j].steps;
    }
  }

  // ---- differences

  datatype Change = Removed(was: bytes) | Added(now: bytes) | Changed(was: bytes, now: bytes)

  datatype DiffEntry = DiffEntry(path: bytes, change: Change)

  /** Last write wins. */
  function IndexOf(entries: seq<FlatEntry>): map<bytes, bytes> {
    if entries == [] then map[]
    else
      var last := entries[|entries| - 1];
      IndexOf(entries[..|entries| - 1])[last.path := last.text]
  }

  /** What one path contributes to the removals, and to the additions and changes. */
  function RemovalOf(path: bytes, a: map<bytes, bytes>, b: map<bytes, bytes>): seq<DiffEntry>
    requires path in a
  {
    if path in b then [] else [DiffEntry(path, Removed(a[path]))]
  }

  function ArrivalOf(path: bytes, a: map<bytes, bytes>, b: map<bytes, bytes>): seq<DiffEntry>
    requires path in b
  {
    if path !in a then [DiffEntry(path, Added(b[path]))]
    else if a[path] != b[path] then [DiffEntry(path, Changed(a[path], b[path]))]
    else []
  }

  ghost predicate AllIn(entries: seq<FlatEntry>, index: map<bytes, bytes>) {
    forall i | 0 <= i < |entries| :: entries[i].path in index
  }

  /** Removed paths in the order of their first line. */
  function Removals(entries: seq<FlatEntry>, seen: set<bytes>, a: map<bytes, bytes>,
                    b: map<bytes, bytes>): seq<DiffEntry>
    requires AllIn(entries, a)
  {
    if entries == [] then []
    else if entries[0].path in seen then Removals(entries[1..], seen, a, b)
    else RemovalOf(entries[0].path, a, b) + Removals(entries[1..], seen + {entries[0].path}, a, b)
  }

  function Arrivals(entries: seq<FlatEntry>, seen: set<bytes>, a: map<bytes, bytes>,
                    b: map<bytes, bytes>): seq<DiffEntry>
    requires AllIn(entries, b)
  {
    if entries == [] then []
    else if entries[0].path in seen then Arrivals(entries[1..], seen, a, b)
    else ArrivalOf(entries[0].path, a, b) + Arrivals(entries[1..], seen + {entries[0].path}, a, b)
  }

  lemma {:induction false} Indexed(entries: seq<FlatEntry>)
    ensures AllIn(entries, IndexOf(entries))
    ensures forall path | path in IndexOf(entries) :: exists i :: 0 <= i < |entries| && entries[i].path == path
  {
    if entries != [] {
      var front, last := entries[..|entries| - 1], entries[|entries| - 1];
      Indexed(front);
      assert IndexOf(entries) == IndexOf(front)[last.path := last.text];
      forall i | 0 <= i < |entries| ensures entries[i].path in IndexOf(entries) {
        assert i < |front| ==> entries[i] == front[i];
      }
      forall path | path in IndexOf(entries) ensures exists i :: 0 <= i < |entries| && entries[i].path == path {
        if path != last.path {
          var i :| 0 <= i < |front| && front[i].path == path;
          assert entries[i].path == path;
        } else {
          assert entries[|entries| - 1].path == path;
        }
      }
    }
  }

  function DiffOf(a: seq<FlatEntry>, b: seq<FlatEntry>): seq<DiffEntry> {
    Indexed(a);
    Indexed(b);
    Removals(a, {}, IndexOf(a), IndexOf(b)) + Arrivals(b, {}, IndexOf(a), IndexOf(b))
  }

  method BuildIndex(entries: seq<FlatEntry>) returns (index: map<bytes, bytes>)
    ensures index == IndexOf(entries)
  {
    index := map[];
    for i := 0 to |entries|
      invariant index == IndexOf(entries[..i])
    {
      assert entries[..i + 1][..i] == entries[..i] && entries[..i + 1][i] == entries[i];
      index := index[entries[i].path := entries[i].text];
    }
    assert entries[..|entries|] == entries;
  }

  /** `diff`. */
  method Diff(a: seq<FlatEntry>, b: seq<FlatEntry>) returns (out: seq<DiffEntry>)
    ensures out == DiffOf(a, b)
  {
    var aIndex := BuildIndex(a);
    var bIndex := BuildIndex(b);
    Indexed(a);
    Indexed(b);
    var removed := ScanRemovals(a, aIndex, bIndex);
    var arrived := ScanArrivals(b, aIndex, bIndex);
    out := removed + arrived;
  }

  method ScanRemovals(entries: seq<FlatEntry>, a: map<bytes, bytes>, b: map<bytes, bytes>) returns (out: seq<DiffEntry>)
    requires AllIn(entries, a)
    ensures out == Removals(entries, {}, a, b)
  {
    out := [];
    var seen: set<bytes> := {};
    assert entries[0..] == entries;
    for i := 0 to |entries|
      invariant AllIn(entries[i..], a) && out + Removals(entries[i..], seen, a, b) == Removals(entries, {}, a, b)
    {
      var path := entries[i].path;
      assert entries[i..][0] == entries[i] && entries[i..][1..] == entries[i + 1..];
      if path !in seen {
        Regroup3(out, RemovalOf(path, a, b), Removals(entries[i + 1..], seen + {path}, a, b));
        seen := seen + {path};
        if path !in b {
          out := out + [DiffEntry(path, Removed(a[path]))];
        } else {
          assert out + [] == out;
        }
      }
    }
    assert out + [] == out;
  }

  method ScanArrivals(entries: seq<FlatEntry>, a: map<bytes, bytes>, b: map<bytes, bytes>) returns (out: seq<DiffEntry>)
    requires AllIn(entries, b)
    ensures out == Arrivals(entries, {}, a, b)
  {
    out := [];
    var seen: set<bytes> := {};
    assert entries[0..] == entries;
    for i := 0 to |entries|
      invariant AllIn(entries[i..], b) && out + Arrivals(entries[i..], seen, a, b) == Arrivals(entries, {}, a, b)
    {
      var path := entries[i].path;
      assert entries[i..][0] == entries[i] && entries[i..][1..] == entries[i + 1..];
      if path !in seen {
        Regroup3(out, ArrivalOf(path, a, b), Arrivals(entries[i + 1..], seen + {path}, a, b));
        seen := seen + {path};
        if path !in a {
          out := out + [DiffEntry(path, Added(b[path]))];
        } else if a[path] != b[path] {
          out := out + [DiffEntry(path, Changed(a[path], b[path]))];
        } else {
          assert out + [] == out;
        }
      }
    }
    assert out + [] == out;
  }

  // ---- a difference is a patch

  function Patch(index: map<bytes, bytes>, e: DiffEntry): map<bytes, bytes> {
    match e.change
    case Removed(_) => index - {e.path}
    case Added(text) => index[e.path := text]
    case Changed(_, text) => index[e.path := text]
  }

  function PatchAll(index: map<bytes, bytes>, d: seq<DiffEntry>): map<bytes, bytes>
    decreases d
  {
    if d == [] then index else PatchAll(Patch(index, d[0]), d[1..])
  }

  /** What a difference says about a path: at most one change. */
  function ChangeAt(d: seq<DiffEntry>, path: bytes): Option<Change> {
    if d == [] then None
    else if d[0].path == path then Some(d[0].change)
    else ChangeAt(d[1..], path)
  }

  ghost predicate OncePerPath(d: seq<DiffEntry>) {
    forall i, j | 0 <= i < j < |d| :: d[i].path != d[j].path
  }

  function Look(index: map<bytes, bytes>, path: bytes): Option<bytes> {
    if path in index then Some(index[path]) else None
  }

  /** The text a path has after a change. */
  function TextAfter(c: Change): Option<bytes> {
    match c
    case Removed(_) => None
    case Added(text) => Some(text)
    case Changed(_, text) => Some(text)
  }

  lemma {:induction false} PatchAt(index: map<bytes, bytes>, d: seq<DiffEntry>, path: bytes)
    requires OncePerPath(d)
    ensures Look(PatchAll(index, d), path)
         == if ChangeAt(d, path).Some? then TextAfter(ChangeAt(d, path).value) else Look(index, path)
    decreases d
  {
    if d != [] {
      assert OncePerPath(d[1..]);
      PatchAt(Patch(index, d[0]), d[1..], path);
      if d[0].path == path {
        NotAgain(d, path);
      }
    }
  }

  lemma NotAgain(d: seq<DiffEntry>, path: bytes)
    requires OncePerPath(d) && d != [] && d[0].path == path
    ensures ChangeAt(d[1..], path) == None
  {
    NoChangeAt(d[1..], path);
  }

  lemma {:induction false} NoChangeAt(d: seq<DiffEntry>, path: bytes)
    requires forall i | 0 <= i < |d| :: d[i].path != path
    ensures ChangeAt(d, path) == None
  {
    if d != [] {
      NoChangeAt(d[1..], path);
    }
  }

  /** The change a path undergoes between two indexes. */
  function Between(a: map<bytes, bytes>, b: map<bytes, bytes>, path: bytes): Option<Change> {
    if path in a && path !in b then Some(Removed(a[path]))
    else if path !in a && path in b then Some(Added(b[path]))
    else if path in a && path in b && a[path] != b[path] then Some(Changed(a[path], b[path]))
    else None
  }

  predicate Listed(entries: seq<FlatEntry>, path: bytes) {
    exists i :: 0 <= i < |entries| && entries[i].path == path
  }

  lemma ListedCons(entries: seq<FlatEntry>, path: bytes)
    requires entries != []
    ensures Listed(entries, path) <==> entries[0].path == path || Listed(entries[1..], path)
  {
    if Listed(entries[1..], path) {
      var i :| 0 <= i < |entries[1..]| && entries[1..][i].path == path;
      assert entries[i + 1].path == path;
    }
    if Listed(entries, path) && entries[0].path != path {
      var i :| 0 <= i < |entries| && entries[i].path == path;
      assert entries[1..][i - 1].path == path;
    }
  }

  lemma {:induction false} RemovalsAt(entries: seq<FlatEntry>, seen: set<bytes>, a: map<bytes, bytes>,
                                      b: map<bytes, bytes>, path: bytes)
    requires AllIn(entries, a)
    ensures ChangeAt(Removals(entries, seen, a, b), path)
         == if Listed(entries, path) && path !in seen && path !in b then Between(a, b, path) else None
    decreases entries
  {
    if entries != [] {
      ListedCons(entries, path);
      var p := entries[0].path;
      RemovalsAt(entries[1..], if p in seen then seen else seen + {p}, a, b, path);
      if p !in seen {
        ChangeCons(RemovalOf(p, a, b), Removals(entries[1..], seen + {p}, a, b), path);
      }
    }
  }

  lemma {:induction false} ArrivalsAt(entries: seq<FlatEntry>, seen: set<bytes>, a: map<bytes, bytes>,
                                      b: map<bytes, bytes>, path: bytes)
    requires AllIn(entries, b)
    ensures ChangeAt(Arrivals(entries, seen, a, b), path)
         == if Listed(entries, path) && path !in seen then Between(a, b, path) else None
    decreases entries
  {
    if entries != [] {
      ListedCons(entries, path);
      var p := entries[0].path;
      ArrivalsAt(entries[1..], if p in seen then seen else seen + {p}, a, b, path);
      if p !in seen {
        ChangeCons(ArrivalOf(p, a, b), Arrivals(entries[1..], seen + {p}, a, b), path);
      }
    }
  }

  /** At most one entry in front of others. */
  lemma ChangeCons(first: seq<DiffEntry>, rest: seq<DiffEntry>, path: bytes)
    requires |first| <= 1
    ensures ChangeAt(first + rest, path)
         == if first != [] && first[0].path == path then Some(first[0].change) else ChangeAt(rest, path)
  {
    if first == [] {
      assert first + rest == rest;
    } else {
      assert (first + rest)[1..] == rest;
    }
  }

  lemma {:induction false} ChangeAppend(a: seq<DiffEntry>, b: seq<DiffEntry>, path: bytes)
    ensures ChangeAt(a + b, path) == if ChangeAt(a, path).Some? then ChangeAt(a, path) else ChangeAt(b, path)
    decreases a
  {
    if a == [] {
      assert a + b == b;
    } else {
      assert (a + b)[1..] == a[1..] + b && (a + b)[0] == a[0];
      ChangeAppend(a[1..], b, path);
    }
  }

  /** The difference lists for every path exactly the change it undergoes. */
  lemma DiffAt(a: seq<FlatEntry>, b: seq<FlatEntry>, path: bytes)
    ensures ChangeAt(DiffOf(a, b), path) == Between(IndexOf(a), IndexOf(b), path)
  {
    Indexed(a);
    Indexed(b);
    var x, y := IndexOf(a), IndexOf(b);
    RemovalsAt(a, {}, x, y, path);
    ArrivalsAt(b, {}, x, y, path);
    ChangeAppend(Removals(a, {}, x, y), Arrivals(b, {}, x, y), path);
    hide IndexOf, Removals, Arrivals, ChangeAt;
    assert Listed(a, path) <==> path in x;
    assert Listed(b, path) <==> path in y;
  }

  lemma {:induction false} RemovalsOnce(entries: seq<FlatEntry>, seen: set<bytes>, a: map<bytes, bytes>,
                                        b: map<bytes, bytes>)
    requires AllIn(entries, a)
    ensures var d := Removals(entries, seen, a, b);
            OncePerPath(d) && forall i | 0 <= i < |d| :: d[i].path !in seen && d[i].path !in b
    decreases entries
  {
    if entries != [] {
      var p := entries[0].path;
      RemovalsOnce(entries[1..], if p in seen then seen else seen + {p}, a, b);
      if p !in seen {
        OnceCons(RemovalOf(p, a, b), Removals(entries[1..], seen + {p}, a, b), p);
      }
    }
  }

  lemma {:induction false} ArrivalsOnce(entries: seq<FlatEntry>, seen: set<bytes>, a: map<bytes, bytes>,
                                        b: map<bytes, bytes>)
    requires AllIn(entries, b)
    ensures var d := Arrivals(entries, seen, a, b);
            OncePerPath(d) && forall i | 0 <= i < |d| :: d[i].path !in seen && d[i].path in b
    decreases entries
  {
    if entries != [] {
      var p := entries[0].path;
      ArrivalsOnce(entries[1..], if p in seen then seen else seen + {p}, a, b);
      if p !in seen {
        OnceCons(ArrivalOf(p, a, b), Arrivals(entries[1..], seen + {p}, a, b), p);
      }
    }
  }

  lemma OnceCons(first: seq<DiffEntry>, rest: seq<DiffEntry>, p: bytes)
    requires |first| <= 1 && (first != [] ==> first[0].path == p) && OncePerPath(rest)
    requires forall i | 0 <= i < |rest| :: rest[i].path != p
    ensures OncePerPath(first + rest)
    ensures forall i | 0 <= i < |first + rest| :: (first + rest)[i].path == p || (first + rest)[i] in rest
  {
    var all := first + rest;
    forall i, j | 0 <= i < j < |all| ensures all[i].path != all[j].path {
      assert all[j] == rest[j - |first|];
      assert i >= |first| ==> all[i] == rest[i - |first|];
    }
  }

  /**
    * A difference lists each path at most once, turns the first index into the second, and is
    * empty exactly when there is nothing to change.
    */
  lemma DiffIsPatch(a: seq<FlatEntry>, b: seq<FlatEntry>)
    ensures OncePerPath(DiffOf(a, b))
    ensures PatchAll(IndexOf(a), DiffOf(a, b)) == IndexOf(b)
    ensures DiffOf(a, b) == [] <==> IndexOf(a) == IndexOf(b)
  {
    var x, y, d := IndexOf(a), IndexOf(b), DiffOf(a, b);
    DiffOnce(a, b);
    hide IndexOf, DiffOf, PatchAll;
    var z := PatchAll(x, d);
    forall path: bytes ensures Look(z, path) == Look(y, path) {
      PatchAt(x, d, path);
      DiffAt(a, b, path);
    }
    SameLooks(z, y);
    if x == y && d != [] {
      DiffAt(a, b, d[0].path);
      assert false;
    }
    if d == [] {
      assert z == x by { NoPatch(x); }
    }
  }

  lemma NoPatch(x: map<bytes, bytes>)
    ensures PatchAll(x, []) == x
  {
  }

  lemma DiffOnce(a: seq<FlatEntry>, b: seq<FlatEntry>)
    ensures OncePerPath(DiffOf(a, b))
  {
    Indexed(a);
    Indexed(b);
    RemovalsOnce(a, {}, IndexOf(a), IndexOf(b));
    ArrivalsOnce(b, {}, IndexOf(a), IndexOf(b));
  }

  lemma SameLooks(x: map<bytes, bytes>, y: map<bytes, bytes>)
    requires forall path: bytes :: Look(x, path) == Look(y, path)
    ensures x == y
  {
    assert forall path :: path in x ==> Look(x, path) == Look(y, path);
    assert forall path :: path in y ==> Look(x, path) == Look(y, path);
  }
}
