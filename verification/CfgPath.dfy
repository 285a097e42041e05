/** The grammar of path strings. */
module CfgPath {
  // Which strings the query tokenizer takes, and the steps they mean. A dot stands in front of a name
  // behind a name; anywhere else behind the first step it may be left out.

  import opened CfgLexRoundTrip
  import opened CfgLexSpec
  import opened CfgModel
  import opened CfgQuery
  import opened Common
  import opened Seqs

  /** A step as it is written: a dot or none, and a name or the digits of an index. */
  datatype Hop = Named(dot: bool, name: bytes) | Numbered(dot: bool, digits: bytes)

  /** What stands in front of a hop. */
  datatype Before = Nothing | AName | AnIndex

  predicate HopGood(h: Hop, before: Before) {
    && (before == Nothing ==> h.Named? && !h.dot)
    && match h
       case Named(dot, name) =>
         name != [] && (forall i | 0 <= i < |name| :: name[i] != 46 && name[i] != 91) && (before == AName ==> dot)
       case Numbered(_, digits) => digits != [] && forall i | 0 <= i < |digits| :: 48 <= digits[i] <= 57
  }

  function HopText(h: Hop): bytes {
    (if h.dot then [46] else []) + (if h.Named? then h.name else [91] + h.digits + [93])
  }

  function HopStep(h: Hop): Step
    requires h.Numbered? ==> forall i | 0 <= i < |h.digits| :: 48 <= h.digits[i] <= 57
  {
    match h
    case Named(_, name) => Name(name)
    case Numbered(_, digits) => Index(DigitsValue(digits, 10) % 0x1_0000_0000_0000_0000)
  }

  function Behind(h: Hop): Before {
    if h.Named? then AName else AnIndex
  }

  predicate HopsGood(hops: seq<Hop>, before: Before) {
    hops == [] || (HopGood(hops[0], before) && HopsGood(hops[1..], Behind(hops[0])))
  }

  function HopsText(hops: seq<Hop>): bytes {
    if hops == [] then [] else HopText(hops[0]) + HopsText(hops[1..])
  }

  function HopsSteps(hops: seq<Hop>, before: Before): seq<Step>
    requires HopsGood(hops, before)
  {
    if hops == [] then [] else [HopStep(hops[0])] + HopsSteps(hops[1..], Behind(hops[0]))
  }

  lemma {:induction false} IndexIsDigits(digits: bytes)
    requires forall i | 0 <= i < |digits| :: IsDigit(digits[i])
    ensures IndexValue(digits) == DigitsValue(digits, 10) % TWO64
  {
    if digits != [] {
      var front, last := digits[..|digits| - 1], HexValue(digits[|digits| - 1]);
      IndexIsDigits(front);
      WrappedStep(DigitsValue(front, 10), last);
    }
  }

  lemma WrappedStep(v: nat, last: nat)
    ensures (v % TWO64 * 10 + last) % TWO64 == (v * 10 + last) % TWO64
  {
    var q := v / TWO64;
    assert v * 10 + last == v % TWO64 * 10 + last + 10 * q * TWO64;
  }

  // ---- paths of that form are taken

  /** Behind a name only a dot or an index goes on. */
  lemma NameEnds(hops: seq<Hop>)
    requires HopsGood(hops, AName)
    ensures var k := HopsText(hops); k == [] || k[0] == 46 || k[0] == 91
  {
  }

  lemma NameRead(name: bytes, k: bytes, started: bool)
    requires name != [] && (forall i | 0 <= i < |name| :: InName(name[i])) && (k == [] || !InName(k[0]))
    ensures ReadStep(name + k, started) == Some((Name(name), k))
  {
    SpanExact(name, k, InName);
    assert (name + k)[..|name|] == name && (name + k)[|name|..] == k && (name + k)[0] == name[0];
  }

  lemma Bracketed(digits: bytes, k: bytes)
    requires forall i | 0 <= i < |digits| :: IsDigit(digits[i])
    ensures var s, n := [91] + digits + [93] + k, |digits|;
            Span(s[1..], IsDigit) == n && s[1..][..n] == digits && At(s, 1 + n) == 93 && s[2 + n..] == k
  {
    var s, n := [91] + digits + [93] + k, |digits|;
    assert s[1..] == digits + ([93] + k);
    SpanExact(digits, [93] + k, IsDigit);
    hide Span;
    assert s[2 + n..] == k;
  }

  lemma IndexRead(digits: bytes, k: bytes)
    requires digits != [] && forall i | 0 <= i < |digits| :: IsDigit(digits[i])
    ensures ReadStep([91] + digits + [93] + k, true) == Some((Index(DigitsValue(digits, 10) % TWO64), k))
  {
    hide IndexValue, DigitsValue, Span;
    Bracketed(digits, k);
    IndexIsDigits(digits);
  }

  lemma HopRead(h: Hop, before: Before, k: bytes)
    requires HopGood(h, before) && (h.Named? ==> k == [] || k[0] == 46 || k[0] == 91)
    ensures var s := HopText(h) + k;
            && s != [] && (s[0] == DOT <==> h.dot) && (before == Nothing ==> s[0] != DOT)
            && ReadStep(if s[0] == DOT then s[1..] else s, before != Nothing) == Some((HopStep(h), k))
  {
    hide ReadStep, DigitsValue;
    var bare := if h.Named? then h.name else [91] + h.digits + [93];
    var s := HopText(h) + k;
    assert s == (if h.dot then [46] + (bare + k) else bare + k);
    assert bare[0] != DOT;
    assert h.dot ==> s[1..] == bare + k;
    if h.Named? {
      NameRead(h.name, k, before != Nothing);
    } else {
      IndexRead(h.digits, k);
    }
  }

  lemma {:induction false} HopsRead(hops: seq<Hop>, before: Before)
    requires HopsGood(hops, before)
    ensures TokenizeFrom(HopsText(hops), before != Nothing) == Some(HopsSteps(hops, before))
    decreases |hops|
  {
    hide ReadStep, HopText, HopStep, HopGood;
    if hops != [] {
      var k := HopsText(hops[1..]);
      if hops[0].Named? {
        NameEnds(hops[1..]);
      }
      HopRead(hops[0], before, k);
      HopsRead(hops[1..], Behind(hops[0]));
    }
  }

  // ---- whatever is taken has that form

  lemma NameWritten(s: bytes, started: bool) returns (name: bytes)
    requires s != [] && s[0] != OPEN && ReadStep(s, started).Some?
    ensures var (step, k) := ReadStep(s, started).value;
            && name != [] && (forall i | 0 <= i < |name| :: name[i] != 46 && name[i] != 91)
            && s == name + k && step == Name(name) && (k == [] || k[0] == 46 || k[0] == 91)
  {
    var n := Span(s, InName);
    hide Span;
    name := s[..n];
    assert s == s[..n] + s[n..];
  }

  lemma IndexWritten(s: bytes, started: bool) returns (digits: bytes)
    requires s != [] && s[0] == OPEN && ReadStep(s, started).Some?
    ensures var (step, k) := ReadStep(s, started).value;
            && started && digits != [] && (forall i | 0 <= i < |digits| :: IsDigit(digits[i]))
            && s == [91] + digits + [93] + k && step == Index(DigitsValue(digits, 10) % TWO64)
  {
    hide IndexValue, DigitsValue;
    var n := Span(s[1..], IsDigit);
    digits := s[1..][..n];
    hide Span;
    IndexIsDigits(digits);
    assert s[1 + n] == 93;
    assert s == [91] + digits + [93] + s[2 + n..];
  }

  /** Behind a dot, or none, a step is a hop. */
  lemma StepWritten(dot: bool, s: bytes, before: Before) returns (h: Hop)
    requires s != [] && (before == Nothing ==> !dot && s[0] != 46) && (before == AName && !dot ==> s[0] == 91)
    requires ReadStep(s, before != Nothing).Some?
    ensures var (step, k) := ReadStep(s, before != Nothing).value;
            && HopGood(h, before) && HopStep(h) == step && h.dot == dot
            && s == (if h.Named? then h.name else [91] + h.digits + [93]) + k
            && (h.Named? ==> k == [] || k[0] == 46 || k[0] == 91)
  {
    hide ReadStep, DigitsValue;
    if s[0] == OPEN {
      var digits := IndexWritten(s, before != Nothing);
      h := Numbered(dot, digits);
    } else {
      var name := NameWritten(s, before != Nothing);
      h := Named(dot, name);
    }
  }

  lemma HopWritten(s: bytes, before: Before) returns (h: Hop)
    requires s != [] && !(s[0] == DOT && before == Nothing) && (before == AName ==> s[0] == 46 || s[0] == 91)
    requires ReadStep(if s[0] == DOT then s[1..] else s, before != Nothing).Some?
    ensures var (step, k) := ReadStep(if s[0] == DOT then s[1..] else s, before != Nothing).value;
            && HopGood(h, before) && s == HopText(h) + k && HopStep(h) == step
            && (h.Named? ==> k == [] || k[0] == 46 || k[0] == 91)
  {
    var dot := s[0] == DOT;
    var bare := if dot then s[1..] else s;
    SomeStep(bare, before != Nothing);
    h := StepWritten(dot, bare, before);
    var k := ReadStep(bare, before != Nothing).value.1;
    hide ReadStep, HopGood, HopStep;
    DotOrNone(s);
    BehindDot(h, bare, k);
  }

  lemma DotOrNone(s: bytes)
    requires s != []
    ensures s == if s[0] == DOT then [46] + s[1..] else [] + s
  {
  }

  lemma BehindDot(h: Hop, bare: bytes, k: bytes)
    requires bare == (if h.Named? then h.name else [91] + h.digits + [93]) + k
    ensures HopText(h) + k == if h.dot then [46] + bare else [] + bare
  {
    Regroup3(if h.dot then [46] else [], if h.Named? then h.name else [91] + h.digits + [93], k);
  }

  lemma SomeStep(s: bytes, started: bool)
    requires ReadStep(s, started).Some?
    ensures s != []
  {
  }

  lemma {:induction false} HopsWritten(s: bytes, before: Before) returns (hops: seq<Hop>)
    requires TokenizeFrom(s, before != Nothing).Some?
    requires before == AName ==> s == [] || s[0] == 46 || s[0] == 91
    ensures HopsGood(hops, before) && s == HopsText(hops)
    ensures TokenizeFrom(s, before != Nothing) == Some(HopsSteps(hops, before))
    decreases |s|
  {
    hide ReadStep, HopText, HopStep, HopGood;
    hops := [];
    if s != [] {
      var h := HopWritten(s, before);
      var rest := HopsWritten(ReadStep(if s[0] == DOT then s[1..] else s, before != Nothing).value.1, Behind(h));
      hops := [h] + rest;
      assert hops[1..] == rest;
    }
  }

  ghost predicate IsPath(path: bytes, hops: seq<Hop>, steps: seq<Step>) {
    HopsGood(hops, Nothing) && path == HopsText(hops) && steps == HopsSteps(hops, Nothing)
  }

  /** The tokenizer takes exactly the strings of that form, as the steps they write. */
  lemma TokenizesExactly(path: bytes, steps: seq<Step>)
    ensures TokenizeFrom(path, false) == Some(steps) <==> exists hops :: IsPath(path, hops, steps)
  {
    hide TokenizeFrom, HopsGood, HopsText, HopsSteps;
    if TokenizeFrom(path, false) == Some(steps) {
      var hops := HopsWritten(path, Nothing);
      assert IsPath(path, hops, steps);
    }
    if exists hops :: IsPath(path, hops, steps) {
      var hops :| IsPath(path, hops, steps);
      HopsRead(hops, Nothing);
    }
  }

  // ---- where a step lands

  /** The first member of that name. */
  predicate IsFirst(members: seq<Member>, name: bytes, i: nat) {
    i < |members| && members[i].key == name && forall j | 0 <= j < i :: members[j].key != name
  }

  lemma {:induction false} MemberExactly(members: seq<Member>, name: bytes)
    ensures forall i: nat :: IsFirst(members, name, i) ==> MemberOf(members, name) == Some(members[i].val)
    ensures MemberOf(members, name).Some? <==> exists i: nat :: IsFirst(members, name, i)
  {
    if members != [] {
      var rest := members[1..];
      MemberExactly(rest, name);
      if members[0].key == name {
        assert IsFirst(members, name, 0);
      } else {
        forall i: nat | IsFirst(members, name, i) ensures i > 0 && IsFirst(rest, name, i - 1) {
          assert forall j | 0 <= j < i - 1 :: rest[j] == members[j + 1];
        }
        if exists i: nat :: IsFirst(rest, name, i) {
          var i: nat :| IsFirst(rest, name, i);
          assert forall j | 0 < j <= i :: members[j] == rest[j - 1];
          assert IsFirst(members, name, i + 1);
        }
      }
    }
  }

  /** The place a step leads to: the element of that index, or the first member of that name. */
  ghost predicate LeadsTo(v: Value, step: Step, end: Value) {
    match step
    case Index(i) => v.VArray? && i < |v.items| && v.items[i] == end
    case Name(name) =>
      v.VObject? && exists i: nat :: IsFirst(v.members, name, i) && v.members[i].val == end
  }

  ghost predicate IsWalk(v: Value, steps: seq<Step>, places: seq<Value>) {
    && |places| == |steps| + 1 && places[0] == v
    && forall i | 0 <= i < |steps| :: LeadsTo(places[i], steps[i], places[i + 1])
  }

  lemma StepExactly(v: Value, step: Step, end: Value)
    ensures WalkStep(v, step) == Some(end) <==> LeadsTo(v, step, end)
  {
    hide IsFirst, MemberOf;
    if step.Name? && v.VObject? {
      MemberExactly(v.members, step.name);
    }
  }

  /** A walk gets somewhere exactly through places each of which the next step leads on from. */
  lemma {:induction false} WalksExactly(v: Value, steps: seq<Step>, end: Value)
    ensures Walk(v, steps) == Some(end) <==> exists places :: IsWalk(v, steps, places) && places[|steps|] == end
    decreases |steps|
  {
    hide WalkStep, LeadsTo;
    if steps == [] {
      assert Walk(v, steps) == Some(end) ==> IsWalk(v, steps, [end]);
    } else {
      if Walk(v, steps) == Some(end) {
        var next := WalkStep(v, steps[0]).value;
        StepExactly(v, steps[0], next);
        WalksExactly(next, steps[1..], end);
        var places :| IsWalk(next, steps[1..], places) && places[|steps| - 1] == end;
        var all := [v] + places;
        forall i | 0 <= i < |steps| ensures LeadsTo(all[i], steps[i], all[i + 1]) {
          assert i > 0 ==> LeadsTo(places[i - 1], steps[1..][i - 1], places[i]);
        }
        assert IsWalk(v, steps, all) && all[|steps|] == end;
      }
      if exists places :: IsWalk(v, steps, places) && places[|steps|] == end {
        var places :| IsWalk(v, steps, places) && places[|steps|] == end;
        assert LeadsTo(places[0], steps[0], places[1]);
        StepExactly(v, steps[0], places[1]);
        var rest := places[1..];
        forall i | 0 <= i < |steps| - 1 ensures LeadsTo(rest[i], steps[1..][i], rest[i + 1]) {
          assert LeadsTo(places[i + 1], steps[i + 1], places[i + 2]);
        }
        assert IsWalk(places[1], steps[1..], rest) && rest[|steps| - 1] == end;
        WalksExactly(places[1], steps[1..], end);
      }
    }
  }
}
