/** query.cpp: path strings, and walking a value along one. */
module CfgQuery {
  import opened Common
  import opened CfgLexSpec
  import opened CfgModel
  import opened Seqs

  const DOT: byte := 46
  const OPEN: byte := 91
  const CLOSE: byte := 93

  datatype Step = Name(name: bytes) | Index(index: nat)

  predicate InName(c: byte) {
    c != DOT && c != OPEN
  }

  /** The accumulator of an index keeps 64 bits. */
  function IndexValue(digits: bytes): nat
    requires forall i | 0 <= i < |digits| :: IsDigit(digits[i])
  {
    if digits == [] then 0
    else
      var last: nat := digits[|digits| - 1];
      (IndexValue(digits[..|digits| - 1]) * 10 + (last - 48)) % TWO64
  }

  /** One step at the front of `s`, and what follows it; an index needs a step in front of it. */
  function ReadStep(s: bytes, started: bool): (r: Option<(Step, bytes)>)
    ensures r.Some? ==> |r.value.1| < |s|
  {
    if s == [] then None
    else if s[0] == OPEN then
      var n := Span(s[1..], IsDigit);
      if !started || n == 0 || At(s, 1 + n) != CLOSE then None
      else Some((Index(IndexValue(s[1..][..n])), s[2 + n..]))
    else
      var n := Span(s, InName);
      if n == 0 then None else Some((Name(s[..n]), s[n..]))
  }

  /** The steps of the rest of a path; a dot must separate two steps. */
  function TokenizeFrom(s: bytes, started: bool): Option<seq<Step>>
    decreases |s|
  {
    if s == [] then Some([])
    else if s[0] == DOT && !started then None
    else
      match ReadStep(if s[0] == DOT then s[1..] else s, started)
      case None => None
      case Some((step, rest)) => Cons(step, TokenizeFrom(rest, true))
  }

  function Cons(step: Step, rest: Option<seq<Step>>): Option<seq<Step>> {
    match rest
    case None => None
    case Some(steps) => Some([step] + steps)
  }

  /** `tokenize`. */
  method Tokenize(path: bytes) returns (out: Option<seq<Step>>)
    ensures out == TokenizeFrom(path, false)
  {
    hide ReadStep;
    var steps: seq<Step> := [];
    var i := 0;
    assert path[0..] == path;
    ghost var whole := TokenizeFrom(path, false);
    assert whole.Some? ==> [] + whole.value == whole.value;
    while i < |path|
      invariant 0 <= i <= |path|
      invariant whole == After(steps, TokenizeFrom(path[i..], steps != []))
      decreases |path| - i
    {
      ghost var s := path[i..];
      TokenStep(steps, s);
      if path[i] == DOT {
        if steps == [] {
          return None;
        }
        i := i + 1;
        assert s[1..] == path[i..];
      }
      var step, next := StepAt(path, i, steps != []);
      if step.None? {
        return None;
      }
      steps := steps + [step.value];
      i := next;
    }
    assert steps + [] == steps;
    out := Some(steps);
  }

  ghost function After(done: seq<Step>, rest: Option<seq<Step>>): Option<seq<Step>> {
    match rest
    case None => None
    case Some(steps) => Some(done + steps)
  }

  lemma TokenStep(done: seq<Step>, s: bytes)
    requires s != []
    ensures var read := ReadStep(if s[0] == DOT then s[1..] else s, done != []);
            After(done, TokenizeFrom(s, done != []))
            == if (s[0] == DOT && done == []) || read.None? then None
               else After(done + [read.value.0], TokenizeFrom(read.value.1, true))
  {
    hide ReadStep;
    var read := ReadStep(if s[0] == DOT then s[1..] else s, done != []);
    if read.Some? {
      var rest := TokenizeFrom(read.value.1, true);
      assert rest.Some? ==> done + ([read.value.0] + rest.value) == (done + [read.value.0]) + rest.value;
    }
  }

  /** The index or name at `i`, and where it ends. */
  method StepAt(path: bytes, i: nat, started: bool) returns (step: Option<Step>, next: nat)
    requires i <= |path|
    ensures match ReadStep(path[i..], started)
            case None => step == None
            case Some((s, rest)) => step == Some(s) && i < next <= |path| && path[next..] == rest
  {
    if i >= |path| {
      return None, i;
    }
    if path[i] == OPEN {
      step, next := IndexAt(path, i, started);
    } else {
      step, next := NameAt(path, i);
    }
  }

  method IndexAt(path: bytes, i: nat, started: bool) returns (step: Option<Step>, next: nat)
    requires i < |path| && path[i] == OPEN
    ensures match ReadStep(path[i..], started)
            case None => step == None
            case Some((s, rest)) => step == Some(s) && i < next <= |path| && path[next..] == rest
  {
    hide IndexValue, Span, IsDigit;
    if !started {
      return None, i;
    }
    SuffixSlice(path, i, 1, |path| - i);
    var end, value := DigitsAt(path, i + 1);
    if end == i + 1 || end >= |path| || path[end] != CLOSE {
      return None, i;
    }
    SuffixSlice(path, i, end + 1 - i, |path| - i);
    return Some(Index(value)), end + 1;
  }

  method NameAt(path: bytes, i: nat) returns (step: Option<Step>, next: nat)
    requires i < |path| && path[i] != OPEN
    ensures match ReadStep(path[i..], true)
            case None => step == None
            case Some((s, rest)) => step == Some(s) && i < next <= |path| && path[next..] == rest
    ensures ReadStep(path[i..], true) == ReadStep(path[i..], false)
  {
    ghost var s := path[i..];
    var end := i;
    while end < |path| && InName(path[end])
      invariant i <= end <= |path|
      invariant Span(s, InName) == (end - i) + Span(path[end..], InName)
    {
      assert path[end..][1..] == path[end + 1..];
      end := end + 1;
    }
    if end == i {
      return None, i;
    }
    assert s[..end - i] == path[i..end] && s[end - i..] == path[end..];
    return Some(Name(path[i..end])), end;
  }

  method DigitsAt(path: bytes, i: nat) returns (end: nat, value: nat)
    requires i <= |path|
    ensures end == i + Span(path[i..], IsDigit) && value == IndexValue(path[i..][..end - i])
  {
    ghost var s := path[i..];
    end, value := i, 0;
    assert s[..0] == [];
    while end < |path| && IsDigit(path[end])
      invariant i <= end <= |path|
      invariant Span(s, IsDigit) == (end - i) + Span(path[end..], IsDigit)
      invariant value == IndexValue(s[..end - i])
    {
      assert path[end..][1..] == path[end + 1..];
      assert s[..end - i + 1][..end - i] == s[..end - i] && s[end - i] == path[end];
      var last: nat := path[end];
      value := (value * 10 + (last - 48)) % TWO64;
      end := end + 1;
    }
  }

  // ---- walking a value

  /** The first member of that name. */
  function MemberOf(members: seq<Member>, name: bytes): Option<Value> {
    if members == [] then None
    else if members[0].key == name then Some(members[0].val)
    else MemberOf(members[1..], name)
  }

  function WalkStep(v: Value, step: Step): Option<Value> {
    match step
    case Index(i) => if v.VArray? && i < |v.items| then Some(v.items[i]) else None
    case Name(name) => if v.VObject? then MemberOf(v.members, name) else None
  }

  function Walk(v: Value, steps: seq<Step>): Option<Value>
    decreases steps
  {
    if steps == [] then Some(v)
    else
      match WalkStep(v, steps[0])
      case None => None
      case Some(next) => Walk(next, steps[1..])
  }

  /** `walk_value`. */
  method WalkValue(start: Value, steps: seq<Step>, from: nat) returns (found: Option<Value>)
    requires from <= |steps|
    ensures found == Walk(start, steps[from..])
  {
    var current := start;
    var pos := from;
    while pos < |steps|
      invariant from <= pos <= |steps| && Walk(current, steps[pos..]) == Walk(start, steps[from..])
    {
      assert steps[pos..][1..] == steps[pos + 1..];
      match steps[pos] {
        case Index(i) =>
          if !current.VArray? {
            return None;
          }
          if i >= |current.items| {
            return None;
          }
          current := current.items[i];
        case Name(name) =>
          if !current.VObject? {
            return None;
          }
          var next := FindMember(current.members, name);
          if next.None? {
            return None;
          }
          current := next.value;
      }
      pos := pos + 1;
    }
    found := Some(current);
  }

  method FindMember(members: seq<Member>, name: bytes) returns (found: Option<Value>)
    ensures found == MemberOf(members, name)
  {
    assert members[0..] == members;
    for i := 0 to |members|
      invariant MemberOf(members[i..], name) == MemberOf(members, name)
    {
      if members[i].key == name {
        return Some(members[i].val);
      }
      assert members[i..][1..] == members[i + 1..];
    }
    found := None;
  }
}
