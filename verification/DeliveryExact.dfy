/** What one call on a delivery queue does. */
module DeliveryExact {
  // Which messages an offer or a flush releases, what it leaves held, and how many gaps it counts,
  // told by ids alone.

  import opened Common
  import opened Delivery
  import opened Reassembly

  /** `out` are the messages held under `from` and the ids right behind it, and `left` are the others. */
  ghost predicate IsRun(out: seq<Message>, from: nat, held: map<u32, Message>, left: map<u32, Message>) {
    && (forall i | 0 <= i < |out| :: HeldUnder(from + i, out[i], held))
    && (forall k | k in left :: HeldUnder(k, left[k], held))
    && (forall k | k in held :: k in left <==> !(from <= k < from + |out|))
  }

  predicate HeldUnder(id: nat, m: Message, held: map<u32, Message>) {
    id < TWO32 && id in held && held[id] == m
  }

  lemma {:induction false} DrainExactly(o: Order)
    requires AtOrAhead(o)
    ensures var e := Drain(o);
            && IsRun(e.out, o.next, o.pending, e.order.pending)
            && e.order == Order(o.started, (o.next + |e.out|) % TWO32, e.order.pending)
            && e.order.next !in e.order.pending && e.gaps == 0 && e.dropped == []
            && (e.out == [] <==> o.next !in o.pending)
    decreases |o.pending|
  {
    hide Drain, IsRun;
    DrainStep(o);
    if o.next in o.pending {
      LowestUnique(o.pending, o.next);
      hide Lowest;
      var after := Order(o.started, (o.next + 1) % TWO32, o.pending - {o.next});
      DrainExactly(after);
      DrainDropsNone(after);
      RunJoined(o, Drain(after));
    } else {
      NoRun(o.next, o.pending);
      assert o.pending == map[] || Lowest(o.pending) != o.next;
    }
  }

  lemma NoRun(from: nat, held: map<u32, Message>)
    ensures IsRun([], from, held, held)
  {
  }

  lemma RunAt(out: seq<Message>, from: nat, held: map<u32, Message>, left: map<u32, Message>, i: nat)
    requires IsRun(out, from, held, left) && i < |out|
    ensures HeldUnder(from + i, out[i], held)
  {
  }

  lemma LeftIsHeld(out: seq<Message>, from: nat, held: map<u32, Message>, left: map<u32, Message>, k: u32)
    requires IsRun(out, from, held, left)
    ensures k in left ==> k in held
  {
  }

  lemma RunJoined(o: Order, rest: Effect)
    requires AtOrAhead(o) && o.next in o.pending
    requires IsRun(rest.out, (o.next + 1) % TWO32, o.pending - {o.next}, rest.order.pending)
    requires rest.order.next == ((o.next + 1) % TWO32 + |rest.out|) % TWO32
    ensures IsRun([o.pending[o.next]] + rest.out, o.next, o.pending, rest.order.pending)
    ensures rest.order.next == (o.next + 1 + |rest.out|) % TWO32
  {
    var out := [o.pending[o.next]] + rest.out;
    if o.next == LAST_ID {
      NothingBehindLast(o, rest);
    } else {
      RunExtends(rest.out, o.next, o.pending, rest.order.pending);
    }
  }

  lemma RunExtends(out: seq<Message>, from: u32, held: map<u32, Message>, left: map<u32, Message>)
    requires from < LAST_ID && from in held && IsRun(out, from + 1, held - {from}, left)
    ensures IsRun([held[from]] + out, from, held, left)
  {
    var all, others := [held[from]] + out, held - {from};
    forall i | 0 <= i < |all| ensures HeldUnder(from + i, all[i], held) {
      if i > 0 {
        RunAt(out, from + 1, others, left, i - 1);
      }
    }
    forall k | k in left ensures HeldUnder(k, left[k], held) {
      assert HeldUnder(k, left[k], others);
    }
    LeftIsHeld(out, from + 1, others, left, from);
    forall k | k in held ensures k in left <==> !(from <= k < from + |all|) {
      if k != from {
        assert k in others;
      }
    }
  }

  lemma NothingBehindLast(o: Order, rest: Effect)
    requires AtOrAhead(o) && o.next == LAST_ID && o.next in o.pending
    requires IsRun(rest.out, 0, o.pending - {o.next}, rest.order.pending)
    ensures rest.out == [] && rest.order.pending == map[]
  {
    assert forall k | k in o.pending :: k == LAST_ID;
    assert o.pending - {o.next} == map[];
    if rest.out != [] {
      RunAt(rest.out, 0, o.pending - {o.next}, rest.order.pending, 0);
      assert false;
    }
  }

  /** The least id held. */
  ghost predicate IsLeast(k: u32, held: map<u32, Message>) {
    k in held && forall j | j in held :: k <= j
  }

  /** A window one message too small is left by releasing one run: the lowest. */
  lemma EnforceExactly(o: Order, window: nat, low: u32)
    requires Ahead(o) && |o.pending| == window + 1 && IsLeast(low, o.pending)
    ensures var e := Enforce(o, window);
            && e.out != [] && IsRun(e.out, low, o.pending, e.order.pending)
            && e.order == Order(o.started, (low + |e.out|) % TWO32, e.order.pending)
            && e.order.next !in e.order.pending && e.gaps == 1 && e.dropped == []
  {
    hide Drain, Enforce, IsRun;
    EnforceStep(o, window);
    LowestUnique(o.pending, low);
    hide Lowest;
    var at := o.(next := low);
    DrainExactly(at);
    DrainShrinks(at);
    var drained := Drain(at);
    EnforceStep(drained.order, window);
    assert drained.out + [] == drained.out;
  }

  /**
    * One offer, between calls. A message behind the cursor, or held already, is dropped and nothing
    * else happens. One at the cursor is released with the run held right behind it. One ahead is held
    * while the window has room; where it has none the lowest run held goes out at once, as one gap.
    */
  lemma OfferExactly(o: Order, m: Message, window: nat)
    requires Settled(o, window)
    ensures var e := Offered(o, m, window);
            var next := if o.started then o.next else m.msgId;
            var held := o.pending[m.msgId := m];
            if m.msgId < next || m.msgId in o.pending then e == Effect(o, [], 0, [m])
            else if m.msgId > next && |o.pending| < window then e == Effect(Order(true, next, held), [], 0, [])
            else
              && e.out != [] && e.dropped == [] && e.gaps == (if m.msgId == next then 0 else 1)
              && e.order.started && e.order.next !in e.order.pending
              && var low := e.out[0].msgId;
                 && IsLeast(low, held) && (m.msgId == next ==> low == next)
                 && IsRun(e.out, low, held, e.order.pending) && e.order.next == (low + |e.out|) % TWO32
  {
    hide Drain, Enforce, Lowest, IsRun, IsLeast;
    var start := if o.started then o else o.(started := true, next := m.msgId);
    var held := start.pending[m.msgId := m];
    if m.msgId < start.next || m.msgId in start.pending {
    } else if m.msgId == start.next {
      OfferAtCursor(start, m);
    } else {
      var full := start.(pending := held);
      HeldMore(start.pending, m.msgId, m);
      if |start.pending| < window {
        EnforceStep(full, window);
      } else {
        var low := LeastOf(held);
        EnforceExactly(full, window, low);
        RunStarts(Enforce(full, window).out, low, held, Enforce(full, window).order.pending);
      }
    }
  }

  lemma HeldMore(p: map<u32, Message>, k: u32, m: Message)
    requires k !in p
    ensures |p[k := m]| == |p| + 1
  {
    assert p[k := m].Keys == p.Keys + {k};
  }

  lemma LeastOf(held: map<u32, Message>) returns (low: u32)
    requires held != map[]
    ensures IsLeast(low, held)
  {
    NoKeys(held);
    LeastExists(held.Keys);
    low :| Least(held.Keys, low);
    assert forall j | j in held :: j in held.Keys;
  }

  /** Held under its own id, the first message of a run tells where it starts. */
  lemma RunStarts(out: seq<Message>, from: u32, held: map<u32, Message>, left: map<u32, Message>)
    requires IsRun(out, from, held, left) && out != [] && forall k | k in held :: held[k].msgId == k
    ensures out[0].msgId == from
  {
    RunAt(out, from, held, left, 0);
  }

  lemma OfferAtCursor(o: Order, m: Message)
    requires Ahead(o) && m.msgId == o.next
    ensures var rest := Drain(o.(next := (o.next + 1) % TWO32));
            && IsRun([m] + rest.out, o.next, o.pending[m.msgId := m], rest.order.pending)
            && rest.order.next == (o.next + 1 + |rest.out|) % TWO32 && rest.order.started == o.started
            && rest.order.next !in rest.order.pending && rest.gaps == 0 && rest.dropped == []
            && IsLeast(o.next, o.pending[m.msgId := m])
  {
    hide Drain, IsRun;
    var at := o.(next := (o.next + 1) % TWO32);
    var full := o.(pending := o.pending[m.msgId := m]);
    assert full.pending - {o.next} == o.pending;
    DrainExactly(at);
    RunJoined(full, Drain(at));
  }

  // ---- gaps are jumps

  /** Releases that do not follow the one before them. */
  function Jumps(out: seq<Message>, from: u32): nat {
    if out == [] then 0
    else (if out[0].msgId == from then 0 else 1) + Jumps(out[1..], (out[0].msgId + 1) % TWO32)
  }

  lemma NoJumps(from: u32)
    ensures Jumps([], from) == 0
  {
  }

  lemma {:induction false} JumpsJoin(a: seq<Message>, b: seq<Message>, from: u32)
    ensures Jumps(a + b, from) == Jumps(a, from) + Jumps(b, CursorAt(a, from, |a|))
  {
    if a == [] {
      assert a + b == b;
    } else {
      assert (a + b)[1..] == a[1..] + b;
      JumpsJoin(a[1..], b, (a[0].msgId + 1) % TWO32);
      assert CursorAt(a, from, |a|) == CursorAt(a[1..], (a[0].msgId + 1) % TWO32, |a| - 1);
    }
  }

  lemma {:induction false} FillsHasNoJumps(out: seq<Message>, from: u32, to: u32)
    requires Fills(out, from, to)
    ensures Jumps(out, from) == 0
    decreases |out|
  {
    if out != [] {
      assert out[0].msgId == CursorAt(out, from, 0);
      var next := (out[0].msgId + 1) % TWO32;
      forall i | 0 <= i < |out| - 1 ensures out[1..][i].msgId == CursorAt(out[1..], next, i) {
        assert out[i + 1].msgId == CursorAt(out, from, i + 1);
      }
      assert CursorAt(out, from, |out|) == CursorAt(out[1..], next, |out| - 1);
      FillsHasNoJumps(out[1..], next, to);
    }
  }

  /** The releases of a run that starts elsewhere than at the cursor: one jump, to its first. */
  lemma OneJump(out: seq<Message>, from: u32, low: u32, to: u32)
    requires Fills(out, low, to) && out != [] && low != from
    ensures Jumps(out, from) == 1 && CursorAt(out, from, |out|) == to
  {
    FillsHasNoJumps(out, low, to);
    assert out[0].msgId == CursorAt(out, low, 0);
  }

  lemma ClimbsEnd(e: Effect, from: u32)
    requires Climbs(e.out, from, e.order.next)
    ensures e.order.next == CursorAt(e.out, from, |e.out|)
  {
  }

  lemma {:induction false} EnforceJumps(o: Order, window: nat)
    requires Ahead(o)
    ensures var e := Enforce(o, window);
            e.gaps == Jumps(e.out, o.next) && e.order.next == CursorAt(e.out, o.next, |e.out|)
    decreases |o.pending|
  {
    hide Drain, Enforce, Lowest, Conserves, Fills, CursorAt, Climbs;
    EnforceStep(o, window);
    EnforceLaw(o, window);
    ClimbsEnd(Enforce(o, window), o.next);
    if |o.pending| > window {
      var at := o.(next := Lowest(o.pending));
      DrainLaw(at);
      DrainStep(at);
      DrainShrinks(at);
      var drained := Drain(at);
      EnforceJumps(drained.order, window);
      OneJump(drained.out, o.next, at.next, drained.order.next);
      JumpsJoin(drained.out, Enforce(drained.order, window).out, o.next);
    }
  }

  lemma {:induction false} FlushJumps(o: Order)
    requires AtOrAhead(o)
    ensures Flushed(o).gaps == Jumps(Flushed(o).out, o.next)
    decreases |o.pending|
  {
    hide Lowest, Flushed;
    NoJumps(o.next);
    hide Jumps;
    FlushStep(o);
    if o.pending != map[] {
      var k := Lowest(o.pending);
      var after := Order(o.started, (k + 1) % TWO32, o.pending - {k});
      LowestFirst(o, k);
      hide AtOrAhead;
      FlushJumps(after);
      JumpsFirst(o.pending[k], Flushed(after).out, o.next);
    }
  }

  lemma LowestFirst(o: Order, k: u32)
    requires AtOrAhead(o) && k in o.pending && forall j | j in o.pending :: k <= j
    ensures o.next <= k && o.pending[k].msgId == k
    ensures AtOrAhead(Order(o.started, (k + 1) % TWO32, o.pending - {k}))
  {
  }

  lemma JumpsFirst(m: Message, rest: seq<Message>, from: u32)
    ensures Jumps([m] + rest, from) == (if m.msgId == from then 0 else 1) + Jumps(rest, (m.msgId + 1) % TWO32)
  {
    assert ([m] + rest)[1..] == rest;
  }

  /** A call counts a gap for every release that does not follow the one before it, and no other. */
  lemma CallJumps(o: Order, c: Call, window: nat)
    requires Settled(o, window)
    ensures var e := Called(o, c, window); e.gaps == Jumps(e.out, From(o, c))
  {
    hide Offered, Flushed, Jumps;
    match c
    case Offer(m) => OfferJumps(o, m, window);
    case Flush(_) => FlushJumps(o);
  }

  lemma OfferJumps(o: Order, m: Message, window: nat)
    requires Settled(o, window)
    ensures var e := Offered(o, m, window); e.gaps == Jumps(e.out, if o.started then o.next else m.msgId)
  {
    hide Drain, Enforce, Lowest, Fills, Conserves, Climbs;
    var start := if o.started then o else o.(started := true, next := m.msgId);
    if m.msgId == start.next {
      OfferLaw(o, m, window);
      FillsHasNoJumps(Offered(o, m, window).out, start.next, Offered(o, m, window).order.next);
    } else if m.msgId > start.next && m.msgId !in start.pending {
      EnforceJumps(start.(pending := start.pending[m.msgId := m]), window);
    }
  }

  /** Over any run from an empty stream the gaps counted are the releases that do not follow the one before. */
  lemma {:induction false} GapsAreJumps(cs: seq<Call>, window: nat)
    ensures var e, ms := Runs(UNSTARTED, cs, window), Given(cs);
            e.gaps == if ms == [] then 0 else Jumps(e.out, ms[0].msgId)
    decreases |cs|
  {
    hide Called, Runs, Held, Lowest, Settled, Conserves, Fills, Ahead, Jumps, Kept, Ordered;
    if cs == [] {
      NoCalls(window);
    } else {
      var front, c := cs[..|cs| - 1], cs[|cs| - 1];
      assert Given(cs) == Given(front) + c.Given();
      GapsAreJumps(front, window);
      DeliveryLaw(front, window);
      RunsStep(UNSTARTED, cs, window);
      JumpsAfter(Runs(UNSTARTED, front, window), c, Given(front), window);
    }
  }

  lemma JumpsAfter(before: Effect, c: Call, front: seq<Message>, window: nat)
    requires Kept(before, front, window) && Ordered(before, front)
    requires before.gaps == if front == [] then 0 else Jumps(before.out, front[0].msgId)
    ensures var e, ms := Then(before, Called(before.order, c, window)), front + c.Given();
            e.gaps == if ms == [] then 0 else Jumps(e.out, ms[0].msgId)
  {
    hide Called, Held, Lowest, Settled, Conserves, Fills, Ahead, Jumps, Climbs;
    var now := Called(before.order, c, window);
    CallJumps(before.order, c, window);
    CallLaw(before.order, c, window);
    if front == [] {
      FirstCall(now, c);
    } else {
      JumpsJoin(before.out, now.out, front[0].msgId);
      ClimbsEnd(before, front[0].msgId);
      assert (front + c.Given())[0] == front[0];
    }
  }
}
