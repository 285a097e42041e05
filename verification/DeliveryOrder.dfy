module DeliveryOrdering {
  // Which runs of a stream release ascending ids. Every release is at or ahead of the cursor, so
  // ids ascend until the cursor wraps behind the last id of all; then the run stays in order only
  // while it releases nothing, which can be read off the calls that follow.

  import opened Common
  import opened Delivery
  import opened Frames
  import opened Reassembly

  ghost predicate StrictlyAscends(out: seq<Message>) {
    forall i, j | 0 <= i < j < |out| :: out[i].msgId < out[j].msgId
  }

  /** Nothing follows the last id of all. */
  ghost predicate LastIsLast(out: seq<Message>) {
    forall i | 0 <= i < |out| - 1 :: out[i].msgId != LAST_ID
  }

  // ---- climbing releases

  lemma CursorBehind(out: seq<Message>, from: u32, i: nat)
    requires 0 < i <= |out|
    ensures CursorAt(out, from, i) == if out[i - 1].msgId == LAST_ID then 0 else out[i - 1].msgId + 1
  {
  }

  lemma ClimbsStep(out: seq<Message>, from: u32, to: u32, j: nat)
    requires Climbs(out, from, to) && LastIsLast(out) && 0 < j < |out|
    ensures out[j - 1].msgId < out[j].msgId
  {
    CursorBehind(out, from, j);
  }

  lemma {:induction false} ClimbsBetween(out: seq<Message>, from: u32, to: u32, i: nat, j: nat)
    requires Climbs(out, from, to) && LastIsLast(out) && i < j < |out|
    ensures out[i].msgId < out[j].msgId
    decreases j - i
  {
    ClimbsStep(out, from, to, j);
    hide CursorAt, Climbs;
    if i < j - 1 {
      ClimbsBetween(out, from, to, i, j - 1);
    }
  }

  /** Climbing releases ascend if and only if nothing follows the last id. */
  lemma ClimbsAscends(out: seq<Message>, from: u32, to: u32)
    requires Climbs(out, from, to)
    ensures StrictlyAscends(out) <==> LastIsLast(out)
  {
    if LastIsLast(out) {
      forall i, j | 0 <= i < j < |out| ensures out[i].msgId < out[j].msgId {
        ClimbsBetween(out, from, to, i, j);
      }
    }
    if StrictlyAscends(out) {
      forall i | 0 <= i < |out| - 1 ensures out[i].msgId != LAST_ID {
        assert out[i].msgId < out[i + 1].msgId;
      }
    }
  }

  /** Releases without a gap are numbered through, modulo 2^32. */
  lemma {:induction false} FillsNumbers(out: seq<Message>, from: u32, to: u32, i: nat)
    requires Fills(out, from, to) && i <= |out|
    ensures CursorAt(out, from, i) == (from + i) % TWO32
    ensures i < |out| ==> out[i].msgId == (from + i) % TWO32
  {
    FillsAt(out, from, to, i);
    hide CursorAt, Fills;
    if i > 0 {
      FillsNumbers(out, from, to, i - 1);
      NextNumber(from + i - 1);
    }
  }

  lemma FillsAt(out: seq<Message>, from: u32, to: u32, i: nat)
    requires Fills(out, from, to) && i <= |out|
    ensures i < |out| ==> out[i].msgId == CursorAt(out, from, i)
    ensures i == 0 ==> CursorAt(out, from, i) == (from + i) % TWO32
    ensures i > 0 ==> CursorAt(out, from, i) == (out[i - 1].msgId + 1) % TWO32
  {
  }

  lemma NextNumber(n: nat)
    ensures (n % TWO32 + 1) % TWO32 == (n + 1) % TWO32
  {
  }

  /** Over a run in which no gap was counted the ids are consecutive modulo 2^32, up to the cursor. */
  lemma GapFree(cs: seq<Call>, window: nat, i: nat)
    requires var e := Runs(UNSTARTED, cs, window); e.gaps == 0 && Given(cs) != [] && i <= |e.out|
    ensures var e, first := Runs(UNSTARTED, cs, window), Given(cs)[0].msgId;
            && (i < |e.out| ==> e.out[i].msgId == (first + i) % TWO32)
            && e.order.next == (first + |e.out|) % TWO32
  {
    hide Runs, Kept;
    DeliveryLaw(cs, window);
    var e, first := Runs(UNSTARTED, cs, window), Given(cs)[0].msgId;
    hide Fills, CursorAt;
    FillsNumbers(e.out, first, e.order.next, i);
    FillsNumbers(e.out, first, e.order.next, |e.out|);
    FillsEnd(e.out, first, e.order.next);
  }

  lemma FillsEnd(out: seq<Message>, from: u32, to: u32)
    requires Fills(out, from, to)
    ensures to == CursorAt(out, from, |out|)
  {
  }

  lemma ClimbsEnd(out: seq<Message>, from: u32, to: u32)
    requires Climbs(out, from, to) && out != []
    ensures to == if out[|out| - 1].msgId == LAST_ID then 0 else out[|out| - 1].msgId + 1
  {
    CursorBehind(out, from, |out|);
  }

  lemma BelowCursor(out: seq<Message>, next: u32)
    requires StrictlyAscends(out)
    requires out != [] ==> next == out[|out| - 1].msgId + 1
    ensures forall i | 0 <= i < |out| :: out[i].msgId < next
  {
  }

  // ---- within one call

  /** The last id ends the releases of a call and leaves nothing held. */
  ghost predicate LastEnds(e: Effect) {
    forall i | 0 <= i < |e.out| && e.out[i].msgId == LAST_ID :: i == |e.out| - 1 && e.order.pending == map[]
  }

  lemma LastEndsCons(m: Message, e: Effect)
    requires LastEnds(e) && (m.msgId == LAST_ID ==> e.out == [] && e.order.pending == map[])
    ensures LastEnds(Effect(e.order, [m] + e.out, e.gaps, e.dropped))
  {
  }

  lemma LastEndsJoin(a: Effect, b: Effect, gaps: nat)
    requires LastEnds(a) && LastEnds(b) && (a.order.pending == map[] ==> b.out == [] && b.order.pending == map[])
    ensures LastEnds(Effect(b.order, a.out + b.out, gaps, []))
  {
    var out := a.out + b.out;
    forall i | 0 <= i < |out| && out[i].msgId == LAST_ID ensures i == |out| - 1 && b.order.pending == map[] {
      if i < |a.out| {
        assert a.out[i].msgId == LAST_ID;
      } else {
        assert b.out[i - |a.out|].msgId == LAST_ID;
      }
    }
  }

  /** When the last id is the lowest one held, it is the only one. */
  lemma OnlyLast(o: Order)
    requires o.pending != map[] && Lowest(o.pending) == LAST_ID
    ensures o.pending - {LAST_ID} == map[]
  {
    assert forall k | k in o.pending :: k in o.pending.Keys && k <= LAST_ID;
    NoKeys(o.pending - {LAST_ID});
  }

  lemma {:induction false} DrainEnds(o: Order)
    requires AtOrAhead(o)
    ensures LastEnds(Drain(o))
    decreases |o.pending|
  {
    hide Lowest, Drain, LastEnds;
    DrainStep(o);
    NothingEnds(o);
    if o.pending != map[] && Lowest(o.pending) == o.next {
      var after := Order(o.started, (o.next + 1) % TWO32, o.pending - {o.next});
      DrainEnds(after);
      DrainDropsNone(after);
      DrainStep(after);
      if o.next == LAST_ID {
        OnlyLast(o);
      }
      LastEndsCons(o.pending[o.next], Drain(after));
    }
  }

  lemma NothingEnds(o: Order)
    ensures LastEnds(Effect(o, [], 0, []))
  {
  }

  lemma {:induction false} EnforceEnds(o: Order, window: nat)
    requires Ahead(o)
    ensures LastEnds(Enforce(o, window))
    decreases |o.pending|
  {
    hide Lowest, Drain, Enforce, LastEnds, Held, Conserves, Fills;
    EnforceStep(o, window);
    NothingEnds(o);
    if |o.pending| > window {
      var at := o.(next := Lowest(o.pending));
      DrainLaw(at);
      DrainShrinks(at);
      DrainEnds(at);
      var drained := Drain(at);
      EnforceEnds(drained.order, window);
      EnforceStep(drained.order, window);
      LastEndsJoin(drained, Enforce(drained.order, window), Enforce(o, window).gaps);
    }
  }

  lemma {:induction false} FlushEnds(o: Order)
    requires AtOrAhead(o)
    ensures LastEnds(Flushed(o))
    decreases |o.pending|
  {
    hide Lowest, Flushed, LastEnds;
    FlushStep(o);
    NothingEnds(o);
    if o.pending != map[] {
      var k := Lowest(o.pending);
      var after := Order(o.started, (k + 1) % TWO32, o.pending - {k});
      FlushEnds(after);
      FlushDropsNone(after);
      FlushStep(after);
      if k == LAST_ID {
        OnlyLast(o);
      }
      FlushedEnds(o.pending[k], Flushed(after), Flushed(o).gaps);
    }
  }

  lemma FlushedEnds(m: Message, e: Effect, gaps: nat)
    requires LastEnds(e) && e.dropped == [] && (m.msgId == LAST_ID ==> e.out == [] && e.order.pending == map[])
    ensures LastEnds(Effect(e.order, [m] + e.out, gaps, []))
  {
    LastEndsCons(m, e);
  }

  lemma CallEnds(o: Order, c: Call, window: nat)
    requires Settled(o, window)
    ensures LastEnds(Called(o, c, window))
  {
    hide Lowest, Drain, Enforce, Flushed, LastEnds;
    match c
    case Flush(_) => FlushEnds(o);
    case Offer(m) =>
      var start := if o.started then o else o.(started := true, next := m.msgId);
      if m.msgId < start.next || (m.msgId != start.next && m.msgId in start.pending) {
        NoneReleasedEnds(start, m);
      } else if m.msgId == start.next {
        var at := start.(next := (start.next + 1) % TWO32);
        if m.msgId == LAST_ID {
          NothingAhead(start);
        }
        DrainEnds(at);
        DrainStep(at);
        DrainDropsNone(at);
        LastEndsCons(m, Drain(at));
      } else {
        EnforceEnds(start.(pending := start.pending[m.msgId := m]), window);
      }
  }

  lemma NoneReleasedEnds(o: Order, m: Message)
    ensures LastEnds(Effect(o, [], 0, [m]))
  {
  }

  lemma NothingAhead(o: Order)
    requires Ahead(o) && o.next == LAST_ID
    ensures o.pending == map[]
  {
    NoKeys(o.pending);
  }

  // ---- runs

  /** Only a release of the last id leaves the cursor of a started stream at zero. */
  ghost predicate CursorWrapped(o: Order) {
    o.started && o.next == 0
  }

  lemma {:induction false} RunsJoin(o: Order, a: seq<Call>, b: seq<Call>, window: nat)
    ensures Runs(o, a + b, window) == Then(Runs(o, a, window), Runs(Runs(o, a, window).order, b, window))
    decreases |b|
  {
    hide Called, Runs;
    NoCallsAfter(o, window);
    var first := Runs(o, a, window);
    NoCallsAfter(first.order, window);
    if b == [] {
      assert a + b == a;
      assert first.out + [] == first.out && first.dropped + [] == first.dropped;
    } else {
      var front, c := b[..|b| - 1], b[|b| - 1];
      assert (a + b)[..|a + b| - 1] == a + front && (a + b)[|a + b| - 1] == c;
      RunsJoin(o, a, front, window);
      RunsStep(o, a + b, window);
      RunsStep(first.order, b, window);
      var mid := Runs(first.order, front, window);
      ThenAssociates(first, mid, Called(mid.order, c, window));
    }
  }

  lemma NoCallsAfter(o: Order, window: nat)
    ensures Runs(o, [], window) == Effect(o, [], 0, [])
  {
  }

  lemma ThenAssociates(a: Effect, b: Effect, c: Effect)
    ensures Then(Then(a, b), c) == Then(a, Then(b, c))
  {
    assert a.out + b.out + c.out == a.out + (b.out + c.out);
    assert a.dropped + b.dropped + c.dropped == a.dropped + (b.dropped + c.dropped);
  }

  /** The first offer is released at once. */
  lemma {:induction false} FirstReleased(cs: seq<Call>, window: nat)
    ensures Given(cs) != [] ==> Runs(UNSTARTED, cs, window).out != []
    ensures Given(cs) == [] ==> Runs(UNSTARTED, cs, window) == Effect(UNSTARTED, [], 0, [])
    decreases |cs|
  {
    hide Called, Runs, Held, Settled, Conserves, Climbs;
    NoCallsAfter(UNSTARTED, window);
    if cs != [] {
      var front, c := cs[..|cs| - 1], cs[|cs| - 1];
      FirstReleased(front, window);
      RunsStep(UNSTARTED, cs, window);
      if Given(front) == [] {
        FirstCallReleases(c, window);
      }
    }
  }

  lemma FirstCallReleases(c: Call, window: nat)
    ensures c.Offer? ==> Called(UNSTARTED, c, window).out != []
    ensures c.Flush? ==> Called(UNSTARTED, c, window) == Effect(UNSTARTED, [], 0, [])
  {
    hide Lowest, Drain;
  }

  /** Where the cursor is zero the last release was the last id, and the other way round. */
  lemma WrappedAfterLast(cs: seq<Call>, window: nat)
    ensures var e := Runs(UNSTARTED, cs, window);
            CursorWrapped(e.order) <==> e.out != [] && e.out[|e.out| - 1].msgId == LAST_ID
  {
    hide Runs, Held, Settled, Conserves, Fills, Climbs;
    DeliveryLaw(cs, window);
    FirstReleased(cs, window);
    var e := Runs(UNSTARTED, cs, window);
    if Given(cs) != [] {
      ClimbsEnd(e.out, Given(cs)[0].msgId, e.order.next);
    }
  }

  /** The call that releases the last id, and the state it leaves. */
  lemma {:induction false} FindsLast(cs: seq<Call>, window: nat) returns (n: nat)
    requires exists m :: m in Runs(UNSTARTED, cs, window).out && m.msgId == LAST_ID
    ensures n <= |cs|
    ensures var e := Runs(UNSTARTED, cs[..n], window);
            && LastIsLast(e.out) && e.out != [] && e.out[|e.out| - 1].msgId == LAST_ID
            && e.order == Order(true, 0, map[])
    decreases |cs|
  {
    hide Called, Runs, Held, Settled, Conserves, Climbs, LastEnds;
    NoCallsAfter(UNSTARTED, window);
    var front, c := cs[..|cs| - 1], cs[|cs| - 1];
    var before := Runs(UNSTARTED, front, window);
    RunsStep(UNSTARTED, cs, window);
    if exists m :: m in before.out && m.msgId == LAST_ID {
      n := FindsLast(front, window);
      assert cs[..n] == front[..n];
    } else {
      n := |cs|;
      assert cs[..n] == cs;
      DeliveryLaw(front, window);
      KeptSettled(before, Given(front), window);
      CallEnds(before.order, c, window);
      WrappedAfterLast(cs, window);
      LastEndsRun(before, Called(before.order, c, window));
    }
  }

  lemma KeptSettled(e: Effect, ms: seq<Message>, window: nat)
    requires Kept(e, ms, window)
    ensures Settled(e.order, window)
  {
  }

  lemma LastEndsRun(before: Effect, now: Effect)
    requires LastEnds(now) && !exists m :: m in before.out && m.msgId == LAST_ID
    requires exists m :: m in Then(before, now).out && m.msgId == LAST_ID
    ensures var out := Then(before, now).out;
            LastIsLast(out) && out != [] && out[|out| - 1].msgId == LAST_ID && now.order.pending == map[]
  {
    var out := Then(before, now).out;
    assert forall i | 0 <= i < |before.out| :: before.out[i] in before.out;
    forall i | 0 <= i < |out| && out[i].msgId == LAST_ID ensures i == |out| - 1 && now.order.pending == map[] {
      if i >= |before.out| {
        assert now.out[i - |before.out|].msgId == LAST_ID;
      }
    }
  }

  // ---- runs behind the wrap that release nothing

  function Ids(cs: seq<Call>): set<u32> {
    set m | m in Given(cs) :: m.msgId
  }

  /**
    * Calls that a wrapped stream holding `held` answers with no release: id zero is not offered,
    * what is offered fits the window, and nothing is held when a flush comes.
    */
  ghost predicate Quiet(held: set<u32>, cs: seq<Call>, window: nat) {
    0 !in Ids(cs) && |held + Ids(cs)| <= window && FlushesNothing(held, cs)
  }

  ghost predicate FlushesNothing(held: set<u32>, cs: seq<Call>) {
    forall j | 0 <= j < |cs| && cs[j].Flush? :: held + Ids(cs[..j]) == {}
  }

  lemma Fewer(a: set<u32>, b: set<u32>)
    requires a <= b
    ensures |a| <= |b|
  {
    assert b == a + (b - a);
  }

  /** One call on a wrapped stream. */
  lemma QuietCall(o: Order, c: Call, window: nat)
    requires CursorWrapped(o) && Settled(o, window)
    ensures var e := Called(o, c, window);
            && (e.out == [] <==>
                 if c.Flush? then o.pending == map[]
                 else c.m.msgId != 0 && |o.pending.Keys + {c.m.msgId}| <= window)
            && (e.out == [] ==>
                 && CursorWrapped(e.order)
                 && e.order.pending.Keys == o.pending.Keys + if c.Offer? then {c.m.msgId} else {})
  {
    hide Lowest, Drain, Enforce, Flushed;
    match c
    case Flush(_) => FlushStep(o);
    case Offer(m) =>
      var held := o.(pending := o.pending[m.msgId := m]);
      assert held.pending.Keys == o.pending.Keys + {m.msgId};
      if m.msgId in o.pending {
        assert o.pending.Keys + {m.msgId} == o.pending.Keys;
      } else if m.msgId != 0 {
        EnforceStep(held, window);
        if |held.pending| > window {
          DrainStep(held.(next := Lowest(held.pending)));
        }
      }
  }

  lemma QuietSnoc(held: set<u32>, cs: seq<Call>, window: nat)
    requires cs != []
    ensures var front, c := cs[..|cs| - 1], cs[|cs| - 1];
            && Ids(cs) == Ids(front) + (if c.Offer? then {c.m.msgId} else {})
            && (Quiet(held, cs, window) <==>
                 && Quiet(held, front, window)
                 && if c.Flush? then held + Ids(front) == {}
                    else c.m.msgId != 0 && |held + Ids(front) + {c.m.msgId}| <= window)
  {
    var front, c := cs[..|cs| - 1], cs[|cs| - 1];
    IdsSnoc(cs);
    var more := if c.Offer? then {c.m.msgId} else {};
    assert held + Ids(cs) == held + Ids(front) + more;
    hide Ids, FlushesNothing;
    Fewer(held + Ids(front), held + Ids(cs));
    FlushesSnoc(held, cs);
  }

  lemma IdsSnoc(cs: seq<Call>)
    requires cs != []
    ensures var c := cs[|cs| - 1];
            Ids(cs) == Ids(cs[..|cs| - 1]) + if c.Offer? then {c.m.msgId} else {}
  {
    var front, c := cs[..|cs| - 1], cs[|cs| - 1];
    assert Given(cs) == Given(front) + c.Given();
    assert forall m :: m in Given(cs) <==> m in Given(front) || m in c.Given();
  }

  lemma FlushesSnoc(held: set<u32>, cs: seq<Call>)
    requires cs != []
    ensures var front, c := cs[..|cs| - 1], cs[|cs| - 1];
            FlushesNothing(held, cs) <==> FlushesNothing(held, front) && (c.Flush? ==> held + Ids(front) == {})
  {
    hide Ids;
    var front := cs[..|cs| - 1];
    assert forall j | 0 <= j < |front| :: front[j] == cs[j] && front[..j] == cs[..j];
  }

  /** On a wrapped stream a run of calls releases nothing exactly when they are quiet. */
  lemma {:induction false} QuietRun(o: Order, cs: seq<Call>, window: nat)
    requires CursorWrapped(o) && Settled(o, window)
    ensures var e := Runs(o, cs, window);
            && (e.out == [] <==> Quiet(o.pending.Keys, cs, window))
            && (e.out == [] ==> CursorWrapped(e.order) && Settled(e.order, window)
                                && e.order.pending.Keys == o.pending.Keys + Ids(cs))
    decreases |cs|
  {
    hide Called, Runs, Quiet, Held, Conserves, Climbs, Fills;
    if cs == [] {
      NoCallsAfter(o, window);
      QuietNothing(o.pending.Keys, window);
    } else {
      var front, c := cs[..|cs| - 1], cs[|cs| - 1];
      QuietRun(o, front, window);
      RunsStep(o, cs, window);
      QuietSnoc(o.pending.Keys, cs, window);
      var before := Runs(o, front, window);
      hide Ids, Settled;
      if before.out == [] {
        QuietThen(before, o.pending.Keys + Ids(front), c, window);
      }
    }
  }

  lemma QuietThen(before: Effect, held: set<u32>, c: Call, window: nat)
    requires before.out == [] && before.order.pending.Keys == held
    requires CursorWrapped(before.order) && Settled(before.order, window)
    ensures var e := Then(before, Called(before.order, c, window));
            && (e.out == [] <==> if c.Flush? then held == {} else c.m.msgId != 0 && |held + {c.m.msgId}| <= window)
            && (e.out == [] ==>
                 && CursorWrapped(e.order) && Settled(e.order, window)
                 && e.order.pending.Keys == held + if c.Offer? then {c.m.msgId} else {})
  {
    hide Called, Held, Conserves, Climbs, Fills, Settled;
    assert held == {} <==> before.order.pending == map[] by { NoKeys(before.order.pending); }
    QuietCall(before.order, c, window);
    CallLaw(before.order, c, window);
  }

  lemma QuietNothing(held: set<u32>, window: nat)
    requires |held| <= window
    ensures Ids([]) == {} && Quiet(held, [], window)
  {
    assert Ids([]) == {};
    assert held + {} == held;
  }

  lemma QuieterHolding(held: set<u32>, cs: seq<Call>, window: nat)
    requires Quiet(held, cs, window)
    ensures Quiet({}, cs, window)
  {
    Fewer({} + Ids(cs), held + Ids(cs));
    forall j | 0 <= j < |cs| && cs[j].Flush? ensures {} + Ids(cs[..j]) == {} {
      assert Ids(cs[..j]) <= held + Ids(cs[..j]);
    }
  }

  // ---- main results

  /**
    * Over any run released ids strictly ascend if and only if every call after the cursor has
    * wrapped stays quiet: no id zero, no more distinct ids than the window holds, no flush
    * behind an offer.
    */
  lemma AscendsExactly(cs: seq<Call>, window: nat)
    ensures StrictlyAscends(Runs(UNSTARTED, cs, window).out)
       <==> forall n | 0 <= n <= |cs| && CursorWrapped(Runs(UNSTARTED, cs[..n], window).order) ::
              Quiet({}, cs[n..], window)
  {
    hide Runs, Quiet, CursorWrapped, StrictlyAscends, LastIsLast, Kept, Ordered;
    var out := Runs(UNSTARTED, cs, window).out;
    AscendsWithoutFollowers(cs, window);
    if LastIsLast(out) {
      forall n | 0 <= n <= |cs| && CursorWrapped(Runs(UNSTARTED, cs[..n], window).order)
        ensures Quiet({}, cs[n..], window)
      {
        SilentBehind(cs, window, n);
      }
    } else {
      Broken(out);
      var n := FindsLast(cs, window);
      WrappedState();
      NoisyBehind(cs, window, n);
    }
  }

  lemma WrappedState()
    ensures CursorWrapped(Order(true, 0, map[]))
  {
  }

  lemma Broken(out: seq<Message>)
    requires !LastIsLast(out)
    ensures exists m :: m in out && m.msgId == LAST_ID
  {
  }

  lemma AscendsWithoutFollowers(cs: seq<Call>, window: nat)
    ensures var out := Runs(UNSTARTED, cs, window).out; StrictlyAscends(out) <==> LastIsLast(out)
  {
    hide Runs, Kept, Climbs, StrictlyAscends, LastIsLast;
    DeliveryLaw(cs, window);
    FirstReleased(cs, window);
    var e := Runs(UNSTARTED, cs, window);
    if Given(cs) == [] {
      NothingReleased(UNSTARTED);
      ClimbsAscends(e.out, UNSTARTED.next, UNSTARTED.next);
    } else {
      ClimbsAscends(e.out, Given(cs)[0].msgId, e.order.next);
    }
  }

  lemma SilentBehind(cs: seq<Call>, window: nat, n: nat)
    requires n <= |cs| && CursorWrapped(Runs(UNSTARTED, cs[..n], window).order)
    requires LastIsLast(Runs(UNSTARTED, cs, window).out)
    ensures Quiet({}, cs[n..], window)
  {
    hide Runs, Quiet, Held, Conserves, Ordered, Settled;
    var before := Runs(UNSTARTED, cs[..n], window);
    var now := Runs(before.order, cs[n..], window);
    assert cs == cs[..n] + cs[n..];
    RunsJoin(UNSTARTED, cs[..n], cs[n..], window);
    WrappedAfterLast(cs[..n], window);
    DeliveryLaw(cs[..n], window);
    StopsBehindLast(before.out, now.out);
    QuietRun(before.order, cs[n..], window);
    QuieterHolding(before.order.pending.Keys, cs[n..], window);
  }

  lemma StopsBehindLast(a: seq<Message>, b: seq<Message>)
    requires a != [] && a[|a| - 1].msgId == LAST_ID && LastIsLast(a + b)
    ensures b == []
  {
    assert (a + b)[|a| - 1].msgId == LAST_ID;
  }

  lemma NoisyBehind(cs: seq<Call>, window: nat, n: nat)
    requires n <= |cs| && Runs(UNSTARTED, cs[..n], window).order == Order(true, 0, map[])
    requires LastIsLast(Runs(UNSTARTED, cs[..n], window).out) && !LastIsLast(Runs(UNSTARTED, cs, window).out)
    ensures !Quiet({}, cs[n..], window)
  {
    hide Runs, Quiet;
    var before := Runs(UNSTARTED, cs[..n], window);
    var now := Runs(before.order, cs[n..], window);
    assert cs == cs[..n] + cs[n..];
    RunsJoin(UNSTARTED, cs[..n], cs[n..], window);
    assert now.out == [] ==> before.out + now.out == before.out;
    QuietRun(before.order, cs[n..], window);
    assert before.order.pending.Keys == {};
  }

  /** A run in which the last id is never offered ascends, and stays below the cursor. */
  lemma AscendsUnlessOffered(cs: seq<Call>, window: nat)
    requires forall m | m in Given(cs) :: m.msgId != LAST_ID
    ensures var e := Runs(UNSTARTED, cs, window);
            StrictlyAscends(e.out) && forall i | 0 <= i < |e.out| :: e.out[i].msgId < e.order.next
  {
    hide Runs, Kept, Climbs, StrictlyAscends;
    DeliveryLaw(cs, window);
    AscendsWithoutFollowers(cs, window);
    FirstReleased(cs, window);
    var e := Runs(UNSTARTED, cs, window);
    OnlyOffered(e, Given(cs), window);
    if Given(cs) != [] {
      ClimbsEnd(e.out, Given(cs)[0].msgId, e.order.next);
    }
    BelowCursor(e.out, e.order.next);
  }

  lemma OnlyOffered(e: Effect, ms: seq<Message>, window: nat)
    requires Kept(e, ms, window) && forall m | m in ms :: m.msgId != LAST_ID
    ensures forall i | 0 <= i < |e.out| :: e.out[i].msgId != LAST_ID
  {
    hide Held, Settled;
    forall i | 0 <= i < |e.out| ensures e.out[i].msgId != LAST_ID {
      assert e.out[i] in multiset(e.out);
      assert e.out[i] in multiset(ms);
    }
  }

  /** The last id and then id zero: released in this order, and neither counted as a gap nor dropped. */
  lemma WrapsOutOfOrder(a: Message, b: Message, window: nat)
    requires a.msgId == LAST_ID && b.msgId == 0
    ensures Runs(UNSTARTED, [Offer(a), Offer(b)], window) == Effect(Order(true, 1, map[]), [a, b], 0, [])
    ensures !StrictlyAscends([a, b])
  {
    hide Called, Lowest, Runs;
    var cs := [Offer(a), Offer(b)];
    assert cs[..1] == [Offer(a)] && [Offer(a)][..0] == [];
    NoCallsAfter(UNSTARTED, window);
    RunsStep(UNSTARTED, [Offer(a)], window);
    RunsStep(UNSTARTED, cs, window);
    OneOffer(UNSTARTED, a, window);
    OneOffer(Order(true, 0, map[]), b, window);
    assert [] + [a] + [b] == [a, b];
    assert [a, b][0].msgId > [a, b][1].msgId;
  }

  lemma OneOffer(o: Order, m: Message, window: nat)
    requires o.pending == map[] && (o.started ==> o.next == m.msgId)
    ensures Called(o, Offer(m), window) == Effect(Order(true, (m.msgId + 1) % TWO32, map[]), [m], 0, [])
  {
    hide Lowest;
    assert [m] + [] == [m];
  }
}
