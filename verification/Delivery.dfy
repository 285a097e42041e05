/** In-order delivery. */
module Delivery {
  // delivery.cpp: releasing each stream's messages in order through a bounded reordering window,
  // and what that keeps over whole runs.

  import opened Common
  import opened Frames
  import opened Reassembly
  import opened Seqs

  /** One stream: the id to be released next and the messages held ahead of it. */
  datatype Order = Order(started: bool, next: u32, pending: map<u32, Message>)

  const UNSTARTED := Order(false, 0, map[])

  /** What one call does to a stream: the messages it releases, the gaps it counts, the duplicates it drops. */
  datatype Effect = Effect(order: Order, out: seq<Message>, gaps: nat, dropped: seq<Message>)

  ghost predicate Least(keys: set<u32>, k: u32) {
    k in keys && forall j | j in keys :: k <= j
  }

  lemma {:induction false} LeastExists(keys: set<u32>)
    requires keys != {}
    ensures exists k :: Least(keys, k)
  {
    var x :| x in keys;
    var rest := keys - {x};
    assert keys == rest + {x};
    if rest == {} {
      assert Least(keys, x);
    } else {
      LeastExists(rest);
      var k :| Least(rest, k);
      var low := if x < k then x else k;
      assert forall j | j in keys :: j == x || j in rest;
      assert Least(keys, low);
    }
  }

  lemma NoKeys(p: map<u32, Message>)
    ensures p.Keys == {} ==> p == map[]
  {
  }

  /** `begin()` of the ordered map. */
  ghost function Lowest(p: map<u32, Message>): (k: u32)
    requires p != map[]
    ensures Least(p.Keys, k) && k in p
  {
    NoKeys(p);
    LeastExists(p.Keys);
    var k :| Least(p.Keys, k);
    k
  }

  lemma LowestUnique(p: map<u32, Message>, k: u32)
    requires k in p && forall j | j in p :: k <= j
    ensures p != map[] && Lowest(p) == k
  {
    hide Lowest;
  }

  /** `drain`: the run of held messages that starts at the cursor. */
  ghost function Drain(o: Order): Effect
    decreases |o.pending|
  {
    if o.pending == map[] || Lowest(o.pending) != o.next then Effect(o, [], 0, [])
    else
      var rest := Drain(Order(o.started, (o.next + 1) % TWO32, o.pending - {o.next}));
      Effect(rest.order, [o.pending[o.next]] + rest.out, 0, [])
  }

  /** The window loop: what does not fit pushes the cursor to the lowest held id. */
  ghost function Enforce(o: Order, window: nat): Effect
    decreases |o.pending|
  {
    if |o.pending| <= window then Effect(o, [], 0, [])
    else
      var lowest := Lowest(o.pending);
      var drained := Drain(o.(next := lowest));
      DrainShrinks(o.(next := lowest));
      var rest := Enforce(drained.order, window);
      Effect(rest.order, drained.out + rest.out, rest.gaps + if lowest > o.next then 1 else 0, [])
  }

  lemma {:induction false} DrainShrinks(o: Order)
    ensures |Drain(o).order.pending| <= |o.pending|
    ensures o.pending != map[] && Lowest(o.pending) == o.next ==> |Drain(o).order.pending| < |o.pending|
    decreases |o.pending|
  {
    if o.pending != map[] && Lowest(o.pending) == o.next {
      DrainShrinks(Order(o.started, (o.next + 1) % TWO32, o.pending - {o.next}));
    }
  }

  /** `offer`. */
  ghost function Offered(o: Order, m: Message, window: nat): Effect {
    var o := if o.started then o else o.(started := true, next := m.msgId);
    if m.msgId < o.next then Effect(o, [], 0, [m])
    else if m.msgId == o.next then
      var rest := Drain(o.(next := (o.next + 1) % TWO32));
      Effect(rest.order, [m] + rest.out, 0, [])
    else if m.msgId in o.pending then Effect(o, [], 0, [m])
    else Enforce(o.(pending := o.pending[m.msgId := m]), window)
  }

  /** `flush_stream`: everything held, in ascending order. */
  ghost function Flushed(o: Order): Effect
    decreases |o.pending|
  {
    if o.pending == map[] then Effect(o, [], 0, [])
    else
      var k := Lowest(o.pending);
      var rest := Flushed(Order(o.started, (k + 1) % TWO32, o.pending - {k}));
      Effect(rest.order, [o.pending[k]] + rest.out, rest.gaps + if k > o.next then 1 else 0, [])
  }

  // ---- what every call keeps

  /** The last id of all: releasing it wraps the cursor to zero. */
  const LAST_ID: u32 := 0xFFFF_FFFF

  /** Every held message is ahead of the cursor, under its own id. */
  ghost predicate Ahead(o: Order) {
    forall k | k in o.pending :: o.next < k && o.pending[k].msgId == k
  }

  /** Between calls: ahead of the cursor and within the window. */
  ghost predicate Settled(o: Order, window: nat) {
    Ahead(o) && |o.pending| <= window && (!o.started ==> o.pending == map[])
  }

  /** The cursor before the release `out[i]`, or after the last one. */
  function CursorAt(out: seq<Message>, from: u32, i: nat): u32
    requires i <= |out|
  {
    if i == 0 then from else (out[i - 1].msgId + 1) % TWO32
  }

  /** Every release is at or ahead of the cursor, which moves right behind it, from `from` to `to`. */
  ghost predicate Climbs(out: seq<Message>, from: u32, to: u32) {
    (forall i | 0 <= i < |out| :: CursorAt(out, from, i) <= out[i].msgId) && to == CursorAt(out, from, |out|)
  }

  /** Every release is at the cursor. */
  ghost predicate Fills(out: seq<Message>, from: u32, to: u32) {
    (forall i | 0 <= i < |out| :: out[i].msgId == CursorAt(out, from, i)) && to == CursorAt(out, from, |out|)
  }

  lemma CursorJoin(a: seq<Message>, b: seq<Message>, from: u32, i: nat)
    requires i <= |a + b|
    ensures CursorAt(a + b, from, i)
         == if i <= |a| then CursorAt(a, from, i) else CursorAt(b, CursorAt(a, from, |a|), i - |a|)
  {
  }

  lemma ClimbsJoin(a: seq<Message>, b: seq<Message>, from: u32, mid: u32, to: u32)
    requires Climbs(a, from, mid) && Climbs(b, mid, to)
    ensures Climbs(a + b, from, to)
  {
    hide CursorAt;
    forall i | 0 <= i <= |a + b|
      ensures i < |a + b| ==> CursorAt(a + b, from, i) <= (a + b)[i].msgId
      ensures i == |a + b| ==> CursorAt(a + b, from, i) == to
    {
      CursorJoin(a, b, from, i);
      CursorStart(b, mid);
    }
  }

  lemma CursorStart(out: seq<Message>, from: u32)
    ensures CursorAt(out, from, 0) == from
  {
  }

  lemma FillsJoin(a: seq<Message>, b: seq<Message>, from: u32, mid: u32, to: u32)
    requires Fills(a, from, mid) && Fills(b, mid, to)
    ensures Fills(a + b, from, to)
  {
    hide CursorAt;
    forall i | 0 <= i <= |a + b|
      ensures i < |a + b| ==> (a + b)[i].msgId == CursorAt(a + b, from, i)
      ensures i == |a + b| ==> CursorAt(a + b, from, i) == to
    {
      CursorJoin(a, b, from, i);
      CursorStart(b, mid);
    }
  }

  lemma FillsClimbs(out: seq<Message>, from: u32, to: u32)
    requires Fills(out, from, to)
    ensures Climbs(out, from, to)
  {
  }

  /** The held messages, counted. */
  ghost function Held(p: map<u32, Message>): multiset<Message>
    decreases |p|
  {
    if p == map[] then multiset{} else multiset{p[Lowest(p)]} + Held(p - {Lowest(p)})
  }

  lemma HeldStep(p: map<u32, Message>)
    requires p != map[]
    ensures Held(p) == multiset{p[Lowest(p)]} + Held(p - {Lowest(p)})
  {
    hide Lowest;
  }

  lemma {:induction false} HeldWithout(p: map<u32, Message>, k: u32)
    requires k in p
    ensures Held(p) == multiset{p[k]} + Held(p - {k})
    decreases |p|
  {
    hide Lowest, Held;
    HeldStep(p);
    var low := Lowest(p);
    if low != k {
      var rest := p - {low};
      HeldWithout(rest, k);
      LowestUnique(p - {k}, low);
      HeldStep(p - {k});
      assert p - {k} - {low} == rest - {k};
      var a, b, c := multiset{p[low]}, multiset{p[k]}, Held(rest - {k});
      assert a + (b + c) == b + (a + c);
    }
  }

  lemma HeldWith(p: map<u32, Message>, k: u32, m: Message)
    requires k !in p
    ensures Held(p[k := m]) == Held(p) + multiset{m}
  {
    HeldWithout(p[k := m], k);
    assert p[k := m] - {k} == p;
  }

  /** Nothing is lost and nothing invented: what came in is released, held or dropped. */
  ghost predicate Conserves(before: multiset<Message>, e: Effect) {
    multiset(e.out) + Held(e.order.pending) + multiset(e.dropped) == before
  }

  // ---- one call

  /** Held messages at or ahead of the cursor. */
  ghost predicate AtOrAhead(o: Order) {
    forall k | k in o.pending :: o.next <= k && o.pending[k].msgId == k
  }

  /** One turn of `drain`. */
  lemma DrainStep(o: Order)
    ensures Drain(o)
         == if o.pending == map[] || Lowest(o.pending) != o.next then Effect(o, [], 0, [])
            else
              var rest := Drain(Order(o.started, (o.next + 1) % TWO32, o.pending - {o.next}));
              Effect(rest.order, [o.pending[o.next]] + rest.out, 0, [])
  {
    hide Lowest;
  }

  /** A message released in front of a run of others. */
  lemma ConservesCons(p: map<u32, Message>, k: u32, e: Effect)
    requires k in p && Conserves(Held(p - {k}), e)
    ensures Conserves(Held(p), Effect(e.order, [p[k]] + e.out, e.gaps, e.dropped))
  {
    hide Held;
    HeldWithout(p, k);
    assert multiset([p[k]] + e.out) == multiset{p[k]} + multiset(e.out);
    var held, dropped := Held(e.order.pending), multiset(e.dropped);
    assert multiset{p[k]} + multiset(e.out) + held + dropped == multiset{p[k]} + (multiset(e.out) + held + dropped);
  }

  lemma {:induction false} DrainLaw(o: Order)
    requires AtOrAhead(o)
    ensures var e := Drain(o);
            && Ahead(e.order) && e.order.started == o.started && Conserves(Held(o.pending), e)
            && Fills(e.out, o.next, e.order.next)
    decreases |o.pending|
  {
    hide Lowest, Held, Drain, Conserves, Fills;
    DrainStep(o);
    if o.pending != map[] && Lowest(o.pending) == o.next {
      var k := o.next;
      var after := Order(o.started, (k + 1) % TWO32, o.pending - {k});
      DrainLaw(after);
      DrainDropsNone(after);
      ConservesCons(o.pending, k, Drain(after));
      ReleasedFirst(o.pending[k], Drain(after));
    } else {
      NothingReleased(o);
      forall k | k in o.pending ensures o.next < k {
        assert k in o.pending.Keys;
      }
    }
  }

  /** A message released in front of a run that fills the ids behind it. */
  lemma ReleasedFirst(m: Message, e: Effect)
    requires Fills(e.out, (m.msgId + 1) % TWO32, e.order.next)
    ensures Fills([m] + e.out, m.msgId, e.order.next)
  {
    FillsJoin([m], e.out, m.msgId, (m.msgId + 1) % TWO32, e.order.next);
  }

  lemma NothingReleased(o: Order)
    ensures Fills([], o.next, o.next) && Climbs([], o.next, o.next)
    ensures Conserves(Held(o.pending), Effect(o, [], 0, []))
  {
  }

  lemma {:induction false} EnforceLaw(o: Order, window: nat)
    requires Ahead(o)
    ensures var e := Enforce(o, window);
            && Ahead(e.order) && |e.order.pending| <= window && e.order.started == o.started
            && Climbs(e.out, o.next, e.order.next)
            && (e.gaps == 0 ==> e.out == [] && e.order == o)
            && Conserves(Held(o.pending), e)
    decreases |o.pending|
  {
    hide Drain, Held, Enforce, Lowest, Conserves, Climbs, Fills;
    EnforceStep(o, window);
    NothingReleased(o);
    if |o.pending| > window {
      var at := o.(next := Lowest(o.pending));
      DrainLaw(at);
      DrainStep(at);
      DrainShrinks(at);
      var drained := Drain(at);
      EnforceLaw(drained.order, window);
      DrainDropsNone(at);
      EnforceDropsNone(drained.order, window);
      JoinEnforced(o, at.next, drained, Enforce(drained.order, window));
    }
  }

  lemma JoinEnforced(o: Order, lowest: u32, drained: Effect, rest: Effect)
    requires o.next < lowest && drained.dropped == [] && rest.dropped == []
    requires Fills(drained.out, lowest, drained.order.next) && drained.out != []
    requires Climbs(rest.out, drained.order.next, rest.order.next)
    requires Conserves(Held(o.pending), drained) && Conserves(Held(drained.order.pending), rest)
    ensures Climbs(drained.out + rest.out, o.next, rest.order.next)
    ensures Conserves(Held(o.pending), Effect(rest.order, drained.out + rest.out, rest.gaps + 1, []))
  {
    hide Held;
    assert multiset(drained.out + rest.out) == multiset(drained.out) + multiset(rest.out);
    SkippedTo(drained.out, o.next, lowest, drained.order.next);
    ClimbsJoin(drained.out, rest.out, o.next, drained.order.next, rest.order.next);
  }

  /** Releases from a later id on, seen from an earlier cursor. */
  lemma SkippedTo(out: seq<Message>, from: u32, lowest: u32, to: u32)
    requires from <= lowest && Fills(out, lowest, to) && out != []
    ensures Climbs(out, from, to)
  {
    FillsClimbs(out, lowest, to);
    assert forall i | 0 < i <= |out| :: CursorAt(out, from, i) == CursorAt(out, lowest, i);
  }

  lemma EnforceStep(o: Order, window: nat)
    ensures if |o.pending| <= window then Enforce(o, window) == Effect(o, [], 0, [])
            else
              var lowest := Lowest(o.pending);
              var drained := Drain(o.(next := lowest));
              var rest := Enforce(drained.order, window);
              Enforce(o, window)
              == Effect(rest.order, drained.out + rest.out, rest.gaps + if lowest > o.next then 1 else 0, [])
  {
    hide Drain, Lowest;
  }

  lemma {:induction false} EnforceDropsNone(o: Order, window: nat)
    ensures Enforce(o, window).dropped == []
  {
  }

  /** One offer: order, window, conservation, and what happens when no gap is counted. */
  lemma OfferLaw(o: Order, m: Message, window: nat)
    requires Settled(o, window)
    ensures var e := Offered(o, m, window);
            var from := if o.started then o.next else m.msgId;
            && Settled(e.order, window) && e.order.started && Conserves(Held(o.pending) + multiset{m}, e)
            && Climbs(e.out, from, e.order.next) && (e.gaps == 0 ==> Fills(e.out, from, e.order.next))
  {
    hide Drain, Enforce, Held, Lowest, Conserves, Climbs, Fills;
    var start := if o.started then o else o.(started := true, next := m.msgId);
    NothingReleased(start);
    if m.msgId == start.next {
      InOrder(start, m, window);
    } else if m.msgId < start.next || m.msgId in start.pending {
      DroppedConserves(start, m);
    } else {
      var held := start.(pending := start.pending[m.msgId := m]);
      HeldWith(start.pending, m.msgId, m);
      EnforceLaw(held, window);
    }
  }

  lemma DroppedConserves(o: Order, m: Message)
    ensures Conserves(Held(o.pending) + multiset{m}, Effect(o, [], 0, [m]))
  {
    hide Held;
    assert multiset([m]) == multiset{m};
  }

  lemma InOrder(o: Order, m: Message, window: nat)
    requires Ahead(o) && |o.pending| <= window && m.msgId == o.next
    ensures var rest := Drain(o.(next := (o.next + 1) % TWO32));
            && Ahead(rest.order) && |rest.order.pending| <= window && rest.order.started == o.started
            && Conserves(Held(o.pending) + multiset{m}, Effect(rest.order, [m] + rest.out, 0, []))
            && Climbs([m] + rest.out, o.next, rest.order.next)
            && Fills([m] + rest.out, o.next, rest.order.next)
  {
    hide Drain, Held, Lowest, Fills, Climbs;
    var at := o.(next := (o.next + 1) % TWO32);
    DrainLaw(at);
    DrainShrinks(at);
    DrainDropsNone(at);
    var rest := Drain(at);
    ReleasedFirst(m, rest);
    FillsClimbs([m] + rest.out, o.next, rest.order.next);
    assert multiset([m] + rest.out) == multiset{m} + multiset(rest.out);
  }

  lemma DrainDropsNone(o: Order)
    ensures Drain(o).dropped == [] && Drain(o).gaps == 0
  {
    hide Lowest;
  }

  /** One turn of the flush. */
  lemma FlushStep(o: Order)
    ensures Flushed(o)
         == if o.pending == map[] then Effect(o, [], 0, [])
            else
              var k := Lowest(o.pending);
              var rest := Flushed(Order(o.started, (k + 1) % TWO32, o.pending - {k}));
              Effect(rest.order, [o.pending[k]] + rest.out, rest.gaps + if k > o.next then 1 else 0, [])
  {
    hide Lowest;
  }

  lemma FlushDropsNone(o: Order)
    ensures Flushed(o).dropped == []
  {
    hide Lowest;
  }

  lemma {:induction false} FlushLaw(o: Order)
    requires AtOrAhead(o)
    ensures var e := Flushed(o);
            && e.order.pending == map[] && e.order.started == o.started
            && Climbs(e.out, o.next, e.order.next)
            && Conserves(Held(o.pending), e) && e.dropped == []
    decreases |o.pending|
  {
    hide Lowest, Held, Flushed, Climbs;
    FlushStep(o);
    if o.pending != map[] {
      var k := Lowest(o.pending);
      var after := Order(o.started, (k + 1) % TWO32, o.pending - {k});
      FlushLaw(after);
      ConservesCons(o.pending, k, Flushed(after));
      FlushedFirst(o.pending[k], o.next, Flushed(after));
    } else {
      NothingReleased(o);
    }
  }

  lemma FlushedFirst(m: Message, next: u32, e: Effect)
    requires next <= m.msgId && Climbs(e.out, (m.msgId + 1) % TWO32, e.order.next)
    ensures Climbs([m] + e.out, next, e.order.next)
  {
    ClimbsJoin([m], e.out, next, (m.msgId + 1) % TWO32, e.order.next);
  }

  // ---- whole runs on one stream

  /** A call on the queue. */
  datatype Call = Offer(m: Message) | Flush(streamId: u16) {
    function Target(): u16 {
      if Offer? then m.streamId else streamId
    }

    /** The message handed in, if any. */
    function Given(): seq<Message> {
      if Offer? then [m] else []
    }
  }

  ghost function Called(o: Order, c: Call, window: nat): Effect {
    match c
    case Offer(m) => Offered(o, m, window)
    case Flush(_) => Flushed(o)
  }

  /** Where the releases of a call start: a first offer sets the cursor. */
  function From(o: Order, c: Call): u32 {
    if !o.started && c.Offer? then c.m.msgId else o.next
  }

  lemma CallLaw(o: Order, c: Call, window: nat)
    requires Settled(o, window)
    ensures var e := Called(o, c, window);
            && Settled(e.order, window) && Conserves(Held(o.pending) + multiset(c.Given()), e)
            && e.order.started == (o.started || c.Offer?)
            && (o.started || c.Offer? ==>
                 && Climbs(e.out, From(o, c), e.order.next)
                 && (e.gaps == 0 ==> Fills(e.out, From(o, c), e.order.next)))
            && (!o.started && c.Flush? ==> e == Effect(o, [], 0, []))
  {
    hide Offered, Flushed, Held, Lowest, Conserves, Climbs, Fills;
    NothingReleased(o);
    match c
    case Offer(m) =>
      assert multiset(c.Given()) == multiset{m};
      OfferLaw(o, m, window);
    case Flush(_) =>
      assert Held(o.pending) + multiset(c.Given()) == Held(o.pending);
      FlushLaw(o);
      FlushCountsGap(o);
  }

  /** Held messages are ahead of the cursor, so releasing any of them early is a gap. */
  lemma FlushCountsGap(o: Order)
    requires Ahead(o)
    ensures o.pending != map[] ==> Flushed(o).gaps > 0
    ensures o.pending == map[] ==> Flushed(o) == Effect(o, [], 0, [])
  {
    FlushStep(o);
  }

  ghost function Runs(o: Order, cs: seq<Call>, window: nat): Effect {
    if cs == [] then Effect(o, [], 0, [])
    else
      var before := Runs(o, cs[..|cs| - 1], window);
      var now := Called(before.order, cs[|cs| - 1], window);
      Effect(now.order, before.out + now.out, before.gaps + now.gaps, before.dropped + now.dropped)
  }

  /** The messages handed in over a run. */
  function Given(cs: seq<Call>): seq<Message> {
    if cs == [] then [] else Given(cs[..|cs| - 1]) + cs[|cs| - 1].Given()
  }

  /** What every run keeps: order among the held, the window, and every message accounted for. */
  ghost predicate Kept(e: Effect, ms: seq<Message>, window: nat) {
    && Settled(e.order, window) && Conserves(multiset(ms), e) && (ms != [] ==> e.order.started)
    && (ms == [] ==> e == Effect(UNSTARTED, [], 0, []))
  }

  /** Releases climb from the first id offered to the cursor, and skip nothing if no gap was counted. */
  ghost predicate Ordered(e: Effect, ms: seq<Message>) {
    ms != [] ==>
      && Climbs(e.out, ms[0].msgId, e.order.next)
      && (e.gaps == 0 ==> Fills(e.out, ms[0].msgId, e.order.next))
  }

  /**
    * Over any run of offers and flushes from an empty stream: what is held is ahead of the
    * cursor and within the window, and every message offered is released, held or counted as a
    * duplicate. Every release is at or ahead of the cursor, which moves right behind it modulo
    * 2^32, and while no gap has been counted every release is at the cursor.
    */
  lemma {:induction false} DeliveryLaw(cs: seq<Call>, window: nat)
    ensures var e, ms := Runs(UNSTARTED, cs, window), Given(cs);
            Kept(e, ms, window) && Ordered(e, ms)
    decreases |cs|
  {
    hide Called, Runs, Held, Lowest, Settled, Conserves, Climbs, Fills, Ahead, Ordered, Kept;
    if cs == [] {
      NoCalls(window);
    } else {
      var front, c := cs[..|cs| - 1], cs[|cs| - 1];
      assert Given(cs) == Given(front) + c.Given();
      DeliveryLaw(front, window);
      var before := Runs(UNSTARTED, front, window);
      CallAfter(before, c, Given(front), window);
      RunsStep(UNSTARTED, cs, window);
    }
  }

  lemma CallAfter(before: Effect, c: Call, front: seq<Message>, window: nat)
    requires Kept(before, front, window) && Ordered(before, front)
    ensures var e := Then(before, Called(before.order, c, window));
            Kept(e, front + c.Given(), window) && Ordered(e, front + c.Given())
  {
    hide Called, Held, Lowest, Settled, Conserves, Climbs, Fills, Ahead, Ordered;
    CallLaw(before.order, c, window);
    JoinRuns(before, Called(before.order, c, window), front, c, window);
  }

  lemma RunsStep(o: Order, cs: seq<Call>, window: nat)
    requires cs != []
    ensures var before := Runs(o, cs[..|cs| - 1], window);
            Runs(o, cs, window) == Then(before, Called(before.order, cs[|cs| - 1], window))
  {
    hide Called;
  }

  function Then(before: Effect, now: Effect): Effect {
    Effect(now.order, before.out + now.out, before.gaps + now.gaps, before.dropped + now.dropped)
  }

  lemma NoCalls(window: nat)
    ensures Runs(UNSTARTED, [], window) == Effect(UNSTARTED, [], 0, [])
    ensures Kept(Effect(UNSTARTED, [], 0, []), [], window)
    ensures Ordered(Effect(UNSTARTED, [], 0, []), [])
  {
    NothingHeld();
  }

  lemma NothingHeld()
    ensures Held(map[]) == multiset{}
  {
  }

  lemma ConservesJoin(before: Effect, now: Effect, front: seq<Message>, given: seq<Message>)
    requires Conserves(multiset(front), before) && Conserves(Held(before.order.pending) + multiset(given), now)
    ensures Conserves(multiset(front + given), Then(before, now))
  {
    hide Held;
    assert multiset(before.out + now.out) == multiset(before.out) + multiset(now.out);
    assert multiset(before.dropped + now.dropped) == multiset(before.dropped) + multiset(now.dropped);
    assert multiset(front + given) == multiset(front) + multiset(given);
    var a, b, held := multiset(before.out), multiset(now.out), Held(now.order.pending);
    var d, e, mid := multiset(before.dropped), multiset(now.dropped), Held(before.order.pending);
    assert (a + b) + held + (d + e) == (a + d) + (b + held + e);
    assert (a + d) + (mid + multiset(given)) == (a + mid + d) + multiset(given);
  }

  lemma JoinRuns(before: Effect, now: Effect, front: seq<Message>, c: Call, window: nat)
    requires Kept(before, front, window) && Ordered(before, front)
    requires Settled(now.order, window) && Conserves(Held(before.order.pending) + multiset(c.Given()), now)
    requires now.order.started == (before.order.started || c.Offer?)
    requires before.order.started || c.Offer? ==>
               && Climbs(now.out, From(before.order, c), now.order.next)
               && (now.gaps == 0 ==> Fills(now.out, From(before.order, c), now.order.next))
    requires !before.order.started && c.Flush? ==> now == Effect(before.order, [], 0, [])
    ensures Kept(Then(before, now), front + c.Given(), window)
    ensures Ordered(Then(before, now), front + c.Given())
  {
    hide Held, Conserves, Settled, Climbs, Fills;
    ConservesJoin(before, now, front, c.Given());
    if front == [] {
      FirstCall(now, c);
      assert Then(before, now) == now && front + c.Given() == c.Given();
    } else {
      var all := front + c.Given();
      assert all != [] && all[0] == front[0];
      var e := Then(before, now);
      assert e.order.started && e.order == now.order;
      JoinLater(before, now, front[0].msgId);
    }
  }

  lemma FirstCall(now: Effect, c: Call)
    ensures Then(Effect(UNSTARTED, [], 0, []), now) == now
    ensures c.Offer? ==> c.Given() != [] && c.Given()[0].msgId == From(UNSTARTED, c)
    ensures c.Flush? ==> c.Given() == []
  {
    assert [] + now.out == now.out && [] + now.dropped == now.dropped;
  }

  /** Releases that go on where earlier ones stopped. */
  lemma JoinLater(before: Effect, now: Effect, first: u32)
    requires Climbs(before.out, first, before.order.next) && Climbs(now.out, before.order.next, now.order.next)
    requires before.gaps == 0 ==> Fills(before.out, first, before.order.next)
    requires now.gaps == 0 ==> Fills(now.out, before.order.next, now.order.next)
    ensures Climbs(Then(before, now).out, first, now.order.next)
    ensures Then(before, now).gaps == 0 ==> Fills(Then(before, now).out, first, now.order.next)
  {
    hide Climbs, Fills;
    ClimbsJoin(before.out, now.out, first, before.order.next, now.order.next);
    if before.gaps + now.gaps == 0 {
      FillsJoin(before.out, now.out, first, before.order.next, now.order.next);
    }
  }

  /** The last id of all wraps the cursor, and its repeat is then held instead of dropped. */
  lemma LastIdWraps(m: Message)
    requires m.msgId == 0xFFFF_FFFF
    ensures var e := Offered(UNSTARTED, m, 1);
            e.out == [m] && e.order == Order(true, 0, map[])
            && Offered(e.order, m, 1) == Effect(Order(true, 0, map[m.msgId := m]), [], 0, [])
  {
    hide Lowest;
    DrainStep(Order(true, 0, map[]));
    assert [m] + [] == [m];
    assert |map[m.msgId := m]| == 1;
  }

  // ---- the queue over all streams

  class DeliveryQueue {
    var streams: map<u16, Order>
    const window: nat
    var gaps: nat
    var duplicates: nat

    constructor (window: nat)
      ensures this.window == Max(window, 1) && streams == map[] && gaps == 0 && duplicates == 0
    {
      this.window := if window == 0 then 1 else window;
      streams, gaps, duplicates := map[], 0, 0;
    }

    ghost function StreamAt(s: u16): Order
      reads this
    {
      if s in streams then streams[s] else UNSTARTED
    }

    /** The contiguous run at the cursor, released. */
    static method DrainOrder(o: Order) returns (after: Order, out: seq<Message>)
      ensures Drain(o) == Effect(after, out, 0, [])
    {
      hide Drain, Lowest;
      DrainDropsNone(o);
      after, out := o, [];
      ghost var whole := Drain(o);
      assert [] + whole.out == whole.out;
      while after.pending != map[]
        invariant whole == Effect(Drain(after).order, out + Drain(after).out, 0, [])
        decreases |after.pending|
      {
        DrainStep(after);
        var first := TakeLowest(after.pending);
        if first != after.next {
          break;
        }
        ghost var rest := Drain(Order(after.started, (after.next + 1) % TWO32, after.pending - {first}));
        Regroup3(out, [after.pending[first]], rest.out);
        out := out + [after.pending[first]];
        after := Order(after.started, (after.next + 1) % TWO32, after.pending - {first});
      }
      DrainStep(after);
      assert out + [] == out;
    }

    static method TakeLowest(p: map<u32, Message>) returns (k: u32)
      requires p != map[]
      ensures k == Lowest(p)
    {
      ghost var low := Lowest(p);
      k :| k in p && forall j | j in p :: k <= j;
      LowestUnique(p, k);
    }

    method Offer(m: Message) returns (out: seq<Message>)
      modifies this
      ensures var e := Offered(old(StreamAt(m.streamId)), m, window);
              && streams == old(streams)[m.streamId := e.order] && out == e.out
              && gaps == old(gaps) + e.gaps && duplicates == old(duplicates) + |e.dropped|
    {
      hide Drain, Enforce, Lowest;
      out := [];
      var s := if m.streamId in streams then streams[m.streamId] else UNSTARTED;
      if !s.started {
        s := s.(started := true, next := m.msgId);
      }
      streams := streams[m.streamId := s];
      if m.msgId < s.next {
        duplicates := duplicates + 1;
        return;
      }
      if m.msgId == s.next {
        var after, released := DrainOrder(s.(next := (s.next + 1) % TWO32));
        streams := streams[m.streamId := after];
        return [m] + released;
      }
      if m.msgId in s.pending {
        duplicates := duplicates + 1;
        return;
      }
      EnforceDropsNone(s.(pending := s.pending[m.msgId := m]), window);
      out := EnforceWindow(m.streamId, s.(pending := s.pending[m.msgId := m]));
    }

    /** The loop that keeps a stream within the window. */
    method EnforceWindow(id: u16, start: Order) returns (out: seq<Message>)
      modifies this
      ensures var e := Enforce(start, window);
              && streams == old(streams)[id := e.order] && out == e.out
              && gaps == old(gaps) + e.gaps && duplicates == old(duplicates)
    {
      hide Drain, Lowest, Enforce;
      out := [];
      var s := start;
      ghost var whole, counted: nat := Enforce(start, window), 0;
      EnforceDropsNone(start, window);
      assert [] + whole.out == whole.out;
      while |s.pending| > window
        invariant streams == old(streams) && duplicates == old(duplicates)
        invariant gaps == old(gaps) + counted
        invariant var rest := Enforce(s, window);
                  whole == Effect(rest.order, out + rest.out, counted + rest.gaps, [])
        decreases |s.pending|
      {
        EnforceStep(s, window);
        ghost var before := s;
        var lowest := TakeLowest(s.pending);
        if lowest > s.next {
          gaps := gaps + 1;
          counted := counted + 1;
        }
        var after, released := DrainOrder(s.(next := lowest));
        DrainShrinks(s.(next := lowest));
        Regroup3(out, released, Enforce(after, window).out);
        out := out + released;
        s := after;
      }
      EnforceStep(s, window);
      assert out + [] == out;
      streams := streams[id := s];
    }

    method FlushStream(id: u16) returns (out: seq<Message>)
      modifies this
      ensures id !in old(streams) ==> out == [] && streams == old(streams) && gaps == old(gaps)
      ensures id in old(streams) ==>
                var e := Flushed(old(streams)[id]);
                streams == old(streams)[id := e.order] && out == e.out && gaps == old(gaps) + e.gaps
      ensures duplicates == old(duplicates)
    {
      hide Lowest, Flushed;
      out := [];
      if id !in streams {
        return;
      }
      var s := streams[id];
      ghost var whole, counted: nat := Flushed(s), 0;
      FlushDropsNone(s);
      assert [] + whole.out == whole.out;
      while s.pending != map[]
        invariant streams == old(streams) && duplicates == old(duplicates)
        invariant gaps == old(gaps) + counted
        invariant var rest := Flushed(s);
                  whole == Effect(rest.order, out + rest.out, counted + rest.gaps, [])
        decreases |s.pending|
      {
        FlushStep(s);
        var k := TakeLowest(s.pending);
        if k > s.next {
          gaps := gaps + 1;
          counted := counted + 1;
        }
        ghost var rest := Flushed(Order(s.started, (k + 1) % TWO32, s.pending - {k}));
        Regroup3(out, [s.pending[k]], rest.out);
        out := out + [s.pending[k]];
        s := Order(s.started, (k + 1) % TWO32, s.pending - {k});
      }
      FlushStep(s);
      assert out + [] == out;
      streams := streams[id := s];
    }
  }

  // ---- streams do not touch each other

  function OrderOf(streams: map<u16, Order>, s: u16): Order {
    if s in streams then streams[s] else UNSTARTED
  }

  /** A call on the queue; flushing an unknown stream opens none. */
  ghost function QueueCall(streams: map<u16, Order>, c: Call, window: nat): map<u16, Order> {
    if c.Flush? && c.streamId !in streams then streams
    else streams[c.Target() := Called(OrderOf(streams, c.Target()), c, window).order]
  }

  ghost function QueueRun(streams: map<u16, Order>, cs: seq<Call>, window: nat): map<u16, Order> {
    if cs == [] then streams
    else QueueCall(QueueRun(streams, cs[..|cs| - 1], window), cs[|cs| - 1], window)
  }

  /** What a run releases for one stream. */
  ghost function ReleasedFor(streams: map<u16, Order>, cs: seq<Call>, window: nat, s: u16): seq<Message> {
    if cs == [] then []
    else
      var front, c := cs[..|cs| - 1], cs[|cs| - 1];
      ReleasedFor(streams, front, window, s)
      + if c.Target() == s then Called(OrderOf(QueueRun(streams, front, window), s), c, window).out else []
  }

  ghost function OnStream(cs: seq<Call>, s: u16): seq<Call> {
    if cs == [] then []
    else OnStream(cs[..|cs| - 1], s) + if cs[|cs| - 1].Target() == s then [cs[|cs| - 1]] else []
  }

  /** A stream in a run over many behaves as it would alone. */
  lemma {:induction false} StreamsIndependent(cs: seq<Call>, window: nat, s: u16)
    ensures var alone := Runs(UNSTARTED, OnStream(cs, s), window);
            && OrderOf(QueueRun(map[], cs, window), s) == alone.order
            && ReleasedFor(map[], cs, window, s) == alone.out
    decreases |cs|
  {
    if cs != [] {
      var front, c := cs[..|cs| - 1], cs[|cs| - 1];
      StreamsIndependent(front, window, s);
      var mine := OnStream(front, s);
      NothingToFlush(c, window);
      hide Called;
      if c.Target() == s {
        assert (mine + [c])[..|mine|] == mine && (mine + [c])[|mine|] == c;
      } else {
        assert mine + [] == mine;
      }
    }
  }

  lemma NothingToFlush(c: Call, window: nat)
    ensures c.Flush? ==> Called(UNSTARTED, c, window) == Effect(UNSTARTED, [], 0, [])
  {
  }
}
