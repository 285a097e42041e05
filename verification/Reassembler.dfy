/** The reassembler. */
module Reassembling {
  // Partial messages in a vector, found through an index from message to slot as in
  // reassembler.cpp. While index and store agree they behave as a plain map from message to
  // partial; a RESET can bring them apart, and what the code does then is modelled as well, up
  // to an access past the end of the store.

  import opened Common
  import opened Frames
  import opened Reassembly

  /** One index entry per slot, and each entry names the slot of its message. */
  ghost predicate Agrees(store: seq<Partial>, index: map<Key, nat>) {
    && (forall i | 0 <= i < |store| :: store[i].Id() in index && index[store[i].Id()] == i)
    && (forall k | k in index :: index[k] < |store| && store[index[k]].Id() == k)
  }

  /** The map a store and its index stand for. */
  ghost function View(store: seq<Partial>, index: map<Key, nat>): Table
    requires Agrees(store, index)
  {
    map k | k in index :: store[index[k]]
  }

  lemma OpenSlot(store: seq<Partial>, index: map<Key, nat>, k: Key)
    requires Agrees(store, index) && k !in index
    ensures Agrees(store + [Fresh(k)], index[k := |store|])
    ensures View(store + [Fresh(k)], index[k := |store|]) == View(store, index)[k := Fresh(k)]
  {
  }

  lemma ReplaceSlot(store: seq<Partial>, index: map<Key, nat>, k: Key, p: Partial)
    requires Agrees(store, index) && k in index && p.Id() == k
    ensures Agrees(store[index[k] := p], index)
    ensures View(store[index[k] := p], index) == View(store, index)[k := p]
  {
  }

  /** Store and index with a slot for a message, at the end if it is new. */
  function Opened(store: seq<Partial>, index: map<Key, nat>, k: Key): (seq<Partial>, map<Key, nat>) {
    if k in index then (store, index) else (store + [Fresh(k)], index[k := |store|])
  }

  /** Looking the message up stays within the store. */
  predicate InRange(store: seq<Partial>, index: map<Key, nat>, k: Key) {
    k in index ==> index[k] < |store|
  }

  /** The partial a DATA frame is placed in, after that. */
  function Updated(store: seq<Partial>, index: map<Key, nat>, f: Frame): Partial
    requires InRange(store, index, f.Id())
  {
    var (s, ix) := Opened(store, index, f.Id());
    Absorb(s[ix[f.Id()]], f)
  }

  /** Store and index after a DATA frame. */
  function Placed(store: seq<Partial>, index: map<Key, nat>, f: Frame): (seq<Partial>, map<Key, nat>)
    requires InRange(store, index, f.Id())
  {
    var k := f.Id();
    var (s, ix) := Opened(store, index, k);
    var q := Updated(store, index, f);
    var placed := s[ix[k] := q];
    if IsComplete(q) then (SwappedStore(placed, ix[k]), SwappedIndex(placed, ix, k, ix[k])) else (placed, ix)
  }

  /** The message a DATA frame completes. */
  function Completed(store: seq<Partial>, index: map<Key, nat>, f: Frame): Option<Message>
    requires InRange(store, index, f.Id())
  {
    var q := Updated(store, index, f);
    if IsComplete(q) && q.totalLen <= |q.buffer|
    then Some(Message(f.streamId, f.msgId, q.compressed, q.buffer[..q.totalLen])) else None
  }

  /** While store and index agree, a DATA frame acts on them as on the map they stand for. */
  lemma PlacedIsAccepted(store: seq<Partial>, index: map<Key, nat>, f: Frame)
    requires Agrees(store, index)
    ensures InRange(store, index, f.Id())
    ensures var (s, ix) := Placed(store, index, f);
            Agrees(s, ix) && View(s, ix) == Accepted(View(store, index), f)
    ensures Completed(store, index, f) == Emitted(View(store, index), f)
  {
    hide Absorb, IsComplete, Agrees, View, SwappedStore, SwappedIndex;
    var k, t := f.Id(), View(store, index);
    EntryInRange(store, index, k);
    OpenedView(store, index, k);
    var (s, ix) := Opened(store, index, k);
    var q := Updated(store, index, f);
    AbsorbKeepsId(s[ix[k]], f);
    ReplaceSlot(s, ix, k, q);
    assert t[k := Current(t, k)][k := q] == t[k := q];
    SwapAndPop(s[ix[k] := q], ix, k);
    assert t[k := q] - {k} == t - {k};
  }

  lemma EntryInRange(store: seq<Partial>, index: map<Key, nat>, k: Key)
    requires Agrees(store, index)
    ensures InRange(store, index, k)
  {
  }

  lemma OpenedView(store: seq<Partial>, index: map<Key, nat>, k: Key)
    requires Agrees(store, index)
    ensures var (s, ix) := Opened(store, index, k);
            && Agrees(s, ix) && k in ix && ix[k] < |s| && s[ix[k]] == Current(View(store, index), k)
            && View(s, ix) == View(store, index)[k := Current(View(store, index), k)]
  {
    if k !in index {
      OpenSlot(store, index, k);
    }
  }

  lemma AbsorbKeepsId(p: Partial, f: Frame)
    ensures Absorb(p, f).Id() == p.Id()
  {
  }

  /** The last partial in place of the removed one. */
  function SwappedStore(store: seq<Partial>, idx: nat): seq<Partial>
    requires idx < |store|
  {
    var last := |store| - 1;
    if idx != last then store[idx := store[last]][..last] else store[..last]
  }

  function SwappedIndex(store: seq<Partial>, index: map<Key, nat>, k: Key, idx: nat): map<Key, nat>
    requires idx < |store|
  {
    var last := |store| - 1;
    if idx != last then (index - {k})[store[last].Id() := idx] else index - {k}
  }

  /** Every other message keeps an entry, and the entry finds its partial. */
  lemma SwappedEntry(store: seq<Partial>, index: map<Key, nat>, k: Key, j: Key)
    requires Agrees(store, index) && k in index && j in index && j != k
    ensures var s, m := SwappedStore(store, index[k]), SwappedIndex(store, index, k, index[k]);
            j in m && m[j] < |s| && s[m[j]] == store[index[j]]
  {
    var last := |store| - 1;
    if index[j] == last {
      assert store[last].Id() == j;
    } else {
      assert j != store[last].Id();
    }
  }

  /** Every slot that is left is where its message's entry says. */
  lemma SwappedSlot(store: seq<Partial>, index: map<Key, nat>, k: Key, i: nat)
    requires Agrees(store, index) && k in index && i < |store| - 1
    ensures var s, m := SwappedStore(store, index[k]), SwappedIndex(store, index, k, index[k]);
            && |s| == |store| - 1 && s[i] == (if i == index[k] then store[|store| - 1] else store[i])
            && s[i].Id() in m && m[s[i].Id()] == i
  {
  }

  lemma SwapAndPop(store: seq<Partial>, index: map<Key, nat>, k: Key)
    requires Agrees(store, index) && k in index
    ensures Agrees(SwappedStore(store, index[k]), SwappedIndex(store, index, k, index[k]))
    ensures View(SwappedStore(store, index[k]), SwappedIndex(store, index, k, index[k])) == View(store, index) - {k}
  {
    var s, m := SwappedStore(store, index[k]), SwappedIndex(store, index, k, index[k]);
    assert m.Keys == index.Keys - {k};
    hide SwappedStore, SwappedIndex;
    forall i | 0 <= i < |s| ensures s[i].Id() in m && m[s[i].Id()] == i {
      SwappedSlot(store, index, k, i);
    }
    forall j | j in m ensures j in index && j != k && m[j] < |s| && s[m[j]] == store[index[j]] {
      SwappedEntry(store, index, k, j);
    }
  }

  ghost predicate AllSound(store: seq<Partial>) {
    forall i | 0 <= i < |store| :: Sound(store[i])
  }

  lemma OpenedSound(store: seq<Partial>, index: map<Key, nat>, k: Key)
    requires AllSound(store)
    ensures AllSound(Opened(store, index, k).0)
  {
  }

  lemma SwappedSound(store: seq<Partial>, idx: nat)
    requires AllSound(store) && idx < |store|
    ensures AllSound(SwappedStore(store, idx))
  {
    hide Sound;
  }

  class Reassembler {
    var store: seq<Partial>
    var index: map<Key, nat>

    ghost predicate Valid()
      reads this
    {
      AllSound(store)
    }

    /** Index and store agree. */
    ghost predicate Settled()
      reads this
    {
      Agrees(store, index)
    }

    ghost function Pending(): Table
      requires Settled()
      reads this
    {
      View(store, index)
    }

    constructor ()
      ensures Valid() && Settled() && Pending() == map[]
      ensures store == [] && index == map[]
    {
      store := [];
      index := map[];
    }

    function InFlight(): nat
      reads this
    {
      |store|
    }

    /** The slot of a message, opened at the end of the store when there is none. */
    method SlotFor(k: Key) returns (idx: nat)
      requires InRange(store, index, k)
      modifies this
      ensures (store, index) == Opened(old(store), old(index), k)
      ensures k in index && index[k] == idx < |store|
    {
      if k in index {
        return index[k];
      }
      store := store + [Fresh(k)];
      idx := |store| - 1;
      index := index[k := idx];
    }

    /** Swap-and-pop: the last partial moves into the hole and its entry follows it. */
    method RemoveSlot(idx: nat, k: Key)
      requires idx < |store|
      modifies this
      ensures store == SwappedStore(old(store), idx) && index == SwappedIndex(old(store), old(index), k, idx)
      ensures old(Settled()) && k in old(index) && old(index)[k] == idx ==>
                Settled() && Pending() == old(Pending()) - {k}
    {
      ghost var wholeStore, wholeIndex := store, index;
      index := index - {k};
      var last := |store| - 1;
      if idx != last {
        store := store[idx := store[last]];
        var moved := store[idx].Id();
        index := index[moved := idx];
      }
      store := store[..last];
      hide Agrees, View;
      assert store == SwappedStore(wholeStore, idx) && index == SwappedIndex(wholeStore, wholeIndex, k, idx);
      if Agrees(wholeStore, wholeIndex) && k in wholeIndex && wholeIndex[k] == idx {
        SwapAndPop(wholeStore, wholeIndex, k);
      }
    }

    /**
      * A DATA frame: the message it completes, if it completes one. Where index and store
      * agree they still do, and behave as the map they stand for.
      */
    method AcceptData(f: Frame) returns (out: Option<Message>)
      requires Valid() && InRange(store, index, f.Id())
      modifies this
      ensures Valid() && (store, index) == Placed(old(store), old(index), f)
      ensures out == Completed(old(store), old(index), f)
      ensures old(Settled()) ==>
                && Settled() && out == Emitted(old(Pending()), f) && Pending() == Accepted(old(Pending()), f)
    {
      hide Absorb, Sound, IsComplete, Agrees, View, SwappedStore, SwappedIndex;
      ghost var before, named := store, index;
      var k := f.Id();
      var idx := SlotFor(k);
      OpenedSound(before, named, k);
      var p := store[idx];
      AbsorbSound(p, f);
      var q := PlaceFragment(p, f);
      store := store[idx := q];
      if Agrees(before, named) {
        PlacedIsAccepted(before, named, f);
      }
      if !IsComplete(q) {
        return None;
      }
      EndInBuffer(q);
      out := Some(Message(f.streamId, f.msgId, q.compressed, q.buffer[..q.totalLen]));
      SwappedSound(store, idx);
      RemoveSlot(idx, k);
    }

    /** The partial's update, step by step. */
    static method PlaceFragment(p: Partial, f: Frame) returns (q: Partial)
      requires Sound(p)
      ensures q == Absorb(p, f)
    {
      var begin := if FragBit(f.flags) then f.fragOffset else 0;
      var end := Min(begin + |f.payload|, TWO32 - 1);
      var buffer := PlaceBytes(p.buffer, begin, end, f.payload);
      var ranges := AddRange(p.ranges, begin, end);
      var highWater := Max(p.highWater, end);
      q := p.(compressed := p.compressed || f.Compressed(), buffer := buffer, ranges := ranges, highWater := highWater);
      if f.Fin() {
        q := q.(haveFin := true, totalLen := highWater);
      }
    }

    static method PlaceBytes(held: bytes, begin: nat, end: nat, payload: bytes) returns (buffer: bytes)
      ensures buffer == Overwritten(Grown(held, end), begin, payload)
    {
      buffer := held;
      if end > |buffer| {
        buffer := buffer + Zeros(end - |buffer|);
      }
      if payload != [] && begin < |buffer| {
        var n := Min(|payload|, |buffer| - begin);
        buffer := buffer[..begin] + payload[..n] + buffer[begin + n..];
      }
    }

    /** `add_range`: append, sort, then merge what touches or overlaps. */
    static method AddRange(ranges: seq<Span>, begin: nat, end: nat) returns (merged: seq<Span>)
      requires Canonical(ranges)
      ensures merged == AddSpan(ranges, begin, end)
    {
      if end <= begin {
        return ranges;
      }
      var spans := Sorted(ranges + [Span(begin, end)]);
      ghost var all := ranges + [Span(begin, end)];
      SameSpans(all, spans);
      merged := [];
      for i := 0 to |spans|
        invariant Canonical(merged)
        invariant forall x: nat :: Covers(merged, x) <==> Covers(spans[..i], x)
        invariant i > 0 ==> merged != [] && merged[|merged| - 1].lo <= spans[i - 1].lo
        invariant i == 0 ==> merged == []
      {
        var span := spans[i];
        assert span in spans;
        assert i > 0 ==> spans[i - 1].lo <= span.lo;
        assert spans[..i + 1] == spans[..i] + [span];
        MergeCovers(merged, spans[..i], span);
        if merged != [] && span.lo <= merged[|merged| - 1].hi {
          var last := merged[|merged| - 1];
          merged := merged[..|merged| - 1] + [Span(last.lo, Max(last.hi, span.hi))];
        } else {
          merged := merged + [span];
        }
      }
      assert spans[..|spans|] == spans;
      forall x: nat ensures Covers(merged, x) <==> Covers(AddSpan(ranges, begin, end), x) {
        SnocCovers(ranges, Span(begin, end), x);
        InsertCovers(ranges, Span(begin, end), x);
      }
      InsertCanonical(ranges, Span(begin, end));
      CoverageDetermines(merged, AddSpan(ranges, begin, end));
    }

    /** The order `std::sort` gives pairs: by begin, then by end. */
    static predicate Before(a: Span, b: Span) {
      a.lo < b.lo || (a.lo == b.lo && a.hi <= b.hi)
    }

    /** Sorting by insertion; the order is total, so the result is the library's. */
    static method Sorted(spans: seq<Span>) returns (r: seq<Span>)
      ensures multiset(r) == multiset(spans)
      ensures forall i, j | 0 <= i < j < |r| :: Before(r[i], r[j])
    {
      r := [];
      for i := 0 to |spans|
        invariant multiset(r) == multiset(spans[..i])
        invariant forall a, b | 0 <= a < b < |r| :: Before(r[a], r[b])
      {
        assert spans[..i + 1] == spans[..i] + [spans[i]];
        r := InsertSorted(r, spans[i]);
      }
      assert spans[..|spans|] == spans;
    }

    static method InsertSorted(r: seq<Span>, x: Span) returns (q: seq<Span>)
      requires forall i, j | 0 <= i < j < |r| :: Before(r[i], r[j])
      ensures multiset(q) == multiset(r) + multiset{x}
      ensures forall i, j | 0 <= i < j < |q| :: Before(q[i], q[j])
    {
      var at := |r|;
      while at > 0 && !Before(r[at - 1], x)
        invariant 0 <= at <= |r|
        invariant forall b | at <= b < |r| :: Before(x, r[b])
      {
        at := at - 1;
      }
      Splice(r, at, x);
      assert r == r[..at] + r[at..];
      q := r[..at] + [x] + r[at..];
    }

    /**
      * RESET: drop every partial of a stream and close the holes. Index entries behind the
      * first hole slide down by one, however many slots were dropped in front of them.
      */
    method ResetStream(streamId: u16) returns (dropped: nat)
      requires Valid()
      modifies this
      ensures Valid() && dropped == DroppedBelow(old(store), streamId, |old(store)|)
      ensures store == Survivors(old(store), streamId, |old(store)|)
      ensures index == SlidIndex(old(store), old(index), streamId)
      ensures old(Settled()) ==> (Settled() <==> SlidesSafely(old(store), streamId))
      ensures old(Settled()) && Settled() ==> Pending() == Without(old(Pending()), streamId)
    {
      ghost var before, named := store, index;
      var openedHole, firstHole;
      dropped, openedHole, firstHole := Compact(streamId);
      hide Erased, SlidIndex, DroppedBelow, Survivors, SlidesSafely, Sound;
      if openedHole {
        SlideFrom(before, named, streamId, firstHole);
        index := map k | k in index :: if index[k] > firstHole then index[k] - 1 else index[k];
      } else {
        NoHole(before, named, streamId);
      }
      if Agrees(before, named) {
        SlideVerdict(before, named, streamId);
      }
      SurvivorsSound(before, streamId, |before|);
    }

    /** The survivors closed up and the dropped entries erased; where the first hole opened. */
    method Compact(streamId: u16) returns (dropped: nat, openedHole: bool, firstHole: nat)
      modifies this
      ensures dropped == DroppedBelow(old(store), streamId, |old(store)|)
      ensures store == Survivors(old(store), streamId, |old(store)|)
      ensures index == Erased(old(store), old(index), streamId, |old(store)|)
      ensures openedHole == (dropped > 0) && (openedHole ==> IsFirstHole(old(store), streamId, firstHole))
    {
      ghost var named := index;
      var kept: seq<Partial> := [];
      dropped, openedHole, firstHole := 0, false, 0;
      for i := 0 to |store|
        invariant store == old(store) && kept == Survivors(store, streamId, i)
        invariant dropped == DroppedBelow(store, streamId, i) && openedHole == (dropped > 0)
        invariant openedHole ==> IsFirstHole(store, streamId, firstHole)
        invariant index == Erased(store, named, streamId, i)
      {
        if store[i].streamId == streamId {
          if !openedHole {
            firstHole := i;
            openedHole := true;
          }
          index := index - {store[i].Id()};
          dropped := dropped + 1;
        } else {
          kept := kept + [store[i]];
        }
      }
      store := kept;
    }
  }

  lemma Splice(r: seq<Span>, at: nat, x: Span)
    requires at <= |r| && forall i, j | 0 <= i < j < |r| :: Reassembler.Before(r[i], r[j])
    requires at > 0 ==> Reassembler.Before(r[at - 1], x)
    requires forall b | at <= b < |r| :: Reassembler.Before(x, r[b])
    ensures var q := r[..at] + [x] + r[at..];
            forall i, j | 0 <= i < j < |q| :: Reassembler.Before(q[i], q[j])
  {
    var q := r[..at] + [x] + r[at..];
    forall i, j | 0 <= i < j < |q| ensures Reassembler.Before(q[i], q[j]) {
      if j < at {
        assert q[i] == r[i] && q[j] == r[j];
      } else if j == at {
        assert q[i] == r[i] && (i == at - 1 || Reassembler.Before(r[i], r[at - 1]));
      } else if i < at {
        assert q[i] == r[i] && q[j] == r[j - 1];
      } else if i > at {
        assert q[i] == r[i - 1] && q[j] == r[j - 1];
      } else {
        assert q[j] == r[j - 1];
      }
    }
  }

  // ---- what a RESET leaves

  /** The first `n` partials less those of a stream. */
  function Survivors(store: seq<Partial>, s: u16, n: nat): seq<Partial>
    requires n <= |store|
  {
    if n == 0 then []
    else Survivors(store, s, n - 1) + if store[n - 1].streamId == s then [] else [store[n - 1]]
  }

  function DroppedBelow(store: seq<Partial>, s: u16, n: nat): (d: nat)
    requires n <= |store|
    ensures d <= n
  {
    if n == 0 then 0 else DroppedBelow(store, s, n - 1) + if store[n - 1].streamId == s then 1 else 0
  }

  predicate IsFirstHole(store: seq<Partial>, s: u16, i: nat) {
    i < |store| && store[i].streamId == s && DroppedBelow(store, s, i) == 0
  }

  /** The index once the entries of the dropped partials in the first `n` slots are gone. */
  function Erased(store: seq<Partial>, index: map<Key, nat>, s: u16, n: nat): map<Key, nat>
    requires n <= |store|
  {
    if n == 0 then index
    else
      var before := Erased(store, index, s, n - 1);
      if store[n - 1].streamId == s then before - {store[n - 1].Id()} else before
  }

  /** Some slot in front of this one was dropped. */
  predicate BehindHole(store: seq<Partial>, s: u16, slot: nat)
    ensures BehindHole(store, s, slot) ==> slot > 0
  {
    DroppedBelow(store, s, Min(slot, |store|)) > 0
  }

  /** The index as the source leaves it: one down for every entry behind a dropped slot. */
  function SlidIndex(store: seq<Partial>, index: map<Key, nat>, s: u16): map<Key, nat> {
    var erased := Erased(store, index, s, |store|);
    map k | k in erased :: if BehindHole(store, s, erased[k]) then erased[k] - 1 else erased[k]
  }

  /** While index and store agree the erased entries are those of the stream. */
  lemma {:induction false} ErasedAgreeing(store: seq<Partial>, index: map<Key, nat>, s: u16, n: nat)
    requires Agrees(store, index) && n <= |store|
    ensures Erased(store, index, s, n) == map k | k in index && !(k.streamId == s && index[k] < n) :: index[k]
  {
    if n > 0 {
      ErasedAgreeing(store, index, s, n - 1);
    }
  }

  /** The index as its comment describes it: down by the number of slots dropped in front. */
  ghost function CountedIndex(store: seq<Partial>, index: map<Key, nat>, s: u16): map<Key, nat>
    requires Agrees(store, index)
  {
    map k | k in index && k.streamId != s :: index[k] - DroppedBelow(store, s, index[k])
  }

  /** No surviving partial sits behind a second slot of the stream. */
  ghost predicate SlidesSafely(store: seq<Partial>, s: u16) {
    forall i | 0 <= i < |store| && store[i].streamId != s :: DroppedBelow(store, s, i) <= 1
  }

  ghost function Without(t: Table, s: u16): Table {
    map k | k in t && k.streamId != s :: t[k]
  }

  lemma {:induction false} DroppedGrows(store: seq<Partial>, s: u16, i: nat, n: nat)
    requires i <= n <= |store|
    ensures DroppedBelow(store, s, i) <= DroppedBelow(store, s, n)
    ensures n - DroppedBelow(store, s, n) >= i - DroppedBelow(store, s, i)
    ensures i < n && store[i].streamId == s ==> DroppedBelow(store, s, i) < DroppedBelow(store, s, n)
    decreases n
  {
    if i < n {
      DroppedGrows(store, s, i, n - 1);
    }
  }

  /** A survivor moves down by the number of slots dropped in front of it. */
  lemma {:induction false} SurvivorAt(store: seq<Partial>, s: u16, i: nat, n: nat)
    requires i < n <= |store| && store[i].streamId != s
    ensures |Survivors(store, s, n)| == n - DroppedBelow(store, s, n)
    ensures i - DroppedBelow(store, s, i) < |Survivors(store, s, n)|
    ensures Survivors(store, s, n)[i - DroppedBelow(store, s, i)] == store[i]
    decreases n
  {
    SurvivorCount(store, s, n);
    SurvivorCount(store, s, n - 1);
    if i < n - 1 {
      SurvivorAt(store, s, i, n - 1);
    }
  }

  lemma {:induction false} SurvivorCount(store: seq<Partial>, s: u16, n: nat)
    requires n <= |store|
    ensures |Survivors(store, s, n)| == n - DroppedBelow(store, s, n)
  {
    if n > 0 {
      SurvivorCount(store, s, n - 1);
    }
  }

  /** Where a survivor was before. */
  lemma {:induction false} Origin(store: seq<Partial>, s: u16, n: nat, p: nat) returns (i: nat)
    requires n <= |store| && p < |Survivors(store, s, n)|
    ensures i < n && store[i].streamId != s && i - DroppedBelow(store, s, i) == p
    ensures Survivors(store, s, n)[p] == store[i]
    decreases n
  {
    SurvivorCount(store, s, n - 1);
    if p < |Survivors(store, s, n - 1)| {
      i := Origin(store, s, n - 1, p);
    } else {
      i := n - 1;
    }
  }

  lemma {:induction false} SurvivorsSound(store: seq<Partial>, s: u16, n: nat)
    requires n <= |store| && forall i | 0 <= i < |store| :: Sound(store[i])
    ensures forall p | p in Survivors(store, s, n) :: Sound(p)
  {
    if n > 0 {
      hide Sound;
      SurvivorsSound(store, s, n - 1);
    }
  }

  /** Sliding by the count keeps index and store in agreement, whatever was dropped. */
  lemma CountedAgrees(store: seq<Partial>, index: map<Key, nat>, s: u16)
    requires Agrees(store, index)
    ensures var kept := Survivors(store, s, |store|);
            && Agrees(kept, CountedIndex(store, index, s))
            && View(kept, CountedIndex(store, index, s)) == Without(View(store, index), s)
  {
    var n := |store|;
    var kept, counted := Survivors(store, s, n), CountedIndex(store, index, s);
    forall k | k in counted ensures counted[k] < |kept| && kept[counted[k]] == store[index[k]] {
      SurvivorAt(store, s, index[k], n);
    }
    forall p | 0 <= p < |kept| ensures kept[p].Id() in counted && counted[kept[p].Id()] == p {
      var i := Origin(store, s, n, p);
    }
  }

  /** The slide by one agrees with the store exactly when nothing sits behind a second hole. */
  lemma SlideVerdict(store: seq<Partial>, index: map<Key, nat>, s: u16)
    requires Agrees(store, index)
    ensures var kept, slid := Survivors(store, s, |store|), SlidIndex(store, index, s);
            && (Agrees(kept, slid) <==> SlidesSafely(store, s))
            && (Agrees(kept, slid) ==> View(kept, slid) == Without(View(store, index), s))
  {
    CountedAgrees(store, index, s);
    if SlidesSafely(store, s) {
      SafeSlide(store, index, s);
    } else {
      UnsafeSlide(store, index, s);
    }
  }

  /** The slide on an index that agrees with the store. */
  lemma SlidEntry(store: seq<Partial>, index: map<Key, nat>, s: u16)
    requires Agrees(store, index)
    ensures SlidIndex(store, index, s)
         == map k | k in index && k.streamId != s ::
              if DroppedBelow(store, s, index[k]) > 0 then index[k] - 1 else index[k]
  {
    hide DroppedBelow;
    ErasedAgreeing(store, index, s, |store|);
  }

  lemma SafeSlide(store: seq<Partial>, index: map<Key, nat>, s: u16)
    requires Agrees(store, index) && SlidesSafely(store, s)
    ensures SlidIndex(store, index, s) == CountedIndex(store, index, s)
  {
    hide *;
    forall k
      ensures k in SlidIndex(store, index, s) <==> k in CountedIndex(store, index, s)
      ensures k in CountedIndex(store, index, s) ==> SlidIndex(store, index, s)[k] == CountedIndex(store, index, s)[k]
    {
      SafeEntry(store, index, s, k);
    }
    assert SlidIndex(store, index, s).Keys == CountedIndex(store, index, s).Keys;
  }

  lemma SafeEntry(store: seq<Partial>, index: map<Key, nat>, s: u16, k: Key)
    requires Agrees(store, index) && SlidesSafely(store, s)
    ensures k in SlidIndex(store, index, s) <==> k in CountedIndex(store, index, s)
    ensures k in CountedIndex(store, index, s) ==> SlidIndex(store, index, s)[k] == CountedIndex(store, index, s)[k]
  {
    SlidEntry(store, index, s);
    hide DroppedBelow, SlidIndex;
    if k in index && k.streamId != s {
      assert store[index[k]].Id() == k;
      assert DroppedBelow(store, s, index[k]) <= 1;
    }
  }

  lemma UnsafeSlide(store: seq<Partial>, index: map<Key, nat>, s: u16)
    requires Agrees(store, index) && !SlidesSafely(store, s)
    ensures !Agrees(Survivors(store, s, |store|), SlidIndex(store, index, s))
  {
    SlidEntry(store, index, s);
    hide DroppedBelow, Survivors, SlidIndex;
    var i :| 0 <= i < |store| && store[i].streamId != s && DroppedBelow(store, s, i) > 1;
    SurvivorAt(store, s, i, |store|);
    var p := i - DroppedBelow(store, s, i);
    assert Survivors(store, s, |store|)[p].Id() == store[i].Id();
    assert SlidIndex(store, index, s)[store[i].Id()] == i - 1;
  }

  lemma SlideFrom(store: seq<Partial>, index: map<Key, nat>, s: u16, hole: nat)
    requires IsFirstHole(store, s, hole)
    ensures var erased := Erased(store, index, s, |store|);
            (map k | k in erased :: if erased[k] > hole then erased[k] - 1 else erased[k])
            == SlidIndex(store, index, s)
  {
    hide Erased;
    forall slot: nat ensures BehindHole(store, s, slot) <==> slot > hole {
      var i := Min(slot, |store|);
      if i <= hole {
        DroppedGrows(store, s, i, hole);
      } else {
        DroppedGrows(store, s, hole, i);
      }
    }
  }

  lemma NoHole(store: seq<Partial>, index: map<Key, nat>, s: u16)
    requires DroppedBelow(store, s, |store|) == 0
    ensures Erased(store, index, s, |store|) == SlidIndex(store, index, s)
  {
    hide Erased;
    forall slot: nat ensures !BehindHole(store, s, slot) {
      DroppedGrows(store, s, Min(slot, |store|), |store|);
    }
  }

  /** With at most one partial of the stream in flight a RESET keeps the reassembler valid. */
  lemma OneInFlightIsSafe(store: seq<Partial>, s: u16)
    requires DroppedBelow(store, s, |store|) <= 1
    ensures SlidesSafely(store, s)
  {
    forall i | 0 <= i < |store| ensures DroppedBelow(store, s, i) <= 1 {
      DroppedGrows(store, s, i, |store|);
    }
  }

  /** A first frame without FIN takes a slot at the end. */
  lemma NewSlot(store: seq<Partial>, index: map<Key, nat>, f: Frame)
    requires Agrees(store, index) && f.Id() !in index && !f.Fin()
    ensures var (s, ix) := Placed(store, index, f);
            && Agrees(s, ix) && |s| == |store| + 1 && s[..|store|] == store && s[|store|].Id() == f.Id()
            && ix == index[f.Id() := |store|]
  {
    var q := Absorb(Fresh(f.Id()), f);
    assert !q.haveFin;
    assert Updated(store, index, f) == q;
    hide Absorb, Updated;
    OpenSlot(store, index, f.Id());
    ReplaceSlot(store + [Fresh(f.Id())], index[f.Id() := |store|], f.Id(), q);
  }

  /**
    * Three first fragments without FIN, two of one stream and then one of another, and a RESET
    * of the first stream: the survivor's entry is off the end, and its next frame reads there.
    */
  lemma BrokenByFrames(f: Frame, g: Frame, h: Frame)
    requires !f.Fin() && !g.Fin() && !h.Fin()
    requires f.streamId == g.streamId != h.streamId && f.msgId != g.msgId
    ensures var s1 := Placed([], map[], f);
            Agrees(s1.0, s1.1) &&
            var s2 := Placed(s1.0, s1.1, g);
            Agrees(s2.0, s2.1) &&
            var (store, index) := Placed(s2.0, s2.1, h);
            && Agrees(store, index) && !SlidesSafely(store, f.streamId)
            && |Survivors(store, f.streamId, |store|)| == 1
            && SlidIndex(store, index, f.streamId) == map[h.Id() := 1]
            && !InRange(Survivors(store, f.streamId, |store|), SlidIndex(store, index, f.streamId), h.Id())
  {
    hide Placed;
    NewSlot([], map[], f);
    var s1 := Placed([], map[], f);
    NewSlot(s1.0, s1.1, g);
    var s2 := Placed(s1.0, s1.1, g);
    NewSlot(s2.0, s2.1, h);
    var (store, index) := Placed(s2.0, s2.1, h);
    hide SlidesSafely, Survivors, SlidIndex, Agrees;
    LastOffTheEnd(store, index, f.Id(), g.Id(), h.Id());
  }

  lemma LastOffTheEnd(store: seq<Partial>, index: map<Key, nat>, a: Key, b: Key, c: Key)
    requires Agrees(store, index) && |store| == 3 && index == map[a := 0, b := 1, c := 2]
    requires store[0].Id() == a && store[1].Id() == b && store[2].Id() == c
    requires a.streamId == b.streamId != c.streamId && a != b
    ensures !SlidesSafely(store, a.streamId) && |Survivors(store, a.streamId, 3)| == 1
    ensures SlidIndex(store, index, a.streamId) == map[c := 1]
  {
    var s := a.streamId;
    SlidEntry(store, index, s);
    hide SlidIndex;
    assert DroppedBelow(store, s, 1) == 1;
    assert DroppedBelow(store, s, 2) == 2;
    assert Survivors(store, s, 1) == [];
    assert Survivors(store, s, 2) == [];
    assert Survivors(store, s, 3) == [store[2]];
  }

  lemma EndInBuffer(p: Partial)
    requires Sound(p)
    ensures p.totalLen <= |p.buffer|
  {
  }

  lemma SnocCovers(ranges: seq<Span>, r: Span, x: nat)
    ensures Covers(ranges + [r], x) <==> Covers(ranges, x) || Has(r, x)
  {
    var all := ranges + [r];
    if Covers(ranges, x) {
      var i :| 0 <= i < |ranges| && Has(ranges[i], x);
      assert Has(all[i], x);
    }
    if Has(r, x) {
      assert Has(all[|ranges|], x);
    }
  }

  lemma SameSpans(a: seq<Span>, b: seq<Span>)
    requires multiset(a) == multiset(b)
    ensures forall s :: s in a <==> s in b
    ensures forall x: nat :: Covers(a, x) <==> Covers(b, x)
  {
    forall s ensures s in a <==> s in b {
      assert s in a <==> s in multiset(a);
      assert s in b <==> s in multiset(b);
    }
    forall x: nat ensures Covers(a, x) <==> Covers(b, x) {
      if Covers(a, x) {
        var i :| 0 <= i < |a| && Has(a[i], x);
        assert a[i] in b;
      }
      if Covers(b, x) {
        var i :| 0 <= i < |b| && Has(b[i], x);
        assert b[i] in a;
      }
    }
  }

  /** One turn of the merge: extending the last range or opening a new one covers the same. */
  lemma MergeCovers(merged: seq<Span>, seen: seq<Span>, span: Span)
    requires forall x: nat :: Covers(merged, x) <==> Covers(seen, x)
    requires span.lo < span.hi
    ensures forall x: nat :: Covers(merged + [span], x) <==> Covers(seen + [span], x)
    ensures merged != [] && merged[|merged| - 1].lo <= span.lo <= merged[|merged| - 1].hi ==>
              var last := merged[|merged| - 1];
              forall x: nat :: Covers(merged[..|merged| - 1] + [Span(last.lo, Max(last.hi, span.hi))], x)
                          <==> Covers(seen + [span], x)
  {
    forall x: nat ensures Covers(merged + [span], x) <==> Covers(seen + [span], x) {
      SnocCovers(merged, span, x);
      SnocCovers(seen, span, x);
    }
    if merged != [] {
      var front, last := merged[..|merged| - 1], merged[|merged| - 1];
      assert merged == front + [last];
      if last.lo <= span.lo <= last.hi {
        var joined := Span(last.lo, Max(last.hi, span.hi));
        forall x: nat ensures Covers(front + [joined], x) <==> Covers(seen + [span], x) {
          SnocCovers(front, joined, x);
          SnocCovers(front, last, x);
          SnocCovers(seen, span, x);
        }
      }
    }
  }
}
