/** decoder.cpp: the frame loop over a whole buffer. */
module StreamDecoding {
  import opened ByteReading
  import opened Common
  import opened FrameReading
  import opened Frames
  import opened Reassembling
  import opened Reassembly

  datatype ControlRecord = ControlRecord(streamId: u16, refMsgId: u32, window: u32)

  /** What a decode reports; the per-stream sequence statistics are not modelled. */
  datatype StreamResult = StreamResult(messages: seq<Message>, framesSeen: nat, crcOk: nat, crcBad: nat,
                                       controls: seq<ControlRecord>, acks: seq<Key>, resets: nat)

  const NOTHING := StreamResult([], 0, 0, 0, [], [], 0)

  /** Short CONTROL payloads leave the missing fields at zero. */
  function ParseControl(f: Frame): ControlRecord {
    ControlRecord(f.streamId,
                  if |f.payload| >= 4 then Field32(f.payload, 0) else 0,
                  if |f.payload| >= 8 then Field32(f.payload, 4) else 0)
  }

  /** The counters every frame moves. */
  function Tally(res: StreamResult, f: Frame): StreamResult {
    res.(framesSeen := res.framesSeen + 1,
         crcOk := res.crcOk + if f.crc == Some(true) then 1 else 0,
         crcBad := res.crcBad + if f.crc == Some(false) then 1 else 0)
  }

  // ---- on the map of partials

  function TableAfter(t: Table, f: Frame): Table {
    match f.kind
    case Data => Accepted(t, f)
    case Reset => map k | k in t && k.streamId != f.streamId :: t[k]
    case _ => t
  }

  /** The map after a run of frames of any kind. */
  function TableAfterAll(t: Table, frames: seq<Frame>): Table
    decreases |frames|
  {
    if frames == [] then t else TableAfterAll(TableAfter(t, frames[0]), frames[1..])
  }

  lemma {:induction false} TableAfterLast(t: Table, frames: seq<Frame>)
    requires frames != []
    ensures TableAfterAll(t, frames) == TableAfter(TableAfterAll(t, frames[..|frames| - 1]), frames[|frames| - 1])
    decreases |frames|
  {
    hide TableAfter;
    var n := |frames| - 1;
    if n > 0 {
      TableAfterLast(TableAfter(t, frames[0]), frames[1..]);
      assert frames[1..][..n - 1] == frames[..n][1..];
    }
  }

  function Record(t: Table, res: StreamResult, f: Frame): StreamResult {
    var tallied := Tally(res, f);
    match f.kind
    case Data =>
      var m := Emitted(t, f);
      if m.Some? then tallied.(messages := tallied.messages + [m.value]) else tallied
    case Control => tallied.(controls := tallied.controls + [ParseControl(f)])
    case Ack => tallied.(acks := tallied.acks + [f.Id()])
    case Reset => tallied.(resets := tallied.resets + 1)
  }

  // ---- on store and index

  /** What the reassembler holds. */
  datatype Slots = Slots(store: seq<Partial>, index: map<Key, nat>) {
    ghost predicate Settled() {
      Agrees(store, index)
    }

    ghost function Pending(): Table
      requires Settled()
    {
      View(store, index)
    }

    /** The frame touches nothing past the end of the store. */
    predicate Takes(f: Frame) {
      f.kind == Data ==> InRange(store, index, f.Id())
    }

    function After(f: Frame): Slots
      requires Takes(f)
    {
      match f.kind
      case Data => var (s, ix) := Placed(store, index, f); Slots(s, ix)
      case Reset => Slots(Survivors(store, f.streamId, |store|), SlidIndex(store, index, f.streamId))
      case _ => this
    }

    function Recorded(res: StreamResult, f: Frame): StreamResult
      requires Takes(f)
    {
      var tallied := Tally(res, f);
      match f.kind
      case Data =>
        var m := Completed(store, index, f);
        if m.Some? then tallied.(messages := tallied.messages + [m.value]) else tallied
      case Control => tallied.(controls := tallied.controls + [ParseControl(f)])
      case Ack => tallied.(acks := tallied.acks + [f.Id()])
      case Reset => tallied.(resets := tallied.resets + 1)
    }
  }

  const EMPTY := Slots([], map[])

  /** While store and index agree a frame acts on them as on the map; only a RESET can bring them apart. */
  lemma SettledStep(u: Slots, res: StreamResult, f: Frame)
    requires u.Settled()
    ensures u.Takes(f) && u.Recorded(res, f) == Record(u.Pending(), res, f)
    ensures u.After(f).Settled() <==> (f.kind == Reset ==> SlidesSafely(u.store, f.streamId))
    ensures u.After(f).Settled() ==> u.After(f).Pending() == TableAfter(u.Pending(), f)
  {
    hide Placed, Completed, Accepted, Emitted, SlidIndex, Survivors, Agrees, SlidesSafely, ParseControl;
    PlacedIsAccepted(u.store, u.index, f);
    SlideVerdict(u.store, u.index, f.streamId);
  }

  /** The state after a run of frames that stay within the store. */
  ghost predicate Leads(u: Slots, frames: seq<Frame>, v: Slots)
    decreases |frames|
  {
    if frames == [] then u == v
    else u.Takes(frames[0]) && Leads(u.After(frames[0]), frames[1..], v)
  }

  /** Three first fragments, a RESET and a second fragment of the survivor: past the end of the store. */
  lemma PastTheEnd(f: Frame, g: Frame, h: Frame, reset: Frame)
    requires f.kind == g.kind == h.kind == Data && reset.kind == Reset
    requires !f.Fin() && !g.Fin() && !h.Fin() && reset.streamId == f.streamId
    requires f.streamId == g.streamId != h.streamId && f.msgId != g.msgId
    ensures exists u :: Leads(EMPTY, [f, g, h, reset], u) && !u.Takes(h)
  {
    BrokenByFrames(f, g, h);
    hide Placed, Survivors, SlidIndex, SlidesSafely;
    var u1 := EMPTY.After(f);
    NothingAgrees();
    EntryInRange(EMPTY.store, EMPTY.index, f.Id());
    EntryInRange(u1.store, u1.index, g.Id());
    var u2 := u1.After(g);
    EntryInRange(u2.store, u2.index, h.Id());
    var u3 := u2.After(h);
    var u4 := u3.After(reset);
    LeadsFour(EMPTY, f, g, h, reset);
    assert Leads(EMPTY, [f, g, h, reset], u4) && !u4.Takes(h);
  }

  lemma NothingAgrees()
    ensures EMPTY.Settled() && EMPTY.Pending() == map[]
  {
  }

  lemma LeadsFour(u: Slots, f: Frame, g: Frame, h: Frame, i: Frame)
    requires u.Takes(f) && u.After(f).Takes(g) && u.After(f).After(g).Takes(h) && u.After(f).After(g).After(h).Takes(i)
    ensures Leads(u, [f, g, h, i], u.After(f).After(g).After(h).After(i))
  {
    var v := u.After(f).After(g).After(h).After(i);
    assert [f, g, h, i][1..] == [g, h, i] && [g, h, i][1..] == [h, i] && [h, i][1..] == [i] && [i][1..] == [];
    assert Leads(v, [], v);
    assert Leads(u.After(f).After(g).After(h), [i], v);
    assert Leads(u.After(f).After(g), [h, i], v);
    assert Leads(u.After(f), [g, h, i], v);
  }

  /** A decode ends in a result, an error, or at a frame whose message is indexed past the end of the store. */
  datatype Decoded = Finished(result: StreamResult) | Failed(code: ErrorCode) | OutOfStore

  function DecodeFrom(s: bytes, first: bool, u: Slots, res: StreamResult): Decoded
    decreases |s|
  {
    if s == [] then Finished(res)
    else
      match NextFrame(s, first)
      case Err(code) => Failed(code)
      case Ok((f, rest)) =>
        if !u.Takes(f) then OutOfStore
        else DecodeFrom(rest, false, u.After(f), u.Recorded(res, f))
  }

  lemma FrameStep(s: bytes, first: bool, u: Slots, res: StreamResult)
    requires s != []
    ensures var next := NextFrame(s, first);
            && (next.Ok? ==> |next.value.1| < |s|)
            && DecodeFrom(s, first, u, res)
               == if next.Err? then Failed(next.code)
                  else if !u.Takes(next.value.0) then OutOfStore
                  else DecodeFrom(next.value.1, false, u.After(next.value.0), u.Recorded(res, next.value.0))
  {
    hide NextFrame, InRange, Placed, Completed, Survivors, SlidIndex, ParseControl;
  }

  /** The frame loop finishes, fails or leaves the store as the specification says. */
  method Decode(data: bytes) returns (r: Decoded)
    ensures r == DecodeFrom(data, true, EMPTY, NOTHING)
  {
    if |data| == 0 {
      return Finished(NOTHING);
    }
    hide DecodeFrom, NextFrame, Agrees, View, Sound;
    var reader := new ByteReader(data);
    var frames := new FrameReader(reader);
    var reassembler := new Reassembler();
    var res := NOTHING;
    var first := true;
    ghost var whole := DecodeFrom(data, true, EMPTY, NOTHING);
    while frames.HasMore()
      invariant reader.Valid() && frames.r == reader && reassembler.Valid()
      invariant whole == DecodeFrom(reader.Rest(), first, Held(reassembler), res)
      invariant fresh(reader) && fresh(reassembler)
      decreases |reader.Rest()|
    {
      FrameStep(reader.Rest(), first, Held(reassembler), res);
      var stop, next := Turn(frames, reassembler, first, res);
      if stop.Some? {
        return stop.value;
      }
      first := false;
      res := next;
    }
    NothingLeft(first, Held(reassembler), res);
    r := Finished(res);
  }

  function Held(reassembler: Reassembler): Slots
    reads reassembler
  {
    Slots(reassembler.store, reassembler.index)
  }

  lemma NothingLeft(first: bool, u: Slots, res: StreamResult)
    ensures DecodeFrom([], first, u, res) == Finished(res)
  {
  }

  /** One turn: read a frame and hand it on, or stop. */
  method Turn(frames: FrameReader, reassembler: Reassembler, first: bool, res: StreamResult)
    returns (stop: Option<Decoded>, next: StreamResult)
    requires frames.r.Valid() && reassembler.Valid()
    modifies frames.r, reassembler
    ensures frames.r.Valid() && reassembler.Valid()
    ensures var read, u := NextFrame(old(frames.r.Rest()), first), old(Held(reassembler));
            if read.Err? then stop == Some(Failed(read.code))
            else if !u.Takes(read.value.0) then stop == Some(OutOfStore)
            else
              var f := read.value.0;
              && stop.None? && Held(reassembler) == u.After(f)
              && frames.r.Rest() == read.value.1 && next == u.Recorded(res, f)
  {
    hide NextFrame, InRange, Placed, Completed, Survivors, SlidIndex, ParseControl, AllSound;
    next := res;
    var f := frames.Next(first);
    if f.Err? {
      return Some(Failed(f.code)), res;
    }
    if !Held(reassembler).Takes(f.value) {
      return Some(OutOfStore), res;
    }
    next := Dispatch(reassembler, f.value, res);
    stop := None;
  }

  /** What one frame does to the reassembler and the result. */
  method Dispatch(reassembler: Reassembler, f: Frame, res: StreamResult) returns (next: StreamResult)
    requires reassembler.Valid() && Held(reassembler).Takes(f)
    modifies reassembler
    ensures reassembler.Valid() && Held(reassembler) == old(Held(reassembler)).After(f)
    ensures next == old(Held(reassembler)).Recorded(res, f)
  {
    hide Placed, Completed, Survivors, SlidIndex, ParseControl, AllSound, Agrees, Sound;
    next := res.(framesSeen := res.framesSeen + 1);
    if f.crc.Some? {
      if f.crc.value {
        next := next.(crcOk := next.crcOk + 1);
      } else {
        next := next.(crcBad := next.crcBad + 1);
      }
    }
    assert next == Tally(res, f);
    hide Tally;
    match f.kind {
      case Data =>
        var m := reassembler.AcceptData(f);
        if m.Some? {
          next := next.(messages := next.messages + [m.value]);
        }
      case Control =>
        next := next.(controls := next.controls + [ParseControl(f)]);
      case Ack =>
        next := next.(acks := next.acks + [f.Id()]);
      case Reset =>
        next := next.(resets := next.resets + 1);
        var _ := reassembler.ResetStream(f.streamId);
    }
  }

  // ---- when the store is never left

  /** Two messages of one stream in flight. */
  ghost predicate Crowded(t: Table, s: u16) {
    exists a, b | a in t && b in t :: a != b && a.streamId == s && b.streamId == s
  }

  /** Frames none of whose RESETs meets two messages of its stream in flight. */
  ghost predicate Uncrowded(t: Table, frames: seq<Frame>)
    decreases |frames|
  {
    frames == []
    || (!(frames[0].kind == Reset && Crowded(t, frames[0].streamId))
        && Uncrowded(TableAfter(t, frames[0]), frames[1..]))
  }

  /** Such frames stay within the store, and act on it as on the map. */
  lemma {:induction false} UncrowdedStaysSettled(u: Slots, frames: seq<Frame>) returns (v: Slots)
    requires u.Settled() && Uncrowded(u.Pending(), frames)
    ensures Leads(u, frames, v) && v.Settled() && v.Pending() == TableAfterAll(u.Pending(), frames)
    decreases |frames|
  {
    hide Crowded, TableAfter, SlidesSafely, Agrees, View;
    if frames == [] {
      v := u;
    } else {
      var f := frames[0];
      SettledStep(u, NOTHING, f);
      if f.kind == Reset && !SlidesSafely(u.store, f.streamId) {
        NotSafeIsCrowded(u.store, u.index, f.streamId);
        assert false;
      }
      v := UncrowdedStaysSettled(u.After(f), frames[1..]);
    }
  }

  lemma NotSafeIsCrowded(store: seq<Partial>, index: map<Key, nat>, s: u16)
    requires Agrees(store, index) && !SlidesSafely(store, s)
    ensures Crowded(View(store, index), s)
  {
    var i :| 0 <= i < |store| && store[i].streamId != s && DroppedBelow(store, s, i) > 1;
    var a, b := TwoDropped(store, s, i);
    assert store[a].Id() != store[b].Id();
  }

  lemma {:induction false} TwoDropped(store: seq<Partial>, s: u16, n: nat) returns (a: nat, b: nat)
    requires n <= |store| && DroppedBelow(store, s, n) > 1
    ensures a < b < n && store[a].streamId == s && store[b].streamId == s
    decreases n
  {
    if DroppedBelow(store, s, n - 1) > 1 {
      a, b := TwoDropped(store, s, n - 1);
    } else {
      a := OneDropped(store, s, n - 1);
      b := n - 1;
    }
  }

  lemma {:induction false} OneDropped(store: seq<Partial>, s: u16, n: nat) returns (a: nat)
    requires n <= |store| && DroppedBelow(store, s, n) > 0
    ensures a < n && store[a].streamId == s
    decreases n
  {
    if store[n - 1].streamId == s {
      a := n - 1;
    } else {
      a := OneDropped(store, s, n - 1);
    }
  }
}
