module CompletionLaw {
  // Frames need not be slices of any message: intervals may overlap with other bytes, run past
  // the end or come after it has moved, and RESETs may drop what has arrived. What completes a
  // partial, and which bytes then come out, is read off the frames alone.

  import opened Common
  import opened Frames
  import opened Reassembly
  import opened ReassemblyLaw
  import opened StreamDecoding

  /** The bytes a frame claims, in saturating 32-bit arithmetic. */
  predicate Claims(f: Frame, x: nat) {
    f.Begin() <= x < f.End()
  }

  ghost predicate Claimed(seen: seq<Frame>, x: nat) {
    exists i :: 0 <= i < |seen| && Claims(seen[i], x)
  }

  /** The furthest end any frame has had. */
  function Reach(seen: seq<Frame>): nat {
    if seen == [] then 0 else Max(Reach(seen[..|seen| - 1]), seen[|seen| - 1].End())
  }

  /** The length the message is taken to have: how far frames reached when FIN last came. */
  function Announced(seen: seq<Frame>): nat {
    if seen == [] then 0
    else if seen[|seen| - 1].Fin() then Reach(seen)
    else Announced(seen[..|seen| - 1])
  }

  /** The frames complete their message: FIN came, and what they claim is an initial segment that reaches the end. */
  ghost predicate Completes(seen: seq<Frame>) {
    && HasFin(seen)
    && (Announced(seen) == 0
        || ((forall x: nat | x < Announced(seen) :: Claimed(seen, x))
            && (forall x: nat, y: nat | Claimed(seen, x) && y < x :: Claimed(seen, y))))
  }

  /** Byte `x` of the last frame that claims it. */
  function Latest(seen: seq<Frame>, x: nat): byte {
    if seen == [] then 0
    else
      var f := seen[|seen| - 1];
      if Claims(f, x) then f.payload[x - f.Begin()] else Latest(seen[..|seen| - 1], x)
  }

  lemma {:induction false} LatestIsLast(seen: seq<Frame>, i: nat, x: nat)
    requires i < |seen| && Claims(seen[i], x)
    requires forall j | i < j < |seen| :: !Claims(seen[j], x)
    ensures Latest(seen, x) == seen[i].payload[x - seen[i].Begin()]
  {
    if i < |seen| - 1 {
      LatestIsLast(seen[..|seen| - 1], i, x);
    }
  }

  /** The message the frames make: as long as announced, and every byte from the last frame that claims it. */
  ghost predicate MadeOf(m: Message, k: Key, seen: seq<Frame>) {
    && m.streamId == k.streamId && m.msgId == k.msgId && m.compressed == AnyCompressed(seen)
    && |m.data| == Announced(seen)
    && forall x | 0 <= x < |m.data| :: m.data[x] == Latest(seen, x)
  }

  /** The partial the frames of one message leave when none of them completes it. */
  function AbsorbAll(k: Key, seen: seq<Frame>): Partial {
    if seen == [] then Fresh(k) else Absorb(AbsorbAll(k, seen[..|seen| - 1]), seen[|seen| - 1])
  }

  /** The partial says about the frames what the frames say. */
  ghost predicate Reflects(p: Partial, k: Key, seen: seq<Frame>) {
    && Sound(p) && p.Id() == k && p.haveFin == HasFin(seen)
    && p.highWater == Reach(seen) && p.totalLen == Announced(seen)
    && p.compressed == AnyCompressed(seen)
    && (forall x: nat :: Covers(p.ranges, x) <==> Claimed(seen, x))
    && (forall x | 0 <= x < |p.buffer| :: p.buffer[x] == Latest(seen, x))
  }

  lemma ClaimedSnoc(seen: seq<Frame>, f: Frame, x: nat)
    ensures Claimed(seen + [f], x) <==> Claimed(seen, x) || Claims(f, x)
  {
    var all := seen + [f];
    if Claimed(seen, x) {
      var i :| 0 <= i < |seen| && Claims(seen[i], x);
      assert Claims(all[i], x);
    }
    if Claims(f, x) {
      assert Claims(all[|seen|], x);
    }
  }

  /** Placing a frame sets the bytes it claims, and zeros where the buffer had to grow. */
  lemma PlacedAt(buffer: bytes, f: Frame, x: nat)
    requires |buffer| < TWO32 && x < Max(|buffer|, f.End())
    ensures var b := Overwritten(Grown(buffer, f.End()), f.Begin(), f.payload);
            && |b| == Max(|buffer|, f.End())
            && b[x] == if Claims(f, x) then f.payload[x - f.Begin()] else if x < |buffer| then buffer[x] else 0
  {
  }

  lemma {:induction false} UnclaimedPast(seen: seq<Frame>, x: nat)
    ensures x >= Reach(seen) ==> Latest(seen, x) == 0
  {
    if seen != [] {
      UnclaimedPast(seen[..|seen| - 1], x);
    }
  }

  lemma AbsorbReflects(p: Partial, k: Key, seen: seq<Frame>, f: Frame)
    requires Reflects(p, k, seen)
    ensures Reflects(Absorb(p, f), k, seen + [f])
  {
    AbsorbSound(p, f);
    FlagsSnoc(seen, f);
    var q, all := Absorb(p, f), seen + [f];
    assert all[..|all| - 1] == seen;
    forall x | 0 <= x < |q.buffer| ensures q.buffer[x] == Latest(all, x) {
      PlacedAt(p.buffer, f, x);
      UnclaimedPast(seen, x);
    }
    forall x: nat ensures Covers(q.ranges, x) <==> Claimed(all, x) {
      ClaimedSnoc(seen, f, x);
      if f.Begin() < f.End() {
        InsertCovers(p.ranges, Span(f.Begin(), f.End()), x);
      }
    }
  }

  lemma {:induction false} AbsorbAllReflects(k: Key, seen: seq<Frame>)
    ensures Reflects(AbsorbAll(k, seen), k, seen)
  {
    if seen != [] {
      var n := |seen| - 1;
      assert seen[..n] + [seen[n]] == seen;
      AbsorbAllReflects(k, seen[..n]);
      AbsorbReflects(AbsorbAll(k, seen[..n]), k, seen[..n], seen[n]);
    }
  }

  /** `is_complete` on any frames at all. */
  lemma CompleteExactlyWhen(p: Partial, k: Key, seen: seq<Frame>)
    requires Reflects(p, k, seen)
    ensures IsComplete(p) <==> Completes(seen)
  {
    hide HasFin, Announced, Reach, Claimed, Covers;
    if p.haveFin && p.totalLen > 0 {
      CompleteUnlessStray(p);
    }
  }

  // ---- runs of frames of every kind

  /** The DATA frames of a message that count: those since it last completed or its stream was reset. */
  ghost function Open(frames: seq<Frame>, k: Key): seq<Frame> {
    if frames == [] then []
    else
      var before, f := Open(frames[..|frames| - 1], k), frames[|frames| - 1];
      if f.kind == Data && f.Id() == k then (if Completes(before + [f]) then [] else before + [f])
      else if f.kind == Reset && f.streamId == k.streamId then []
      else before
  }

  /** The table holds what the frames make of the message, and nothing where there are none. */
  ghost predicate HoldsOpen(s: Table, seen: seq<Frame>, k: Key) {
    if seen == [] then k !in s else k in s && s[k] == AbsorbAll(k, seen)
  }

  lemma TakeInAny(s: Table, seen: seq<Frame>, f: Frame, k: Key)
    requires f.Id() == k && HoldsOpen(s, seen, k)
    ensures Emitted(s, f).Some? <==> Completes(seen + [f])
    ensures Emitted(s, f).Some? ==> MadeOf(Emitted(s, f).value, k, seen + [f])
    ensures HoldsOpen(Accepted(s, f), if Completes(seen + [f]) then [] else seen + [f], k)
  {
    hide Absorb, Completes, IsComplete, Announced, Reach, AnyCompressed, HasFin, Latest;
    var all := seen + [f];
    assert all[..|all| - 1] == seen;
    assert Current(s, k) == AbsorbAll(k, seen);
    AbsorbAllReflects(k, all);
    CompleteExactlyWhen(AbsorbAll(k, all), k, all);
  }

  /** Amid traffic of every kind, the partial of a message is what its open frames make of it. */
  lemma {:induction false} PartialFromFrames(t: Table, frames: seq<Frame>, k: Key)
    requires k !in t
    ensures HoldsOpen(TableAfterAll(t, frames), Open(frames, k), k)
  {
    hide TableAfterAll, Accepted, Completes, AbsorbAll;
    if frames != [] {
      var before, f := frames[..|frames| - 1], frames[|frames| - 1];
      PartialFromFrames(t, before, k);
      TableAfterLast(t, frames);
      var s := TableAfterAll(t, before);
      if f.kind == Data {
        if f.Id() == k {
          TakeInAny(s, Open(before, k), f, k);
        } else {
          OtherMessages(s, f, k);
        }
      }
    } else {
      NothingRun(t);
    }
  }

  lemma NothingRun(t: Table)
    ensures TableAfterAll(t, []) == t
  {
  }

  /**
    * Whatever frames arrive and however they are interleaved, a DATA frame emits its message if
    * and only if FIN has come and the bytes claimed so far, by the frames since the message last
    * completed or its stream was reset, are an initial segment that reaches the announced end.
    * What comes out is that long, and every byte of it is that of the last frame to claim it.
    */
  lemma EmitsExactlyWhen(t: Table, frames: seq<Frame>, f: Frame)
    requires f.kind == Data && f.Id() !in t
    ensures var m, seen := Emitted(TableAfterAll(t, frames), f), Open(frames, f.Id()) + [f];
            && (m.Some? <==> Completes(seen))
            && (m.Some? ==> MadeOf(m.value, f.Id(), seen))
  {
    hide Completes, MadeOf, TableAfterAll, Open;
    PartialFromFrames(t, frames, f.Id());
    TakeInAny(TableAfterAll(t, frames), Open(frames, f.Id()), f, f.Id());
  }

  /**
    * So does the decoder itself, from its start, as long as no RESET has met two messages of its
    * stream in flight: the frame adds to the result exactly that message, or none.
    */
  lemma DecoderEmitsExactlyWhen(frames: seq<Frame>, f: Frame, res: StreamResult) returns (u: Slots)
    requires f.kind == Data && Uncrowded(map[], frames)
    ensures Leads(EMPTY, frames, u) && u.Takes(f)
    ensures var got, seen := u.Recorded(res, f).messages, Open(frames, f.Id()) + [f];
            if Completes(seen) then exists m :: MadeOf(m, f.Id(), seen) && got == res.messages + [m]
            else got == res.messages
  {
    hide Completes, MadeOf, TableAfterAll, Open, Uncrowded, Leads, Emitted;
    NothingAgrees();
    u := UncrowdedStaysSettled(EMPTY, frames);
    SettledStep(u, res, f);
    EmitsExactlyWhen(map[], frames, f);
    var m := Emitted(u.Pending(), f);
    assert u.Recorded(res, f).messages == if m.Some? then res.messages + [m.value] else res.messages;
  }
}
