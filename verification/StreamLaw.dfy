/** The stream end to end. */
module StreamLaw {
  // What the encoder writes for any set of messages, in any interleaving of their fragments,
  // decodes to exactly those messages.

  import opened ByteReading
  import opened Checksum
  import opened Common
  import opened FrameEncoding
  import opened FrameReading
  import opened Frames
  import opened Numbers
  import opened Reassembling
  import opened Reassembly
  import opened ReassemblyLaw
  import opened Seqs
  import opened StreamDecoding

  // ---- one frame

  lemma HeaderSlices(spec: FrameSpec)
    ensures var h := Header(spec);
            && h[0..2] == Be(SYNC, 2) && h[2] == VERSION && h[3] == TypeByte(spec.kind) && h[4] == WireFlags(spec)
            && h[5..7] == Be(spec.streamId, 2) && h[7..11] == Be(spec.msgId, 4) && h[11..13] == Be(spec.seqNo, 2)
            && h[13..17] == Be(spec.fragOffset, 4) && h[17..19] == Be(|WirePayload(spec)|, 2)
  {
    hide Be;
  }

  lemma SyncBytes()
    ensures Be(SYNC, 2) == [SYNC_HIGH, SYNC_LOW] && FromBe(Be(SYNC, 2)) == SYNC
  {
    Widths();
    BeRoundTrip(SYNC, 2);
    assert Be(SYNC_HIGH, 1) == Be(0, 0) + [SYNC_HIGH];
  }

  /** Every field comes back, whatever the frame type. */
  lemma HeaderReadsBack(spec: FrameSpec)
    ensures var h := Header(spec);
            && CheckHeader(h) == Ok(spec.kind) && h[4] == WireFlags(spec)
            && Field16(h, 5) == spec.streamId && Field32(h, 7) == spec.msgId && Field16(h, 11) == spec.seqNo
            && Field32(h, 13) == spec.fragOffset && Field16(h, 17) == |WirePayload(spec)|
  {
    HeaderSlices(spec);
    SyncBytes();
    Widths();
    BeRoundTrip(spec.streamId, 2);
    BeRoundTrip(spec.msgId, 4);
    BeRoundTrip(spec.seqNo, 2);
    BeRoundTrip(spec.fragOffset, 4);
    BeRoundTrip(|WirePayload(spec)|, 2);
    hide Header, Be, FromBe, WireFlags;
  }

  /**
    * A written frame reads back as itself, with its CRC good, and the reader stops right
    * behind it; the cursor is on the sync word, so the resync scan is never entered.
    */
  lemma FrameRoundTrip(spec: FrameSpec, k: bytes, first: bool)
    ensures AtSync(FrameBytes(spec) + k)
    ensures NextFrame(FrameBytes(spec) + k, first) == Ok((FrameOf(spec), k))
  {
    var h, crc, payload := Header(spec), CrcField(spec), WirePayload(spec);
    var s := FrameBytes(spec) + k;
    hide Header, Be, FromBe, CheckHeader, WireFlags, Crc16;
    HeaderSlices(spec);
    SyncBytes();
    HeaderReadsBack(spec);
    WireFlagBits(spec);
    assert h[0..2][0] == h[0] && h[0..2][1] == h[1];
    Regroup4(h, crc, payload, k);
    assert s == h + (crc + (payload + k));
    assert AtSync(s);
    assert Split(s, HEADER_BYTES) == Ok((h, crc + (payload + k)));
    CrcReadsBack(spec, payload + k);
    assert Split(payload + k, |payload|) == Ok((payload, k));
  }

  lemma CrcReadsBack(spec: FrameSpec, k: bytes)
    ensures ReadCrc(Header(spec), CrcField(spec) + k) == Ok((if spec.withCrc then Some(true) else None, k))
  {
    hide Header, Be, FromBe, CheckHeader, WireFlags, Crc16, Pow256, Field16, Field32, CrcBit;
    HeaderReadsBack(spec);
    WireFlagBits(spec);
    var h := Header(spec);
    Widths();
    BeRoundTrip(Crc16(h), 2);
    if spec.withCrc {
      assert Split(CrcField(spec) + k, 2) == Ok((CrcField(spec), k));
    } else {
      assert CrcField(spec) + k == k;
    }
  }

  // ---- a whole buffer of DATA frames

  /** What the frame loop has recorded after a run of DATA frames. */
  function Collected(frames: seq<Frame>): StreamResult {
    if frames == [] then NOTHING
    else
      var before, last := frames[..|frames| - 1], frames[|frames| - 1];
      Record(Final(map[], before), Collected(before), last)
  }

  ghost predicate AllData(specs: seq<FrameSpec>) {
    forall i | 0 <= i < |specs| :: specs[i].kind == Data
  }

  /** Decoding what is left of the wire from any point of a run ends with the whole run. */
  lemma {:induction false} WireDecodesFrom(specs: seq<FrameSpec>, i: nat, u: Slots)
    requires i <= |specs| && AllData(specs)
    requires u.Settled() && u.Pending() == Final(map[], FramesOf(specs)[..i])
    ensures var frames := FramesOf(specs);
            DecodeFrom(Wire(specs[i..]), i == 0, u, Collected(frames[..i])) == Finished(Collected(frames))
    decreases |specs| - i
  {
    hide DecodeFrom, NextFrame, TableAfter, Record, Final, Collected, FrameBytes, Wire, Agrees, View, InRange, Placed,
         Completed, Survivors, SlidIndex, ParseControl;
    var frames := FramesOf(specs);
    var res := Collected(frames[..i]);
    if i == |specs| {
      assert frames[..i] == frames;
      assert Wire(specs[i..]) == [] by { NoWire(specs[i..]); }
      NothingLeft(i == 0, u, res);
    } else {
      ReadOne(specs, i);
      RunOne(specs, i);
      SettledStep(u, res, frames[i]);
      WireDecodesFrom(specs, i + 1, u.After(frames[i]));
      FrameStep(Wire(specs[i..]), i == 0, u, res);
    }
  }

  lemma NoWire(specs: seq<FrameSpec>)
    requires specs == []
    ensures Wire(specs) == []
  {
  }

  lemma ReadOne(specs: seq<FrameSpec>, i: nat)
    requires i < |specs|
    ensures Wire(specs[i..]) != []
    ensures NextFrame(Wire(specs[i..]), i == 0) == Ok((FramesOf(specs)[i], Wire(specs[i + 1..])))
  {
    assert specs[i..][1..] == specs[i + 1..];
    hide FrameBytes, NextFrame;
    FrameRoundTrip(specs[i], Wire(specs[i + 1..]), i == 0);
  }

  lemma RunOne(specs: seq<FrameSpec>, i: nat)
    requires i < |specs| && AllData(specs)
    ensures var frames := FramesOf(specs);
            var t := Final(map[], frames[..i]);
            && frames[i].kind == Data && Final(map[], frames[..i + 1]) == TableAfter(t, frames[i])
            && Collected(frames[..i + 1]) == Record(t, Collected(frames[..i]), frames[i])
  {
    var frames := FramesOf(specs);
    assert frames[..i + 1][..i] == frames[..i] && frames[..i + 1][i] == frames[i];
    hide Accepted, Record;
  }

  lemma WireDecodes(specs: seq<FrameSpec>)
    requires AllData(specs)
    ensures DecodeFrom(Wire(specs), true, EMPTY, NOTHING) == Finished(Collected(FramesOf(specs)))
  {
    assert specs[0..] == specs && FramesOf(specs)[..0] == [];
    NothingAgrees();
    WireDecodesFrom(specs, 0, EMPTY);
  }

  function CountCrc(specs: seq<FrameSpec>): nat {
    if specs == [] then 0 else CountCrc(specs[..|specs| - 1]) + if specs[|specs| - 1].withCrc then 1 else 0
  }

  /** Every frame is seen, and every CRC written is counted as good. */
  lemma {:induction false} EveryCrcGood(specs: seq<FrameSpec>)
    requires AllData(specs)
    ensures var res := Collected(FramesOf(specs));
            res.framesSeen == |specs| && res.crcOk == CountCrc(specs) && res.crcBad == 0
  {
    if specs != [] {
      var before := specs[..|specs| - 1];
      assert FramesOf(specs)[..|specs| - 1] == FramesOf(before);
      EveryCrcGood(before);
      hide Final, Emitted;
    }
  }

  // ---- the fragments of one message cut it

  ghost predicate FromOffset(frames: seq<Frame>, p: Plan, offset: nat) {
    && frames != [] && frames[0].Begin() == offset
    && (forall i | 0 <= i < |frames| :: IsSlice(frames[i], p.key, p.payload) && frames[i].Begin() >= offset)
    && (forall i | 0 <= i < |frames| :: frames[i].Compressed() == p.compressed)
    && (forall i | 0 <= i < |frames| :: frames[i].Fin() <==> i == |frames| - 1)
    && (offset < |p.payload| ==> forall i | 0 <= i < |frames| :: frames[i].payload != [])
    && (forall i, j | 0 <= i < j < |frames| :: frames[i].Begin() + |frames[i].payload| <= frames[j].Begin())
    && (forall x: nat | offset <= x < |p.payload| :: CoveredBy(frames, x))
  }

  lemma FragmentFrame(p: Plan, offset: nat, seqNo: u16)
    requires |p.payload| < TWO32 && 0 < p.size <= MAX_FRAME_PAYLOAD && offset <= |p.payload|
    requires Multi(p) || offset == 0
    ensures var f := FrameOf(Fragment(p, offset, seqNo));
            && f.Begin() == offset && IsSlice(f, p.key, p.payload) && f.Compressed() == p.compressed
            && (f.Fin() <==> |p.payload| - offset <= p.size)
            && |f.payload| == Min(p.size, |p.payload| - offset)
  {
    var spec := Fragment(p, offset, seqNo);
    WireFlagBits(spec);
    FlagValues(Multi(p), |p.payload| - offset <= p.size, p.compressed);
    assert WirePayload(spec) == spec.payload;
    assert FragmentFlags(p, |p.payload| - offset <= p.size) == spec.flags;
    hide WireFlags, FinBit, FragBit, CompressedBit;
  }

  lemma FlagValues(frag: bool, fin: bool, compressed: bool)
    ensures var flags: byte := (if frag then 2 else 0) + (if fin then 1 else 0) + (if compressed then 4 else 0);
            FinBit(flags) == fin && FragBit(flags) == frag && CompressedBit(flags) == compressed
  {
  }

  lemma {:induction false} FragmentsFromCut(p: Plan, offset: nat, seqNo: u16)
    requires |p.payload| < TWO32 && 0 < p.size <= MAX_FRAME_PAYLOAD && offset <= |p.payload|
    requires Multi(p) || offset == 0
    ensures FromOffset(FramesOf(FragmentsFrom(p, offset, seqNo)), p, offset)
    decreases |p.payload| - offset
  {
    hide Fragment, FrameOf, IsSlice, FromOffset;
    var f := FrameOf(Fragment(p, offset, seqNo));
    FragmentFrame(p, offset, seqNo);
    var frames := FramesOf(FragmentsFrom(p, offset, seqNo));
    if |p.payload| - offset <= p.size {
      assert frames == [f];
      LastCut(f, p, offset);
    } else {
      var tail := FramesOf(FragmentsFrom(p, offset + p.size, (seqNo + 1) % TWO16));
      FragmentsFromCut(p, offset + p.size, (seqNo + 1) % TWO16);
      assert frames == [f] + tail;
      hide FragmentsFrom, FramesOf, IsSlice, FromOffset;
      ConsCut(f, tail, p, offset);
    }
  }

  lemma LastCut(f: Frame, p: Plan, offset: nat)
    requires f.Begin() == offset && IsSlice(f, p.key, p.payload) && f.Compressed() == p.compressed
    requires f.Fin()
    ensures FromOffset([f], p, offset)
  {
    forall x: nat | offset <= x < |p.payload| ensures CoveredBy([f], x) {
      assert Reaches([f][0], x);
    }
  }

  lemma ConsCut(f: Frame, tail: seq<Frame>, p: Plan, offset: nat)
    requires offset + p.size < |p.payload| && p.size > 0 && FromOffset(tail, p, offset + p.size)
    requires f.Begin() == offset && IsSlice(f, p.key, p.payload) && f.Compressed() == p.compressed
    requires !f.Fin() && |f.payload| == p.size
    ensures FromOffset([f] + tail, p, offset)
  {
    var frames := [f] + tail;
    assert forall i | 0 < i < |frames| :: frames[i] == tail[i - 1];
    forall i, j | 0 <= i < j < |frames| ensures frames[i].Begin() + |frames[i].payload| <= frames[j].Begin() {
      assert frames[j] == tail[j - 1];
    }
    forall x: nat | offset <= x < |p.payload| ensures CoveredBy(frames, x) {
      if x < offset + p.size {
        assert Reaches(frames[0], x);
      } else {
        assert CoveredBy(tail, x);
        var i :| 0 <= i < |tail| && Reaches(tail[i], x);
        assert Reaches(frames[i + 1], x);
      }
    }
  }

  function PlanFragments(p: Plan, firstSeq: u16): (r: seq<FrameSpec>)
    requires p.size > 0
  {
    FragmentsFrom(p, 0, firstSeq)
  }

  lemma FragmentsCut(p: Plan, firstSeq: u16)
    requires |p.payload| < TWO32 && 0 < p.size <= MAX_FRAME_PAYLOAD
    ensures Cuts(FramesOf(PlanFragments(p, firstSeq)), p.key, p.payload)
    ensures forall f | f in FramesOf(PlanFragments(p, firstSeq)) :: f.Compressed() == p.compressed
  {
    var frames := FramesOf(PlanFragments(p, firstSeq));
    FragmentsFromCut(p, 0, firstSeq);
    hide FragmentsFrom, FramesOf, IsSlice;
    assert |p.payload| == 0 ==> |frames| == 1 by { Single(p, firstSeq); }
  }

  lemma Single(p: Plan, firstSeq: u16)
    requires p.size > 0
    ensures |p.payload| == 0 ==> |FramesOf(PlanFragments(p, firstSeq))| == 1
  {
  }

  lemma {:induction false} OnlyAll(frames: seq<Frame>, k: Key)
    requires forall f | f in frames :: f.Id() == k
    ensures Only(frames, k) == frames
  {
    if frames != [] {
      var n := |frames| - 1;
      assert frames[..n] + [frames[n]] == frames;
      OnlyAll(frames[..n], k);
    }
  }

  /**
    * The fragments of one message, handed over in any order: none but the last emits, and the
    * last emits exactly the message.
    */
  lemma AnyPermutation(t: Table, p: Plan, firstSeq: u16, frames: seq<Frame>, i: nat)
    requires |p.payload| < TWO32 && 0 < p.size <= MAX_FRAME_PAYLOAD && p.key !in t
    requires multiset(frames) == multiset(FramesOf(PlanFragments(p, firstSeq))) && i < |frames|
    ensures EmittedAt(t, frames, i)
         == if i == |frames| - 1 then Some(Message(p.key.streamId, p.key.msgId, p.compressed, p.payload)) else None
  {
    hide PlanFragments, EmittedAt, Cuts, AnyCompressed, Only;
    var cut := FramesOf(PlanFragments(p, firstSeq));
    FragmentsCut(p, firstSeq);
    SameMembers(cut, frames);
    assert forall f | f in cut :: IsSlice(f, p.key, p.payload) by { CutSlices(cut, p.key, p.payload); }
    OnlyAll(frames, p.key);
    OnlyAll(frames[..i + 1], p.key);
    AnyOrder(t, frames, i, p.key, p.payload, cut);
    assert |frames| == |multiset(frames)| == |cut|;
    AllSayCompressed(frames[..i + 1], cut, p.compressed);
  }

  lemma CutSlices(cut: seq<Frame>, k: Key, m: bytes)
    requires Cuts(cut, k, m)
    ensures forall f | f in cut :: IsSlice(f, k, m)
  {
  }

  // ---- interleaved messages

  datatype Sent = Sent(plan: Plan, firstSeq: u16)

  ghost predicate Sendable(k: Key, m: Sent) {
    m.plan.key == k && |m.plan.payload| < TWO32 && 0 < m.plan.size <= MAX_FRAME_PAYLOAD
  }

  /** The wire carries the fragments of every message sent, in any order, and nothing else. */
  ghost predicate Interleaves(frames: seq<Frame>, sent: map<Key, Sent>) {
    && (forall f | f in frames :: f.Id() in sent)
    && (forall k | k in sent ::
          Sendable(k, sent[k])
          && multiset(Only(frames, k)) == multiset(FramesOf(PlanFragments(sent[k].plan, sent[k].firstSeq))))
  }

  function MessageOf(k: Key, m: Sent): Message {
    Message(k.streamId, k.msgId, m.plan.compressed, m.plan.payload)
  }

  /** The messages in the order their last fragments arrive among the first `n` frames. */
  ghost function Completions(frames: seq<Frame>, sent: map<Key, Sent>, n: nat): seq<Message>
    requires n <= |frames| && Interleaves(frames, sent)
  {
    if n == 0 then []
    else
      var k := frames[n - 1].Id();
      Completions(frames, sent, n - 1)
      + if |Only(frames[..n], k)| == |Only(frames, k)| then [MessageOf(k, sent[k])] else []
  }

  lemma CompletesWhenLast(frames: seq<Frame>, sent: map<Key, Sent>, n: nat)
    requires n < |frames| && Interleaves(frames, sent)
    ensures var k := frames[n].Id();
            EmittedAt(map[], frames, n)
            == if |Only(frames[..n + 1], k)| == |Only(frames, k)| then Some(MessageOf(k, sent[k])) else None
  {
    var k := frames[n].Id();
    assert frames[n] in frames;
    var cut := FramesOf(PlanFragments(sent[k].plan, sent[k].firstSeq));
    assert Sendable(k, sent[k]);
    FragmentsCut(sent[k].plan, sent[k].firstSeq);
    hide FramesOf, PlanFragments, Cuts, EmittedAt;
    AnyOrder(map[], frames, n, k, sent[k].plan.payload, cut);
    var all, seen := Only(frames, k), Only(frames[..n + 1], k);
    assert |all| == |multiset(all)| == |multiset(cut)| == |cut|;
    SameMembers(cut, all);
    OnlyPrefix(frames, n + 1, k);
    assert frames[..n + 1][n] == frames[n] && seen != [];
    assert seen[0] in all;
    assert forall f | f in seen :: f in all;
    AllSayCompressed(seen, cut, sent[k].plan.compressed);
  }

  lemma AllSayCompressed(seen: seq<Frame>, cut: seq<Frame>, compressed: bool)
    requires seen != [] && (forall f | f in seen :: f in cut) && forall f | f in cut :: f.Compressed() == compressed
    ensures AnyCompressed(seen) == compressed
  {
    assert seen[0] in cut;
    assert forall i | 0 <= i < |seen| :: seen[i] in cut;
  }

  lemma {:induction false} CollectedMessages(frames: seq<Frame>, sent: map<Key, Sent>, n: nat)
    requires n <= |frames| && Interleaves(frames, sent) && forall f | f in frames :: f.kind == Data
    ensures Collected(frames[..n]).messages == Completions(frames, sent, n)
    decreases n
  {
    hide Emitted, Final, Interleaves, Only, Accepted, MessageOf;
    if n > 0 {
      CollectedMessages(frames, sent, n - 1);
      var before, f := frames[..n - 1], frames[n - 1];
      assert frames[..n][..n - 1] == before && frames[..n][n - 1] == f;
      assert f in frames;
      CompletesWhenLast(frames, sent, n - 1);
      assert EmittedAt(map[], frames, n - 1) == Emitted(Final(map[], before), f);
      assert Collected(frames[..n]) == Record(Final(map[], before), Collected(before), f);
    }
  }

  lemma AllDataFrames(specs: seq<FrameSpec>)
    requires AllData(specs)
    ensures forall f | f in FramesOf(specs) :: f.kind == Data
  {
  }

  function CountOf(messages: seq<Message>, k: Key): nat {
    if messages == [] then 0
    else
      var m := messages[|messages| - 1];
      CountOf(messages[..|messages| - 1], k) + if Key(m.streamId, m.msgId) == k then 1 else 0
  }

  lemma {:induction false} OncePerKey(frames: seq<Frame>, sent: map<Key, Sent>, n: nat, k: Key)
    requires n <= |frames| && Interleaves(frames, sent) && k in sent
    ensures CountOf(Completions(frames, sent, n), k) == if |Only(frames[..n], k)| == |Only(frames, k)| then 1 else 0
    decreases n
  {
    hide Interleaves, FramesOf, Only, CountOf;
    SomeFrame(frames, sent, k);
    OnlyPrefix(frames, n, k);
    if n > 0 {
      OncePerKey(frames, sent, n - 1, k);
      var before, f := Completions(frames, sent, n - 1), frames[n - 1];
      OnlyStep(frames, n - 1, k);
      OnlyPrefix(frames, n - 1, k);
      KnownKey(frames, sent, f);
      CountSnoc(before, MessageOf(f.Id(), sent[f.Id()]), k);
    } else {
      NoneYet(frames, k);
    }
  }

  lemma SomeFrame(frames: seq<Frame>, sent: map<Key, Sent>, k: Key)
    requires Interleaves(frames, sent) && k in sent
    ensures |Only(frames, k)| > 0
  {
    hide FramesOf, Only;
    var cut := FramesOf(PlanFragments(sent[k].plan, sent[k].firstSeq));
    assert |Only(frames, k)| == |multiset(Only(frames, k))| == |multiset(cut)| == |cut|;
  }

  lemma KnownKey(frames: seq<Frame>, sent: map<Key, Sent>, f: Frame)
    requires Interleaves(frames, sent) && f in frames
    ensures f.Id() in sent
  {
  }

  lemma OnlyStep(frames: seq<Frame>, n: nat, k: Key)
    requires n < |frames|
    ensures |Only(frames[..n + 1], k)| == |Only(frames[..n], k)| + if frames[n].Id() == k then 1 else 0
  {
    assert frames[..n + 1][..n] == frames[..n] && frames[..n + 1][n] == frames[n];
  }

  lemma NoneYet(frames: seq<Frame>, k: Key)
    ensures Only(frames[..0], k) == [] && CountOf([], k) == 0
  {
  }

  lemma CountSnoc(messages: seq<Message>, m: Message, k: Key)
    ensures CountOf(messages + [m], k) == CountOf(messages, k) + if Key(m.streamId, m.msgId) == k then 1 else 0
    ensures messages + [] == messages
  {
    assert (messages + [m])[..|messages|] == messages;
  }

  /**
    * Any number of messages, their fragments interleaved and reordered at will: the buffer
    * decodes without error, each message comes out whole exactly once, in the order in which
    * their last fragments arrive, and every CRC that was written is counted as good.
    */
  lemma InterleavedWire(specs: seq<FrameSpec>, sent: map<Key, Sent>)
    requires AllData(specs) && Interleaves(FramesOf(specs), sent)
    ensures var r := DecodeFrom(Wire(specs), true, EMPTY, NOTHING);
            && r.Finished? && r.result.messages == Completions(FramesOf(specs), sent, |specs|)
            && r.result.framesSeen == |specs| && r.result.crcOk == CountCrc(specs) && r.result.crcBad == 0
            && forall k | k in sent :: CountOf(r.result.messages, k) == 1
  {
    hide Interleaves, FramesOf, Only, DecodeFrom, Collected, Completions, Wire;
    var frames := FramesOf(specs);
    WireDecodes(specs);
    EveryCrcGood(specs);
    AllDataFrames(specs);
    CollectedMessages(frames, sent, |specs|);
    assert frames[..|specs|] == frames;
    forall k | k in sent ensures CountOf(Completions(frames, sent, |specs|), k) == 1 {
      OncePerKey(frames, sent, |specs|, k);
    }
  }
}
