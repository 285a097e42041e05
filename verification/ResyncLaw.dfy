/** Frames among junk. */
module ResyncLaw {
  // Where the search for a lost sync word stops, what every byte of a frame means, and that junk
  // between frames leaves no trace.

  import opened ByteReading
  import opened Checksum
  import opened Common
  import opened FrameEncoding
  import opened FrameReading
  import opened Frames
  import opened Numbers
  import opened Reassembling
  import opened Seqs
  import opened StreamDecoding
  import opened StreamLaw

  // ---- the search

  /** The two sync bytes stand at `k`. */
  predicate SyncAt(s: bytes, k: nat) {
    k + 2 <= |s| && s[k] == 0x53 && s[k + 1] == 0xC7
  }

  ghost predicate FirstSync(s: bytes, k: nat) {
    SyncAt(s, k) && forall j: nat | j < k :: !SyncAt(s, j)
  }

  ghost predicate NoSync(s: bytes, n: nat) {
    forall j: nat | j < n :: !SyncAt(s, j)
  }

  lemma {:induction false} ScanStops(s: bytes, window: nat, from: nat)
    requires from <= |s| && NoSync(s, from)
    ensures var r := Scan(s[from..], window);
            && (forall k: nat :: FirstSync(s, k) && k < from + window ==> r == Ok(s[k..]))
            && (NoSync(s, |s|) && |s| <= from + window + 1 ==> r == Ok([]))
            && (NoSync(s, from + window) && |s| > from + window + 1 ==> r == Err(BadMagic))
    decreases window
  {
    var t := s[from..];
    if |t| >= 2 {
      assert t[0] == s[from] && t[1] == s[from + 1];
      if window > 0 && !AtSync(t) {
        assert t[1..] == s[from + 1..];
        ScanStops(s, window - 1, from + 1);
      } else if window > 0 {
        assert SyncAt(s, from);
      }
    }
  }

  /**
    * The search: it stops at the first sync word that starts within 4096 bytes, drops an input
    * without one that ends within the window, and gives up on any other.
    */
  lemma SearchStops(s: bytes)
    ensures forall k: nat :: k + 2 <= |s| ==> (Align(s, false) == Ok(s[k..]) <==> k < 4096 && FirstSync(s, k))
    ensures Align(s, false) == Ok([]) <==> |s| <= 4097 && NoSync(s, |s|)
    ensures Align(s, false) == Err(BadMagic) <==> |s| > 4097 && NoSync(s, 4096)
  {
    assert s[0..] == s;
    assert AtSync(s) <==> SyncAt(s, 0);
    ScanStops(s, RESYNC_WINDOW, 0);
    hide Scan, AtSync;
    if !NoSync(s, 4096) {
      var k := SomeFirst(s, 4096);
      Shorter(s, k);
    }
  }

  lemma Shorter(s: bytes, k: nat)
    requires FirstSync(s, k)
    ensures s[k..] != [] && !NoSync(s, |s|)
    ensures forall j: nat | j + 2 <= |s| && s[j..] == s[k..] :: j == k
  {
    assert SyncAt(s, k);
    forall j: nat | j + 2 <= |s| && s[j..] == s[k..] ensures j == k {
      assert |s[j..]| == |s| - j;
    }
  }

  lemma {:induction false} SomeFirst(s: bytes, n: nat) returns (k: nat)
    requires !NoSync(s, n)
    ensures k < n && FirstSync(s, k)
  {
    if NoSync(s, n - 1) {
      k := n - 1;
    } else {
      k := SomeFirst(s, n - 1);
    }
  }

  /** The first frame has to start on the spot. */
  lemma FirstOnTheSpot(s: bytes)
    ensures Align(s, true) == if SyncAt(s, 0) then Ok(s) else Err(BadMagic)
  {
  }

  // ---- every byte of a frame

  /** A header CRC takes two bytes behind the header. */
  function CrcBytes(s: bytes): nat
    requires |s| >= 19
  {
    if s[4] / 8 % 2 == 1 then 2 else 0
  }

  function PayloadBytes(s: bytes): nat
    requires |s| >= 19
  {
    Two(s[18], s[17])
  }

  /** Nineteen bytes that start a frame of this version. */
  predicate HeaderGood(s: bytes) {
    |s| >= 19 && s[0] == 0x53 && s[1] == 0xC7 && s[2] == 1 && s[3] <= 3
  }

  /** The frame `s` starts with, byte by byte, highest byte first in every field. */
  ghost predicate Spelled(s: bytes, f: Frame, rest: bytes) {
    && HeaderGood(s) && |s| >= 19 + CrcBytes(s) + PayloadBytes(s)
    && f.kind == (if s[3] == 0 then Data else if s[3] == 1 then Control else if s[3] == 2 then Ack else Reset)
    && f.flags == s[4]
    && f.streamId == Two(s[6], s[5]) && f.msgId == Four(s[10], s[9], s[8], s[7])
    && f.seqNo == Two(s[12], s[11]) && f.fragOffset == Four(s[16], s[15], s[14], s[13])
    && f.crc == (if CrcBytes(s) == 2 then Some(Two(s[20], s[19]) == Crc16(s[..19])) else None)
    && f.payload == s[19 + CrcBytes(s)..19 + CrcBytes(s) + PayloadBytes(s)]
    && rest == s[19 + CrcBytes(s) + PayloadBytes(s)..]
  }

  /** The complaint about bytes that start no frame: length, sync, version, type, then length again. */
  function Complaint(s: bytes): ErrorCode {
    if |s| < 19 then ShortRead
    else if s[0] != 0x53 || s[1] != 0xC7 then BadMagic
    else if s[2] != 1 then BadVersion
    else if s[3] > 3 then BadType
    else ShortRead
  }

  lemma HeaderWords(h: bytes)
    requires |h| == 19
    ensures Field16(h, 5) == Two(h[6], h[5]) && Field32(h, 7) == Four(h[10], h[9], h[8], h[7])
    ensures Field16(h, 11) == Two(h[12], h[11]) && Field32(h, 13) == Four(h[16], h[15], h[14], h[13])
    ensures Field16(h, 17) == Two(h[18], h[17])
    ensures FromBe(h[0..2]) == SYNC <==> h[0] == 0x53 && h[1] == 0xC7
  {
    BeFields(h[5..7]);
    BeFields(h[7..11]);
    BeFields(h[11..13]);
    BeFields(h[13..17]);
    BeFields(h[17..19]);
    BeFields(h[0..2]);
    hide FromBe;
  }

  lemma HeaderJudged(h: bytes)
    requires |h| == 19
    ensures CheckHeader(h)
         == if !HeaderGood(h) then Err(Complaint(h))
            else Ok(if h[3] == 0 then Data else if h[3] == 1 then Control else if h[3] == 2 then Ack else Reset)
  {
    HeaderWords(h);
    hide Field16, Field32, FromBe;
  }

  lemma Front(s: bytes, n: nat)
    ensures Split(s, n) == if |s| < n then Err(ShortRead) else Ok((s[..n], s[n..]))
  {
  }

  lemma CrcJudged(s: bytes)
    requires |s| >= 19
    ensures ReadCrc(s[..19], s[19..])
         == if |s| < 19 + CrcBytes(s) then Err(ShortRead)
            else
              Ok((if CrcBytes(s) == 2 then Some(Two(s[20], s[19]) == Crc16(s[..19])) else None,
                  s[19 + CrcBytes(s)..]))
  {
    hide Crc16, FromBe;
    var h, t := s[..19], s[19..];
    Front(t, 2);
    if CrcBytes(s) == 2 && |t| >= 2 {
      BeFields(t[..2]);
      assert t[2..] == s[21..];
    }
  }

  /**
    * Reading a frame from an aligned cursor: it succeeds exactly if the bytes spell a frame, and
    * then that frame is read and nothing behind it.
    */
  lemma FrameExactly(s: bytes)
    ensures FrameAt(s).Ok? <==> HeaderGood(s) && |s| >= 19 + CrcBytes(s) + PayloadBytes(s)
    ensures FrameAt(s).Ok? ==> Spelled(s, FrameAt(s).value.0, FrameAt(s).value.1)
    ensures FrameAt(s).Err? ==> FrameAt(s).code == Complaint(s)
  {
    hide Crc16, FromBe, Field16, Field32, CheckHeader, ReadCrc, Split;
    Front(s, HEADER_BYTES);
    if |s| >= 19 {
      var h := s[..19];
      HeaderJudged(h);
      CrcJudged(s);
      HeaderWords(h);
      assert CrcBytes(h) == CrcBytes(s) && PayloadBytes(h) == PayloadBytes(s);
      if HeaderGood(s) && |s| >= 19 + CrcBytes(s) {
        var t := s[19 + CrcBytes(s)..];
        Front(t, PayloadBytes(s));
        if |t| >= PayloadBytes(s) {
          assert t[..PayloadBytes(s)] == s[19 + CrcBytes(s)..19 + CrcBytes(s) + PayloadBytes(s)];
          assert t[PayloadBytes(s)..] == s[19 + CrcBytes(s) + PayloadBytes(s)..];
        }
      }
    }
  }

  // ---- junk between frames

  /** Frames, each but the first behind some junk. */
  function Noisy(specs: seq<FrameSpec>, junk: seq<bytes>): bytes
    requires |junk| + 1 == |specs|
  {
    if junk == [] then FrameBytes(specs[0])
    else FrameBytes(specs[0]) + junk[0] + Noisy(specs[1..], junk[1..])
  }

  /** Less than a window of junk without a sync word in it. */
  ghost predicate Harmless(junk: bytes) {
    |junk| < 4096 && NoSync(junk, |junk|)
  }

  /** No sync word starts in junk before a frame, not even with its last byte. */
  lemma FirstBehindJunk(junk: bytes, k: bytes)
    requires Harmless(junk) && AtSync(k)
    ensures FirstSync(junk + k, |junk|)
  {
    var s := junk + k;
    forall j: nat | j < |junk| ensures !SyncAt(s, j) {
      assert !SyncAt(junk, j);
      assert s[j] == junk[j];
      if j + 1 < |junk| {
        assert s[j + 1] == junk[j + 1];
      } else {
        assert s[j + 1] == k[0];
      }
    }
    assert s[|junk|] == k[0] && s[|junk| + 1] == k[1];
  }

  lemma JunkSkipped(spec: FrameSpec, junk: bytes, k: bytes)
    requires Harmless(junk)
    ensures NextFrame(junk + (FrameBytes(spec) + k), false) == Ok((FrameOf(spec), k))
  {
    var t := FrameBytes(spec) + k;
    hide FrameBytes, FrameOf, FrameAt, Align, AtSync;
    FrameRoundTrip(spec, k, false);
    AlignedAlready(t);
    FirstBehindJunk(junk, t);
    SearchStops(junk + t);
    assert (junk + t)[|junk|..] == t;
  }

  lemma AlignedAlready(t: bytes)
    requires AtSync(t)
    ensures Align(t, false) == Ok(t) && |t| >= 2
  {
  }

  /** From any state of the decoder, junk between frames leaves no trace in the outcome. */
  lemma {:induction false} JunkLeavesNoTrace(specs: seq<FrameSpec>, junk: seq<bytes>, first: bool, u: Slots,
                                             res: StreamResult)
    requires |junk| + 1 == |specs| && forall i | 0 <= i < |junk| :: Harmless(junk[i])
    ensures DecodeFrom(Noisy(specs, junk), first, u, res) == DecodeFrom(Wire(specs), first, u, res)
    decreases |specs|
  {
    hide FrameBytes, FrameOf, NextFrame, DecodeFrom, InRange, Placed, Completed, Survivors, SlidIndex, ParseControl;
    var rest := Wire(specs[1..]);
    WireStep(specs);
    FrameRoundTrip(specs[0], rest, first);
    FrameStep(Wire(specs), first, u, res);
    if junk == [] {
      NoWire(specs[1..]);
      assert Noisy(specs, junk) + [] == Noisy(specs, junk);
    } else {
      var tail := junk[0] + Noisy(specs[1..], junk[1..]);
      Regroup3(FrameBytes(specs[0]), junk[0], Noisy(specs[1..], junk[1..]));
      FrameRoundTrip(specs[0], tail, first);
      FrameStep(Noisy(specs, junk), first, u, res);
      if u.Takes(FrameOf(specs[0])) {
        JunkInFront(specs[1..], junk[1..], junk[0], u.After(FrameOf(specs[0])), u.Recorded(res, FrameOf(specs[0])));
        JunkLeavesNoTrace(specs[1..], junk[1..], false, u.After(FrameOf(specs[0])),
                          u.Recorded(res, FrameOf(specs[0])));
      }
    }
  }

  lemma WireStep(specs: seq<FrameSpec>)
    requires specs != []
    ensures Wire(specs) == FrameBytes(specs[0]) + Wire(specs[1..]) != []
  {
    hide FrameBytes;
    FrameRoundTrip(specs[0], Wire(specs[1..]), true);
  }

  /** Junk in front of the next frame is read over. */
  lemma JunkInFront(specs: seq<FrameSpec>, junk: seq<bytes>, first: bytes, u: Slots, res: StreamResult)
    requires |junk| + 1 == |specs| && Harmless(first)
    ensures DecodeFrom(first + Noisy(specs, junk), false, u, res) == DecodeFrom(Noisy(specs, junk), false, u, res)
  {
    hide FrameBytes, FrameOf, NextFrame, DecodeFrom, InRange, Placed, Completed, Survivors, SlidIndex, ParseControl;
    var k := if junk == [] then [] else junk[0] + Noisy(specs[1..], junk[1..]);
    NoisyStep(specs, junk, k);
    JunkSkipped(specs[0], first, k);
    FrameRoundTrip(specs[0], k, false);
    FrameStep(Noisy(specs, junk), false, u, res);
    FrameStep(first + Noisy(specs, junk), false, u, res);
  }

  lemma NoisyStep(specs: seq<FrameSpec>, junk: seq<bytes>, k: bytes)
    requires |junk| + 1 == |specs| && k == if junk == [] then [] else junk[0] + Noisy(specs[1..], junk[1..])
    ensures Noisy(specs, junk) == FrameBytes(specs[0]) + k != []
  {
    hide FrameBytes;
    FrameRoundTrip(specs[0], k, true);
    if junk != [] {
      Regroup3(FrameBytes(specs[0]), junk[0], Noisy(specs[1..], junk[1..]));
    }
  }

  /** A run of frames handed to the decoder one after the other. */
  function Fed(frames: seq<Frame>, u: Slots, res: StreamResult): Decoded
    decreases |frames|
  {
    if frames == [] then Finished(res)
    else if !u.Takes(frames[0]) then OutOfStore
    else Fed(frames[1..], u.After(frames[0]), u.Recorded(res, frames[0]))
  }

  /** Frames of every kind, written and decoded, are the frames handed over in order. */
  lemma {:induction false} WireIsFed(specs: seq<FrameSpec>, first: bool, u: Slots, res: StreamResult)
    ensures DecodeFrom(Wire(specs), first, u, res) == Fed(FramesOf(specs), u, res)
    decreases |specs|
  {
    hide FrameBytes, NextFrame, DecodeFrom, InRange, Placed, Completed, Survivors, SlidIndex, ParseControl;
    if specs == [] {
      NoWire(specs);
      NothingLeft(first, u, res);
    } else {
      WireStep(specs);
      FrameRoundTrip(specs[0], Wire(specs[1..]), first);
      FrameStep(Wire(specs), first, u, res);
      var f := FrameOf(specs[0]);
      assert FramesOf(specs)[1..] == FramesOf(specs[1..]);
      if u.Takes(f) {
        WireIsFed(specs[1..], false, u.After(f), u.Recorded(res, f));
      }
    }
  }

  /**
    * A buffer of frames of every kind, less than 4096 bytes of junk without a sync word in front of
    * each but the first, decodes as the frames handed over in order: none is missed, none invented.
    */
  lemma NoisyIsFed(specs: seq<FrameSpec>, junk: seq<bytes>)
    requires |junk| + 1 == |specs| && forall i | 0 <= i < |junk| :: Harmless(junk[i])
    ensures DecodeFrom(Noisy(specs, junk), true, EMPTY, NOTHING) == Fed(FramesOf(specs), EMPTY, NOTHING)
  {
    hide DecodeFrom, Fed, Wire, Noisy, FramesOf;
    JunkLeavesNoTrace(specs, junk, true, EMPTY, NOTHING);
    WireIsFed(specs, true, EMPTY, NOTHING);
  }

  /** The bytes of a written frame, one by one. */
  lemma WrittenSpelled(spec: FrameSpec, k: bytes)
    ensures Spelled(FrameBytes(spec) + k, FrameOf(spec), k)
  {
    hide FrameBytes, FrameOf, FrameAt, Align, Spelled, AtSync;
    var s := FrameBytes(spec) + k;
    FrameRoundTrip(spec, k, false);
    AlignedAlready(s);
    FrameExactly(s);
  }

  // ---- what a run leaves in the result

  function OfKind(frames: seq<Frame>, kind: FrameType): seq<Frame> {
    if frames == [] then []
    else (if frames[0].kind == kind then [frames[0]] else []) + OfKind(frames[1..], kind)
  }

  /** How many frames carry a header CRC with that verdict. */
  function CrcVerdicts(frames: seq<Frame>, good: bool): nat {
    if frames == [] then 0 else (if frames[0].crc == Some(good) then 1 else 0) + CrcVerdicts(frames[1..], good)
  }

  /** A control record: who sent it, and two big-endian words, where the payload has them. */
  ghost predicate Controls(c: ControlRecord, f: Frame) {
    var p := f.payload;
    && c.streamId == f.streamId
    && c.refMsgId == (if |p| >= 4 then Four(p[3], p[2], p[1], p[0]) else 0)
    && c.window == (if |p| >= 8 then Four(p[7], p[6], p[5], p[4]) else 0)
  }

  lemma ControlRead(f: Frame)
    ensures Controls(ParseControl(f), f)
  {
    var p := f.payload;
    if |p| >= 4 {
      BeFields(p[0..4]);
    }
    if |p| >= 8 {
      BeFields(p[4..8]);
    }
    hide FromBe;
  }

  /** What a finished run of frames added to a result, messages aside. */
  ghost predicate Tallied(frames: seq<Frame>, before: StreamResult, after: StreamResult) {
    var controls, acks := OfKind(frames, Control), OfKind(frames, Ack);
    && after.framesSeen == before.framesSeen + |frames|
    && after.crcOk == before.crcOk + CrcVerdicts(frames, true)
    && after.crcBad == before.crcBad + CrcVerdicts(frames, false)
    && after.resets == before.resets + |OfKind(frames, Reset)|
    && |after.controls| == |before.controls| + |controls| && after.controls[..|before.controls|] == before.controls
    && (forall i | 0 <= i < |controls| :: Controls(after.controls[|before.controls| + i], controls[i]))
    && |after.acks| == |before.acks| + |acks| && after.acks[..|before.acks|] == before.acks
    && (forall i | 0 <= i < |acks| :: after.acks[|before.acks| + i] == Key(acks[i].streamId, acks[i].msgId))
  }

  /** Every frame is counted, every CRC by its verdict, and every control and ack is noted in order. */
  lemma {:induction false} FedTallies(frames: seq<Frame>, u: Slots, res: StreamResult)
    requires Fed(frames, u, res).Finished?
    ensures Tallied(frames, res, Fed(frames, u, res).result)
    decreases |frames|
  {
    hide ParseControl, InRange, Placed, Completed, Survivors, SlidIndex, Controls;
    if frames != [] {
      var f := frames[0];
      var next := u.Recorded(res, f);
      FedTallies(frames[1..], u.After(f), next);
      ControlRead(f);
      var end := Fed(frames, u, res).result;
      assert Tallied(frames[1..], next, end);
      TalliedFirst(frames, res, next, end);
    }
  }

  lemma TalliedFirst(frames: seq<Frame>, res: StreamResult, next: StreamResult, end: StreamResult)
    requires frames != [] && Tallied(frames[1..], next, end)
    requires var f := frames[0];
             && next.framesSeen == res.framesSeen + 1
             && next.crcOk == res.crcOk + (if f.crc == Some(true) then 1 else 0)
             && next.crcBad == res.crcBad + (if f.crc == Some(false) then 1 else 0)
             && next.resets == res.resets + (if f.kind == Reset then 1 else 0)
             && next.controls == res.controls + (if f.kind == Control then [ParseControl(f)] else [])
             && next.acks == res.acks + (if f.kind == Ack then [f.Id()] else [])
             && Controls(ParseControl(f), f)
    ensures Tallied(frames, res, end)
  {
    hide ParseControl, Controls;
    var f, rest := frames[0], frames[1..];
    var controls, acks := OfKind(frames, Control), OfKind(frames, Ack);
    assert controls == (if f.kind == Control then [f] else []) + OfKind(rest, Control);
    assert acks == (if f.kind == Ack then [f] else []) + OfKind(rest, Ack);
    assert OfKind(frames, Reset) == (if f.kind == Reset then [f] else []) + OfKind(rest, Reset);
    hide OfKind;
    assert end.controls[..|res.controls|] == end.controls[..|next.controls|][..|res.controls|] == res.controls;
    assert end.acks[..|res.acks|] == end.acks[..|next.acks|][..|res.acks|] == res.acks;
    forall i | 0 <= i < |controls| ensures Controls(end.controls[|res.controls| + i], controls[i]) {
      if f.kind == Control {
        assert i == 0 ==> end.controls[|res.controls|] == end.controls[..|next.controls|][|res.controls|];
        assert i > 0 ==> controls[i] == OfKind(rest, Control)[i - 1];
      }
    }
    forall i | 0 <= i < |acks|
      ensures end.acks[|res.acks| + i] == Key(acks[i].streamId, acks[i].msgId)
    {
      if f.kind == Ack {
        assert i == 0 ==> end.acks[|res.acks|] == end.acks[..|next.acks|][|res.acks|];
        assert i > 0 ==> acks[i] == OfKind(rest, Ack)[i - 1];
      }
    }
  }
}
