/**
  * frame_reader.cpp: one frame at a time, with a bounded search for a lost sync word. The
  * fixed header is checked before anything behind it is read, and a CRC mismatch is recorded
  * rather than raised.
  */
module FrameReading {
  import opened ByteReading
  import opened Checksum
  import opened Common
  import opened Frames
  import opened Numbers

  const RESYNC_WINDOW: nat := 4096

  predicate AtSync(s: bytes) {
    |s| >= 2 && s[0] == SYNC_HIGH && s[1] == SYNC_LOW
  }

  /** The search loop: what is left once it stops. A tail too short for a sync word is dropped. */
  function Scan(s: bytes, window: nat): Result<bytes>
    decreases window, s
  {
    if |s| < 2 then Ok([])
    else if window == 0 then Err(BadMagic)
    else if AtSync(s) then Ok(s)
    else Scan(s[1..], window - 1)
  }

  /** `align_to_sync`: only the first frame has to start on the spot. */
  function Align(s: bytes, first: bool): Result<bytes> {
    if AtSync(s) then Ok(s)
    else if first then Err(BadMagic)
    else Scan(s, RESYNC_WINDOW)
  }

  function TypeOf(b: byte): Result<FrameType> {
    match b
    case 0 => Ok(Data)
    case 1 => Ok(Control)
    case 2 => Ok(Ack)
    case 3 => Ok(Reset)
    case _ => Err(BadType)
  }

  /** The checks the fixed header has to pass before anything behind it is read. */
  function CheckHeader(h: bytes): Result<FrameType>
    requires |h| == HEADER_BYTES
  {
    if FromBe(h[0..2]) != SYNC then Err(BadMagic)
    else if h[2] != VERSION then Err(BadVersion)
    else TypeOf(h[3])
  }

  function Field16(h: bytes, at: nat): u16
    requires at + 2 <= |h|
  {
    FromBeBound(h[at..at + 2]);
    Widths();
    FromBe(h[at..at + 2])
  }

  function Field32(h: bytes, at: nat): u32
    requires at + 4 <= |h|
  {
    FromBeBound(h[at..at + 4]);
    Widths();
    FromBe(h[at..at + 4])
  }

  /** The optional header CRC: whether it is the CRC of the header, and what follows it. */
  function ReadCrc(h: bytes, s: bytes): Result<(Option<bool>, bytes)>
    requires |h| == HEADER_BYTES
  {
    if !CrcBit(h[4]) then Ok((None, s))
    else
      var (stored, rest) :- Split(s, 2);
      Ok((Some(FromBe(stored) == Crc16(h)), rest))
  }

  /** The frame behind an aligned cursor. */
  function FrameAt(s: bytes): Result<(Frame, bytes)> {
    if |s| < 2 then Err(ShortRead)
    else
      var (h, s1) :- Split(s, HEADER_BYTES);
      var kind :- CheckHeader(h);
      var (crc, s2) :- ReadCrc(h, s1);
      var (payload, rest) :- Split(s2, Field16(h, 17));
      Ok((Frame(kind, h[4], Field16(h, 5), Field32(h, 7), Field16(h, 11), Field32(h, 13), crc, payload), rest))
  }

  /** `next`: align, then read. */
  function NextFrame(s: bytes, first: bool): (r: Result<(Frame, bytes)>)
    ensures r.Ok? ==> |r.value.1| < |s|
  {
    var aligned :- Align(s, first);
    ScanShortens(s, RESYNC_WINDOW);
    FrameAt(aligned)
  }

  lemma {:induction false} ScanShortens(s: bytes, window: nat)
    ensures Scan(s, window).Ok? ==> |Scan(s, window).value| <= |s|
    decreases window
  {
    if |s| >= 2 && window > 0 && !AtSync(s) {
      ScanShortens(s[1..], window - 1);
    }
  }

  class FrameReader {
    const r: ByteReader

    constructor (r: ByteReader)
      ensures this.r == r
    {
      this.r := r;
    }

    predicate HasMore()
      reads r
      requires r.Valid()
    {
      r.pos < |r.data|
    }

    method AlignToSync(first: bool) returns (done: Result<()>)
      requires r.Valid()
      modifies r
      ensures r.Valid()
      ensures match Align(old(r.Rest()), first)
              case Ok(rest) => done == Ok(()) && r.Rest() == rest
              case Err(code) => done == Err(code)
    {
      if SyncAhead() {
        return Ok(());
      }
      if first {
        return Err(BadMagic);
      }
      var scanned := 0;
      while r.Remaining() >= 2 && scanned < RESYNC_WINDOW
        invariant r.Valid() && 0 <= scanned <= RESYNC_WINDOW
        invariant Scan(r.Rest(), RESYNC_WINDOW - scanned) == Scan(old(r.Rest()), RESYNC_WINDOW)
        decreases RESYNC_WINDOW - scanned
      {
        if SyncAhead() {
          return Ok(());
        }
        var _ := r.Skip(1);
        scanned := scanned + 1;
      }
      if r.Remaining() < 2 {
        var _ := r.Skip(r.Remaining());
        return Ok(());
      }
      done := Err(BadMagic);
    }

    predicate SyncAhead()
      requires r.Valid()
      reads r
      ensures SyncAhead() == AtSync(r.Rest())
    {
      r.Remaining() >= 2 && r.data[r.pos] == SYNC_HIGH && r.data[r.pos + 1] == SYNC_LOW
    }

    method Next(first: bool) returns (out: Result<Frame>)
      requires r.Valid()
      modifies r
      ensures r.Valid()
      ensures match NextFrame(old(r.Rest()), first)
              case Ok((f, rest)) => out == Ok(f) && r.Rest() == rest
              case Err(code) => out == Err(code)
    {
      hide Align, FrameAt;
      var _ :- AlignToSync(first);
      out := ReadFrame();
    }

    /** The frame the cursor stands on. */
    method ReadFrame() returns (out: Result<Frame>)
      requires r.Valid()
      modifies r
      ensures r.Valid()
      ensures match FrameAt(old(r.Rest()))
              case Ok((f, rest)) => out == Ok(f) && r.Rest() == rest
              case Err(code) => out == Err(code)
    {
      hide Crc16, FromBe, CheckHeader;
      if r.Remaining() < 2 {
        return Err(ShortRead);
      }
      var h :- r.ReadBytes(HEADER_BYTES);
      var kind :- CheckFixedHeader(h);
      var crc :- ReadHeaderCrc(h);
      var payload :- r.ReadBytes(Field16(h, 17));
      out := Ok(Frame(kind, h[4], Field16(h, 5), Field32(h, 7), Field16(h, 11), Field32(h, 13), crc, payload));
    }

    static method CheckFixedHeader(h: bytes) returns (out: Result<FrameType>)
      requires |h| == HEADER_BYTES
      ensures out == CheckHeader(h)
    {
      if Field16(h, 0) != SYNC {
        return Err(BadMagic);
      }
      if h[2] != VERSION {
        return Err(BadVersion);
      }
      out := TypeOf(h[3]);
    }

    /** A mismatch is recorded on the frame; only a missing field is an error. */
    method ReadHeaderCrc(h: bytes) returns (out: Result<Option<bool>>)
      requires r.Valid() && |h| == HEADER_BYTES
      modifies r
      ensures r.Valid()
      ensures match ReadCrc(h, old(r.Rest()))
              case Ok((crc, rest)) => out == Ok(crc) && r.Rest() == rest
              case Err(code) => out == Err(code)
    {
      hide Crc16, FromBe;
      if !CrcBit(h[4]) {
        return Ok(None);
      }
      var stored :- r.ReadBe(2);
      var computed := ComputeCrc16(h);
      out := Ok(Some(computed == stored));
    }
  }
}
