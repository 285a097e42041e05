/** encoder.cpp: one frame on the wire, and a message cut into fragments. */
module FrameEncoding {
  import opened ByteWriting
  import opened Checksum
  import opened Common
  import opened Frames
  import opened Numbers
  import opened Seqs

  datatype FrameSpec = FrameSpec(kind: FrameType, flags: byte, streamId: u16, msgId: u32, seqNo: u16, fragOffset: u32,
                                 payload: bytes, withCrc: bool)

  /** The caller's flags with HAS_CRC driven by `withCrc` alone. */
  function WireFlags(spec: FrameSpec): byte {
    spec.flags / 16 * 16 + (if spec.withCrc then 8 else 0) + spec.flags % 8
  }

  lemma WireFlagBits(spec: FrameSpec)
    ensures var flags := WireFlags(spec);
            && CrcBit(flags) == spec.withCrc
            && FinBit(flags) == FinBit(spec.flags) && FragBit(flags) == FragBit(spec.flags)
            && CompressedBit(flags) == CompressedBit(spec.flags)
  {
    var high, crc, low := spec.flags / 16, spec.flags / 8 % 2, spec.flags % 8;
    assert spec.flags == 16 * high + 8 * crc + low;
    SameLowBits(spec.flags, WireFlags(spec), high, crc, if spec.withCrc then 1 else 0, low);
  }

  lemma SameLowBits(f: byte, g: byte, high: nat, b: nat, c: nat, low: nat)
    requires high < 16 && b < 2 && c < 2 && low < 8
    requires f == 16 * high + 8 * b + low && g == 16 * high + 8 * c + low
    ensures CrcBit(g) == (c == 1)
    ensures FinBit(f) == FinBit(g) && FragBit(f) == FragBit(g) && CompressedBit(f) == CompressedBit(g)
  {
    FlagBits(high, b, low);
    FlagBits(high, c, low);
  }

  /** The flag bits of a byte put together from its high half, bit 3 and the three low bits. */
  lemma FlagBits(high: nat, crc: nat, low: nat)
    requires high < 16 && crc < 2 && low < 8
    ensures var x := 16 * high + 8 * crc + low;
            && x < 256 && x % 2 == low % 2 && x / 2 % 2 == low / 2 % 2 && x / 4 % 2 == low / 4 % 2
            && x / 8 % 2 == crc
  {
    var x := 16 * high + 8 * crc + low;
    assert x / 2 == 2 * (4 * high + 2 * crc) + low / 2;
    assert x / 4 == 2 * (2 * high + crc) + low / 4;
    assert x / 8 == 2 * high + crc;
  }

  /** A payload that would not fit its length field is cut off. */
  function WirePayload(spec: FrameSpec): (p: bytes)
    ensures |p| <= MAX_FRAME_PAYLOAD
  {
    spec.payload[..Min(|spec.payload|, MAX_FRAME_PAYLOAD)]
  }

  function Header(spec: FrameSpec): (h: bytes)
    ensures |h| == HEADER_BYTES
  {
    Be(SYNC, 2) + [VERSION, TypeByte(spec.kind), WireFlags(spec)] + Be(spec.streamId, 2) + Be(spec.msgId, 4)
    + Be(spec.seqNo, 2) + Be(spec.fragOffset, 4) + Be(|WirePayload(spec)|, 2)
  }

  function CrcField(spec: FrameSpec): bytes {
    if spec.withCrc then Be(Crc16(Header(spec)), 2) else []
  }

  function FrameBytes(spec: FrameSpec): bytes {
    Header(spec) + CrcField(spec) + WirePayload(spec)
  }

  function Wire(specs: seq<FrameSpec>): bytes {
    if specs == [] then [] else FrameBytes(specs[0]) + Wire(specs[1..])
  }

  /** The frame a reader should make of it. */
  function FrameOf(spec: FrameSpec): Frame {
    Frame(spec.kind, WireFlags(spec), spec.streamId, spec.msgId, spec.seqNo, spec.fragOffset,
          if spec.withCrc then Some(true) else None, WirePayload(spec))
  }

  function FramesOf(specs: seq<FrameSpec>): (r: seq<Frame>)
    ensures |r| == |specs| && forall i | 0 <= i < |specs| :: r[i] == FrameOf(specs[i])
  {
    seq(|specs|, i requires 0 <= i < |specs| => FrameOf(specs[i]))
  }

  // ---- fragmentation

  /** What every fragment of one `encode_message` call shares. */
  datatype Plan = Plan(key: Key, payload: bytes, size: nat, compressed: bool, withCrc: bool)

  predicate Multi(p: Plan) {
    |p.payload| > p.size
  }

  function FragmentFlags(p: Plan, last: bool): byte {
    (if Multi(p) then 2 else 0) + (if last then 1 else 0) + (if p.compressed then 4 else 0)
  }

  function Fragment(p: Plan, offset: nat, seqNo: u16): FrameSpec
    requires offset <= |p.payload|
  {
    var chunk := Min(p.size, |p.payload| - offset);
    FrameSpec(Data, FragmentFlags(p, |p.payload| - offset <= p.size), p.key.streamId, p.key.msgId, seqNo,
              offset % TWO32, p.payload[offset..offset + chunk], p.withCrc)
  }

  /** The fragments from `offset` on; sequence numbers wrap at sixteen bits. */
  function FragmentsFrom(p: Plan, offset: nat, seqNo: u16): (r: seq<FrameSpec>)
    requires offset <= |p.payload| && p.size > 0
    ensures r != [] && r[0] == Fragment(p, offset, seqNo)
    decreases |p.payload| - offset
  {
    if |p.payload| - offset <= p.size then [Fragment(p, offset, seqNo)]
    else [Fragment(p, offset, seqNo)] + FragmentsFrom(p, offset + p.size, (seqNo + 1) % TWO16)
  }

  function ClampSize(maxFragment: nat): (size: nat)
    ensures 1 <= size <= MAX_FRAME_PAYLOAD
  {
    Min(Max(maxFragment, 1), MAX_FRAME_PAYLOAD)
  }

  function Fragments(key: Key, payload: bytes, maxFragment: nat, firstSeq: u16, compressed: bool, withCrc: bool)
    : seq<FrameSpec>
  {
    FragmentsFrom(Plan(key, payload, ClampSize(maxFragment), compressed, withCrc), 0, firstSeq)
  }

  method EncodeFrame(w: ByteWriter, spec: FrameSpec)
    modifies w
    ensures w.buffer == old(w.buffer) + FrameBytes(spec)
  {
    hide Be, Crc16;
    var header := WriteHeader(spec);
    ghost var start := w.buffer;
    w.PutBytes(header);
    if spec.withCrc {
      var crc := ComputeCrc16(header);
      w.PutBe(crc, 2);
    }
    assert w.buffer == start + header + CrcField(spec);
    var n := Min(|spec.payload|, MAX_FRAME_PAYLOAD);
    if n != 0 {
      w.PutBytes(spec.payload[..n]);
    }
    assert w.buffer == start + header + CrcField(spec) + WirePayload(spec);
    Regroup4(start, header, CrcField(spec), WirePayload(spec));
    Regroup3(header, CrcField(spec), WirePayload(spec));
  }

  /** The nineteen fixed bytes, built apart so that the CRC covers exactly them. */
  method WriteHeader(spec: FrameSpec) returns (header: bytes)
    ensures header == Header(spec)
  {
    hide Be;
    var hdr := new ByteWriter();
    hdr.PutBe(SYNC, 2);
    hdr.PutU8(VERSION);
    hdr.PutU8(TypeByte(spec.kind));
    hdr.PutU8(WireFlags(spec));
    assert hdr.buffer == Be(SYNC, 2) + [VERSION, TypeByte(spec.kind), WireFlags(spec)];
    hdr.PutBe(spec.streamId, 2);
    hdr.PutBe(spec.msgId, 4);
    hdr.PutBe(spec.seqNo, 2);
    hdr.PutBe(spec.fragOffset, 4);
    hdr.PutBe(|WirePayload(spec)|, 2);
    header := hdr.buffer;
  }

  /** `encode_message`: at least one frame, and as many as the payload needs. */
  method EncodeMessage(w: ByteWriter, key: Key, payload: bytes, maxFragment: nat, firstSeq: u16,
                       compressed: bool, withCrc: bool) returns (emitted: nat)
    modifies w
    ensures w.buffer == old(w.buffer) + Wire(Fragments(key, payload, maxFragment, firstSeq, compressed, withCrc))
    ensures emitted == |Fragments(key, payload, maxFragment, firstSeq, compressed, withCrc)|
  {
    hide FrameBytes, Spans, ClampSize;
    var size := ClampSize(maxFragment);
    var total := |payload|;
    var fragCount := if total == 0 then 1 else (total + size - 1) / size;
    CeilingBounds(total, size);
    ghost var p := Plan(key, payload, size, compressed, withCrc);
    ghost var start, all := w.buffer, FragmentsFrom(p, 0, firstSeq);
    emitted := 0;
    var offset := 0;
    var seqNo: u16 := firstSeq;
    ghost var rest := all;
    while emitted < fragCount
      invariant 0 <= offset <= total && 0 <= emitted <= fragCount && emitted + |rest| == |all|
      invariant emitted < fragCount ==> rest == FragmentsFrom(p, offset, seqNo)
      invariant emitted == fragCount ==> rest == []
      invariant emitted < fragCount ==> Spans(total - offset, fragCount - emitted, size)
      invariant w.buffer + Wire(rest) == start + Wire(all)
      decreases fragCount - emitted
    {
      var chunk := Min(size, total - offset);
      var last := emitted + 1 == fragCount;
      SpanStep(total - offset, fragCount - emitted, size);
      var flags: byte := (if fragCount > 1 then 2 else 0) + (if last then 1 else 0) + (if compressed then 4 else 0);
      var spec := FrameSpec(Data, flags, key.streamId, key.msgId, seqNo, offset % TWO32,
                            payload[offset..offset + chunk], withCrc);
      assert spec == Fragment(p, offset, seqNo);
      ghost var tail := rest[1..];
      Regroup3(w.buffer, FrameBytes(spec), Wire(tail));
      EncodeFrame(w, spec);
      rest := tail;
      emitted := emitted + 1;
      offset := offset + chunk;
      seqNo := (seqNo + 1) % TWO16;
    }
    assert w.buffer + [] == w.buffer;
  }

  /** `n` bytes take exactly `count` chunks of `size`, an empty message one. */
  ghost predicate Spans(n: nat, count: nat, size: nat) {
    count > 0 && n <= count * size && (n == 0 || (count - 1) * size < n) && (n == 0 ==> count == 1)
  }

  lemma CeilingBounds(total: nat, size: nat)
    requires size > 0
    ensures var count := if total == 0 then 1 else (total + size - 1) / size;
            Spans(total, count, size) && (count > 1 <==> total > size)
  {
    if total > 0 {
      var q, r := (total + size - 1) / size, (total + size - 1) % size;
      assert total + size - 1 == size * q + r;
      assert (q - 1) * size == size * q - size;
      assert size * q > 0;
      assert q > 1 ==> size * q >= size * 2;
      assert q <= 1 ==> size * q <= size;
    }
  }

  lemma SpanStep(n: nat, count: nat, size: nat)
    requires size > 0 && Spans(n, count, size)
    ensures count == 1 <==> n <= size
    ensures count > 1 ==> Spans(n - size, count - 1, size)
  {
    assert (count - 1) * size == count * size - size;
    if count > 1 {
      assert (count - 1) * size >= size;
      assert (count - 2) * size == (count - 1) * size - size;
    }
  }
}
