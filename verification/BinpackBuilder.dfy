/**
  * builder.cpp: records and containers written through a growing buffer. The offsets in the
  * section table are reserved first and patched once the bodies are placed; the result is the
  * layout the format asks for.
  */
module BinpackBuilding {
  import opened BinpackContainer
  import opened BinpackRecords
  import opened ByteWriting
  import opened Checksum
  import opened Common
  import opened Numbers
  import opened Seqs

  method EncodePayloadInto(w: ByteWriter, b: Body)
    requires SizedBody(b)
    modifies w
    ensures w.buffer == old(w.buffer) + Payload(b)
    decreases b, 0
  {
    hide ZigZag, Varint, Le;
    match b {
      case IntBody(i) => w.PutSvarint(i);
      case UintBody(u) => w.PutVarint(u);
      case FloatBody(bits) => w.PutLe(bits, 8);
      case StringBody(text) => w.PutBytes(text);
      case BlobBody(blob) => w.PutBytes(blob);
      case ArrayBody(children) =>
        ghost var start := w.buffer;
        w.PutVarint(|children|);
        EncodeForestInto(w, children);
        Regroup3(start, Varint(|children|), ForestBytes(children));
      case GroupBody(children) => EncodeForestInto(w, children);
      case KeyvalBody(key, children) =>
        ghost var start := w.buffer;
        w.PutVarint(|key|);
        w.PutBytes(key);
        if children != [] {
          EncodeRecordInto(w, children[0]);
          Regroup4(start, Varint(|key|), key, RecordBytes(children[0]));
          Regroup3(Varint(|key|), key, RecordBytes(children[0]));
        }
    }
  }

  /** Tag, flags and the length of a payload built apart, then the payload. */
  method EncodeRecordInto(w: ByteWriter, r: Record)
    requires Sized(r)
    modifies w
    ensures w.buffer == old(w.buffer) + RecordBytes(r)
    decreases r, 1
  {
    hide Varint, Payload;
    ghost var start := w.buffer;
    w.PutU8(TagByte(r.body));
    w.PutU8(if r.group then 1 else 0);
    ghost var head := [TagByte(r.body), if r.group then 1 else 0];
    assert w.buffer == start + head;
    var inner := new ByteWriter();
    EncodePayloadInto(inner, r.body);
    assert inner.buffer == Payload(r.body);
    w.PutVarint(|inner.buffer|);
    w.PutBytes(inner.buffer);
    Regroup4(start, head, Varint(|Payload(r.body)|), Payload(r.body));
    Regroup3(head, Varint(|Payload(r.body)|), Payload(r.body));
  }

  /** Records back to back. */
  method EncodeForestInto(w: ByteWriter, rs: seq<Record>)
    requires AllSized(rs)
    modifies w
    ensures w.buffer == old(w.buffer) + ForestBytes(rs)
    decreases rs, 0
  {
    hide RecordBytes;
    ghost var start := w.buffer;
    assert rs[0..] == rs;
    for i := 0 to |rs|
      invariant AllSized(rs[i..])
      invariant w.buffer + ForestBytes(rs[i..]) == start + ForestBytes(rs)
    {
      assert rs[i..][0] == rs[i] && rs[i..][1..] == rs[i + 1..];
      Regroup3(w.buffer, RecordBytes(rs[i]), ForestBytes(rs[i + 1..]));
      EncodeRecordInto(w, rs[i]);
    }
    assert w.buffer + [] == w.buffer;
  }

  // ---- the section table with its offset slots

  /** The table with a given offset in each entry; an open slot holds zero. */
  function Rows(sections: seq<SectionSpec>, offsets: seq<nat>): (t: bytes)
    requires |offsets| == |sections|
    ensures |t| == ENTRY_BYTES * |sections|
  {
    if sections == [] then []
    else
      var n := |sections| - 1;
      Rows(sections[..n], offsets[..n]) + EntryBytes(sections[n], offsets[n])
  }

  /** What surrounds the offset in an entry. */
  function EntryFront(s: SectionSpec): (e: bytes)
    ensures |e| == 8
  {
    Le(TypeCode(s.kind), 2) + Le(s.id, 2) + Le(s.flags, 2) + Le(0, 2)
  }

  function EntryBack(s: SectionSpec): (e: bytes)
    ensures |e| == 12
  {
    Le(|SectionBody(s)| % TWO32, 4) + Le(ItemCount(s), 4) + Le(Crc32(SectionBody(s)), 4)
  }

  lemma EntryParts(s: SectionSpec, offset: nat)
    ensures EntryBytes(s, offset) == EntryFront(s) + Le(offset % TWO32, 4) + EntryBack(s)
  {
    hide Le, Crc32, SectionBody;
  }

  /** Overwriting the slot of entry `i` changes its offset and nothing else. */
  lemma {:induction false} PatchRow(sections: seq<SectionSpec>, offsets: seq<nat>, i: nat, offset: nat)
    requires |offsets| == |sections| && i < |sections|
    ensures var t, slot := Rows(sections, offsets), ENTRY_BYTES * i + 8;
            Rows(sections, offsets[i := offset]) == t[..slot] + Le(offset % TWO32, 4) + t[slot + 4..]
    decreases |sections|
  {
    hide EntryBytes, EntryFront, EntryBack, Le;
    var n, slot := |sections| - 1, ENTRY_BYTES * i + 8;
    var t := Rows(sections, offsets);
    var front, last := Rows(sections[..n], offsets[..n]), EntryBytes(sections[n], offsets[n]);
    if i == n {
      assert offsets[i := offset][..n] == offsets[..n];
      EntryParts(sections[n], offsets[n]);
      EntryParts(sections[n], offset);
      assert t[..slot] == front + EntryFront(sections[n]);
      assert t[slot + 4..] == EntryBack(sections[n]);
    } else {
      assert offsets[i := offset][..n] == offsets[..n][i := offset];
      PatchRow(sections[..n], offsets[..n], i, offset);
      assert t[..slot] == front[..slot];
      assert t[slot + 4..] == front[slot + 4..] + last;
    }
  }

  /** Where the body of section `i` starts. */
  function OffsetOf(sections: seq<SectionSpec>, start: nat, i: nat): nat
    requires i <= |sections|
  {
    start + |BodiesBytes(sections[..i])|
  }

  lemma {:induction false} BodiesSnoc(sections: seq<SectionSpec>, i: nat)
    requires i < |sections|
    ensures BodiesBytes(sections[..i + 1]) == BodiesBytes(sections[..i]) + SectionBody(sections[i])
    decreases i
  {
    hide SectionBody;
    if i == 0 {
      assert sections[..1] == [sections[0]] && sections[..0] == [];
      assert [sections[0]][1..] == [];
    } else {
      var tail := sections[1..];
      BodiesSnoc(tail, i - 1);
      assert sections[..i + 1][1..] == tail[..i] && sections[..i][1..] == tail[..i - 1];
      Regroup3(SectionBody(sections[0]), BodiesBytes(tail[..i - 1]), SectionBody(sections[i]));
    }
  }

  lemma {:induction false} TableSnoc(sections: seq<SectionSpec>, start: nat, i: nat)
    requires i < |sections|
    ensures TableBytes(sections[..i + 1], start)
         == TableBytes(sections[..i], start) + EntryBytes(sections[i], OffsetOf(sections, start, i))
    decreases i
  {
    hide SectionBody, EntryBytes;
    if i == 0 {
      assert sections[..1] == [sections[0]] && sections[..0] == [];
      assert [sections[0]][1..] == [];
    } else {
      var tail, next := sections[1..], start + |SectionBody(sections[0])|;
      TableSnoc(tail, next, i - 1);
      assert sections[..i + 1][1..] == tail[..i] && sections[..i][1..] == tail[..i - 1];
      assert OffsetOf(tail, next, i - 1) == OffsetOf(sections, start, i);
      Regroup3(EntryBytes(sections[0], start), TableBytes(tail[..i - 1], next),
               EntryBytes(sections[i], OffsetOf(sections, start, i)));
    }
  }

  /** With every slot patched the table is the one the format asks for. */
  lemma {:induction false} PatchedTable(sections: seq<SectionSpec>, offsets: seq<nat>, start: nat, n: nat)
    requires |offsets| == |sections| && n <= |sections|
    requires forall i | 0 <= i < n :: offsets[i] == OffsetOf(sections, start, i)
    ensures Rows(sections[..n], offsets[..n]) == TableBytes(sections[..n], start)
    decreases n
  {
    hide EntryBytes, OffsetOf;
    if n > 0 {
      PatchedTable(sections, offsets, start, n - 1);
      TableSnoc(sections, start, n - 1);
      assert sections[..n][..n - 1] == sections[..n - 1] && offsets[..n][..n - 1] == offsets[..n - 1];
    }
  }

  class Builder {
    var version: u16
    var hasMetadata: bool
    var hasTrailer: bool
    var sections: seq<SectionSpec>

    function Contents(): Spec
      reads this
    {
      Spec(version, hasMetadata, hasTrailer, sections)
    }

    constructor ()
      ensures Contents() == Spec(1, false, false, [])
    {
      version, hasMetadata, hasTrailer, sections := 1, false, false, [];
    }

    method AddSection(kind: SectionType, id: u16, flags: u16)
      modifies this
      ensures Contents() == old(Contents()).(sections := old(sections) + [SectionSpec(kind, id, flags, None, [])])
    {
      sections := sections + [SectionSpec(kind, id, flags, None, [])];
    }

    /** A record goes to the last section; without one it is dropped. */
    method AddRecord(r: Record)
      modifies this
      ensures Contents() == old(Contents()).(sections := sections)
      ensures |sections| == |old(sections)|
      ensures forall i | 0 <= i < |sections| ::
                sections[i] == if i < |sections| - 1 then old(sections)[i]
                               else old(sections)[i].(records := old(sections)[i].records + [r])
    {
      if sections != [] {
        var last := |sections| - 1;
        sections := sections[last := sections[last].(records := sections[last].records + [r])];
      }
    }

    method Build() returns (out: bytes)
      requires forall s | s in sections && s.kind != Free :: AllSized(s.records)
      ensures out == ContainerBytes(Contents())
    {
      hide Le, Crc32, HeaderBlock, TableBytes, Rows, SectionBody;
      var w := new ByteWriter();
      WriteHeader(w);
      assert w.buffer == HeaderBlock(Contents());
      ghost var header := w.buffer;
      var bodies := EncodeBodies();
      var slots := WriteTable(w, bodies);
      WriteBodies(w, bodies, slots, header);
      assert sections[..|sections|] == sections;
      assert w.buffer == MainBytes(Contents());
      if hasTrailer {
        var crc := ComputeCrc32(w.buffer);
        w.PutLe(crc, 4);
      } else {
        assert MainBytes(Contents()) + [] == MainBytes(Contents());
      }
      out := w.buffer;
    }

    method WriteHeader(w: ByteWriter)
      requires w.buffer == []
      modifies w
      ensures w.buffer == HeaderBlock(Contents())
    {
      hide Le, Crc32;
      var flags := (if hasMetadata then 1 else 0) + (if hasTrailer then 2 else 0);
      w.PutU8(66);
      w.PutU8(80);
      w.PutU8(75);
      w.PutU8(49);
      w.PutLe(version, 2);
      w.PutLe(flags, 2);
      w.PutLe(|sections|, 2);
      w.PutLe(0, 2);
      assert w.buffer == HeaderFields(Contents());
      var crc := ComputeCrc32(w.buffer);
      w.PutLe(crc, 4);
    }

    /** Every body up front, so that its length and CRC are known when the table is written. */
    method EncodeBodies() returns (bodies: seq<bytes>)
      requires forall s | s in sections && s.kind != Free :: AllSized(s.records)
      ensures |bodies| == |sections| && forall i | 0 <= i < |sections| :: bodies[i] == SectionBody(sections[i])
    {
      hide ForestBytes, AllSized;
      bodies := [];
      for i := 0 to |sections|
        invariant |bodies| == i && forall j | 0 <= j < i :: bodies[j] == SectionBody(sections[j])
      {
        var s := sections[i];
        var body := new ByteWriter();
        if s.kind != Free {
          EncodeForestInto(body, s.records);
          assert body.buffer == ForestBytes(s.records);
        }
        bodies := bodies + [body.buffer];
      }
    }

    method WriteTable(w: ByteWriter, bodies: seq<bytes>) returns (slots: seq<nat>)
      requires |bodies| == |sections| && forall i | 0 <= i < |sections| :: bodies[i] == SectionBody(sections[i])
      modifies w
      ensures w.buffer == old(w.buffer) + Rows(sections, Zeros(|sections|))
      ensures |slots| == |sections|
      ensures forall i | 0 <= i < |slots| :: slots[i] == |old(w.buffer)| + ENTRY_BYTES * i + 8
    {
      hide EntryBytes, SectionBody;
      ghost var start := w.buffer;
      slots := [];
      for i := 0 to |sections|
        invariant |slots| == i && forall j | 0 <= j < i :: slots[j] == |start| + ENTRY_BYTES * j + 8
        invariant w.buffer == start + Rows(sections[..i], Zeros(i))
      {
        ghost var before := w.buffer;
        var slot := WriteEntry(w, sections[i], bodies[i]);
        slots := slots + [slot];
        assert sections[..i + 1][..i] == sections[..i] && Zeros(i + 1)[..i] == Zeros(i);
        Regroup3(start, Rows(sections[..i], Zeros(i)), EntryBytes(sections[i], 0));
      }
      assert sections[..|sections|] == sections;
    }

    /** One entry, its offset left open. */
    static method WriteEntry(w: ByteWriter, s: SectionSpec, body: bytes) returns (slot: nat)
      requires body == SectionBody(s)
      modifies w
      ensures w.buffer == old(w.buffer) + EntryBytes(s, 0) && slot == |old(w.buffer)| + 8
    {
      hide Le, Crc32, EntryBytes, SectionBody;
      OpenSlot();
      EntryParts(s, 0);
      ghost var start := w.buffer;
      WriteFront(w, s);
      slot := w.ReserveU32le();
      WriteBack(w, s, body);
      Regroup4(start, EntryFront(s), Le(0, 4), EntryBack(s));
      Regroup3(EntryFront(s), Le(0, 4), EntryBack(s));
    }

    static method WriteFront(w: ByteWriter, s: SectionSpec)
      modifies w
      ensures w.buffer == old(w.buffer) + EntryFront(s)
    {
      hide Le;
      ghost var start := w.buffer;
      w.PutLe(TypeCode(s.kind), 2);
      w.PutLe(s.id, 2);
      w.PutLe(s.flags, 2);
      w.PutLe(0, 2);
      Regroup5(start, Le(TypeCode(s.kind), 2), Le(s.id, 2), Le(s.flags, 2), Le(0, 2));
      Regroup4(Le(TypeCode(s.kind), 2), Le(s.id, 2), Le(s.flags, 2), Le(0, 2));
    }

    static method WriteBack(w: ByteWriter, s: SectionSpec, body: bytes)
      requires body == SectionBody(s)
      modifies w
      ensures w.buffer == old(w.buffer) + EntryBack(s)
    {
      hide Le, Crc32, SectionBody;
      ghost var start := w.buffer;
      w.PutLe(|body| % TWO32, 4);
      var count: u32 := if s.itemCount.Some? then s.itemCount.value else |s.records| % TWO32;
      w.PutLe(count, 4);
      var crc := ComputeCrc32(body);
      w.PutLe(crc, 4);
      Regroup4(start, Le(|body| % TWO32, 4), Le(count, 4), Le(crc, 4));
      Regroup3(Le(|body| % TWO32, 4), Le(count, 4), Le(crc, 4));
    }

    /** Each body goes to the end, and its entry's slot is patched with where that was. */
    method WriteBodies(w: ByteWriter, bodies: seq<bytes>, slots: seq<nat>, ghost header: bytes)
      requires |bodies| == |sections| && forall i | 0 <= i < |sections| :: bodies[i] == SectionBody(sections[i])
      requires |header| == HEADER_TOTAL && w.buffer == header + Rows(sections, Zeros(|sections|))
      requires |slots| == |sections|
      requires forall i | 0 <= i < |slots| :: slots[i] == |header| + ENTRY_BYTES * i + 8
      modifies w
      ensures var start := HEADER_TOTAL + ENTRY_BYTES * |sections|;
              w.buffer == header + TableBytes(sections, start) + BodiesBytes(sections)
    {
      hide SectionBody, EntryBytes, Le, Rows, TableBytes, BodiesBytes;
      ghost var start := HEADER_TOTAL + ENTRY_BYTES * |sections|;
      ghost var offsets: seq<nat> := Zeros(|sections|);
      NoBodies(sections);
      for i := 0 to |sections|
        invariant |offsets| == |sections|
        invariant forall j | 0 <= j < i :: offsets[j] == OffsetOf(sections, start, j)
        invariant w.buffer == header + Rows(sections, offsets) + BodiesBytes(sections[..i])
      {
        var bodyOffset := |w.buffer|;
        ghost var table, written := Rows(sections, offsets), BodiesBytes(sections[..i]);
        PatchRow(sections, offsets, i, bodyOffset);
        PatchInside(header, table, written, ENTRY_BYTES * i + 8, Le(bodyOffset % TWO32, 4));
        w.PatchU32le(slots[i], bodyOffset % TWO32);
        offsets := offsets[i := bodyOffset];
        assert w.buffer == header + Rows(sections, offsets) + written;
        BodiesSnoc(sections, i);
        Regroup3(header + Rows(sections, offsets), written, bodies[i]);
        w.PutBytes(bodies[i]);
      }
      PatchedTable(sections, offsets, start, |sections|);
      assert sections[..|sections|] == sections && offsets[..|sections|] == offsets;
    }
  }

  function Zeros(n: nat): (z: seq<nat>)
    ensures |z| == n && forall i | 0 <= i < n :: z[i] == 0
  {
    seq(n, _ => 0)
  }

  lemma OpenSlot()
    ensures Le(0, 4) == [0, 0, 0, 0]
  {
    assert Le(0, 2) == [0, 0];
    assert Le(0, 3) == [0] + Le(0, 2);
  }

  lemma NoBodies(sections: seq<SectionSpec>)
    ensures BodiesBytes(sections[..0]) == []
  {
  }

  /** A patch inside the middle part of a buffer. */
  lemma PatchInside(a: bytes, t: bytes, b: bytes, slot: nat, v: bytes)
    requires |v| == 4 && slot + 4 <= |t|
    ensures var s := a + t + b;
            s[..|a| + slot] + v + s[|a| + slot + 4..] == a + (t[..slot] + v + t[slot + 4..]) + b
  {
  }
}
