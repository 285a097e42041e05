/**
  * record_parser.cpp and parser.cpp over byte cursors: header, section table, bodies and
  * trailer, each method proved to answer what its specification says and to leave the cursor
  * where that stops.
  */
module BinpackParsing {
  import opened BinpackContainer
  import opened BinpackRecords
  import opened ByteReading
  import opened Checksum
  import opened Common
  import opened Numbers
  import opened Seqs

  /** The record decoder with its nesting budget. */
  class RecordParser {
    const maxDepth: nat

    constructor (maxDepth: nat)
      ensures this.maxDepth == maxDepth
    {
      this.maxDepth := maxDepth;
    }

    /** Records back to back until the reader is empty. */
    method ReadStream(r: ByteReader, depth: nat) returns (out: Result<seq<Record>>)
      requires r.Valid()
      modifies r
      ensures out == ParseStream(old(r.Rest()), depth, maxDepth)
      decreases |r.Rest()|, 2
    {
      hide ParseRecord;
      var records: seq<Record> := [];
      ghost var whole := ParseStream(r.Rest(), depth, maxDepth);
      NothingRead(whole);
      while r.Remaining() > 0
        invariant r.Valid() && |r.Rest()| <= |old(r.Rest())|
        invariant whole == After(records, ParseStream(r.Rest(), depth, maxDepth))
        decreases |r.Rest()|
      {
        StreamStep(records, r.Rest(), depth, maxDepth);
        var record :- ReadRecord(r, depth);
        records := records + [record];
      }
      assert records + [] == records;
      out := Ok(records);
    }

    method ReadRecord(r: ByteReader, depth: nat) returns (out: Result<Record>)
      requires r.Valid()
      modifies r
      ensures r.Valid()
      ensures match ParseRecord(old(r.Rest()), depth, maxDepth)
              case Ok((record, rest)) => out == Ok(record) && r.Rest() == rest
              case Err(code) => out == Err(code)
      decreases |r.Rest()|, 1
    {
      hide ParseBody, Numbers.ReadVarint;
      if depth > maxDepth {
        return Err(DepthExceeded);
      }
      ghost var s := r.Rest();
      var tag :- r.ReadU8();
      var flags :- r.ReadU8();
      assert r.Rest() == s[2..];
      if !(1 <= tag <= 8) {
        return Err(BadType);
      }
      var length :- r.ReadVarint();
      ReadVarintShortens(s[2..]);
      var payload :- r.ReadBytes(length);
      var body :- ReadBody(tag, payload, depth);
      out := Ok(Record(flags % 2 == 1, body));
    }

    /** A payload is decoded through a reader bounded to exactly its bytes. */
    method ReadBody(tag: byte, payload: bytes, depth: nat) returns (out: Result<Body>)
      requires 1 <= tag <= 8
      ensures out == ParseBody(tag, payload, depth, maxDepth)
      decreases |payload|, 4
    {
      hide Numbers.ReadVarint, UnZigZag, ParseKeyval, ParseStream, ParseCount;
      var body := new ByteReader(payload);
      match tag {
        case 1 =>
          var i :- body.ReadSvarint();
          out := Ok(IntBody(i));
        case 2 =>
          var u :- body.ReadVarint();
          out := Ok(UintBody(u));
        case 3 =>
          var field :- body.ReadBytes(8);
          out := Ok(FloatBody(Word(field)));
        case 4 =>
          out := Ok(StringBody(payload));
        case 5 =>
          out := Ok(BlobBody(payload));
        case 6 =>
          out := ReadArray(body, depth);
        case 7 =>
          var children :- ReadStream(body, depth + 1);
          out := Ok(GroupBody(children));
        case _ =>
          out := ReadKeyval(body, depth);
      }
    }

    /** A count and that many records. */
    method ReadArray(body: ByteReader, depth: nat) returns (out: Result<Body>)
      requires body.Valid()
      modifies body
      ensures out == ParseBody(6, old(body.Rest()), depth, maxDepth)
      decreases |body.Rest()|, 3
    {
      hide Numbers.ReadVarint, ParseRecord;
      ghost var s := body.Rest();
      var count :- body.ReadVarint();
      ReadVarintShortens(s);
      ghost var s1 := body.Rest();
      var children: seq<Record> := [];
      ghost var whole := ParseCount(s1, count, depth + 1, maxDepth);
      NoneRead(whole);
      for i := 0 to count
        invariant body.Valid() && |body.Rest()| <= |s1|
        invariant whole == AfterCount(children, ParseCount(body.Rest(), count - i, depth + 1, maxDepth))
      {
        CountStep(children, body.Rest(), count - i, depth + 1, maxDepth);
        var child :- ReadRecord(body, depth + 1);
        children := children + [child];
      }
      assert children + [] == children;
      out := Ok(ArrayBody(children));
    }

    /** A key and exactly one value. */
    method ReadKeyval(body: ByteReader, depth: nat) returns (out: Result<Body>)
      requires body.Valid()
      modifies body
      ensures out == ParseKeyval(old(body.Rest()), depth, maxDepth)
      decreases |body.Rest()|, 3
    {
      hide Numbers.ReadVarint, ParseRecord;
      ReadVarintShortens(body.Rest());
      var keyLen :- body.ReadVarint();
      var key :- body.ReadBytes(keyLen);
      var value :- ReadRecord(body, depth + 1);
      if body.Remaining() > 0 {
        return Err(BadLength);
      }
      out := Ok(KeyvalBody(key, [value]));
    }
  }

  // ---- loops over records

  ghost function After(done: seq<Record>, rest: Result<seq<Record>>): Result<seq<Record>> {
    var more :- rest;
    Ok(done + more)
  }

  lemma NothingRead(rest: Result<seq<Record>>)
    ensures After([], rest) == rest
  {
    assert rest.Ok? ==> [] + rest.value == rest.value;
  }

  lemma StreamStep(done: seq<Record>, s: bytes, depth: nat, max: nat)
    requires s != []
    ensures var first := ParseRecord(s, depth, max);
            After(done, ParseStream(s, depth, max))
            == if first.Err? then Err(first.code)
               else After(done + [first.value.0], ParseStream(first.value.1, depth, max))
  {
    hide ParseRecord;
    var first := ParseRecord(s, depth, max);
    if first.Ok? {
      var tail := ParseStream(first.value.1, depth, max);
      assert tail.Ok? ==> done + ([first.value.0] + tail.value) == (done + [first.value.0]) + tail.value;
    }
  }

  ghost function AfterCount(done: seq<Record>, rest: Result<(seq<Record>, bytes)>): Result<(seq<Record>, bytes)> {
    var (more, end) :- rest;
    Ok((done + more, end))
  }

  lemma NoneRead(rest: Result<(seq<Record>, bytes)>)
    ensures AfterCount([], rest) == rest
  {
    assert rest.Ok? ==> [] + rest.value.0 == rest.value.0;
  }

  lemma CountStep(done: seq<Record>, s: bytes, count: nat, depth: nat, max: nat)
    requires count > 0
    ensures var first := ParseRecord(s, depth, max);
            AfterCount(done, ParseCount(s, count, depth, max))
            == if first.Err? then Err(first.code)
               else AfterCount(done + [first.value.0], ParseCount(first.value.1, count - 1, depth, max))
  {
    hide ParseRecord;
    var first := ParseRecord(s, depth, max);
    if first.Ok? {
      var tail := ParseCount(first.value.1, count - 1, depth, max);
      assert tail.Ok? ==> done + ([first.value.0] + tail.value.0) == (done + [first.value.0]) + tail.value.0;
    }
  }

  // ---- the container

  method VerifyCrc(computed: u32, stored: u32, strict: bool) returns (ok: Result<bool>)
    ensures ok == Verify(computed, stored, strict)
    ensures ok.Ok? <==> computed == stored || !strict
    ensures ok.Ok? ==> ok.value == (computed == stored)
    ensures ok.Err? ==> ok.code == BadChecksum
  {
    if computed == stored {
      return Ok(true);
    }
    if strict {
      return Err(BadChecksum);
    }
    ok := Ok(false);
  }

  /** A field of `n` bytes at `at`, where the cursor stands. */
  method ReadField(r: ByteReader, ghost s: bytes, ghost at: nat, n: nat) returns (out: Result<nat>)
    requires r.Valid() && at <= |s| && r.Rest() == s[at..]
    modifies r
    ensures r.Valid()
    ensures if at + n > |s| then out == Err(ShortRead)
            else out == Ok(FromLe(s[at..at + n])) && r.Rest() == s[at + n..]
  {
    hide FromLe;
    if at + n <= |s| {
      SuffixSlice(s, at, 0, n);
      SuffixSlice(s, at, n, |s| - at);
    }
    out := r.ReadLe(n);
  }

  /** The fixed header, field by field. */
  method ReadHeader(r: ByteReader, strict: bool) returns (out: Result<Header>)
    requires r.Valid() && r.Rest() == r.data
    modifies r
    ensures r.Valid() && out == ParseHeader(r.data, strict)
    ensures out.Ok? ==> |r.data| >= HEADER_TOTAL && r.Rest() == r.data[HEADER_TOTAL..]
  {
    hide FromLe, Crc32;
    ghost var s := r.data;
    var magic :- r.ReadBytes(4);
    assert magic == s[0..4];
    if magic != MAGIC {
      return Err(BadMagic);
    }
    var version :- ReadField(r, s, 4, 2);
    assert version == Le16(s, 4);
    if version != 1 {
      return Err(BadVersion);
    }
    var flags, count, stored :- ReadHeaderTail(r);
    var computed := ComputeCrc32(r.data[..HEADER_BYTES]);
    var ok :- VerifyCrc(computed, stored, strict);
    out := Ok(Header(version, flags, count, ok));
  }

  /** Flags, section count and the stored CRC; the reserved field is skipped over. */
  method ReadHeaderTail(r: ByteReader) returns (out: Result<u16>, count: u16, stored: u32)
    requires r.Valid() && |r.data| >= 6 && r.Rest() == r.data[6..]
    modifies r
    ensures r.Valid()
    ensures if |r.data| < HEADER_TOTAL then out == Err(ShortRead)
            else
              && out == Ok(Le16(r.data, 6)) && count == Le16(r.data, 8) && stored == Le32(r.data, 12)
              && r.Rest() == r.data[HEADER_TOTAL..]
  {
    hide FromLe;
    ghost var s := r.data;
    count, stored := 0, 0;
    var f := ReadField(r, s, 6, 2);
    if f.Err? {
      return Err(f.code), 0, 0;
    }
    var c := ReadField(r, s, 8, 2);
    if c.Err? {
      return Err(c.code), 0, 0;
    }
    var z := ReadField(r, s, 10, 2);
    if z.Err? {
      return Err(z.code), 0, 0;
    }
    var k := ReadField(r, s, 12, 4);
    if k.Err? {
      return Err(k.code), 0, 0;
    }
    assert f.value == Le16(s, 6) && c.value == Le16(s, 8) && k.value == Le32(s, 12);
    return Ok(f.value), c.value, k.value;
  }

  /** The section table, known to fit. */
  method ReadTable(r: ByteReader, count: nat) returns (out: Result<seq<Entry>>)
    requires r.Valid() && |r.Rest()| >= ENTRY_BYTES * count
    modifies r
    ensures r.Valid() && out == ParseTable(old(r.Rest()), count)
  {
    hide ParseEntry;
    var entries: seq<Entry> := [];
    ghost var whole := ParseTable(r.Rest(), count);
    assert whole.Ok? ==> [] + whole.value == whole.value;
    for i := 0 to count
      invariant r.Valid() && |r.Rest()| >= ENTRY_BYTES * (count - i)
      invariant whole == AfterEntries(entries, ParseTable(r.Rest(), count - i))
    {
      TableStep(entries, r.Rest(), count - i);
      var e :- ReadEntry(r);
      entries := entries + [e];
    }
    assert entries + [] == entries;
    out := Ok(entries);
  }

  ghost function AfterEntries(done: seq<Entry>, rest: Result<seq<Entry>>): Result<seq<Entry>> {
    var more :- rest;
    Ok(done + more)
  }

  lemma TableStep(done: seq<Entry>, t: bytes, count: nat)
    requires count > 0 && |t| >= ENTRY_BYTES * count
    ensures var first := ParseEntry(t[..ENTRY_BYTES]);
            AfterEntries(done, ParseTable(t, count))
            == if first.Err? then Err(first.code)
               else AfterEntries(done + [first.value], ParseTable(t[ENTRY_BYTES..], count - 1))
  {
    hide ParseEntry;
    var first := ParseEntry(t[..ENTRY_BYTES]);
    if first.Ok? {
      var tail := ParseTable(t[ENTRY_BYTES..], count - 1);
      assert tail.Ok? ==> done + ([first.value] + tail.value) == (done + [first.value]) + tail.value;
    }
  }

  /** One entry; an unknown section type is an error. */
  method ReadEntry(r: ByteReader) returns (out: Result<Entry>)
    requires r.Valid() && |r.Rest()| >= ENTRY_BYTES
    modifies r
    ensures r.Valid() && out == ParseEntry(old(r.Rest())[..ENTRY_BYTES])
    ensures out.Ok? ==> r.Rest() == old(r.Rest())[ENTRY_BYTES..]
  {
    hide FromLe;
    ghost var s := r.Rest();
    ghost var e := s[..ENTRY_BYTES];
    var code := ReadField(r, s, 0, 2);
    assert s[0..2] == e[0..2];
    var kind :- TypeOfCode(code.value);
    var id := ReadField(r, s, 2, 2);
    assert s[2..4] == e[2..4];
    var flags := ReadField(r, s, 4, 2);
    assert s[4..6] == e[4..6];
    var _ := ReadField(r, s, 6, 2);
    var offset, length, itemCount, crc := ReadExtent(r, s);
    assert id.value == Le16(e, 2) && flags.value == Le16(e, 4);
    out := Ok(Entry(kind, id.value, flags.value, offset, length, itemCount, crc));
  }

  /** The four 32-bit fields of an entry. */
  method ReadExtent(r: ByteReader, ghost s: bytes) returns (offset: u32, length: u32, itemCount: u32, crc: u32)
    requires r.Valid() && |s| >= ENTRY_BYTES && r.Rest() == s[8..]
    modifies r
    ensures r.Valid() && r.Rest() == s[ENTRY_BYTES..]
    ensures var e := s[..ENTRY_BYTES];
            offset == Le32(e, 8) && length == Le32(e, 12) && itemCount == Le32(e, 16) && crc == Le32(e, 20)
  {
    hide FromLe;
    ghost var e := s[..ENTRY_BYTES];
    assert s[8..12] == e[8..12] && s[12..16] == e[12..16] && s[16..20] == e[16..20] && s[20..24] == e[20..24];
    var a := ReadField(r, s, 8, 4);
    var b := ReadField(r, s, 12, 4);
    var c := ReadField(r, s, 16, 4);
    var d := ReadField(r, s, 20, 4);
    assert a.value == Le32(e, 8) && b.value == Le32(e, 12) && c.value == Le32(e, 16) && d.value == Le32(e, 20);
    offset, length, itemCount, crc := a.value, b.value, c.value, d.value;
  }

  /** The bodies in table order, and the metadata pairs met on the way. */
  method ReadSections(data: bytes, entries: seq<Entry>, strict: bool, maxDepth: nat)
    returns (out: Result<seq<Section>>, metadata: seq<(bytes, Record)>)
    ensures out == ParseSections(data, entries, strict, maxDepth)
    ensures out.Ok? ==> metadata == MetadataOf(out.value)
  {
    hide ParseSection;
    var sections: seq<Section> := [];
    metadata := [];
    ghost var whole := ParseSections(data, entries, strict, maxDepth);
    assert entries[0..] == entries;
    assert whole.Ok? ==> [] + whole.value == whole.value;
    for i := 0 to |entries|
      invariant whole == AfterSections(sections, ParseSections(data, entries[i..], strict, maxDepth))
      invariant metadata == MetadataOf(sections)
    {
      assert entries[i..][0] == entries[i] && entries[i..][1..] == entries[i + 1..];
      SectionStep(sections, data, entries[i..], strict, maxDepth);
      var s := ReadSection(data, entries[i], strict, maxDepth);
      if s.Err? {
        return Err(s.code), [];
      }
      MetadataSnoc(sections, s.value);
      if entries[i].kind == Metadata {
        metadata := CollectPairs(metadata, s.value.records);
      } else {
        assert metadata + [] == metadata;
      }
      sections := sections + [s.value];
    }
    assert sections + [] == sections;
    return Ok(sections), metadata;
  }

  /** Every top-level key-value record of a METADATA section, in order. */
  method CollectPairs(before: seq<(bytes, Record)>, records: seq<Record>) returns (metadata: seq<(bytes, Record)>)
    ensures metadata == before + PairsOf(records)
  {
    metadata := before;
    assert records[0..] == records;
    for i := 0 to |records|
      invariant metadata + PairsOf(records[i..]) == before + PairsOf(records)
    {
      assert records[i..][0] == records[i] && records[i..][1..] == records[i + 1..];
      ghost var rest := PairsOf(records[i + 1..]);
      if records[i].body.KeyvalBody? && records[i].body.children != [] {
        Regroup3(metadata, [(records[i].body.key, records[i].body.children[0])], rest);
        metadata := metadata + [(records[i].body.key, records[i].body.children[0])];
      } else {
        assert PairsOf(records[i..]) == [] + rest == rest;
      }
    }
    assert metadata + [] == metadata;
  }

  method ReadSection(data: bytes, e: Entry, strict: bool, maxDepth: nat) returns (out: Result<Section>)
    ensures out == ParseSection(data, e, strict, maxDepth)
    ensures out.Ok? ==> out.value.entry == e
  {
    hide Crc32, ParseStream;
    if e.offset + e.length > |data| {
      return Err(BadLength);
    }
    var body := data[e.offset..e.offset + e.length];
    var computed := ComputeCrc32(body);
    var ok :- VerifyCrc(computed, e.crc, strict);
    if e.kind == Free {
      return Ok(Section(e, ok, []));
    }
    var r := new ByteReader(body);
    var parser := new RecordParser(maxDepth);
    var records :- parser.ReadStream(r, 0);
    out := Ok(Section(e, ok, records));
  }

  ghost function AfterSections(done: seq<Section>, rest: Result<seq<Section>>): Result<seq<Section>> {
    var more :- rest;
    Ok(done + more)
  }

  lemma SectionStep(done: seq<Section>, s: bytes, entries: seq<Entry>, strict: bool, max: nat)
    requires entries != []
    ensures var first := ParseSection(s, entries[0], strict, max);
            AfterSections(done, ParseSections(s, entries, strict, max))
            == if first.Err? then Err(first.code)
               else AfterSections(done + [first.value], ParseSections(s, entries[1..], strict, max))
  {
    hide ParseSection;
    var first := ParseSection(s, entries[0], strict, max);
    if first.Ok? {
      var tail := ParseSections(s, entries[1..], strict, max);
      assert tail.Ok? ==> done + ([first.value] + tail.value) == (done + [first.value]) + tail.value;
    }
  }

  lemma {:induction false} MetadataSnoc(sections: seq<Section>, s: Section)
    ensures MetadataOf(sections + [s])
         == MetadataOf(sections) + if s.entry.kind == Metadata then PairsOf(s.records) else []
    decreases |sections|
  {
    hide PairsOf;
    var all := sections + [s];
    if sections == [] {
      assert all == [s] && all[1..] == [];
    } else {
      assert all[0] == sections[0] && all[1..] == sections[1..] + [s];
      MetadataSnoc(sections[1..], s);
    }
  }

  /** The trailer, when the flags promise one. */
  method ReadTrailer(data: bytes, flagged: bool, strict: bool) returns (out: Result<bool>)
    ensures out == ParseTrailer(data, flagged, strict)
  {
    hide Crc32, FromLe;
    if !flagged {
      return Ok(true);
    }
    if |data| < HEADER_TOTAL + TRAILER_BYTES {
      return Err(Truncated);
    }
    var at := |data| - TRAILER_BYTES;
    var tr := new ByteReader(data[at..]);
    assert data[at..][0..] == data[at..];
    var stored := ReadField(tr, data[at..], 0, 4);
    assert data[at..][0..4] == data[at..at + 4];
    assert stored.value == Le32(data, at);
    var computed := ComputeCrc32(data[..at]);
    out := VerifyCrc(computed, stored.value, strict);
  }

  /** The headline flag over every section. */
  method FoldChecks(start: bool, sections: seq<Section>) returns (ok: bool)
    ensures ok == (start && AllBodiesOk(sections))
  {
    ok := start;
    for i := 0 to |sections|
      invariant ok == (start && forall j | 0 <= j < i :: sections[j].bodyOk)
    {
      ok := ok && sections[i].bodyOk;
    }
  }

  /** `parse`: the cursor goes over header and table, then every body is taken by its offset. */
  method ParseFile(data: bytes, strict: bool, maxDepth: nat) returns (out: Result<Container>)
    ensures out == Parse(data, strict, maxDepth)
  {
    hide ParseHeader, ParseTable, ParseSections, ParseTrailer, MetadataOf;
    var r := new ByteReader(data);
    var header :- ReadHeader(r, strict);
    if HEADER_TOTAL + ENTRY_BYTES * header.sectionCount > |data| {
      return Err(BadLength);
    }
    var entries :- ReadTable(r, header.sectionCount);
    var sections, metadata :- ReadSections(data, entries, strict, maxDepth);
    var trailerOk :- ReadTrailer(data, HasTrailer(header.flags), strict);
    var checksumOk := FoldChecks(header.crcOk && trailerOk, sections);
    out := Ok(Container(header, sections, trailerOk, checksumOk, metadata));
  }
}
