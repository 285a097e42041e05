/**
  * The BPK1 container: the bytes builder.cpp lays out, field by field, and what parser.cpp
  * makes of a file, including the order in which it notices that something is wrong with the
  * header, the table, a body or the trailer.
  */
module BinpackContainer {
  import opened BinpackRecords
  import opened Checksum
  import opened Common
  import opened Numbers

  const MAGIC: bytes := [66, 80, 75, 49]  // "BPK1"
  const HEADER_BYTES: nat := 12
  const HEADER_TOTAL: nat := 16
  const ENTRY_BYTES: nat := 24
  const TRAILER_BYTES: nat := 4

  datatype SectionType = Free | Plain | Metadata | Index | Strings

  function TypeCode(t: SectionType): nat {
    match t
    case Free => 0
    case Plain => 1
    case Metadata => 2
    case Index => 3
    case Strings => 4
  }

  function TypeOfCode(code: nat): Result<SectionType> {
    match code
    case 0 => Ok(Free)
    case 1 => Ok(Plain)
    case 2 => Ok(Metadata)
    case 3 => Ok(Index)
    case 4 => Ok(Strings)
    case _ => Err(BadType)
  }

  // ---- what the builder writes

  /** A section to write; an item count left unset is the number of records. */
  datatype SectionSpec = SectionSpec(kind: SectionType, id: u16, flags: u16, itemCount: Option<u32>,
                                     records: seq<Record>)

  datatype Spec = Spec(version: u16, hasMetadata: bool, hasTrailer: bool, sections: seq<SectionSpec>)

  function SectionBody(s: SectionSpec): bytes {
    if s.kind == Free then [] else ForestBytes(s.records)
  }

  function HeaderFlags(b: Spec): nat {
    (if b.hasMetadata then 1 else 0) + (if b.hasTrailer then 2 else 0)
  }

  /** The twelve bytes the header CRC covers. */
  function HeaderFields(b: Spec): (h: bytes)
    ensures |h| == HEADER_BYTES
  {
    MAGIC + Le(b.version, 2) + Le(HeaderFlags(b), 2) + Le(|b.sections|, 2) + Le(0, 2)
  }

  function HeaderBlock(b: Spec): (h: bytes)
    ensures |h| == HEADER_TOTAL
  {
    HeaderFields(b) + Le(Crc32(HeaderFields(b)), 4)
  }

  function ItemCount(s: SectionSpec): u32 {
    if s.itemCount.Some? then s.itemCount.value else |s.records| % TWO32
  }

  /** A table entry for a section whose body starts at `offset`; 32-bit fields wrap. */
  function EntryBytes(s: SectionSpec, offset: nat): (e: bytes)
    ensures |e| == ENTRY_BYTES
  {
    Le(TypeCode(s.kind), 2) + Le(s.id, 2) + Le(s.flags, 2) + Le(0, 2)
    + Le(offset % TWO32, 4) + Le(|SectionBody(s)| % TWO32, 4) + Le(ItemCount(s), 4) + Le(Crc32(SectionBody(s)), 4)
  }

  function TableBytes(sections: seq<SectionSpec>, offset: nat): (t: bytes)
    ensures |t| == ENTRY_BYTES * |sections|
  {
    if sections == [] then []
    else EntryBytes(sections[0], offset) + TableBytes(sections[1..], offset + |SectionBody(sections[0])|)
  }

  function BodiesBytes(sections: seq<SectionSpec>): bytes {
    if sections == [] then [] else SectionBody(sections[0]) + BodiesBytes(sections[1..])
  }

  function BodiesStart(b: Spec): nat {
    HEADER_TOTAL + ENTRY_BYTES * |b.sections|
  }

  /** Everything the trailer CRC covers. */
  function MainBytes(b: Spec): (m: bytes)
    ensures |m| == BodiesStart(b) + |BodiesBytes(b.sections)|
  {
    HeaderBlock(b) + TableBytes(b.sections, BodiesStart(b)) + BodiesBytes(b.sections)
  }

  function ContainerBytes(b: Spec): bytes {
    MainBytes(b) + if b.hasTrailer then Le(Crc32(MainBytes(b)), 4) else []
  }

  // ---- what the parser reads

  datatype Header = Header(version: u16, flags: u16, sectionCount: u16, crcOk: bool)

  datatype Entry = Entry(kind: SectionType, id: u16, flags: u16, offset: u32, length: u32, itemCount: u32, crc: u32)

  datatype Section = Section(entry: Entry, bodyOk: bool, records: seq<Record>)

  datatype Container = Container(header: Header, sections: seq<Section>, trailerOk: bool, checksumOk: bool,
                                 metadata: seq<(bytes, Record)>)

  predicate HasTrailer(flags: u16) {
    flags / 2 % 2 == 1
  }

  function Le16(s: bytes, at: nat): u16
    requires at + 2 <= |s|
  {
    FromLeBound(s[at..at + 2]);
    Widths();
    FromLe(s[at..at + 2])
  }

  function Le32(s: bytes, at: nat): u32
    requires at + 4 <= |s|
  {
    FromLeBound(s[at..at + 4]);
    Widths();
    FromLe(s[at..at + 4])
  }

  /** `verify_crc`: a mismatch is an error only when checking strictly. */
  function Verify(computed: u32, stored: u32, strict: bool): Result<bool> {
    if computed == stored then Ok(true) else if strict then Err(BadChecksum) else Ok(false)
  }

  /** Bytes missing anywhere in the header are a short read, but the fields met first are judged first. */
  function ParseHeader(s: bytes, strict: bool): Result<Header> {
    if |s| < 4 then Err(ShortRead)
    else if s[0..4] != MAGIC then Err(BadMagic)
    else if |s| < 6 then Err(ShortRead)
    else if Le16(s, 4) != 1 then Err(BadVersion)
    else if |s| < HEADER_TOTAL then Err(ShortRead)
    else
      var ok :- Verify(Crc32(s[..HEADER_BYTES]), Le32(s, 12), strict);
      Ok(Header(Le16(s, 4), Le16(s, 6), Le16(s, 8), ok))
  }

  function ParseEntry(e: bytes): Result<Entry>
    requires |e| == ENTRY_BYTES
  {
    var kind :- TypeOfCode(Le16(e, 0));
    Ok(Entry(kind, Le16(e, 2), Le16(e, 4), Le32(e, 8), Le32(e, 12), Le32(e, 16), Le32(e, 20)))
  }

  function ParseTable(t: bytes, count: nat): Result<seq<Entry>>
    requires |t| >= ENTRY_BYTES * count
    decreases count
  {
    if count == 0 then Ok([])
    else
      var first :- ParseEntry(t[..ENTRY_BYTES]);
      var rest :- ParseTable(t[ENTRY_BYTES..], count - 1);
      Ok([first] + rest)
  }

  /** A section's body has to lie in the file; holes are not decoded. */
  function ParseSection(s: bytes, e: Entry, strict: bool, max: nat): Result<Section> {
    if e.offset + e.length > |s| then Err(BadLength)
    else
      var body := s[e.offset..e.offset + e.length];
      var ok :- Verify(Crc32(body), e.crc, strict);
      if e.kind == Free then Ok(Section(e, ok, []))
      else
        var records :- ParseStream(body, 0, max);
        Ok(Section(e, ok, records))
  }

  function ParseSections(s: bytes, entries: seq<Entry>, strict: bool, max: nat): Result<seq<Section>> {
    if entries == [] then Ok([])
    else
      var first :- ParseSection(s, entries[0], strict, max);
      var rest :- ParseSections(s, entries[1..], strict, max);
      Ok([first] + rest)
  }

  function ParseTrailer(s: bytes, flagged: bool, strict: bool): Result<bool> {
    if !flagged then Ok(true)
    else if |s| < HEADER_TOTAL + TRAILER_BYTES then Err(Truncated)
    else Verify(Crc32(s[..|s| - TRAILER_BYTES]), Le32(s, |s| - TRAILER_BYTES), strict)
  }

  predicate AllBodiesOk(sections: seq<Section>) {
    forall i | 0 <= i < |sections| :: sections[i].bodyOk
  }

  /** The key-value records at the top of one section's stream. */
  function PairsOf(records: seq<Record>): seq<(bytes, Record)> {
    if records == [] then []
    else
      (if records[0].body.KeyvalBody? && records[0].body.children != []
       then [(records[0].body.key, records[0].body.children[0])] else [])
      + PairsOf(records[1..])
  }

  function MetadataOf(sections: seq<Section>): seq<(bytes, Record)> {
    if sections == [] then []
    else
      (if sections[0].entry.kind == Metadata then PairsOf(sections[0].records) else []) + MetadataOf(sections[1..])
  }

  /** `parse`: header, table, bodies, trailer, and the folded verdict. */
  function Parse(s: bytes, strict: bool, max: nat): Result<Container> {
    var header :- ParseHeader(s, strict);
    if HEADER_TOTAL + ENTRY_BYTES * header.sectionCount > |s| then Err(BadLength)
    else
      var entries :- ParseTable(s[HEADER_TOTAL..], header.sectionCount);
      var sections :- ParseSections(s, entries, strict, max);
      var trailerOk :- ParseTrailer(s, HasTrailer(header.flags), strict);
      var allOk := header.crcOk && trailerOk && AllBodiesOk(sections);
      Ok(Container(header, sections, trailerOk, allOk, MetadataOf(sections)))
  }
}
