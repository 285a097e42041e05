/** The container end to end. */
module BinpackLaw {
  // What is built parses back, and one altered byte never goes unnoticed.

  import opened BinpackContainer
  import opened BinpackRecords
  import opened Checksum
  import opened Common
  import opened Numbers
  import opened Seqs

  /** The builder's fields hold what is put in them. */
  ghost predicate Buildable(b: Spec) {
    && b.version == 1 && |b.sections| < TWO16 && BodiesStart(b) + |BodiesBytes(b.sections)| < TWO32
    && forall s | s in b.sections && s.kind != Free :: AllEncodable(s.records)
  }

  function EntryOf(s: SectionSpec, offset: u32): Entry
    requires |SectionBody(s)| < TWO32
  {
    Entry(s.kind, s.id, s.flags, offset, |SectionBody(s)|, ItemCount(s), Crc32(SectionBody(s)))
  }

  /** The sections a parse should find when the bodies start at `offset`. */
  function SectionsOf(sections: seq<SectionSpec>, offset: nat): seq<Section>
    requires offset + |BodiesBytes(sections)| < TWO32
  {
    if sections == [] then []
    else
      [Section(EntryOf(sections[0], offset), true, if sections[0].kind == Free then [] else sections[0].records)]
      + SectionsOf(sections[1..], offset + |SectionBody(sections[0])|)
  }

  function EntriesOf(sections: seq<SectionSpec>, offset: nat): seq<Entry>
    requires offset + |BodiesBytes(sections)| < TWO32
  {
    if sections == [] then []
    else [EntryOf(sections[0], offset)] + EntriesOf(sections[1..], offset + |SectionBody(sections[0])|)
  }

  /** The tallest record tree in any section that is decoded. */
  function TallestSection(sections: seq<SectionSpec>): int {
    if sections == [] then -1
    else Max(if sections[0].kind == Free then -1 else Tallest(sections[0].records), TallestSection(sections[1..]))
  }

  function ContainerOf(b: Spec): Container
    requires |b.sections| < TWO16 && BodiesStart(b) + |BodiesBytes(b.sections)| < TWO32
  {
    var sections := SectionsOf(b.sections, BodiesStart(b));
    Container(Header(b.version, HeaderFlags(b), |b.sections|, true), sections, true, true, MetadataOf(sections))
  }

  // ---- fields

  lemma Field16ReadsBack(a: bytes, v: nat, k: bytes)
    requires v < TWO16
    ensures Le16(a + Le(v, 2) + k, |a|) == v
  {
    Widths();
    LeRoundTrip(v, 2);
    hide Le, FromLe;
    var s := a + Le(v, 2) + k;
    assert s[|a|..|a| + 2] == Le(v, 2);
  }

  lemma Field32ReadsBack(a: bytes, v: nat, k: bytes)
    requires v < TWO32
    ensures Le32(a + Le(v, 4) + k, |a|) == v
  {
    Widths();
    LeRoundTrip(v, 4);
    hide Le, FromLe;
    var s := a + Le(v, 4) + k;
    assert s[|a|..|a| + 4] == Le(v, 4);
  }

  lemma EntryReadsBack(s: SectionSpec, offset: u32)
    requires |SectionBody(s)| < TWO32
    ensures ParseEntry(EntryBytes(s, offset)) == Ok(EntryOf(s, offset))
  {
    hide Le, FromLe, Crc32, SectionBody, Le16, Le32;
    var e := EntryBytes(s, offset);
    var f0, f2, f4, f6 := Le(TypeCode(s.kind), 2), Le(s.id, 2), Le(s.flags, 2), Le(0, 2);
    var f8, f12, f16, f20 := Le(offset, 4), Le(|SectionBody(s)|, 4), Le(ItemCount(s), 4), Le(Crc32(SectionBody(s)), 4);
    assert e == f0 + f2 + f4 + f6 + f8 + f12 + f16 + f20;
    assert e == [] + f0 + (f2 + f4 + f6 + f8 + f12 + f16 + f20);
    Field16ReadsBack([], TypeCode(s.kind), f2 + f4 + f6 + f8 + f12 + f16 + f20);
    assert e == f0 + f2 + (f4 + f6 + f8 + f12 + f16 + f20);
    Field16ReadsBack(f0, s.id, f4 + f6 + f8 + f12 + f16 + f20);
    assert e == (f0 + f2) + f4 + (f6 + f8 + f12 + f16 + f20);
    Field16ReadsBack(f0 + f2, s.flags, f6 + f8 + f12 + f16 + f20);
    assert e == (f0 + f2 + f4 + f6) + f8 + (f12 + f16 + f20);
    Field32ReadsBack(f0 + f2 + f4 + f6, offset, f12 + f16 + f20);
    assert e == (f0 + f2 + f4 + f6 + f8) + f12 + (f16 + f20);
    Field32ReadsBack(f0 + f2 + f4 + f6 + f8, |SectionBody(s)|, f16 + f20);
    assert e == (f0 + f2 + f4 + f6 + f8 + f12) + f16 + f20;
    Field32ReadsBack(f0 + f2 + f4 + f6 + f8 + f12, ItemCount(s), f20);
    assert e == (f0 + f2 + f4 + f6 + f8 + f12 + f16) + f20 + [];
    Field32ReadsBack(f0 + f2 + f4 + f6 + f8 + f12 + f16, Crc32(SectionBody(s)), []);
  }

  lemma {:induction false} TableReadsBack(sections: seq<SectionSpec>, offset: nat, k: bytes)
    requires offset + |BodiesBytes(sections)| < TWO32
    ensures ParseTable(TableBytes(sections, offset) + k, |sections|) == Ok(EntriesOf(sections, offset))
  {
    hide EntryBytes, ParseEntry, SectionBody, EntryOf, SectionsOf;
    if sections != [] {
      var first := EntryBytes(sections[0], offset);
      var next := offset + |SectionBody(sections[0])|;
      EntryReadsBack(sections[0], offset);
      TableReadsBack(sections[1..], next, k);
      var t := TableBytes(sections, offset) + k;
      assert t[..ENTRY_BYTES] == first;
      assert t[ENTRY_BYTES..] == TableBytes(sections[1..], next) + k;
    }
  }

  // ---- bodies

  lemma {:induction false} SectionsReadBack(s: bytes, pre: bytes, sections: seq<SectionSpec>, k: bytes, strict: bool,
                                            max: nat)
    requires s == pre + BodiesBytes(sections) + k && |pre| + |BodiesBytes(sections)| < TWO32
    requires forall x | x in sections && x.kind != Free :: AllEncodable(x.records)
    ensures ParseSections(s, EntriesOf(sections, |pre|), strict, max)
         == if TallestSection(sections) <= max then Ok(SectionsOf(sections, |pre|)) else Err(DepthExceeded)
    decreases sections
  {
    hide ParseSection, SectionBody, EntryOf, Tallest, AllEncodable;
    if sections != [] {
      var x := sections[0];
      var body, rest := SectionBody(x), BodiesBytes(sections[1..]);
      assert x in sections;
      assert s == pre + body + (rest + k) && s == (pre + body) + rest + k;
      OneSection(s, pre, x, rest + k, strict, max);
      SectionsReadBack(s, pre + body, sections[1..], k, strict, max);
      ConsSections(s, |pre|, sections, strict, max);
    }
  }

  lemma ConsSections(s: bytes, offset: nat, sections: seq<SectionSpec>, strict: bool, max: nat)
    requires sections != [] && offset + |BodiesBytes(sections)| < TWO32
    ensures EntriesOf(sections, offset) != []
    ensures |SectionBody(sections[0])| + |BodiesBytes(sections[1..])| == |BodiesBytes(sections)|
    ensures var next := offset + |SectionBody(sections[0])|;
            EntriesOf(sections, offset) == [EntryOf(sections[0], offset)] + EntriesOf(sections[1..], next)
    ensures ParseSections(s, EntriesOf(sections, offset), strict, max)
         == ThenSections(ParseSection(s, EntryOf(sections[0], offset), strict, max),
                         ParseSections(s, EntriesOf(sections[1..], offset + |SectionBody(sections[0])|), strict, max))
  {
    hide ParseSection, SectionBody, EntryOf;
    var all := EntriesOf(sections, offset);
    assert all[1..] == EntriesOf(sections[1..], offset + |SectionBody(sections[0])|);
  }

  function ThenSections(first: Result<Section>, rest: Result<seq<Section>>): Result<seq<Section>> {
    var head :- first;
    var tail :- rest;
    Ok([head] + tail)
  }

  lemma OneSection(s: bytes, pre: bytes, x: SectionSpec, k: bytes, strict: bool, max: nat)
    requires s == pre + SectionBody(x) + k && |pre| + |SectionBody(x)| < TWO32
    requires x.kind != Free ==> AllEncodable(x.records)
    ensures ParseSection(s, EntryOf(x, |pre|), strict, max)
         == if x.kind == Free || Tallest(x.records) <= max
            then Ok(Section(EntryOf(x, |pre|), true, if x.kind == Free then [] else x.records))
            else Err(DepthExceeded)
  {
    hide Crc32, ForestBytes, ParseStream, AllEncodable, Tallest;
    var e := EntryOf(x, |pre|);
    assert s[e.offset..e.offset + e.length] == SectionBody(x);
    if x.kind != Free {
      ForestReadsBack(x.records, 0, max);
    }
  }

  // ---- the round trip

  lemma HeaderReadsBack(b: Spec, k: bytes, strict: bool)
    requires b.version == 1 && |b.sections| < TWO16
    ensures ParseHeader(HeaderBlock(b) + k, strict) == Ok(Header(b.version, HeaderFlags(b), |b.sections|, true))
  {
    hide Le, FromLe, Crc32, Le16, Le32;
    var s := HeaderBlock(b) + k;
    var v, f, n, z := Le(b.version, 2), Le(HeaderFlags(b), 2), Le(|b.sections|, 2), Le(0, 2);
    var c := Le(Crc32(HeaderFields(b)), 4);
    assert s == MAGIC + v + (f + n + z + c + k);
    Field16ReadsBack(MAGIC, b.version, f + n + z + c + k);
    assert s == (MAGIC + v) + f + (n + z + c + k);
    Field16ReadsBack(MAGIC + v, HeaderFlags(b), n + z + c + k);
    assert s == (MAGIC + v + f) + n + (z + c + k);
    Field16ReadsBack(MAGIC + v + f, |b.sections|, z + c + k);
    assert s == HeaderFields(b) + c + k;
    Field32ReadsBack(HeaderFields(b), Crc32(HeaderFields(b)), k);
    assert s[..HEADER_BYTES] == HeaderFields(b);
    assert s[0..4] == MAGIC;
  }

  lemma TrailerReadsBack(b: Spec, strict: bool)
    ensures ParseTrailer(ContainerBytes(b), b.hasTrailer, strict) == Ok(true)
  {
    hide Le, FromLe, Crc32, MainBytes, Le32;
    if b.hasTrailer {
      var main := MainBytes(b);
      var s := ContainerBytes(b);
      assert s == main + Le(Crc32(main), 4) + [];
      Field32ReadsBack(main, Crc32(main), []);
      assert s[..|s| - TRAILER_BYTES] == main;
    }
  }

  lemma FlagsReadBack(b: Spec)
    ensures HasTrailer(HeaderFlags(b)) == b.hasTrailer
  {
  }

  lemma {:induction false} AllGood(sections: seq<SectionSpec>, offset: nat)
    requires offset + |BodiesBytes(sections)| < TWO32
    ensures AllBodiesOk(SectionsOf(sections, offset))
  {
    hide SectionBody, EntryOf, EntriesOf;
    if sections != [] {
      AllGood(sections[1..], offset + |SectionBody(sections[0])|);
    }
  }

  /**
    * What was built parses back in either mode: every section with its records unchanged and
    * every checksum good, exactly when no decoded record tree is taller than the budget; and
    * otherwise the only complaint is depth.
    */
  lemma ContainerRoundTrip(b: Spec, strict: bool, max: nat)
    requires Buildable(b)
    ensures Parse(ContainerBytes(b), strict, max)
         == if TallestSection(b.sections) <= max then Ok(ContainerOf(b)) else Err(DepthExceeded)
  {
    var s, start := ContainerBytes(b), BodiesStart(b);
    var header, table, bodies := HeaderBlock(b), TableBytes(b.sections, start), BodiesBytes(b.sections);
    var trailer := if b.hasTrailer then Le(Crc32(MainBytes(b)), 4) else [];
    hide HeaderBlock, TableBytes, BodiesBytes, Le, Crc32, ParseHeader, ParseTable, ParseSections, ParseTrailer,
         HeaderFlags, HasTrailer, AllBodiesOk, MetadataOf, SectionsOf, EntriesOf, TallestSection;
    assert s == header + (table + (bodies + trailer)) by { Regroup4(header, table, bodies, trailer); }
    HeaderReadsBack(b, table + (bodies + trailer), strict);
    assert s[HEADER_TOTAL..] == table + (bodies + trailer);
    TableReadsBack(b.sections, start, bodies + trailer);
    assert s == (header + table) + bodies + trailer by { Regroup4(header, table, bodies, trailer); }
    SectionsReadBack(s, header + table, b.sections, trailer, strict, max);
    FlagsReadBack(b);
    TrailerReadsBack(b, strict);
    AllGood(b.sections, start);
  }

  // ---- detection

  /** Two files of one length that differ in byte `i` alone. */
  predicate DifferAt(a: bytes, b: bytes, i: nat) {
    |a| == |b| && i < |a| && a[i] != b[i] && a[..i] == b[..i] && a[i + 1..] == b[i + 1..]
  }

  /** A block and the stored CRC behind it cannot both survive a change in one of their bytes. */
  lemma BlockDetects(a: bytes, b: bytes, i: nat, n: nat)
    requires DifferAt(a, b, i) && i < n + 4 <= |a|
    requires Crc32(a[..n]) == Le32(a, n)
    ensures Crc32(b[..n]) != Le32(b, n)
  {
    hide Crc32, Le32;
    if i < n {
      var x, y := a[..n], b[..n];
      assert x[..i] == a[..i] && y[..i] == b[..i];
      assert x[i + 1..] == a[i + 1..][..n - i - 1] && y[i + 1..] == b[i + 1..][..n - i - 1];
      OneByteDetected(x, y, i);
      assert a[n..n + 4] == a[i + 1..][n - i - 1..n - i + 3] && b[n..n + 4] == b[i + 1..][n - i - 1..n - i + 3];
      SameField(a, b, n);
    } else {
      assert a[..n] == a[..i][..n] && b[..n] == b[..i][..n];
      assert a[n..n + 4][i - n] == a[i] && b[n..n + 4][i - n] == b[i];
      FieldDetermines(a, b, n);
    }
  }

  lemma SameField(a: bytes, b: bytes, n: nat)
    requires n + 4 <= |a| && n + 4 <= |b| && a[n..n + 4] == b[n..n + 4]
    ensures Le32(a, n) == Le32(b, n)
  {
  }

  lemma FieldDetermines(a: bytes, b: bytes, n: nat)
    requires n + 4 <= |a| && n + 4 <= |b| && a[n..n + 4] != b[n..n + 4]
    ensures Le32(a, n) != Le32(b, n)
  {
    FromLeBound(a[n..n + 4]);
    FromLeBound(b[n..n + 4]);
  }

  /** Both outer checksums are there and good. */
  predicate Sealed(s: bytes) {
    && |s| >= HEADER_TOTAL + TRAILER_BYTES && Crc32(s[..HEADER_BYTES]) == Le32(s, HEADER_BYTES)
    && HasTrailer(Le16(s, 6)) && Crc32(s[..|s| - TRAILER_BYTES]) == Le32(s, |s| - TRAILER_BYTES)
  }

  /** What a clean parse says about the two outer checksums. */
  lemma CleanMeans(s: bytes, strict: bool, max: nat)
    requires Parse(s, strict, max).Ok? && Parse(s, strict, max).value.checksumOk
    ensures |s| >= HEADER_TOTAL && Crc32(s[..HEADER_BYTES]) == Le32(s, HEADER_BYTES)
    ensures HasTrailer(Le16(s, 6)) ==> Sealed(s)
  {
    hide Crc32, Le32, Le16, ParseTable, ParseSections, HasTrailer;
  }

  /** Whatever a builder with a trailer writes is sealed. */
  lemma BuiltIsSealed(b: Spec)
    requires b.hasTrailer
    ensures Sealed(ContainerBytes(b))
  {
    hide Le, FromLe, Crc32, Le16, Le32, TableBytes, BodiesBytes, HasTrailer;
    var s, main := ContainerBytes(b), MainBytes(b);
    var v, f := Le(b.version, 2), Le(HeaderFlags(b), 2);
    assert s == (MAGIC + v) + f + s[8..];
    Field16ReadsBack(MAGIC + v, HeaderFlags(b), s[8..]);
    FlagsReadBack(b);
    assert s == HeaderFields(b) + Le(Crc32(HeaderFields(b)), 4) + s[HEADER_TOTAL..];
    Field32ReadsBack(HeaderFields(b), Crc32(HeaderFields(b)), s[HEADER_TOTAL..]);
    assert s[..HEADER_BYTES] == HeaderFields(b);
    assert s == main + Le(Crc32(main), 4) + [];
    Field32ReadsBack(main, Crc32(main), []);
    assert s[..|s| - TRAILER_BYTES] == main;
  }

  /** A sealed file with one byte altered never parses with every checksum good. */
  lemma OneByteNeverClean(s: bytes, t: bytes, i: nat, strict: bool, max: nat)
    requires Sealed(s) && DifferAt(s, t, i)
    ensures Parse(t, strict, max).Err? || !Parse(t, strict, max).value.checksumOk
  {
    hide Crc32, Le32, Le16, Parse, HasTrailer;
    if Parse(t, strict, max).Ok? && Parse(t, strict, max).value.checksumOk {
      CleanMeans(t, strict, max);
      if i < HEADER_TOTAL {
        BlockDetects(s, t, i, HEADER_BYTES);
        assert false;
      } else {
        assert s[6..8] == s[..i][6..8] && t[6..8] == t[..i][6..8];
        SameFlags(s, t);
        BlockDetects(s, t, i, |s| - TRAILER_BYTES);
        assert false;
      }
    }
  }

  lemma SameFlags(a: bytes, b: bytes)
    requires |a| >= 8 && |b| >= 8 && a[6..8] == b[6..8]
    ensures Le16(a, 6) == Le16(b, 6)
  {
  }

  /** A strict parse never answers with a bad checksum. */
  lemma StrictIsClean(s: bytes, max: nat)
    requires Parse(s, true, max).Ok?
    ensures Parse(s, true, max).value.checksumOk
  {
    hide Crc32, Le32, ParseTable, ParseStream, ParseSections;
    var header := ParseHeader(s, true).value;
    var entries := ParseTable(s[HEADER_TOTAL..], header.sectionCount).value;
    StrictSections(s, entries, max);
  }

  lemma {:induction false} StrictSections(s: bytes, entries: seq<Entry>, max: nat)
    requires ParseSections(s, entries, true, max).Ok?
    ensures AllBodiesOk(ParseSections(s, entries, true, max).value)
    decreases entries
  {
    if entries != [] {
      StrictSections(s, entries[1..], max);
      hide Crc32, ParseStream;
    }
  }

  /**
    * A built container with a trailer, one byte of it altered: a strict parse never returns a
    * container, and a lenient one fails or reports a bad checksum, whatever the depth budget.
    */
  lemma AlteredContainerCaught(b: Spec, t: bytes, i: nat, max: nat)
    requires b.hasTrailer && DifferAt(ContainerBytes(b), t, i)
    ensures Parse(t, true, max).Err?
    ensures Parse(t, false, max).Err? || !Parse(t, false, max).value.checksumOk
  {
    hide Parse, ContainerBytes, DifferAt, Sealed;
    BuiltIsSealed(b);
    OneByteNeverClean(ContainerBytes(b), t, i, true, max);
    OneByteNeverClean(ContainerBytes(b), t, i, false, max);
    if Parse(t, true, max).Ok? {
      StrictIsClean(t, max);
      assert false;
    }
  }
}
