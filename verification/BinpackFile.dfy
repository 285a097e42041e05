/** Which files parse, and to what. */
module BinpackFile {
  // A parse succeeds exactly on files whose bytes stand where the format puts them, and every field
  // of what it returns is told by those bytes.

  import opened BinpackContainer
  import opened BinpackRecords
  import opened Checksum
  import opened Common
  import opened Numbers

  predicate IsKind(code: nat, kind: SectionType) {
    || (code == 0 && kind == Free) || (code == 1 && kind == Plain) || (code == 2 && kind == Metadata)
    || (code == 3 && kind == Index) || (code == 4 && kind == Strings)
  }

  /** The number in two bytes at `at`, and in four, lowest byte first. */
  function TwoAt(s: bytes, at: nat): nat
    requires at + 2 <= |s|
  {
    Two(s[at], s[at + 1])
  }

  function FourAt(s: bytes, at: nat): nat
    requires at + 4 <= |s|
  {
    Four(s[at], s[at + 1], s[at + 2], s[at + 3])
  }

  /** The table entry whose 24 bytes start at `at`. */
  predicate IsEntry(s: bytes, at: nat, e: Entry) {
    && at + 24 <= |s| && IsKind(TwoAt(s, at), e.kind)
    && e.id == TwoAt(s, at + 2) && e.flags == TwoAt(s, at + 4)
    && e.offset == FourAt(s, at + 8) && e.length == FourAt(s, at + 12)
    && e.itemCount == FourAt(s, at + 16) && e.crc == FourAt(s, at + 20)
  }

  /** A section: its body in the file, the verdict on it, and its records. */
  predicate IsSection(s: bytes, section: Section, strict: bool, max: nat) {
    var e := section.entry;
    && e.offset + e.length <= |s|
    && var body := s[e.offset..e.offset + e.length];
       && section.bodyOk == (Crc32(body) == e.crc) && (strict ==> section.bodyOk)
       && if e.kind == Free then section.records == [] else ParseStream(body, 0, max) == Ok(section.records)
  }

  predicate IsHeader(s: bytes, h: Header, strict: bool) {
    && 16 <= |s| && s[0] == 66 && s[1] == 80 && s[2] == 75 && s[3] == 49
    && TwoAt(s, 4) == 1 && h.version == 1 && h.flags == TwoAt(s, 6) && h.sectionCount == TwoAt(s, 8)
    && h.crcOk == (Crc32(s[..12]) == FourAt(s, 12)) && (strict ==> h.crcOk)
  }

  predicate IsTrailer(s: bytes, flags: nat, ok: bool, strict: bool) {
    if flags / 2 % 2 == 1 then
      20 <= |s| && ok == (Crc32(s[..|s| - 4]) == FourAt(s, |s| - 4)) && (strict ==> ok)
    else ok
  }

  predicate IsFile(s: bytes, c: Container, strict: bool, max: nat) {
    && IsHeader(s, c.header, strict) && 16 + 24 * c.header.sectionCount <= |s|
    && |c.sections| == c.header.sectionCount
    && (forall i | 0 <= i < |c.sections| :: IsEntry(s, 16 + 24 * i, c.sections[i].entry))
    && (forall i | 0 <= i < |c.sections| :: IsSection(s, c.sections[i], strict, max))
    && IsTrailer(s, c.header.flags, c.trailerOk, strict)
    && (c.checksumOk <==> c.header.crcOk && c.trailerOk && forall i | 0 <= i < |c.sections| :: c.sections[i].bodyOk)
    && c.metadata == MetadataOf(c.sections)
  }

  lemma FieldsAt(s: bytes, at: nat)
    ensures at + 2 <= |s| ==> Le16(s, at) == TwoAt(s, at)
    ensures at + 4 <= |s| ==> Le32(s, at) == FourAt(s, at)
  {
    hide FromLe;
    if at + 2 <= |s| {
      LeFields(s[at..at + 2]);
    }
    if at + 4 <= |s| {
      LeFields(s[at..at + 4]);
    }
  }

  lemma HeaderExactly(s: bytes, h: Header, strict: bool)
    ensures ParseHeader(s, strict) == Ok(h) <==> IsHeader(s, h, strict)
  {
    hide Le16, Le32, Crc32, TwoAt, FourAt;
    FieldsAt(s, 4);
    FieldsAt(s, 6);
    FieldsAt(s, 8);
    FieldsAt(s, 12);
    if |s| >= 4 {
      assert s[0..4] == [s[0], s[1], s[2], s[3]];
    }
  }

  lemma KindExactly(code: nat, kind: SectionType)
    ensures TypeOfCode(code) == Ok(kind) <==> IsKind(code, kind)
  {
  }

  lemma EntryExactly(s: bytes, at: nat, e: Entry)
    requires at + 24 <= |s|
    ensures ParseEntry(s[at..at + 24]) == Ok(e) <==> IsEntry(s, at, e)
  {
    hide Le16, Le32, TypeOfCode, IsKind;
    var t := s[at..at + 24];
    FieldsAt(t, 0);
    FieldsAt(t, 2);
    FieldsAt(t, 4);
    FieldsAt(t, 8);
    FieldsAt(t, 12);
    FieldsAt(t, 16);
    FieldsAt(t, 20);
    KindExactly(TwoAt(s, at), e.kind);
    assert TypeOfCode(TwoAt(s, at)).Ok? ==> TypeOfCode(TwoAt(s, at)) == Ok(TypeOfCode(TwoAt(s, at)).value);
  }

  lemma {:induction false} TableExactly(s: bytes, at: nat, count: nat, entries: seq<Entry>)
    requires at + 24 * count <= |s|
    ensures ParseTable(s[at..], count) == Ok(entries)
       <==> |entries| == count && forall i | 0 <= i < count :: IsEntry(s, at + 24 * i, entries[i])
    decreases count
  {
    hide ParseEntry, IsEntry;
    if count > 0 {
      var t := s[at..];
      assert t[..ENTRY_BYTES] == s[at..at + 24] && t[ENTRY_BYTES..] == s[at + 24..];
      var first := ParseEntry(s[at..at + 24]);
      if entries != [] {
        var rest := entries[1..];
        assert entries == [entries[0]] + rest;
        EntryExactly(s, at, entries[0]);
        TableExactly(s, at + 24, count - 1, rest);
        if |entries| == count {
          ShiftedEntries(s, at, count, entries);
        }
      }
    }
  }

  lemma ShiftedEntries(s: bytes, at: nat, count: nat, entries: seq<Entry>)
    requires count == |entries| > 0
    ensures (forall i | 0 <= i < count :: IsEntry(s, at + 24 * i, entries[i]))
       <==> (&& IsEntry(s, at, entries[0])
             && forall i | 0 <= i < count - 1 :: IsEntry(s, at + 24 + 24 * i, entries[1..][i]))
  {
    hide IsEntry;
    if IsEntry(s, at, entries[0]) && forall i | 0 <= i < count - 1 :: IsEntry(s, at + 24 + 24 * i, entries[1..][i]) {
      forall i | 0 <= i < count ensures IsEntry(s, at + 24 * i, entries[i]) {
        if i > 0 {
          assert IsEntry(s, at + 24 + 24 * (i - 1), entries[1..][i - 1]);
        }
      }
    }
    if forall i | 0 <= i < count :: IsEntry(s, at + 24 * i, entries[i]) {
      assert IsEntry(s, at + 24 * 0, entries[0]);
      forall i | 0 <= i < count - 1 ensures IsEntry(s, at + 24 + 24 * i, entries[1..][i]) {
        assert IsEntry(s, at + 24 * (i + 1), entries[i + 1]);
      }
    }
  }

  lemma SectionExactly(s: bytes, e: Entry, section: Section, strict: bool, max: nat)
    ensures ParseSection(s, e, strict, max) == Ok(section) <==> section.entry == e && IsSection(s, section, strict, max)
  {
    hide ParseStream, Crc32;
  }

  lemma {:induction false} SectionsExactly(s: bytes, entries: seq<Entry>, sections: seq<Section>, strict: bool,
                                           max: nat)
    ensures ParseSections(s, entries, strict, max) == Ok(sections)
       <==> |sections| == |entries|
            && (forall i | 0 <= i < |sections| :: sections[i].entry == entries[i])
            && (forall i | 0 <= i < |sections| :: IsSection(s, sections[i], strict, max))
    decreases |entries|
  {
    hide ParseSection, IsSection;
    if entries != [] && sections != [] {
      var rest := sections[1..];
      assert sections == [sections[0]] + rest;
      SectionExactly(s, entries[0], sections[0], strict, max);
      SectionsExactly(s, entries[1..], rest, strict, max);
      assert forall i | 0 < i < |sections| :: sections[i] == rest[i - 1];
      assert forall i | 0 < i < |entries| :: entries[i] == entries[1..][i - 1];
    }
  }

  lemma TrailerExactly(s: bytes, flags: u16, ok: bool, strict: bool)
    ensures ParseTrailer(s, HasTrailer(flags), strict) == Ok(ok) <==> IsTrailer(s, flags, ok, strict)
  {
    hide Le32, Crc32, FourAt;
    if |s| >= 4 {
      FieldsAt(s, |s| - 4);
    }
  }

  /** A file parses exactly where its bytes say so, and every field of the result is told by them. */
  lemma FileExactly(s: bytes, c: Container, strict: bool, max: nat)
    ensures Parse(s, strict, max) == Ok(c) <==> IsFile(s, c, strict, max)
  {
    hide ParseHeader, ParseTable, ParseSections, ParseTrailer, IsHeader, IsEntry, IsSection, IsTrailer, MetadataOf,
         HasTrailer;
    HeaderExactly(s, c.header, strict);
    TrailerExactly(s, c.header.flags, c.trailerOk, strict);
    if 16 + 24 * c.header.sectionCount <= |s| {
      if Parse(s, strict, max) == Ok(c) {
        var entries := ParseTable(s[16..], c.header.sectionCount).value;
        TableExactly(s, 16, c.header.sectionCount, entries);
        SectionsExactly(s, entries, c.sections, strict, max);
      }
      if IsFile(s, c, strict, max) {
        var entries := seq(|c.sections|, i requires 0 <= i < |c.sections| => c.sections[i].entry);
        TableExactly(s, 16, c.header.sectionCount, entries);
        SectionsExactly(s, entries, c.sections, strict, max);
      }
    }
  }
}
