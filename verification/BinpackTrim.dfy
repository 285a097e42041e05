module BinpackTrimming {
  // The builder writes only the first child of a key-value record, and none when there is none;
  // the parser wants exactly one. So any record reads back as its trimmed form, and a record with
  // a childless key-value in it is refused.

  import opened BinpackContainer
  import opened BinpackLaw
  import opened BinpackRecords
  import ByteReading
  import opened Checksum
  import opened Common
  import opened Numbers
  import opened Seqs

  /** A record with every key-value cut to its first child. */
  function Trim(r: Record): Record
    decreases r, 1
  {
    Record(r.group, TrimBody(r.body))
  }

  function TrimBody(b: Body): Body
    decreases b, 0
  {
    match b
    case ArrayBody(children) => ArrayBody(TrimAll(children))
    case GroupBody(children) => GroupBody(TrimAll(children))
    case KeyvalBody(key, children) => KeyvalBody(key, if children == [] then [] else [Trim(children[0])])
    case _ => b
  }

  function TrimAll(rs: seq<Record>): (t: seq<Record>)
    ensures |t| == |rs|
    decreases rs, 0
  {
    if rs == [] then [] else [Trim(rs[0])] + TrimAll(rs[1..])
  }

  /** Every key-value that gets written has a value. */
  predicate Whole(r: Record)
    decreases r, 1
  {
    WholeBody(r.body)
  }

  predicate WholeBody(b: Body)
    decreases b, 0
  {
    match b
    case ArrayBody(children) => AllWhole(children)
    case GroupBody(children) => AllWhole(children)
    case KeyvalBody(_, children) => children != [] && Whole(children[0])
    case _ => true
  }

  predicate AllWhole(rs: seq<Record>)
    decreases rs, 0
  {
    rs == [] || (Whole(rs[0]) && AllWhole(rs[1..]))
  }

  // ---- trimming keeps the bytes

  lemma {:induction false} TrimKeepsBytes(r: Record)
    ensures RecordBytes(Trim(r)) == RecordBytes(r) && Payload(TrimBody(r.body)) == Payload(r.body)
    decreases r, 1
  {
    hide Varint, Le, ZigZag;
    match r.body
    case ArrayBody(children) => TrimKeepsForest(children);
    case GroupBody(children) => TrimKeepsForest(children);
    case KeyvalBody(_, children) =>
      if children != [] {
        TrimKeepsBytes(children[0]);
      }
    case _ =>
  }

  lemma {:induction false} TrimKeepsForest(rs: seq<Record>)
    ensures ForestBytes(TrimAll(rs)) == ForestBytes(rs)
    decreases rs, 0
  {
    hide RecordBytes, Trim;
    if rs != [] {
      TrimKeepsBytes(rs[0]);
      TrimKeepsForest(rs[1..]);
      assert TrimAll(rs)[1..] == TrimAll(rs[1..]);
    }
  }

  // ---- what can be read back

  lemma {:induction false} TrimIsEncodable(r: Record)
    requires Sized(r) && Whole(r)
    ensures Encodable(Trim(r))
    decreases r, 1
  {
    TrimKeepsBytes(r);
    hide Payload;
    match r.body
    case ArrayBody(children) => TrimAllEncodable(children);
    case GroupBody(children) => TrimAllEncodable(children);
    case KeyvalBody(_, children) => TrimIsEncodable(children[0]);
    case _ =>
  }

  lemma {:induction false} TrimAllEncodable(rs: seq<Record>)
    requires AllSized(rs) && AllWhole(rs)
    ensures AllEncodable(TrimAll(rs))
    decreases rs, 0
  {
    hide Sized, Whole, Encodable, Trim;
    if rs != [] {
      TrimIsEncodable(rs[0]);
      TrimAllEncodable(rs[1..]);
      assert TrimAll(rs)[1..] == TrimAll(rs[1..]);
    }
  }

  /** The encodable records are those of writable size that trimming leaves alone and nothing is missing from. */
  lemma {:induction false} EncodableExactly(r: Record)
    ensures Encodable(r) <==> Sized(r) && Whole(r) && Trim(r) == r
    decreases r, 1
  {
    hide Payload, EncodableBody, SizedBody, WholeBody, TrimBody;
    EncodableBodyExactly(r.body);
  }

  lemma {:induction false} EncodableBodyExactly(b: Body)
    ensures EncodableBody(b) <==> SizedBody(b) && WholeBody(b) && TrimBody(b) == b
    decreases b, 0
  {
    hide Encodable, Sized, Whole, Trim;
    match b
    case ArrayBody(children) => AllEncodableExactly(children);
    case GroupBody(children) => AllEncodableExactly(children);
    case KeyvalBody(_, children) =>
      if children != [] {
        EncodableExactly(children[0]);
        var kept := [Trim(children[0])];
        assert kept == children <==> |children| == 1 && kept[0] == children[0];
      }
    case _ =>
  }

  lemma {:induction false} AllEncodableExactly(rs: seq<Record>)
    ensures AllEncodable(rs) <==> AllSized(rs) && AllWhole(rs) && TrimAll(rs) == rs
    decreases rs, 0
  {
    hide Sized, Whole, Encodable, Trim;
    if rs != [] {
      EncodableExactly(rs[0]);
      AllEncodableExactly(rs[1..]);
      assert TrimAll(rs)[1..] == TrimAll(rs[1..]) && TrimAll(rs)[0] == Trim(rs[0]);
      assert rs == [rs[0]] + rs[1..];
    }
  }

  // ---- a missing value is refused

  lemma {:induction false} MissingRefused(r: Record, k: bytes, depth: nat, max: nat)
    requires Sized(r) && !Whole(r)
    ensures ParseRecord(RecordBytes(r) + k, depth, max).Err?
    decreases r, 5
  {
    if depth <= max {
      var payload := Payload(r.body);
      MissingBodyRefused(r, depth, max);
      var s := RecordBytes(r) + k;
      Regroup4([TagByte(r.body), if r.group then 1 else 0], Varint(|payload|), payload, k);
      hide RecordBytes, Payload, ParseBody, Whole, Varint, ReadVarint;
      assert s[2..] == Varint(|payload|) + (payload + k);
      VarintRoundTrip(|payload|, payload + k);
      assert ByteReading.Split(payload + k, |payload|) == Ok((payload, k));
    }
  }

  lemma {:induction false} MissingBodyRefused(r: Record, depth: nat, max: nat)
    requires Sized(r) && !Whole(r) && depth <= max
    ensures ParseBody(TagByte(r.body), Payload(r.body), depth, max).Err?
    decreases r, 4
  {
    hide ParseBody, ParseStream, ParseCount, ParseRecord, Varint, RecordBytes;
    match r.body
    case ArrayBody(children) =>
      MissingInCount(children, [], depth + 1, max);
      RefusedArray(children, depth, max);
    case GroupBody(children) =>
      MissingInForest(children, depth + 1, max);
      RefusedGroup(children, depth, max);
    case KeyvalBody(key, children) =>
      if children != [] {
        MissingRefused(children[0], [], depth + 1, max);
      } else {
        NothingRefused(depth + 1, max);
      }
      RefusedKeyval(key, if children == [] then [] else RecordBytes(children[0]), depth, max);
  }

  lemma NothingRefused(depth: nat, max: nat)
    ensures ParseRecord([] + [], depth, max).Err?
  {
  }

  lemma RefusedArray(children: seq<Record>, depth: nat, max: nat)
    requires |children| < TWO64 && ParseCount(ForestBytes(children) + [], |children|, depth + 1, max).Err?
    ensures ParseBody(6, Varint(|children|) + ForestBytes(children), depth, max).Err?
  {
    hide Varint, ReadVarint, ForestBytes, ParseCount;
    assert ForestBytes(children) + [] == ForestBytes(children);
    VarintRoundTrip(|children|, ForestBytes(children));
  }

  lemma RefusedGroup(children: seq<Record>, depth: nat, max: nat)
    requires ParseStream(ForestBytes(children), depth + 1, max).Err?
    ensures ParseBody(7, ForestBytes(children), depth, max).Err?
  {
    hide ForestBytes, ParseStream;
  }

  lemma RefusedKeyval(key: bytes, value: bytes, depth: nat, max: nat)
    requires |key| < TWO64 && ParseRecord(value + [], depth + 1, max).Err?
    ensures ParseBody(8, Varint(|key|) + key + value, depth, max).Err?
  {
    hide Varint, ReadVarint, ParseRecord;
    assert value + [] == value;
    Regroup3(Varint(|key|), key, value);
    VarintRoundTrip(|key|, key + value);
    assert ByteReading.Split(key + value, |key|) == Ok((key, value));
  }

  lemma {:induction false} MissingInForest(rs: seq<Record>, depth: nat, max: nat)
    requires AllSized(rs) && !AllWhole(rs)
    ensures ParseStream(ForestBytes(rs), depth, max).Err?
    decreases rs, 0
  {
    var tail := ForestBytes(rs[1..]);
    FirstOfForest(rs, tail, depth, max);
    hide RecordBytes, ParseRecord, Whole, Sized, Trim;
    if Whole(rs[0]) {
      MissingInForest(rs[1..], depth, max);
    }
  }

  lemma {:induction false} MissingInCount(rs: seq<Record>, k: bytes, depth: nat, max: nat)
    requires AllSized(rs) && !AllWhole(rs)
    ensures ParseCount(ForestBytes(rs) + k, |rs|, depth, max).Err?
    decreases rs, 0
  {
    var tail := ForestBytes(rs[1..]) + k;
    Regroup3(RecordBytes(rs[0]), ForestBytes(rs[1..]), k);
    FirstOfForest(rs, tail, depth, max);
    hide RecordBytes, ParseRecord, Whole, Sized, Trim;
    if Whole(rs[0]) {
      MissingInCount(rs[1..], k, depth, max);
    }
  }

  /** The first record is refused, or it is read and what follows it is left. */
  lemma {:induction false} FirstOfForest(rs: seq<Record>, tail: bytes, depth: nat, max: nat)
    requires rs != [] && Sized(rs[0])
    ensures var r := ParseRecord(RecordBytes(rs[0]) + tail, depth, max);
            r.Err? || (Whole(rs[0]) && r == Ok((Trim(rs[0]), tail)))
    decreases rs, 0, 0
  {
    hide ParseRecord, Sized, Whole, Trim, Encodable;
    if Whole(rs[0]) {
      AnyRecordReadsBack(rs[0], tail, depth, max);
    } else {
      MissingRefused(rs[0], tail, depth, max);
    }
  }

  lemma AnyRecordReadsBack(r: Record, k: bytes, depth: nat, max: nat)
    requires Sized(r) && Whole(r)
    ensures ParseRecord(RecordBytes(r) + k, depth, max)
         == if depth + Height(Trim(r)) <= max then Ok((Trim(r), k)) else Err(DepthExceeded)
  {
    hide ParseRecord, RecordBytes, Height, Trim, Sized, Whole, Encodable;
    TrimKeepsBytes(r);
    TrimIsEncodable(r);
    RecordReadsBack(Trim(r), k, depth, max);
  }

  // ---- main results on records

  /**
    * Any record of writable size: its trimmed form comes back with exactly its bytes consumed if
    * nothing is missing and the trimmed tree fits the budget, and otherwise it is refused.
    */
  lemma RecordReadsBackTrimmed(r: Record, k: bytes, depth: nat, max: nat)
    requires Sized(r)
    ensures ParseRecord(RecordBytes(r) + k, depth, max) == Ok((Trim(r), k))
       <==> Whole(r) && depth + Height(Trim(r)) <= max
    ensures ParseRecord(RecordBytes(r) + k, depth, max).Ok? ==>
              ParseRecord(RecordBytes(r) + k, depth, max) == Ok((Trim(r), k))
    ensures Whole(r) && depth + Height(Trim(r)) > max ==>
              ParseRecord(RecordBytes(r) + k, depth, max) == Err(DepthExceeded)
  {
    hide ParseRecord, RecordBytes, Height, Trim, Sized, Whole;
    if Whole(r) {
      AnyRecordReadsBack(r, k, depth, max);
    } else {
      MissingRefused(r, k, depth, max);
    }
  }

  /** A record comes back as itself exactly when its key-values have one child each and it fits. */
  lemma RecordReadsBackExactly(r: Record, k: bytes, depth: nat, max: nat)
    requires Sized(r)
    ensures ParseRecord(RecordBytes(r) + k, depth, max) == Ok((r, k)) <==> Encodable(r) && depth + Height(r) <= max
  {
    hide ParseRecord, RecordBytes, Height, Trim, Sized, Whole, Encodable;
    RecordReadsBackTrimmed(r, k, depth, max);
    EncodableExactly(r);
  }

  /** A stream of records comes back trimmed exactly when nothing is missing and the tallest fits. */
  lemma ForestReadsBackTrimmed(rs: seq<Record>, depth: nat, max: nat)
    requires AllSized(rs)
    ensures ParseStream(ForestBytes(rs), depth, max) == Ok(TrimAll(rs))
       <==> AllWhole(rs) && (rs == [] || depth + Tallest(TrimAll(rs)) <= max)
    ensures ParseStream(ForestBytes(rs), depth, max).Ok? ==>
              ParseStream(ForestBytes(rs), depth, max) == Ok(TrimAll(rs))
  {
    if rs != [] && depth > max {
      TooDeepFirst(rs, depth, max);
    }
    hide ParseStream, ForestBytes, AllSized, AllWhole, Tallest, TrimAll;
    if !AllWhole(rs) {
      MissingInForest(rs, depth, max);
    } else if depth <= max {
      TrimKeepsForest(rs);
      TrimAllEncodable(rs);
      ForestReadsBack(TrimAll(rs), depth, max);
    } else {
      NothingInForest(depth, max);
    }
  }

  lemma TooDeepFirst(rs: seq<Record>, depth: nat, max: nat)
    requires rs != [] && depth > max
    ensures ParseStream(ForestBytes(rs), depth, max).Err?
  {
  }

  lemma NothingInForest(depth: nat, max: nat)
    ensures ParseStream(ForestBytes([]), depth, max) == Ok(TrimAll([])) && AllWhole([])
  {
  }

  // ---- containers

  /** Holes have no body, so their records are left alone. */
  function TrimSection(s: SectionSpec): SectionSpec {
    if s.kind == Free then s else s.(records := TrimAll(s.records))
  }

  function TrimSections(sections: seq<SectionSpec>): (t: seq<SectionSpec>)
    ensures |t| == |sections|
  {
    if sections == [] then [] else [TrimSection(sections[0])] + TrimSections(sections[1..])
  }

  function TrimSpec(b: Spec): Spec {
    b.(sections := TrimSections(b.sections))
  }

  predicate SectionsSized(sections: seq<SectionSpec>) {
    sections == [] || ((sections[0].kind != Free ==> AllSized(sections[0].records)) && SectionsSized(sections[1..]))
  }

  predicate SectionsWhole(sections: seq<SectionSpec>) {
    sections == [] || ((sections[0].kind != Free ==> AllWhole(sections[0].records)) && SectionsWhole(sections[1..]))
  }

  predicate SectionsEncodable(sections: seq<SectionSpec>) {
    sections == []
    || ((sections[0].kind != Free ==> AllEncodable(sections[0].records)) && SectionsEncodable(sections[1..]))
  }

  /** What the builder's fields have to hold. */
  predicate Written(b: Spec) {
    && |b.sections| < TWO16 && BodiesStart(b) + |BodiesBytes(b.sections)| < TWO32
    && SectionsSized(b.sections)
  }

  lemma TrimKeepsSection(s: SectionSpec, offset: nat)
    ensures SectionBody(TrimSection(s)) == SectionBody(s) && ItemCount(TrimSection(s)) == ItemCount(s)
    ensures EntryBytes(TrimSection(s), offset) == EntryBytes(s, offset)
  {
    hide Le, Crc32, ForestBytes, TrimAll;
    TrimKeepsForest(s.records);
  }

  lemma {:induction false} TrimKeepsSections(sections: seq<SectionSpec>, offset: nat)
    ensures BodiesBytes(TrimSections(sections)) == BodiesBytes(sections)
    ensures TableBytes(TrimSections(sections), offset) == TableBytes(sections, offset)
    decreases sections
  {
    hide EntryBytes, SectionBody, TrimSection;
    if sections != [] {
      TrimKeepsSection(sections[0], offset);
      TrimKeepsSections(sections[1..], offset + |SectionBody(sections[0])|);
      assert TrimSections(sections)[1..] == TrimSections(sections[1..]);
    }
  }

  /** The file says nothing about the children that are not written. */
  lemma TrimKeepsContainer(b: Spec)
    ensures ContainerBytes(TrimSpec(b)) == ContainerBytes(b) && BodiesStart(TrimSpec(b)) == BodiesStart(b)
  {
    hide Crc32, Le, TableBytes, BodiesBytes, TrimSections;
    TrimKeepsSections(b.sections, BodiesStart(b));
  }

  lemma {:induction false} EncodableSections(sections: seq<SectionSpec>)
    ensures SectionsEncodable(sections)
       <==> SectionsSized(sections) && SectionsWhole(sections) && TrimSections(sections) == sections
  {
    hide AllEncodable, AllSized, AllWhole, TrimAll;
    if sections != [] {
      var s := sections[0];
      AllEncodableExactly(s.records);
      EncodableSections(sections[1..]);
      assert s.(records := s.records) == s;
      assert TrimSections(sections)[1..] == TrimSections(sections[1..]) && TrimSections(sections)[0] == TrimSection(s);
      assert sections == [s] + sections[1..];
    }
  }

  lemma {:induction false} TrimmedSectionsEncodable(sections: seq<SectionSpec>)
    requires SectionsSized(sections) && SectionsWhole(sections)
    ensures SectionsEncodable(TrimSections(sections))
  {
    hide AllEncodable, AllSized, AllWhole, TrimAll;
    if sections != [] {
      if sections[0].kind != Free {
        TrimAllEncodable(sections[0].records);
      }
      TrimmedSectionsEncodable(sections[1..]);
      assert TrimSections(sections)[1..] == TrimSections(sections[1..]);
    }
  }

  lemma {:induction false} EncodableEach(sections: seq<SectionSpec>)
    requires SectionsEncodable(sections)
    ensures forall s | s in sections && s.kind != Free :: AllEncodable(s.records)
  {
    hide AllEncodable;
    if sections != [] {
      EncodableEach(sections[1..]);
      assert sections == [sections[0]] + sections[1..];
    }
  }

  /** A section with a childless key-value in it is refused. */
  lemma MissingInSection(s: bytes, offset: nat, x: SectionSpec, strict: bool, max: nat)
    requires HoldsAt(s, offset, SectionBody(x)) && offset + |SectionBody(x)| < TWO32
    requires x.kind != Free && AllSized(x.records) && !AllWhole(x.records)
    ensures ParseSection(s, EntryOf(x, offset), strict, max).Err?
  {
    hide Crc32, ForestBytes, ParseStream, AllSized, AllWhole;
    MissingInForest(x.records, 0, max);
  }

  /** The bytes `part` lie at `offset`. */
  predicate HoldsAt(s: bytes, offset: nat, part: bytes) {
    offset + |part| <= |s| && s[offset..offset + |part|] == part
  }

  lemma PartsHold(s: bytes, offset: nat, a: bytes, b: bytes)
    requires HoldsAt(s, offset, a + b)
    ensures HoldsAt(s, offset, a) && HoldsAt(s, offset + |a|, b)
  {
    var whole := s[offset..offset + |a| + |b|];
    assert whole[..|a|] == a && whole[|a|..] == b;
  }

  lemma {:induction false} MissingInSections(s: bytes, offset: nat, sections: seq<SectionSpec>, strict: bool, max: nat)
    requires HoldsAt(s, offset, BodiesBytes(sections)) && offset + |BodiesBytes(sections)| < TWO32
    requires SectionsSized(sections) && !SectionsWhole(sections)
    ensures ParseSections(s, EntriesOf(sections, offset), strict, max).Err?
    decreases sections
  {
    hide HoldsAt, SectionBody, ParseSection, ParseSections, AllSized, AllWhole, EntriesOf, EntryOf;
    var x, rest := sections[0], sections[1..];
    PartsHold(s, offset, SectionBody(x), BodiesBytes(rest));
    MissingThen(s, offset, sections, strict, max);
    if x.kind != Free && !AllWhole(x.records) {
      MissingInSection(s, offset, x, strict, max);
    } else {
      MissingInSections(s, offset + |SectionBody(x)|, rest, strict, max);
    }
  }

  /** A section that is refused ends the reading. */
  lemma MissingThen(s: bytes, offset: nat, sections: seq<SectionSpec>, strict: bool, max: nat)
    requires sections != [] && offset + |BodiesBytes(sections)| < TWO32
    ensures |SectionBody(sections[0])| + |BodiesBytes(sections[1..])| == |BodiesBytes(sections)|
    ensures ParseSection(s, EntryOf(sections[0], offset), strict, max).Err?
         || ParseSections(s, EntriesOf(sections[1..], offset + |SectionBody(sections[0])|), strict, max).Err?
        ==> ParseSections(s, EntriesOf(sections, offset), strict, max).Err?
  {
    hide ParseSection, ParseSections, SectionBody, EntryOf, EntriesOf;
    ConsSections(s, offset, sections, strict, max);
  }

  lemma MissingInContainer(b: Spec, strict: bool, max: nat)
    requires Written(b) && b.version == 1 && !SectionsWhole(b.sections)
    ensures Parse(ContainerBytes(b), strict, max).Err?
  {
    var s, start := ContainerBytes(b), BodiesStart(b);
    var header, table, bodies := HeaderBlock(b), TableBytes(b.sections, start), BodiesBytes(b.sections);
    var trailer := if b.hasTrailer then Le(Crc32(MainBytes(b)), 4) else [];
    hide HeaderBlock, TableBytes, BodiesBytes, Le, Crc32, ParseHeader, ParseTable, ParseSections, ParseTrailer,
         HeaderFlags, HasTrailer, AllBodiesOk, MetadataOf, EntriesOf, SectionsWhole, SectionsSized;
    assert s == header + (table + (bodies + trailer)) by { Regroup4(header, table, bodies, trailer); }
    HeaderReadsBack(b, table + (bodies + trailer), strict);
    assert s[HEADER_TOTAL..] == table + (bodies + trailer);
    TableReadsBack(b.sections, start, bodies + trailer);
    assert s == (header + table) + bodies + trailer by { Regroup4(header, table, bodies, trailer); }
    assert s[start..start + |bodies|] == bodies;
    MissingInSections(s, start, b.sections, strict, max);
  }

  /** A version other than 1 is written as it is, and refused whatever else the file holds. */
  lemma OtherVersionRefused(b: Spec, strict: bool, max: nat)
    requires b.version != 1
    ensures Parse(ContainerBytes(b), strict, max) == Err(BadVersion)
  {
    var v := Le(b.version, 2);
    var rest := VersionRest(b);
    hide Le, FromLe, Le16, Crc32, ParseTable, ParseSections, ParseTrailer;
    Field16ReadsBack(MAGIC, b.version, rest);
    assert (MAGIC + v + rest)[0..4] == MAGIC;
  }

  /** What the file holds behind its version. */
  lemma VersionRest(b: Spec) returns (rest: bytes)
    ensures ContainerBytes(b) == MAGIC + Le(b.version, 2) + rest
  {
    hide Le, Crc32, TableBytes, BodiesBytes;
    var s := ContainerBytes(b);
    rest := s[6..];
    assert HeaderFields(b)[..6] == MAGIC + Le(b.version, 2);
    assert s[..6] == HeaderFields(b)[..6];
    assert s == s[..6] + s[6..];
  }

  // ---- main results on containers

  /**
    * Any container: it parses to its trimmed records with every checksum good if its version is
    * 1, no key-value is without a child and the trimmed trees fit the budget. Another version is
    * BadVersion, trees too tall DepthExceeded, and nothing else is ever returned.
    */
  lemma ContainerReadsBackTrimmed(b: Spec, strict: bool, max: nat)
    requires Written(b)
    ensures BodiesStart(TrimSpec(b)) + |BodiesBytes(TrimSpec(b).sections)| < TWO32
    ensures Parse(ContainerBytes(b), strict, max) == Ok(ContainerOf(TrimSpec(b)))
       <==> b.version == 1 && SectionsWhole(b.sections) && TallestSection(TrimSpec(b).sections) <= max
    ensures Parse(ContainerBytes(b), strict, max).Ok? ==>
              Parse(ContainerBytes(b), strict, max) == Ok(ContainerOf(TrimSpec(b)))
    ensures b.version != 1 ==> Parse(ContainerBytes(b), strict, max) == Err(BadVersion)
    ensures b.version == 1 && SectionsWhole(b.sections) && TallestSection(TrimSpec(b).sections) > max ==>
              Parse(ContainerBytes(b), strict, max) == Err(DepthExceeded)
  {
    hide Parse, ContainerBytes, TallestSection, SectionsWhole, SectionsSized, BodiesBytes, TrimSections;
    TrimKeepsContainer(b);
    TrimKeepsSections(b.sections, 0);
    if b.version != 1 {
      OtherVersionRefused(b, strict, max);
    } else if SectionsWhole(b.sections) {
      TrimmedSectionsEncodable(b.sections);
      EncodableEach(TrimSpec(b).sections);
      ContainerRoundTrip(TrimSpec(b), strict, max);
    } else {
      MissingInContainer(b, strict, max);
    }
  }

  /** Sections that parse to the same records had them. */
  lemma {:induction false} SameSections(a: seq<SectionSpec>, b: seq<SectionSpec>, offset: nat)
    requires a == TrimSections(b) && offset + |BodiesBytes(a)| < TWO32 && offset + |BodiesBytes(b)| < TWO32
    requires SectionsOf(a, offset) == SectionsOf(b, offset)
    ensures a == b
    decreases |b|
  {
    if b != [] {
      hide SectionBody, TrimAll;
      TrimKeepsSection(b[0], offset);
      var next := offset + |SectionBody(b[0])|;
      assert a[1..] == TrimSections(b[1..]) && a[0] == TrimSection(b[0]);
      assert SectionsOf(a, offset)[1..] == SectionsOf(a[1..], next);
      assert SectionsOf(b, offset)[1..] == SectionsOf(b[1..], next);
      assert SectionsOf(a, offset)[0].records == SectionsOf(b, offset)[0].records;
      SameSections(a[1..], b[1..], next);
      assert b[0].(records := b[0].records) == b[0];
      assert a == [a[0]] + a[1..] && b == [b[0]] + b[1..];
    }
  }

  /** A container comes back as built exactly when its version is 1, every key-value has one child and it fits. */
  lemma ContainerReadsBackExactly(b: Spec, strict: bool, max: nat)
    requires Written(b)
    ensures Parse(ContainerBytes(b), strict, max) == Ok(ContainerOf(b))
       <==> b.version == 1 && SectionsEncodable(b.sections) && TallestSection(b.sections) <= max
  {
    hide Parse, ContainerBytes, TallestSection, SectionsWhole, SectionsSized, SectionsEncodable, TrimSections,
         BodiesBytes, SectionsOf;
    ContainerReadsBackTrimmed(b, strict, max);
    EncodableSections(b.sections);
    TrimKeepsContainer(b);
    var t := TrimSpec(b);
    if Parse(ContainerBytes(b), strict, max) == Ok(ContainerOf(b)) {
      assert ContainerOf(t).sections == ContainerOf(b).sections;
      SameSections(t.sections, b.sections, BodiesStart(b));
      assert t == b;
    } else if SectionsEncodable(b.sections) {
      assert t == b;
    }
  }
}
