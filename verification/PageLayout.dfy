/** What the bytes of a page mean. */
module PageLayout {
  // Every field of a page, of a slot, of an index entry and of an overflow payload, by the bytes of
  // the file it stands in; and index entries and overflow pages read back as they were laid out.

  import opened ByteReading
  import opened Common
  import opened IndexPages
  import opened Journal
  import opened Numbers
  import opened Overflow
  import opened Pages
  import opened Seqs

  // ---- pages and slots

  /** How many directory entries of four bytes lie behind a header of eight. */
  ghost predicate Entries(n: nat, declared: nat, length: nat) {
    n <= declared && 8 + 4 * n <= length && (n < declared ==> 8 + 4 * (n + 1) > length)
  }

  /** A slot is two words of its directory entry; its record lies in the page, behind the header. */
  ghost predicate SlotSpelled(slot: Slot, body: bytes, at: nat, pageSize: nat)
    requires at + 4 <= |body|
  {
    && slot.recOffset == Two(body[at], body[at + 1])
    && slot.recLength == Two(body[at + 2], body[at + 3])
    && (slot.inBounds <==> slot.recOffset >= 8 && slot.recOffset + slot.recLength <= pageSize)
  }

  /** The page whose bytes are `body`: kind, flags, then four words, then the directory. */
  ghost predicate PageSpelled(page: Page, body: bytes, i: nat, pageSize: nat) {
    if |body| < 8 then page == Page(i, 0, 0, 0, 0, 0xFFFF, true, [])
    else
      && page.index == i && page.kind == body[0] && page.flags == body[1]
      && page.slotCount == Two(body[2], body[3]) && page.freeStart == Two(body[4], body[5])
      && page.overflowNext == Two(body[6], body[7])
      && Entries(|page.slots|, page.slotCount, |body|)
      && (page.truncated <==> |body| < pageSize || |page.slots| < page.slotCount)
      && forall s | 0 <= s < |page.slots| :: SlotSpelled(page.slots[s], body, 8 + 4 * s, pageSize)
  }

  lemma WordAt(body: bytes, at: nat)
    requires at + 2 <= |body|
    ensures Word(body, at) == Two(body[at], body[at + 1])
  {
    LeFields(body[at..at + 2]);
    hide FromLe;
  }

  lemma PageExactly(body: bytes, i: nat, pageSize: nat)
    ensures PageSpelled(PageOf(body, i, pageSize), body, i, pageSize)
  {
    hide Word;
    if |body| >= 8 {
      WordAt(body, 2);
      WordAt(body, 4);
      WordAt(body, 6);
      var page := PageOf(body, i, pageSize);
      forall s | 0 <= s < |page.slots| ensures SlotSpelled(page.slots[s], body, 8 + 4 * s, pageSize) {
        WordAt(body, 8 + 4 * s);
        WordAt(body, 10 + 4 * s);
      }
    }
  }

  /** The bytes of page `i`: behind 32 bytes of file header, as far as they exist. */
  function BytesOfPage(data: bytes, i: nat, pageSize: nat): bytes
    requires 32 + i * pageSize < |data|
  {
    data[32 + i * pageSize..Min(|data|, 32 + i * pageSize + pageSize)]
  }

  /** Every page of a parsed file is spelled by its bytes, and its span is where they are. */
  lemma PagesExactly(data: bytes, pages: seq<Page>, spans: seq<PageSpan>, pageSize: nat, i: nat)
    requires Decoded(data, pages, spans, pageSize) && i < |pages|
    ensures 32 + i * pageSize < |data| && PageSpelled(pages[i], BytesOfPage(data, i, pageSize), i, pageSize)
    ensures spans[i] == PageSpan(32 + i * pageSize, |BytesOfPage(data, i, pageSize)|)
  {
    hide PageOf, PageSpelled;
    var body := PageBody(data, spans[i]);
    assert body == BytesOfPage(data, i, pageSize);
    PageExactly(body, i, pageSize);
  }

  /** And there are as many as declared, or as start in the file. */
  lemma PagesCounted(size: nat, pageCount: nat, pageSize: nat)
    ensures var n := PageTotal(size, pageCount, pageSize, 0);
            && n <= pageCount && (forall i | 0 <= i < n :: 32 + i * pageSize < size)
            && (n < pageCount ==> 32 + n * pageSize >= size)
  {
    hide PageTotal;
    TotalInFile(size, pageCount, pageSize, 0);
    forall i | 0 <= i < PageTotal(size, pageCount, pageSize, 0) ensures 32 + i * pageSize < size {
      assert PageOffset(i, pageSize) < size;
    }
  }

  /** The bytes a slot of a data page names, from the start of the page. */
  lemma SeedExactly(data: bytes, pages: seq<Page>, spans: seq<PageSpan>, pageSize: nat, key: RecordKey)
    requires Decoded(data, pages, spans, pageSize)
    ensures var p, s := key.page, key.slot;
            if p < |pages| && pages[p].kind == 1 && s < |pages[p].slots| then
              var body, at := BytesOfPage(data, p, pageSize), 8 + 4 * s;
              && |body| >= at + 4
              && var o, n := Two(body[at], body[at + 1]), Two(body[at + 2], body[at + 3]);
                 var from := 32 + p * pageSize + o;
                 SeedAt(data, pages, spans, key)
                 == if o >= 8 && o + n <= pageSize && n > 0 && from + n <= |data| then Some(data[from..from + n])
                    else None
            else SeedAt(data, pages, spans, key) == None
  {
    hide PageOf, Decoded;
    if key.page < |pages| {
      PagesExactly(data, pages, spans, pageSize, key.page);
      SpansToo(data, pages, spans, pageSize);
    }
  }

  lemma SpansToo(data: bytes, pages: seq<Page>, spans: seq<PageSpan>, pageSize: nat)
    requires Decoded(data, pages, spans, pageSize)
    ensures |spans| == |pages|
  {
  }

  // ---- index entries

  /** A key behind its length, then the page in four bytes and the slot in two, lowest first. */
  function IndexEntryBytes(e: IndexEntry): bytes {
    Varint(|e.key|) + e.key + FourBytes(e.page) + TwoBytes(e.slot)
  }

  function IndexEntriesBytes(es: seq<IndexEntry>): bytes {
    if es == [] then [] else IndexEntryBytes(es[0]) + IndexEntriesBytes(es[1..])
  }

  predicate KeysFit(es: seq<IndexEntry>) {
    forall i | 0 <= i < |es| :: |es[i].key| < TWO64
  }

  lemma IndexEntryReadsBack(e: IndexEntry, k: bytes)
    requires |e.key| < TWO64
    ensures ReadIndexEntry(IndexEntryBytes(e) + k) == Ok((e, k))
  {
    hide Numbers.ReadVarint, Numbers.Varint, Word16, Word32;
    var page, slot := FourBytes(e.page), TwoBytes(e.slot);
    Regroup5(Varint(|e.key|), e.key, page, slot, k);
    var behind := page + (slot + k);
    VarintRoundTrip(|e.key|, e.key + behind);
    assert (e.key + behind)[..|e.key|] == e.key && (e.key + behind)[|e.key|..] == behind;
    assert behind[..4] == page && behind[4..] == slot + k;
    assert (slot + k)[..2] == slot && (slot + k)[2..] == k;
    WordsReadBack(e.slot, e.page);
  }

  /** Entries as laid out are read in order; where fewer decode than were announced, the page is cut short. */
  lemma {:induction false} WireReadsBack(es: seq<IndexEntry>, k: bytes, more: nat)
    requires KeysFit(es) && (more > 0 ==> ReadIndexEntry(k).Err?)
    ensures WireEntries(IndexEntriesBytes(es) + k, |es| + more) == IndexPage(es, more > 0)
    decreases |es|
  {
    hide IndexEntryBytes, ReadIndexEntry;
    if es == [] {
      assert IndexEntriesBytes(es) + k == k;
    } else {
      var rest := IndexEntriesBytes(es[1..]) + k;
      Regroup3(IndexEntryBytes(es[0]), IndexEntriesBytes(es[1..]), k);
      IndexEntryReadsBack(es[0], rest);
      WireReadsBack(es[1..], k, more);
      assert es == [es[0]] + es[1..];
    }
  }

  /** An index page: eight header bytes of which the first says 3, the number of entries, the entries. */
  lemma IndexPageReadsBack(header: bytes, es: seq<IndexEntry>, k: bytes, more: nat)
    requires |header| == 8 && header[0] == 3 && KeysFit(es) && |es| + more < TWO64
    requires more > 0 ==> ReadIndexEntry(k).Err?
    ensures WirePage(header + (Varint(|es| + more) + (IndexEntriesBytes(es) + k))) == IndexPage(es, more > 0)
  {
    hide Numbers.ReadVarint, Numbers.Varint, IndexEntriesBytes, WireEntries;
    var body := Varint(|es| + more) + (IndexEntriesBytes(es) + k);
    var page := header + body;
    assert page[8..] == body && page[0] == header[0];
    VarintRoundTrip(|es| + more, IndexEntriesBytes(es) + k);
    WireReadsBack(es, k, more);
  }

  /** A page of another kind has no entries, and one without a whole header counts as cut short. */
  lemma NoIndexPage(page: bytes)
    ensures |page| < 8 ==> WirePage(page) == IndexPage([], true)
    ensures |page| >= 8 && page[0] != 3 ==> WirePage(page) == IndexPage([], false)
  {
  }

  // ---- overflow payloads

  /**
    * A page's payload stands behind its eight header bytes and ends where its free space starts,
    * or where its bytes end.
    */
  lemma PayloadExactly(c: Chain, page: nat)
    requires c.InRange(page)
    ensures var span := c.spans[page];
            var end := if c.pages[page].freeStart < span.length then c.pages[page].freeStart else span.length;
            var payload := c.Payload(page);
            if end > 8 && span.offset + end <= |c.file| then
              |payload| == end - 8 && forall i | 0 <= i < |payload| :: payload[i] == c.file[span.offset + 8 + i]
            else payload == []
  {
  }

  /** The payload of page `i` of a parsed file, and the page its chain goes on with, by their bytes. */
  lemma OverflowExactly(data: bytes, pages: seq<Page>, spans: seq<PageSpan>, pageSize: nat, i: nat, c: Chain)
    requires Decoded(data, pages, spans, pageSize) && i < |pages|
    requires c.file == data && c.pages == pages && c.spans == spans
    ensures c.InRange(i) && 32 + i * pageSize < |data|
    ensures var body := BytesOfPage(data, i, pageSize);
            if |body| < 8 then c.Next(i) == 0xFFFF && c.Payload(i) == []
            else
              && c.Next(i) == Two(body[6], body[7])
              && var free := Two(body[4], body[5]);
                 c.Payload(i) == if free > 8 then body[8..Min(free, |body|)] else []
  {
    SpansToo(data, pages, spans, pageSize);
    PagesExactly(data, pages, spans, pageSize, i);
    hide Decoded, PageOf, Chain.Payload, BytesOfPage;
    var body := BytesOfPage(data, i, pageSize);
    PayloadExactly(c, i);
    BodyIs(data, i, pageSize);
    var free := pages[i].freeStart;
    var end := if free < |body| then free else |body|;
    if |body| >= 8 && end > 8 {
      assert c.Payload(i) == body[8..end];
    }
  }

  lemma BodyIs(data: bytes, i: nat, pageSize: nat)
    requires 32 + i * pageSize < |data|
    ensures var body, at := BytesOfPage(data, i, pageSize), 32 + i * pageSize;
            at + |body| <= |data| && forall j | 0 <= j < |body| :: body[j] == data[at + j]
  {
  }
}
