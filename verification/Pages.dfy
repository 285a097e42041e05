/** The page array. */
module Pages {
  // pages.cpp: pages and their slot directories, clamped to the bytes a file has.

  import opened Common
  import opened Numbers

  const FILE_HEADER: nat := 32
  const PAGE_HEADER: nat := 8
  const SLOT_BYTES: nat := 4
  const NO_OVERFLOW: u16 := 0xFFFF
  const DATA_PAGE: byte := 1
  const INDEX_PAGE: byte := 3

  datatype Slot = Slot(recOffset: u16, recLength: u16, inBounds: bool)

  datatype Page = Page(index: nat, kind: byte, flags: byte, slotCount: u16, freeStart: u16, overflowNext: u16,
                       truncated: bool, slots: seq<Slot>)

  datatype PageSpan = PageSpan(offset: nat, length: nat)

  /** A page of which not even the header is there. */
  function Stub(index: nat): Page {
    Page(index, 0, 0, 0, 0, NO_OVERFLOW, true, [])
  }

  function PageOffset(i: nat, pageSize: nat): nat {
    FILE_HEADER + i * pageSize
  }

  /** The bytes of page `i` that exist. */
  function SpanAt(size: nat, i: nat, pageSize: nat): PageSpan
    requires PageOffset(i, pageSize) < size
  {
    PageSpan(PageOffset(i, pageSize), Min(size - PageOffset(i, pageSize), pageSize))
  }

  function Word(s: bytes, at: nat): u16
    requires at + 2 <= |s|
  {
    FromLeBound(s[at..at + 2]);
    Widths();
    FromLe(s[at..at + 2])
  }

  /** How many directory entries fit in the bytes there are. */
  function FitEntries(slotCount: nat, length: nat): (n: nat)
    requires length >= PAGE_HEADER
    ensures n <= slotCount && PAGE_HEADER + n * SLOT_BYTES <= length
    ensures n < slotCount ==> PAGE_HEADER + (n + 1) * SLOT_BYTES > length
  {
    if PAGE_HEADER + slotCount * SLOT_BYTES > length then (length - PAGE_HEADER) / SLOT_BYTES else slotCount
  }

  /** A slot is in bounds when its record lies in the declared page, behind the page header. */
  function SlotAt(body: bytes, s: nat, pageSize: nat): Slot
    requires PAGE_HEADER + (s + 1) * SLOT_BYTES <= |body|
  {
    var at := PAGE_HEADER + s * SLOT_BYTES;
    var offset, length := Word(body, at), Word(body, at + 2);
    Slot(offset, length, offset >= PAGE_HEADER && offset + length <= pageSize)
  }

  function SlotsOf(body: bytes, n: nat, pageSize: nat): (r: seq<Slot>)
    requires PAGE_HEADER + n * SLOT_BYTES <= |body|
    ensures |r| == n
  {
    seq(n, s requires 0 <= s < n => SlotAt(body, s, pageSize))
  }

  /** The page whose available bytes are `body`. */
  function PageOf(body: bytes, i: nat, pageSize: nat): Page {
    if |body| < PAGE_HEADER then Stub(i)
    else
      var slotCount := Word(body, 2);
      var fit := FitEntries(slotCount, |body|);
      Page(i, body[0], body[1], slotCount, Word(body, 4), Word(body, 6),
           |body| < pageSize || fit < slotCount, SlotsOf(body, fit, pageSize))
  }

  /** The pages of a file: as many as declared, up to the first that starts past the end. */
  function PageTotal(size: nat, pageCount: nat, pageSize: nat, i: nat): (n: nat)
    requires i <= pageCount
    ensures i <= n <= pageCount
    decreases pageCount - i
  {
    if i == pageCount || PageOffset(i, pageSize) >= size then i else PageTotal(size, pageCount, pageSize, i + 1)
  }

  lemma {:induction false} TotalInFile(size: nat, pageCount: nat, pageSize: nat, i: nat)
    requires i <= pageCount
    ensures forall j | i <= j < PageTotal(size, pageCount, pageSize, i) :: PageOffset(j, pageSize) < size
    ensures var n := PageTotal(size, pageCount, pageSize, i); n < pageCount ==> PageOffset(n, pageSize) >= size
    decreases pageCount - i
  {
    if i < pageCount && PageOffset(i, pageSize) < size {
      hide PageOffset;
      TotalInFile(size, pageCount, pageSize, i + 1);
    }
  }

  function PageBody(data: bytes, span: PageSpan): bytes
    requires span.offset + span.length <= |data|
  {
    data[span.offset..span.offset + span.length]
  }

  /** Every page is what its available bytes say, and has the span of those bytes. */
  ghost predicate Decoded(data: bytes, pages: seq<Page>, spans: seq<PageSpan>, pageSize: nat) {
    && |pages| == |spans|
    && forall i | 0 <= i < |pages| ::
         && PageOffset(i, pageSize) < |data| && spans[i] == SpanAt(|data|, i, pageSize)
         && pages[i] == PageOf(PageBody(data, spans[i]), i, pageSize)
  }

  lemma DecodedSnoc(data: bytes, pages: seq<Page>, spans: seq<PageSpan>, page: Page, span: PageSpan, pageSize: nat)
    requires Decoded(data, pages, spans, pageSize) && PageOffset(|pages|, pageSize) < |data|
    requires span == SpanAt(|data|, |pages|, pageSize) && page == PageOf(PageBody(data, span), |pages|, pageSize)
    ensures Decoded(data, pages + [page], spans + [span], pageSize)
  {
    hide PageOffset, PageOf, PageBody, SpanAt;
  }

  /** `parse_pages`: the pages that start in the file, and the span each was read from. */
  method ParsePages(data: bytes, pageCount: u32, pageSize: nat) returns (pages: seq<Page>, spans: seq<PageSpan>)
    ensures |pages| == PageTotal(|data|, pageCount, pageSize, 0) && Decoded(data, pages, spans, pageSize)
  {
    hide Decoded, PageOf;
    pages, spans := [], [];
    NothingDecoded(data, pageSize);
    var i := 0;
    while i < pageCount
      invariant 0 <= i <= pageCount && |pages| == i && Decoded(data, pages, spans, pageSize)
      invariant PageTotal(|data|, pageCount, pageSize, i) == PageTotal(|data|, pageCount, pageSize, 0)
      decreases pageCount - i
    {
      var offset := PageOffset(i, pageSize);
      if offset >= |data| {
        break;
      }
      var avail := |data| - offset;
      var length := if avail < pageSize then avail else pageSize;
      var span := PageSpan(offset, length);
      var page := ParsePage(data[offset..offset + length], i, pageSize);
      DecodedSnoc(data, pages, spans, page, span, pageSize);
      pages, spans := pages + [page], spans + [span];
      i := i + 1;
    }
  }

  lemma NothingDecoded(data: bytes, pageSize: nat)
    ensures Decoded(data, [], [], pageSize)
  {
  }

  /** One page, through a cursor over exactly its available bytes. */
  method ParsePage(body: bytes, i: nat, pageSize: nat) returns (page: Page)
    ensures page == PageOf(body, i, pageSize)
  {
    if |body| < PAGE_HEADER {
      return Stub(i);
    }
    var slotCount := Word(body, 2);
    var truncated := |body| < pageSize;
    var fit: nat := slotCount;
    if PAGE_HEADER + slotCount * SLOT_BYTES > |body| {
      fit := (|body| - PAGE_HEADER) / SLOT_BYTES;
      truncated := true;
    }
    var slots: seq<Slot> := [];
    for s := 0 to fit
      invariant |slots| == s && forall j | 0 <= j < s :: slots[j] == SlotAt(body, j, pageSize)
    {
      var at := PAGE_HEADER + s * SLOT_BYTES;
      var offset, length := Word(body, at), Word(body, at + 2);
      slots := slots + [Slot(offset, length, offset >= PAGE_HEADER && offset + length <= pageSize)];
    }
    assert slots == SlotsOf(body, fit, pageSize);
    page := Page(i, body[0], body[1], slotCount, Word(body, 4), Word(body, 6), truncated, slots);
  }

  /** `derive_spans`: the spans again, from the file size and the number of pages alone. */
  function DerivedSpan(size: nat, i: nat, pageSize: nat): PageSpan {
    if PageOffset(i, pageSize) >= size || pageSize == 0 then PageSpan(PageOffset(i, pageSize), 0)
    else SpanAt(size, i, pageSize)
  }

  method DeriveSpans(size: nat, pageCount: nat, pageSize: nat) returns (spans: seq<PageSpan>)
    ensures |spans| == pageCount && forall i | 0 <= i < pageCount :: spans[i] == DerivedSpan(size, i, pageSize)
  {
    hide PageOffset;
    spans := [];
    for i := 0 to pageCount
      invariant |spans| == i && forall j | 0 <= j < i :: spans[j] == DerivedSpan(size, j, pageSize)
    {
      var offset := PageOffset(i, pageSize);
      if offset >= size || pageSize == 0 {
        spans := spans + [PageSpan(offset, 0)];
      } else {
        var avail := size - offset;
        spans := spans + [PageSpan(offset, if avail < pageSize then avail else pageSize)];
      }
    }
  }

  /** The spans derived for the pages a parse found are the spans the parse produced. */
  lemma DerivedAreParsed(size: nat, pageCount: nat, pageSize: nat, i: nat)
    requires i < PageTotal(size, pageCount, pageSize, 0)
    ensures PageOffset(i, pageSize) < size && DerivedSpan(size, i, pageSize) == SpanAt(size, i, pageSize)
  {
    TotalInFile(size, pageCount, pageSize, 0);
  }
}
