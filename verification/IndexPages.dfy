/** Index pages. */
module IndexPages {
  // btree.cpp: decoding an index page, sorting it stably, and searching it.

  import opened ByteReading
  import opened Common
  import opened Numbers
  import opened Pages
  import opened Seqs

  datatype IndexEntry = IndexEntry(key: bytes, page: u32, slot: u16)

  datatype IndexPage = IndexPage(entries: seq<IndexEntry>, truncated: bool)

  // ---- the order of keys

  predicate Less(a: bytes, b: bytes) {
    CompareBytes(a, b) < 0
  }

  /** `key_compare`: byte by byte over the common length, then by length. */
  method KeyCompare(a: bytes, b: bytes) returns (order: int)
    ensures order == CompareBytes(a, b)
  {
    var n := if |a| < |b| then |a| else |b|;
    assert a[0..] == a && b[0..] == b;
    for i := 0 to n
      invariant CompareBytes(a[i..], b[i..]) == CompareBytes(a, b)
    {
      if a[i] != b[i] {
        return if a[i] < b[i] then -1 else 1;
      }
      assert a[i..][1..] == a[i + 1..] && b[i..][1..] == b[i + 1..];
    }
    if |a| == |b| {
      return 0;
    }
    order := if |a| < |b| then -1 else 1;
  }

  // ---- entries on the page

  function ReadIndexEntry(s: bytes): (r: Result<(IndexEntry, bytes)>)
    ensures r.Ok? ==> |r.value.1| < |s|
  {
    var (length, s1) :- ReadVarint(s);
    Shortens(s);
    var (key, s2) :- Split(s1, length);
    var (page, s3) :- Split(s2, 4);
    var (slot, rest) :- Split(s3, 2);
    Ok((IndexEntry(key, Word32(page), Word16(slot)), rest))
  }

  lemma Shortens(s: bytes)
    ensures ReadVarint(s).Ok? ==> |ReadVarint(s).value.1| < |s|
  {
  }

  /** The entries in wire order: as many of `count` as decode cleanly. */
  function WireEntries(s: bytes, count: nat): IndexPage
    decreases count
  {
    if count == 0 then IndexPage([], false)
    else
      match ReadIndexEntry(s)
      case Err(_) => IndexPage([], true)
      case Ok((e, rest)) =>
        var tail := WireEntries(rest, count - 1);
        IndexPage([e] + tail.entries, tail.truncated)
  }

  /** What the body of an index page holds, before it is sorted. */
  function WireBody(s: bytes): IndexPage {
    match ReadVarint(s)
    case Err(_) => IndexPage([], true)
    case Ok((count, rest)) => WireEntries(rest, count)
  }

  function WirePage(page: bytes): IndexPage {
    if |page| < PAGE_HEADER then IndexPage([], true)
    else if page[0] != INDEX_PAGE then IndexPage([], false)
    else WireBody(page[PAGE_HEADER..])
  }

  // ---- sorted entries

  ghost predicate Sorted(entries: seq<IndexEntry>) {
    forall i, j | 0 <= i < j < |entries| :: CompareBytes(entries[i].key, entries[j].key) <= 0
  }

  /** The entries of one key, in order. */
  function WithKey(entries: seq<IndexEntry>, key: bytes): seq<IndexEntry> {
    if entries == [] then []
    else (if entries[0].key == key then [entries[0]] else []) + WithKey(entries[1..], key)
  }

  /** Sorted by key, the entries of every key as they were. */
  ghost predicate StablySorted(sorted: seq<IndexEntry>, wire: seq<IndexEntry>) {
    Sorted(sorted) && forall key: bytes :: WithKey(sorted, key) == WithKey(wire, key)
  }

  lemma {:induction false} WithKeyAppend(a: seq<IndexEntry>, b: seq<IndexEntry>, key: bytes)
    ensures WithKey(a + b, key) == WithKey(a, key) + WithKey(b, key)
    decreases a
  {
    if a == [] {
      assert a + b == b;
    } else {
      assert (a + b)[1..] == a[1..] + b && (a + b)[0] == a[0];
      WithKeyAppend(a[1..], b, key);
      Regroup3(if a[0].key == key then [a[0]] else [], WithKey(a[1..], key), WithKey(b, key));
    }
  }

  lemma {:induction false} NoneWithKey(entries: seq<IndexEntry>, key: bytes)
    requires forall i | 0 <= i < |entries| :: entries[i].key != key
    ensures WithKey(entries, key) == []
  {
    if entries != [] {
      NoneWithKey(entries[1..], key);
    }
  }

  /** An entry put in front of all that are greater, behind all that are not, keeps the order. */
  lemma InsertKeeps(r: seq<IndexEntry>, at: nat, e: IndexEntry, wire: seq<IndexEntry>)
    requires at <= |r| && StablySorted(r, wire)
    requires at > 0 ==> CompareBytes(r[at - 1].key, e.key) <= 0
    requires forall b | at <= b < |r| :: Less(e.key, r[b].key)
    ensures StablySorted(r[..at] + [e] + r[at..], wire + [e])
  {
    InsertSorts(r, at, e);
    forall key: bytes ensures WithKey(r[..at] + [e] + r[at..], key) == WithKey(wire + [e], key) {
      InsertFilters(r, at, e, key);
      WithKeyAppend(wire, [e], key);
    }
  }

  lemma InsertFilters(r: seq<IndexEntry>, at: nat, e: IndexEntry, key: bytes)
    requires at <= |r| && forall b | at <= b < |r| :: Less(e.key, r[b].key)
    ensures WithKey(r[..at] + [e] + r[at..], key) == WithKey(r, key) + WithKey([e], key)
  {
    hide CompareBytes, WithKey;
    var front, back := r[..at], r[at..];
    assert r == front + back;
    WithKeyAppend(front + [e], back, key);
    WithKeyAppend(front, [e], key);
    WithKeyAppend(front, back, key);
    var a, b, x := WithKey(front, key), WithKey(back, key), WithKey([e], key);
    if e.key == key {
      forall i | 0 <= i < |back| ensures back[i].key != key {
        CompareReverses(e.key, back[i].key);
      }
      NoneWithKey(back, key);
      assert a + x + [] == a + [] + x;
    } else {
      NoneWithKey([e], key);
      assert a + [] + b == a + b + [];
    }
  }

  lemma InsertSorts(r: seq<IndexEntry>, at: nat, e: IndexEntry)
    requires at <= |r| && Sorted(r)
    requires at > 0 ==> CompareBytes(r[at - 1].key, e.key) <= 0
    requires forall b | at <= b < |r| :: Less(e.key, r[b].key)
    ensures Sorted(r[..at] + [e] + r[at..])
  {
    hide CompareBytes;
    var q := r[..at] + [e] + r[at..];
    forall i, j | 0 <= i < j < |q| ensures CompareBytes(q[i].key, q[j].key) <= 0 {
      if j < at {
        assert q[i] == r[i] && q[j] == r[j];
      } else if j == at {
        assert q[i] == r[i];
        if i < at - 1 {
          CompareChains(r[i].key, r[at - 1].key, e.key);
        }
      } else if i < at {
        assert q[i] == r[i] && q[j] == r[j - 1];
      } else if i > at {
        assert q[i] == r[i - 1] && q[j] == r[j - 1];
      } else {
        assert q[j] == r[j - 1];
      }
    }
  }

  /** A stable sort; its result is determined, so any stable sort gives the same. */
  method StableSort(wire: seq<IndexEntry>) returns (r: seq<IndexEntry>)
    ensures StablySorted(r, wire)
  {
    hide CompareBytes, StablySorted;
    r := [];
    NothingToSort();
    for i := 0 to |wire|
      invariant StablySorted(r, wire[..i])
    {
      var e := wire[i];
      var at := |r|;
      while at > 0
        invariant 0 <= at <= |r|
        invariant forall b | at <= b < |r| :: Less(e.key, r[b].key)
      {
        var order := KeyCompare(e.key, r[at - 1].key);
        if order >= 0 {
          break;
        }
        at := at - 1;
      }
      if at > 0 {
        CompareReverses(r[at - 1].key, e.key);
      }
      InsertKeeps(r, at, e, wire[..i]);
      assert wire[..i + 1] == wire[..i] + [e];
      r := r[..at] + [e] + r[at..];
    }
    assert wire[..|wire|] == wire;
  }

  lemma NothingToSort()
    ensures StablySorted([], [])
  {
  }

  method DecodeEntry(r: ByteReader) returns (out: Result<IndexEntry>)
    requires r.Valid()
    modifies r
    ensures r.Valid()
    ensures match ReadIndexEntry(old(r.Rest()))
            case Ok((e, rest)) => out == Ok(e) && r.Rest() == rest
            case Err(code) => out == Err(code)
  {
    hide Numbers.ReadVarint;
    var length :- r.ReadVarint();
    var key :- r.ReadBytes(length);
    var page :- r.ReadBytes(4);
    var slot :- r.ReadBytes(2);
    out := Ok(IndexEntry(key, Word32(page), Word16(slot)));
  }

  /** `decode_index_page`: a clean prefix survives a garbled tail, then the entries are sorted. */
  method DecodeIndexPage(page: bytes) returns (out: IndexPage)
    ensures out.truncated == WirePage(page).truncated && StablySorted(out.entries, WirePage(page).entries)
  {
    hide StablySorted, ReadIndexEntry, Numbers.ReadVarint;
    NothingToSort();
    if |page| < PAGE_HEADER {
      return IndexPage([], true);
    }
    if page[0] != INDEX_PAGE {
      return IndexPage([], false);
    }
    var r := new ByteReader(page[PAGE_HEADER..]);
    var count := r.ReadVarint();
    if count.Err? {
      return IndexPage([], true);
    }
    var entries: seq<IndexEntry> := [];
    ghost var wire := WireEntries(r.Rest(), count.value);
    assert [] + wire.entries == wire.entries;
    var truncated := false;
    var i := 0;
    while i < count.value
      invariant 0 <= i <= count.value && r.Valid()
      invariant var rest := WireEntries(r.Rest(), count.value - i);
                wire == IndexPage(entries + rest.entries, rest.truncated)
      decreases count.value - i
    {
      var e := DecodeEntry(r);
      if e.Err? {
        truncated := true;
        break;
      }
      ghost var rest := WireEntries(r.Rest(), count.value - i - 1);
      Regroup3(entries, [e.value], rest.entries);
      entries := entries + [e.value];
      i := i + 1;
    }
    assert entries + [] == entries;
    var sorted := StableSort(entries);
    out := IndexPage(sorted, truncated);
  }

  // ---- searching

  function First(entries: seq<IndexEntry>): Option<IndexEntry> {
    if entries == [] then None else Some(entries[0])
  }

  /** Whether a key lies in a closed window. */
  predicate Within(key: bytes, lo: bytes, hi: bytes) {
    CompareBytes(key, lo) >= 0 && CompareBytes(key, hi) <= 0
  }

  function InWindow(entries: seq<IndexEntry>, lo: bytes, hi: bytes): seq<IndexEntry> {
    if entries == [] then []
    else (if Within(entries[0].key, lo, hi) then [entries[0]] else []) + InWindow(entries[1..], lo, hi)
  }

  /** Binary search for the first entry not before the key, then an exact match. */
  method Lookup(entries: seq<IndexEntry>, key: bytes) returns (found: Option<IndexEntry>)
    requires Sorted(entries)
    ensures found == First(WithKey(entries, key))
  {
    hide CompareBytes;
    var lo, hi := 0, |entries|;
    while lo < hi
      invariant 0 <= lo <= hi <= |entries|
      invariant forall i | 0 <= i < lo :: CompareBytes(entries[i].key, key) < 0
      invariant forall i | hi <= i < |entries| :: CompareBytes(entries[i].key, key) >= 0
    {
      var mid := lo + (hi - lo) / 2;
      var order := KeyCompare(entries[mid].key, key);
      if order < 0 {
        BeforeToo(entries, mid, key);
        lo := mid + 1;
      } else {
        NotBeforeEither(entries, mid, key);
        hi := mid;
      }
    }
    FirstNotBefore(entries, lo, key);
    if lo < |entries| {
      var order := KeyCompare(entries[lo].key, key);
      if order == 0 {
        return Some(entries[lo]);
      }
    }
    found := None;
  }

  lemma BeforeToo(entries: seq<IndexEntry>, mid: nat, key: bytes)
    requires Sorted(entries) && mid < |entries| && CompareBytes(entries[mid].key, key) < 0
    ensures forall i | 0 <= i <= mid :: CompareBytes(entries[i].key, key) < 0
  {
    hide CompareBytes;
    forall i | 0 <= i < mid ensures CompareBytes(entries[i].key, key) < 0 {
      CompareChains(entries[i].key, entries[mid].key, key);
    }
  }

  lemma NotBeforeEither(entries: seq<IndexEntry>, mid: nat, key: bytes)
    requires Sorted(entries) && mid < |entries| && CompareBytes(entries[mid].key, key) >= 0
    ensures forall i | mid <= i < |entries| :: CompareBytes(entries[i].key, key) >= 0
  {
    hide CompareBytes;
    forall i | mid < i < |entries| ensures CompareBytes(entries[i].key, key) >= 0 {
      CompareReverses(entries[mid].key, key);
      CompareChains(key, entries[mid].key, entries[i].key);
      CompareReverses(entries[i].key, key);
    }
  }

  lemma FirstNotBefore(entries: seq<IndexEntry>, lo: nat, key: bytes)
    requires Sorted(entries) && lo <= |entries|
    requires forall i | 0 <= i < lo :: CompareBytes(entries[i].key, key) < 0
    requires forall i | lo <= i < |entries| :: CompareBytes(entries[i].key, key) >= 0
    ensures First(WithKey(entries, key))
         == if lo < |entries| && CompareBytes(entries[lo].key, key) == 0 then Some(entries[lo]) else None
  {
    hide CompareBytes;
    var front, back := entries[..lo], entries[lo..];
    assert entries == front + back;
    WithKeyAppend(front, back, key);
    forall i | 0 <= i < lo ensures front[i].key != key {
      CompareReverses(front[i].key, key);
    }
    NoneWithKey(front, key);
    if lo < |entries| {
      CompareReverses(entries[lo].key, key);
      if entries[lo].key != key {
        forall i | 0 <= i < |back| ensures back[i].key != key {
          CompareReverses(back[i].key, key);
          if 0 < i {
            CompareReverses(key, entries[lo].key);
            CompareChains(key, entries[lo].key, entries[lo + i].key);
            CompareReverses(entries[lo + i].key, key);
          }
        }
        NoneWithKey(back, key);
      } else {
        assert back[0] == entries[lo];
      }
    }
  }

  /** The window scan; sortedness lets it stop at the first key past the window. */
  method Range(entries: seq<IndexEntry>, lo: bytes, hi: bytes) returns (out: seq<IndexEntry>)
    requires Sorted(entries)
    ensures out == InWindow(entries, lo, hi)
  {
    hide CompareBytes;
    out := [];
    var order := KeyCompare(lo, hi);
    if order > 0 {
      EmptyWindow(entries, lo, hi);
      return;
    }
    assert entries[0..] == entries;
    for i := 0 to |entries|
      invariant out + InWindow(entries[i..], lo, hi) == InWindow(entries, lo, hi)
    {
      var e := entries[i];
      assert entries[i..][0] == e && entries[i..][1..] == entries[i + 1..];
      var below := KeyCompare(e.key, lo);
      if below < 0 {
        assert [] + InWindow(entries[i + 1..], lo, hi) == InWindow(entries[i + 1..], lo, hi);
        continue;
      }
      var above := KeyCompare(e.key, hi);
      if above > 0 {
        PastWindow(entries[i..], lo, hi);
        assert out + [] == out;
        return;
      }
      Regroup3(out, [e], InWindow(entries[i + 1..], lo, hi));
      out := out + [e];
    }
    assert out + [] == out;
  }

  lemma {:induction false} EmptyWindow(entries: seq<IndexEntry>, lo: bytes, hi: bytes)
    requires CompareBytes(lo, hi) > 0
    ensures InWindow(entries, lo, hi) == []
  {
    hide CompareBytes;
    if entries != [] {
      EmptyWindow(entries[1..], lo, hi);
      CompareReverses(lo, hi);
      CompareReverses(entries[0].key, lo);
      if Within(entries[0].key, lo, hi) {
        CompareChains(lo, entries[0].key, hi);
        assert false;
      }
    }
  }

  lemma {:induction false} PastWindow(entries: seq<IndexEntry>, lo: bytes, hi: bytes)
    requires Sorted(entries) && entries != [] && CompareBytes(entries[0].key, hi) > 0
    ensures InWindow(entries, lo, hi) == []
  {
    hide CompareBytes;
    if |entries| > 1 {
      CompareReverses(entries[0].key, hi);
      CompareChains(hi, entries[0].key, entries[1].key);
      CompareReverses(hi, entries[1].key);
      PastWindow(entries[1..], lo, hi);
    }
  }

  /** A lookup is the head of the scan over the window of that one key. */
  lemma {:induction false} LookupIsRangeHead(entries: seq<IndexEntry>, key: bytes)
    ensures WithKey(entries, key) == InWindow(entries, key, key)
  {
    if entries != [] {
      hide CompareBytes;
      CompareReverses(entries[0].key, key);
      LookupIsRangeHead(entries[1..], key);
    }
  }

  /** On a decoded page a lookup finds what a linear search of the wire order finds. */
  lemma LookupAgreesWithWire(page: bytes, out: IndexPage, key: bytes)
    requires StablySorted(out.entries, WirePage(page).entries)
    ensures First(WithKey(out.entries, key)) == First(WithKey(WirePage(page).entries, key))
    ensures First(InWindow(out.entries, key, key)) == First(WithKey(WirePage(page).entries, key))
  {
    hide WirePage, WithKey, InWindow, Sorted;
    LookupIsRangeHead(out.entries, key);
  }
}
