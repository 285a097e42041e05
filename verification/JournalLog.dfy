/** The journal on disk. */
module JournalLog {
  // The bytes of a log, entry by entry, and that replay makes of them exactly the ops they were
  // written for: up to the end, to the first unknown op byte, or to an entry that is cut off.

  import opened ByteReading
  import opened Common
  import opened Journal
  import opened Numbers
  import opened Seqs

  /** An op as it is written; a write is an INSERT or an UPDATE. */
  datatype Entry = Entry(op: Op, update: bool)

  predicate Fits(e: Entry) {
    e.op.Write? ==> |e.op.data| < TWO64
  }

  /** The page in four bytes and the slot in two, lowest first. */
  function KeyBytes(key: RecordKey): bytes {
    FourBytes(key.page) + TwoBytes(key.slot)
  }

  function EntryBytes(e: Entry): bytes {
    match e.op
    case Begin => [1]
    case Write(key, data) => [if e.update then 3 else 2] + KeyBytes(key) + Varint(|data|) + data
    case Delete(key) => [4] + KeyBytes(key)
    case Commit => [5]
    case Rollback => [6]
  }

  function LogBytes(entries: seq<Entry>): bytes {
    if entries == [] then [] else EntryBytes(entries[0]) + LogBytes(entries[1..])
  }

  function OpsOf(entries: seq<Entry>): (r: seq<Op>)
    ensures |r| == |entries| && forall i | 0 <= i < |r| :: r[i] == entries[i].op
  {
    seq(|entries|, i requires 0 <= i < |entries| => entries[i].op)
  }

  /** What can stand behind the entries: nothing more, or a byte that is no op. */
  predicate Stops(k: bytes) {
    k == [] || k[0] == 0 || k[0] > 6
  }

  lemma {:induction false} GroupsCut(v: nat, left: nat, n: nat)
    requires n < |Varint(v)| <= left
    ensures Groups(Varint(v)[..n], left) == Err(ShortRead)
    decreases left
  {
    var b := Varint(v);
    if n > 0 {
      assert v >= 128;
      assert b[..n][1..] == Varint(v / 128)[..n - 1];
      GroupsCut(v / 128, left - 1, n - 1);
    }
  }

  lemma KeyReadsBack(key: RecordKey, k: bytes)
    ensures ReadKey(KeyBytes(key) + k) == Ok((key, k))
  {
    var page, slot := FourBytes(key.page), TwoBytes(key.slot);
    Regroup3(page, slot, k);
    assert (page + (slot + k))[..4] == page && (page + (slot + k))[4..] == slot + k;
    assert (slot + k)[..2] == slot && (slot + k)[2..] == k;
    WordsReadBack(key.slot, key.page);
    hide Word16, Word32;
  }

  lemma EntryReadsBack(e: Entry, k: bytes)
    requires Fits(e)
    ensures ReadOp(EntryBytes(e) + k) == Ok((Some(e.op), k))
  {
    hide KeyBytes, ReadKey, Numbers.ReadVarint, Numbers.Varint;
    var s := EntryBytes(e) + k;
    match e.op
    case Write(key, data) =>
      var size := Varint(|data|);
      Regroup5([if e.update then 3 else 2], KeyBytes(key), size, data, k);
      var behind := KeyBytes(key) + (size + (data + k));
      assert s[1..] == behind;
      KeyReadsBack(key, size + (data + k));
      VarintRoundTrip(|data|, data + k);
      assert (data + k)[..|data|] == data && (data + k)[|data|..] == k;
    case Delete(key) =>
      assert s[1..] == KeyBytes(key) + k;
      KeyReadsBack(key, k);
    case _ =>
      assert s[1..] == k;
  }

  /** A log reads back as the ops it was written for, whatever byte that is no op follows. */
  lemma {:induction false} LogReadsBack(entries: seq<Entry>, k: bytes)
    requires Stops(k) && forall i | 0 <= i < |entries| :: Fits(entries[i])
    ensures ReadOps(LogBytes(entries) + k) == Ok(OpsOf(entries))
    decreases |entries|
  {
    hide EntryBytes, ReadKey, ReadWrite, Numbers.ReadVarint;
    if entries == [] {
      assert LogBytes(entries) + k == k;
    } else {
      var rest := LogBytes(entries[1..]) + k;
      Regroup3(EntryBytes(entries[0]), LogBytes(entries[1..]), k);
      EntryReadsBack(entries[0], rest);
      NotEmpty(entries[0]);
      LogReadsBack(entries[1..], k);
      assert OpsOf(entries) == [entries[0].op] + OpsOf(entries[1..]);
    }
  }

  lemma NotEmpty(e: Entry)
    ensures EntryBytes(e) != []
  {
  }

  /** An entry that is cut off anywhere is an error. */
  lemma EntryCut(e: Entry, n: nat)
    requires Fits(e) && 0 < n < |EntryBytes(e)|
    ensures ReadOp(EntryBytes(e)[..n]) == Err(ShortRead)
  {
    if e.op.Write? {
      WriteCut(e, n);
    } else {
      DeleteCut(e, n);
    }
  }

  lemma DeleteCut(e: Entry, n: nat)
    requires !e.op.Write? && 0 < n < |EntryBytes(e)|
    ensures ReadOp(EntryBytes(e)[..n]) == Err(ShortRead)
  {
    hide Groups, Numbers.Varint;
    var key := e.op.key;
    var s := EntryBytes(e)[..n];
    assert s[0] == 4 && s[1..] == (KeyBytes(key) + [])[..n - 1];
    CutKey(key, [], n - 1);
    hide ReadKey, KeyBytes;
  }

  lemma WriteCut(e: Entry, n: nat)
    requires e.op.Write? && Fits(e) && 0 < n < |EntryBytes(e)|
    ensures ReadOp(EntryBytes(e)[..n]) == Err(ShortRead)
  {
    hide Groups, Numbers.Varint, Numbers.ReadVarint, ReadKey;
    var key, size, data := e.op.key, Varint(|e.op.data|), e.op.data;
    var s, t := EntryBytes(e)[..n], (KeyBytes(key) + (size + data))[..n - 1];
    Regroup4([if e.update then 3 else 2], KeyBytes(key), size, data);
    assert s[0] == (if e.update then 3 else 2) && s[1..] == t;
    CutKey(key, size + data, n - 1);
    hide KeyBytes;
    if n - 1 >= 6 {
      VarintRoundTrip(|data|, []);
      CutData(size, data, n - 7);
    }
  }

  lemma CutKey(key: RecordKey, k: bytes, n: nat)
    requires n <= 6 + |k|
    ensures n < 6 ==> ReadKey((KeyBytes(key) + k)[..n]) == Err(ShortRead)
    ensures n >= 6 ==> ReadKey((KeyBytes(key) + k)[..n]) == Ok((key, k[..n - 6]))
  {
    if n >= 6 {
      assert (KeyBytes(key) + k)[..n] == KeyBytes(key) + k[..n - 6];
      KeyReadsBack(key, k[..n - 6]);
    }
    hide KeyBytes, Word32, Word16;
  }

  lemma CutData(size: bytes, data: bytes, n: nat)
    requires |data| < TWO64 && size == Varint(|data|) && |size| <= VARINT_LIMIT && n < |size + data|
    ensures var r := Numbers.ReadVarint((size + data)[..n]);
            r == Err(ShortRead) || (r.Ok? && r.value.0 == |data| && |r.value.1| < |data|)
  {
    if n < |size| {
      assert (size + data)[..n] == size[..n];
      GroupsCut(|data|, VARINT_LIMIT, n);
    } else {
      assert (size + data)[..n] == size + data[..n - |size|];
      VarintRoundTrip(|data|, data[..n - |size|]);
    }
  }

  /** A log cut inside an entry is refused as a whole. */
  lemma {:induction false} CutLogRefused(entries: seq<Entry>, e: Entry, n: nat)
    requires (forall i | 0 <= i < |entries| :: Fits(entries[i])) && Fits(e) && 0 < n < |EntryBytes(e)|
    ensures ReadOps(LogBytes(entries) + EntryBytes(e)[..n]) == Err(ShortRead)
    decreases |entries|
  {
    hide EntryBytes, ReadOp;
    var k := EntryBytes(e)[..n];
    if entries == [] {
      EntryCut(e, n);
      assert LogBytes(entries) + k == k;
    } else {
      Regroup3(EntryBytes(entries[0]), LogBytes(entries[1..]), k);
      EntryReadsBack(entries[0], LogBytes(entries[1..]) + k);
      NotEmpty(entries[0]);
      CutLogRefused(entries[1..], e, n);
    }
  }

  /**
    * Replaying the bytes of a log: each key holds the bytes of its last op that took effect, or
    * what the pages seeded, and nothing behind a byte that is no op matters.
    */
  lemma KeyAfterLog(seed: Store, entries: seq<Entry>, k: bytes, key: RecordKey)
    requires Stops(k) && forall i | 0 <= i < |entries| :: Fits(entries[i])
    ensures var r := Replayed(seed, LogBytes(entries) + k);
            && r.Ok?
            && var end := r.value.store;
               match LastOn(WithFate(OpsOf(entries), false, Applied), key)
               case None => (key in end <==> key in seed) && (key in seed ==> end[key] == seed[key])
               case Some(op) => if op.Write? then key in end && end[key] == op.data else key !in end
  {
    hide ReadOps, LogBytes, Run, Close, WithFate, LastOn, OpsOf;
    LogReadsBack(entries, k);
    KeyAfterReplay(seed, OpsOf(entries), key);
  }

  /** One committed transaction: BEGIN, a write, COMMIT. */
  lemma CommittedWrite(seed: Store, key: RecordKey, data: bytes, update: bool)
    requires |data| < TWO64
    ensures var log := [1] + EntryBytes(Entry(Write(key, data), update)) + [5];
            var r := Replayed(seed, log);
            r.Ok? && r.value.store == seed[key := data] && r.value.committedOps == 1 && r.value.rolledBackOps == 0
  {
    var entries := [Entry(Begin, false), Entry(Write(key, data), update), Entry(Commit, false)];
    var log := [1] + EntryBytes(entries[1]) + [5];
    ThreeEntries(entries);
    LogReadsBack(entries, []);
    assert LogBytes(entries) + [] == log;
    hide EntryBytes, ReadOps, LogBytes;
    var ops := OpsOf(entries);
    assert ops == [Begin, Write(key, data), Commit];
    ThreeSteps(seed, key, data);
  }

  lemma ThreeEntries(entries: seq<Entry>)
    requires |entries| == 3
    ensures LogBytes(entries) == EntryBytes(entries[0]) + EntryBytes(entries[1]) + EntryBytes(entries[2])
  {
    hide EntryBytes;
    assert LogBytes(entries[1..]) == EntryBytes(entries[1]) + LogBytes(entries[1..][1..]);
    assert entries[1..][1..] == [entries[2]] && [entries[2]][1..] == [];
    assert LogBytes([entries[2]]) == EntryBytes(entries[2]) + LogBytes([]);
  }

  lemma ThreeSteps(seed: Store, key: RecordKey, data: bytes)
    ensures var end := Close(Run(Start(seed), [Begin, Write(key, data), Commit]));
            end.store == seed[key := data] && end.committedOps == 1 && end.rolledBackOps == 0
  {
    var r0 := Start(seed);
    var r1 := Step(r0, Begin);
    var r2 := Step(r1, Write(key, data));
    assert r2.staged == [Write(key, data)] && [Write(key, data)][1..] == [];
    assert PutAll(seed, [Write(key, data)]) == PutAll(Put(seed, Write(key, data)), []);
    var r3 := Step(r2, Commit);
    var ops := [Begin, Write(key, data), Commit];
    assert ops[1..] == [Write(key, data), Commit] && ops[1..][1..] == [Commit] && [Commit][1..] == [];
    assert Run(r3, []) == r3;
    assert Run(r2, [Commit]) == r3;
    assert Run(r1, ops[1..]) == r3;
  }
}
