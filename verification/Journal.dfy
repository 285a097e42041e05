/** Journal replay. */
module Journal {
  // journal.cpp: replaying a write-ahead log over the records found in the pages, and the proof
  // that staging amounts to atomic transactions.

  import opened ByteReading
  import opened Common
  import opened Numbers
  import opened Pages

  datatype RecordKey = RecordKey(page: u32, slot: u16)

  type Store = map<RecordKey, bytes>

  /** INSERT and UPDATE both set the bytes of a slot. */
  datatype Op = Begin | Commit | Rollback | Write(key: RecordKey, data: bytes) | Delete(key: RecordKey)

  predicate IsData(op: Op) {
    op.Write? || op.Delete?
  }

  // ---- the log on disk

  function ReadKey(s: bytes): Result<(RecordKey, bytes)> {
    var (page, s1) :- Split(s, 4);
    var (slot, rest) :- Split(s1, 2);
    Ok((RecordKey(Word32(page), Word16(slot)), rest))
  }

  /** One entry; None where the op byte is unknown and replay stops. */
  function ReadOp(s: bytes): (r: Result<(Option<Op>, bytes)>)
    requires s != []
    ensures r.Ok? ==> |r.value.1| < |s|
  {
    match s[0]
    case 1 => Ok((Some(Begin), s[1..]))
    case 5 => Ok((Some(Commit), s[1..]))
    case 6 => Ok((Some(Rollback), s[1..]))
    case 4 =>
      var (key, rest) :- ReadKey(s[1..]);
      Ok((Some(Delete(key)), rest))
    case op =>
      if op == 2 || op == 3 then ReadWrite(s[1..]) else Ok((None, s[1..]))
  }

  function ReadWrite(s: bytes): (r: Result<(Option<Op>, bytes)>)
    ensures r.Ok? ==> |r.value.1| <= |s|
  {
    var (key, s1) :- ReadKey(s);
    var (length, s2) :- ReadVarint(s1);
    VarintShortens(s1);
    var (data, rest) :- Split(s2, length);
    Ok((Some(Write(key, data)), rest))
  }

  lemma VarintShortens(s: bytes)
    ensures ReadVarint(s).Ok? ==> |ReadVarint(s).value.1| < |s|
  {
  }

  /** The ops of a log up to its end or the first unknown op byte; a cut-off entry is an error. */
  function ReadOps(s: bytes): Result<seq<Op>>
    decreases |s|
  {
    if s == [] then Ok([])
    else
      var (op, rest) :- ReadOp(s);
      if op.None? then Ok([])
      else
        var tail :- ReadOps(rest);
        Ok([op.value] + tail)
  }

  // ---- the replay machine

  datatype Replay = Replay(store: Store, inTxn: bool, staged: seq<Op>, committedOps: u32, rolledBackOps: u32)

  function Put(store: Store, op: Op): Store {
    match op
    case Write(key, data) => store[key := data]
    case Delete(key) => store - {key}
    case _ => store
  }

  /** A list of data ops applied in order. */
  function PutAll(store: Store, ops: seq<Op>): Store
    decreases ops
  {
    if ops == [] then store else PutAll(Put(store, ops[0]), ops[1..])
  }

  /** One op; the public counters are 32 bits wide. */
  function Step(r: Replay, op: Op): Replay {
    match op
    case Begin => r.(staged := [], inTxn := true)
    case Commit =>
      if r.inTxn then
        Replay(PutAll(r.store, r.staged), false, [], (r.committedOps + |r.staged|) % TWO32, r.rolledBackOps)
      else r
    case Rollback =>
      if r.inTxn then
        r.(inTxn := false, staged := [], rolledBackOps := (r.rolledBackOps + |r.staged|) % TWO32)
      else r
    case _ =>
      if r.inTxn then r.(staged := r.staged + [op])
      else r.(store := Put(r.store, op), committedOps := (r.committedOps + 1) % TWO32)
  }

  function Run(r: Replay, ops: seq<Op>): Replay
    decreases ops
  {
    if ops == [] then r else Run(Step(r, ops[0]), ops[1..])
  }

  /** The end of the log rolls an open transaction back. */
  function Close(r: Replay): Replay {
    if r.inTxn then r.(staged := [], rolledBackOps := (r.rolledBackOps + |r.staged|) % TWO32) else r
  }

  function Start(seed: Store): Replay {
    Replay(seed, false, [], 0, 0)
  }

  // ---- atomic transactions, without any staging

  /** What becomes of a data op. */
  datatype Fate = Applied | RolledBack | Discarded

  /** The next transaction mark decides about everything open before it; the end rolls back. */
  function FateAhead(ops: seq<Op>): Fate {
    if ops == [] then RolledBack
    else
      match ops[0]
      case Commit => Applied
      case Rollback => RolledBack
      case Begin => Discarded
      case _ => FateAhead(ops[1..])
  }

  /** Whether an op leaves a transaction open. */
  function OpenAfter(op: Op, open: bool): bool {
    match op
    case Begin => true
    case Commit => false
    case Rollback => false
    case _ => open
  }

  /** The data ops of a log that meet a given fate, in log order. */
  function WithFate(ops: seq<Op>, open: bool, fate: Fate): seq<Op> {
    if ops == [] then []
    else
      var rest := WithFate(ops[1..], OpenAfter(ops[0], open), fate);
      if IsData(ops[0]) && fate == (if open then FateAhead(ops[1..]) else Applied) then [ops[0]] + rest else rest
  }

  function DataOps(ops: seq<Op>): seq<Op> {
    if ops == [] then [] else (if IsData(ops[0]) then [ops[0]] else []) + DataOps(ops[1..])
  }

  /** The staged ops, if the transaction they belong to meets the fate. */
  function StagedWith(r: Replay, ops: seq<Op>, fate: Fate): seq<Op> {
    if r.inTxn && FateAhead(ops) == fate then r.staged else []
  }

  lemma {:induction false} PutAllAppend(store: Store, a: seq<Op>, b: seq<Op>)
    ensures PutAll(store, a + b) == PutAll(PutAll(store, a), b)
    decreases a
  {
    if a == [] {
      assert a + b == b;
    } else {
      assert (a + b)[1..] == a[1..] + b;
      hide Put;
      PutAllAppend(Put(store, a[0]), a[1..], b);
    }
  }

  /** The ops a run still settles with a fate: the staged ones, and those to come. */
  function Settled(r: Replay, ops: seq<Op>, fate: Fate): seq<Op> {
    StagedWith(r, ops, fate) + WithFate(ops, r.inTxn, fate)
  }

  /** From any point of a run, the rest of the log settles staged and later ops alike. */
  lemma {:induction false} RunSettles(r: Replay, ops: seq<Op>)
    requires !r.inTxn ==> r.staged == []
    ensures var end := Close(Run(r, ops));
            && end.store == PutAll(r.store, Settled(r, ops, Applied))
            && end.committedOps == (r.committedOps + |Settled(r, ops, Applied)|) % TWO32
            && end.rolledBackOps == (r.rolledBackOps + |Settled(r, ops, RolledBack)|) % TWO32
    decreases ops
  {
    if ops == [] {
      assert r.staged + [] == r.staged;
    } else {
      StepKeepsShape(r, ops[0]);
      var next := Step(r, ops[0]);
      RunSettles(next, ops[1..]);
      StepSettles(r, ops);
      hide Step, Settled, PutAll, Close;
    }
  }

  lemma StepKeepsShape(r: Replay, op: Op)
    requires !r.inTxn ==> r.staged == []
    ensures !Step(r, op).inTxn ==> Step(r, op).staged == []
  {
    hide PutAll;
  }

  /** What one op takes out of the lists still to be settled. */
  lemma StepSettles(r: Replay, ops: seq<Op>)
    requires ops != [] && (!r.inTxn ==> r.staged == [])
    ensures var next, rest := Step(r, ops[0]), ops[1..];
            && PutAll(r.store, Settled(r, ops, Applied)) == PutAll(next.store, Settled(next, rest, Applied))
            && (r.committedOps + |Settled(r, ops, Applied)|) % TWO32
               == (next.committedOps + |Settled(next, rest, Applied)|) % TWO32
            && (r.rolledBackOps + |Settled(r, ops, RolledBack)|) % TWO32
               == (next.rolledBackOps + |Settled(next, rest, RolledBack)|) % TWO32
  {
    var next, rest := Step(r, ops[0]), ops[1..];
    SettledStep(r, ops, Applied);
    SettledStep(r, ops, RolledBack);
    var now, later := Settled(r, ops, Applied), Settled(next, rest, Applied);
    hide Settled, PutAll, Put;
    if r.inTxn && ops[0].Commit? {
      PutAllAppend(r.store, r.staged, later);
      WrapAdd(r.committedOps, |r.staged|, |later|);
    } else if r.inTxn && ops[0].Rollback? {
      WrapAdd(r.rolledBackOps, |r.staged|, |Settled(next, rest, RolledBack)|);
    } else if !r.inTxn && IsData(ops[0]) {
      PutFirst(r.store, ops[0], later);
      WrapAdd(r.committedOps, 1, |later|);
    }
  }

  lemma PutFirst(store: Store, op: Op, later: seq<Op>)
    ensures PutAll(store, [op] + later) == PutAll(Put(store, op), later)
  {
    assert ([op] + later)[1..] == later;
  }

  lemma WrapAdd(a: nat, b: nat, c: nat)
    ensures (a + (b + c)) % TWO32 == ((a + b) % TWO32 + c) % TWO32
  {
    var q := (a + b) / TWO32;
    assert a + b == (a + b) % TWO32 + TWO32 * q;
  }

  lemma SettledStep(r: Replay, ops: seq<Op>, fate: Fate)
    requires ops != [] && (!r.inTxn ==> r.staged == []) && fate != Discarded
    ensures var op, next, rest := ops[0], Step(r, ops[0]), ops[1..];
            Settled(r, ops, fate)
            == if r.inTxn && ((op.Commit? && fate == Applied) || (op.Rollback? && fate == RolledBack))
               then r.staged + Settled(next, rest, fate)
               else if !r.inTxn && IsData(op) && fate == Applied then [op] + Settled(next, rest, fate)
               else Settled(next, rest, fate)
  {
    hide PutAll, Put;
    var op, next, rest := ops[0], Step(r, ops[0]), ops[1..];
    var w := WithFate(rest, next.inTxn, fate);
    assert [] + w == w;
    if r.inTxn && IsData(op) {
      assert FateAhead(ops) == FateAhead(rest);
      assert r.staged + [op] + w == r.staged + ([op] + w);
    }
  }

  /**
    * Replay is atomic: the store holds the seed with exactly the applied ops on it, in log
    * order. What was rolled back, left open or discarded by a nested BEGIN has no effect.
    */
  lemma ReplayIsAtomic(seed: Store, ops: seq<Op>)
    ensures var end := Close(Run(Start(seed), ops));
            && end.store == PutAll(seed, WithFate(ops, false, Applied))
            && end.committedOps == |WithFate(ops, false, Applied)| % TWO32
            && end.rolledBackOps == |WithFate(ops, false, RolledBack)| % TWO32
  {
    RunSettles(Start(seed), ops);
    hide Run, Close, PutAll, WithFate;
    assert [] + WithFate(ops, false, RolledBack) == WithFate(ops, false, RolledBack);
    assert [] + WithFate(ops, false, Applied) == WithFate(ops, false, Applied);
  }

  /** Every data op meets exactly one fate. */
  lemma {:induction false} EveryOpCounted(ops: seq<Op>, open: bool)
    ensures |WithFate(ops, open, Applied)| + |WithFate(ops, open, RolledBack)| + |WithFate(ops, open, Discarded)|
         == |DataOps(ops)|
    decreases ops
  {
    if ops != [] {
      EveryOpCounted(ops[1..], OpenAfter(ops[0], open));
    }
  }

  /** The last op on a key, if there is one. */
  function LastOn(ops: seq<Op>, key: RecordKey): Option<Op> {
    if ops == [] then None
    else
      var last := ops[|ops| - 1];
      if IsData(last) && last.key == key then Some(last) else LastOn(ops[..|ops| - 1], key)
  }

  /** A key's bytes are those of the last op that reached it, else what it started with. */
  lemma {:induction false} LastWins(store: Store, ops: seq<Op>, key: RecordKey)
    ensures var end := PutAll(store, ops);
            match LastOn(ops, key)
            case None => (key in end <==> key in store) && (key in store ==> end[key] == store[key])
            case Some(op) => if op.Write? then key in end && end[key] == op.data else key !in end
    decreases |ops|
  {
    if ops != [] {
      var before, last := ops[..|ops| - 1], ops[|ops| - 1];
      LastWins(store, before, key);
      assert ops == before + [last];
      PutAllAppend(store, before, [last]);
      assert [last][1..] == [];
    }
  }

  /** What a replay leaves under a key: the last applied op on it, else the seed. */
  lemma KeyAfterReplay(seed: Store, ops: seq<Op>, key: RecordKey)
    ensures var end := Close(Run(Start(seed), ops)).store;
            match LastOn(WithFate(ops, false, Applied), key)
            case None => (key in end <==> key in seed) && (key in seed ==> end[key] == seed[key])
            case Some(op) => if op.Write? then key in end && end[key] == op.data else key !in end
  {
    hide LastOn, WithFate, PutAll, Run;
    ReplayIsAtomic(seed, ops);
    LastWins(seed, WithFate(ops, false, Applied), key);
  }

  /** The two public counters and the discarded ops account for every data op, in 32-bit arithmetic. */
  lemma CountersAddUp(seed: Store, ops: seq<Op>)
    ensures var end := Close(Run(Start(seed), ops));
            var discarded := |WithFate(ops, false, Discarded)|;
            && (end.committedOps + end.rolledBackOps + discarded) % TWO32 == |DataOps(ops)| % TWO32
            && (|DataOps(ops)| < TWO32 ==> end.committedOps + end.rolledBackOps + discarded == |DataOps(ops)|)
  {
    hide WithFate, DataOps, Run;
    ReplayIsAtomic(seed, ops);
    EveryOpCounted(ops, false);
    var a, b := |WithFate(ops, false, Applied)|, |WithFate(ops, false, RolledBack)|;
    var c := |WithFate(ops, false, Discarded)|;
    assert (a % TWO32 + b % TWO32 + c) % TWO32 == (a + b + c) % TWO32;
  }

  // ---- seeding from the pages

  /** The bytes the pages hold for a key, if its slot is usable. */
  function SeedAt(data: bytes, pages: seq<Page>, spans: seq<PageSpan>, key: RecordKey): Option<bytes> {
    if key.page < |pages| && key.page < |spans| && pages[key.page].kind == DATA_PAGE
       && key.slot < |pages[key.page].slots|
    then SlotBytes(data, spans[key.page], pages[key.page].slots[key.slot])
    else None
  }

  /** An in-bounds, non-empty record that exists in the file. */
  function SlotBytes(data: bytes, span: PageSpan, slot: Slot): Option<bytes> {
    var from := span.offset + slot.recOffset;
    if slot.inBounds && slot.recLength != 0 && from + slot.recLength <= |data|
    then Some(data[from..from + slot.recLength]) else None
  }

  /** The store a set of keys has been seeded for. */
  ghost predicate Seeded(data: bytes, pages: seq<Page>, spans: seq<PageSpan>, store: Store, done: nat, slots: nat) {
    forall key: RecordKey ::
      if (key.page < done || (key.page == done && key.slot < slots)) && SeedAt(data, pages, spans, key).Some?
      then key in store && store[key] == SeedAt(data, pages, spans, key).value
      else key !in store
  }

  /** `seed_from_pages`. */
  method SeedFromPages(data: bytes, pages: seq<Page>, spans: seq<PageSpan>) returns (store: Store)
    requires |pages| < TWO32 && forall i | 0 <= i < |pages| :: pages[i].index == i && |pages[i].slots| < TWO16
    ensures Seeded(data, pages, spans, store, |pages|, 0)
  {
    store := map[];
    for i := 0 to |pages|
      invariant Seeded(data, pages, spans, store, i, 0)
    {
      var page := pages[i];
      if page.kind == DATA_PAGE && page.index < |spans| {
        store := SeedPage(data, pages, spans, i, store);
      }
      assert Seeded(data, pages, spans, store, i + 1, 0);
    }
  }

  method SeedPage(data: bytes, pages: seq<Page>, spans: seq<PageSpan>, i: nat, before: Store) returns (store: Store)
    requires i < |pages| < TWO32 && i < |spans| && pages[i].index == i && |pages[i].slots| < TWO16
    requires pages[i].kind == DATA_PAGE && Seeded(data, pages, spans, before, i, 0)
    ensures Seeded(data, pages, spans, store, i, |pages[i].slots|)
  {
    store := before;
    var span := spans[i];
    for s := 0 to |pages[i].slots|
      invariant Seeded(data, pages, spans, store, i, s)
    {
      var slot := pages[i].slots[s];
      var from := span.offset + slot.recOffset;
      var end := from + slot.recLength;
      ghost var key := RecordKey(i, s);
      assert SeedAt(data, pages, spans, key) == SlotBytes(data, span, slot);
      if slot.inBounds && slot.recLength != 0 && from < |data| && end <= |data| {
        store := store[RecordKey(i, s) := data[from..end]];
      }
    }
  }

  // ---- the replay over bytes

  /** The outcome of replaying a log over a seeded store. */
  function Replayed(seed: Store, log: bytes): Result<Replay> {
    var ops :- ReadOps(log);
    Ok(Close(Run(Start(seed), ops)))
  }

  class Replayer {
    var committed: Store
    var inTxn: bool
    var staged: seq<Op>
    var committedOps: u32
    var rolledBackOps: u32

    function State(): Replay
      reads this
    {
      Replay(committed, inTxn, staged, committedOps, rolledBackOps)
    }

    constructor (seed: Store)
      ensures State() == Start(seed)
    {
      committed, inTxn, staged, committedOps, rolledBackOps := seed, false, [], 0, 0;
    }

    method Apply(op: Op)
      modifies this
      ensures State() == old(State()).(store := Put(old(committed), op))
    {
      match op {
        case Write(key, data) => committed := committed[key := data];
        case Delete(key) => committed := committed - {key};
        case _ =>
      }
    }

    /** Into the open transaction, or straight to the store. */
    method Route(op: Op)
      requires IsData(op)
      modifies this
      ensures State() == Step(old(State()), op)
    {
      if inTxn {
        staged := staged + [op];
      } else {
        Apply(op);
        committedOps := (committedOps + 1) % TWO32;
      }
    }

    method CommitStaged()
      requires inTxn
      modifies this
      ensures State() == Step(old(State()), Commit)
    {
      hide Put;
      ghost var before := State();
      assert staged[0..] == staged;
      for i := 0 to |staged|
        invariant staged == before.staged && inTxn && rolledBackOps == before.rolledBackOps
        invariant PutAll(committed, staged[i..]) == PutAll(before.store, before.staged)
        invariant committedOps == (before.committedOps + i) % TWO32
      {
        assert staged[i..][0] == staged[i] && staged[i..][1..] == staged[i + 1..];
        Apply(staged[i]);
        committedOps := (committedOps + 1) % TWO32;
      }
      assert staged[|staged|..] == [];
      staged := [];
      inTxn := false;
    }

    /** One op of the log. */
    method Take(op: Op)
      modifies this
      ensures State() == Step(old(State()), op)
    {
      match op {
        case Begin =>
          staged := [];
          inTxn := true;
        case Commit =>
          if inTxn {
            CommitStaged();
          }
        case Rollback =>
          if inTxn {
            rolledBackOps := (rolledBackOps + |staged|) % TWO32;
            staged := [];
            inTxn := false;
          }
        case _ =>
          Route(op);
      }
    }

    method Finish()
      modifies this
      ensures State() == Close(old(State()))
    {
      if inTxn {
        rolledBackOps := (rolledBackOps + |staged|) % TWO32;
        staged := [];
      }
    }
  }

  method ReadEntry(r: ByteReader) returns (out: Result<Option<Op>>)
    requires r.Valid() && r.Rest() != []
    modifies r
    ensures r.Valid()
    ensures match ReadOp(old(r.Rest()))
            case Ok((op, rest)) => out == Ok(op) && r.Rest() == rest
            case Err(code) => out == Err(code)
  {
    hide ReadVarint, FromLe;
    var first := r.ReadU8();
    var op := first.value;
    match op {
      case 1 => out := Ok(Some(Begin));
      case 5 => out := Ok(Some(Commit));
      case 6 => out := Ok(Some(Rollback));
      case 4 =>
        var key :- ReadLocator(r);
        out := Ok(Some(Delete(key)));
      case _ =>
        if op == 2 || op == 3 {
          out := ReadRecord(r);
        } else {
          out := Ok(None);
        }
    }
  }

  method ReadLocator(r: ByteReader) returns (out: Result<RecordKey>)
    requires r.Valid()
    modifies r
    ensures r.Valid()
    ensures match ReadKey(old(r.Rest()))
            case Ok((key, rest)) => out == Ok(key) && r.Rest() == rest
            case Err(code) => out == Err(code)
  {
    var page :- r.ReadBytes(4);
    var slot :- r.ReadBytes(2);
    out := Ok(RecordKey(Word32(page), Word16(slot)));
  }

  method ReadRecord(r: ByteReader) returns (out: Result<Option<Op>>)
    requires r.Valid()
    modifies r
    ensures r.Valid()
    ensures match ReadWrite(old(r.Rest()))
            case Ok((op, rest)) => out == Ok(op) && r.Rest() == rest
            case Err(code) => out == Err(code)
  {
    hide Numbers.ReadVarint, ReadKey;
    var key :- ReadLocator(r);
    var length :- r.ReadVarint();
    var data :- r.ReadBytes(length);
    out := Ok(Some(Write(key, data)));
  }

  /** The replay loop over the log behind `journal_offset`. */
  method ReplayLog(log: bytes, seed: Store) returns (out: Result<Replay>)
    ensures out == Replayed(seed, log)
  {
    hide ReadOp, Step, Close;
    var r := new ByteReader(log);
    var replayer := new Replayer(seed);
    ghost var whole := Replayed(seed, log);
    var stop := false;
    while !stop && r.Remaining() > 0
      invariant r.Valid() && fresh(r) && fresh(replayer)
      invariant whole == if stop then Ok(Close(replayer.State())) else ReplayedFrom(replayer.State(), r.Rest())
      decreases !stop, |r.Rest()|
    {
      TurnOver(replayer.State(), r.Rest());
      var op :- ReadEntry(r);
      if op.None? {
        stop := true;
      } else {
        replayer.Take(op.value);
      }
    }
    replayer.Finish();
    out := Ok(replayer.State());
  }

  function ReplayedFrom(state: Replay, log: bytes): Result<Replay> {
    var ops :- ReadOps(log);
    Ok(Close(Run(state, ops)))
  }

  lemma TurnOver(state: Replay, log: bytes)
    requires log != []
    ensures var read := ReadOp(log);
            && (read.Ok? ==> |read.value.1| < |log|)
            && ReplayedFrom(state, log)
               == if read.Err? then Err(read.code)
                  else if read.value.0.None? then Ok(Close(state))
                  else ReplayedFrom(Step(state, read.value.0.value), read.value.1)
  {
    hide ReadOp, Step, Close;
  }
}
