/** Which bytes are records. */
module BinpackGrammar {
  // How a stream of records may be laid out, canonically or not: lengths in more groups than they
  // need, bytes behind a scalar or behind the last child of an array that nobody reads. The record
  // parser takes exactly these streams, and as the records they lay out.

  import opened BinpackRecords
  import opened ByteReading
  import opened Common
  import opened Numbers
  import opened Seqs

  // ---- numbers in groups of seven bits

  /** Seven bits a byte, lowest first. */
  function GroupSum(g: bytes): nat {
    if g == [] then 0 else g[0] % 128 + 128 * GroupSum(g[1..])
  }

  /** One to ten bytes, all but the last with the high bit set, and the low 64 bits of their sum. */
  predicate IsVarint(g: bytes, v: nat) {
    && 1 <= |g| <= 10 && (forall i | 0 <= i < |g| - 1 :: g[i] >= 128) && g[|g| - 1] < 128
    && v == GroupSum(g) % TWO64
  }

  lemma {:induction false} GroupsRead(g: bytes, left: nat, k: bytes)
    requires 1 <= |g| <= left && (forall i | 0 <= i < |g| - 1 :: g[i] >= 128) && g[|g| - 1] < 128
    ensures Groups(g + k, left) == Ok((GroupSum(g), k))
    decreases left
  {
    if |g| == 1 {
      assert (g + k)[1..] == k;
      assert g[1..] == [];
    } else {
      assert (g + k)[1..] == g[1..] + k;
      GroupsRead(g[1..], left - 1, k);
    }
  }

  lemma VarintRead(g: bytes, v: nat, k: bytes)
    requires IsVarint(g, v)
    ensures ReadVarint(g + k) == Ok((v, k))
  {
    hide Groups, GroupSum;
    GroupsRead(g, VARINT_LIMIT, k);
  }

  lemma {:induction false} GroupsWritten(s: bytes, left: nat) returns (g: bytes)
    requires Groups(s, left).Ok?
    ensures 1 <= |g| <= left && (forall i | 0 <= i < |g| - 1 :: g[i] >= 128) && g[|g| - 1] < 128
    ensures GroupSum(g) == Groups(s, left).value.0 && s == g + Groups(s, left).value.1
    decreases left
  {
    if s[0] < 128 {
      g := [s[0]];
      assert g[1..] == [];
    } else {
      var rest := GroupsWritten(s[1..], left - 1);
      g := [s[0]] + rest;
      assert g[1..] == rest;
    }
  }

  lemma VarintWritten(s: bytes) returns (g: bytes)
    requires ReadVarint(s).Ok?
    ensures IsVarint(g, ReadVarint(s).value.0) && s == g + ReadVarint(s).value.1
  {
    g := GroupsWritten(s, VARINT_LIMIT);
    hide Groups, GroupSum;
  }

  /** A number reads off the front of a string exactly when its groups stand there. */
  lemma VarintExactly(s: bytes, v: u64, k: bytes)
    ensures ReadVarint(s) == Ok((v, k)) <==> exists g :: IsVarint(g, v) && s == g + k
  {
    hide ReadVarint, IsVarint;
    if ReadVarint(s) == Ok((v, k)) {
      var g := VarintWritten(s);
      assert IsVarint(g, v) && s == g + k;
    }
    if exists g :: IsVarint(g, v) && s == g + k {
      var g :| IsVarint(g, v) && s == g + k;
      VarintRead(g, v, k);
    }
  }

  // ---- records as they are laid out

  /** `over` are bytes of a payload that nobody reads. */
  datatype LaidBody =
    | LInt(groups: bytes, over: bytes)
    | LUint(groups: bytes, over: bytes)
    | LFloat(pattern: bytes, over: bytes)
    | LString(text: bytes)
    | LBlob(blob: bytes)
    | LArray(count: bytes, items: seq<Laid>, over: bytes)
    | LGroup(items: seq<Laid>)
    | LKeyval(keyLen: bytes, key: bytes, value: Laid)

  datatype Laid = Laid(flag: byte, length: bytes, body: LaidBody)

  function Tag(b: LaidBody): byte {
    match b
    case LInt(_, _) => 1
    case LUint(_, _) => 2
    case LFloat(_, _) => 3
    case LString(_) => 4
    case LBlob(_) => 5
    case LArray(_, _, _) => 6
    case LGroup(_) => 7
    case LKeyval(_, _, _) => 8
  }

  function BodyText(b: LaidBody): bytes
    decreases b, 1
  {
    match b
    case LInt(groups, over) => groups + over
    case LUint(groups, over) => groups + over
    case LFloat(pattern, over) => pattern + over
    case LString(text) => text
    case LBlob(blob) => blob
    case LArray(count, items, over) => count + (LaidsText(items) + over)
    case LGroup(items) => LaidsText(items)
    case LKeyval(keyLen, key, value) => keyLen + (key + LaidText(value))
  }

  function LaidText(l: Laid): bytes
    decreases l, 1
  {
    [Tag(l.body), l.flag] + (l.length + BodyText(l.body))
  }

  function LaidsText(ls: seq<Laid>): bytes
    decreases ls, 0
  {
    if ls == [] then [] else LaidText(ls[0]) + LaidsText(ls[1..])
  }

  /** Numbers are well formed, lengths and counts are true, and nothing is nested deeper than `max`. */
  predicate GoodBody(b: LaidBody, depth: nat, max: nat)
    decreases b, 1
  {
    match b
    case LInt(groups, _) => IsVarint(groups, GroupSum(groups) % TWO64)
    case LUint(groups, _) => IsVarint(groups, GroupSum(groups) % TWO64)
    case LFloat(pattern, _) => |pattern| == 8
    case LArray(count, items, _) => IsVarint(count, |items|) && AllGood(items, depth + 1, max)
    case LGroup(items) => AllGood(items, depth + 1, max)
    case LKeyval(keyLen, key, value) => IsVarint(keyLen, |key|) && Good(value, depth + 1, max)
    case _ => true
  }

  predicate Good(l: Laid, depth: nat, max: nat)
    decreases l, 1
  {
    depth <= max && IsVarint(l.length, |BodyText(l.body)|) && GoodBody(l.body, depth, max)
  }

  predicate AllGood(ls: seq<Laid>, depth: nat, max: nat)
    decreases ls, 0
  {
    ls == [] || (Good(ls[0], depth, max) && AllGood(ls[1..], depth, max))
  }

  /** The integer behind a zig-zag number: even ones count up from zero, odd ones down from -1. */
  function Unfolded(u: nat): int {
    if u % 2 == 0 then u / 2 else -(u / 2) - 1
  }

  function MeansBody(b: LaidBody, depth: nat, max: nat): Body
    requires GoodBody(b, depth, max)
    decreases b, 1
  {
    match b
    case LInt(groups, _) => IntBody(Unfolded(GroupSum(groups) % TWO64))
    case LUint(groups, _) => UintBody(GroupSum(groups) % TWO64)
    case LFloat(pattern, _) => FloatBody(Word(pattern))
    case LString(text) => StringBody(text)
    case LBlob(blob) => BlobBody(blob)
    case LArray(_, items, _) => ArrayBody(MeansAll(items, depth + 1, max))
    case LGroup(items) => GroupBody(MeansAll(items, depth + 1, max))
    case LKeyval(_, key, value) => KeyvalBody(key, [Means(value, depth + 1, max)])
  }

  function Means(l: Laid, depth: nat, max: nat): Record
    requires Good(l, depth, max)
    decreases l, 1
  {
    Record(l.flag % 2 == 1, MeansBody(l.body, depth, max))
  }

  function MeansAll(ls: seq<Laid>, depth: nat, max: nat): seq<Record>
    requires AllGood(ls, depth, max)
    decreases ls, 0
  {
    if ls == [] then [] else [Means(ls[0], depth, max)] + MeansAll(ls[1..], depth, max)
  }

  // ---- records laid out so are taken

  lemma UnfoldedIs(u: u64)
    ensures UnZigZag(u) == Unfolded(u)
  {
    UnZigZagOrder(u);
    hide UnZigZag;
  }

  lemma ScalarRead(b: LaidBody, depth: nat, max: nat)
    requires GoodBody(b, depth, max) && (b.LInt? || b.LUint? || b.LFloat? || b.LString? || b.LBlob?)
    ensures ParseBody(Tag(b), BodyText(b), depth, max) == Ok(MeansBody(b, depth, max))
  {
    hide ReadVarint, IsVarint, GroupSum, UnZigZag, Unfolded, Word, ParseCount, ParseStream, ParseKeyval;
    if b.LInt? || b.LUint? {
      VarintRead(b.groups, GroupSum(b.groups) % TWO64, b.over);
      UnfoldedIs(GroupSum(b.groups) % TWO64);
    } else if b.LFloat? {
      assert (b.pattern + b.over)[..8] == b.pattern;
    }
  }

  lemma {:induction false} BodyRead(b: LaidBody, depth: nat, max: nat)
    requires GoodBody(b, depth, max)
    ensures ParseBody(Tag(b), BodyText(b), depth, max) == Ok(MeansBody(b, depth, max))
    decreases b, 1
  {
    hide ReadVarint, IsVarint, ParseRecord, ParseCount, ParseStream, LaidText, LaidsText, Means, MeansAll, Good,
         AllGood;
    match b
    case LArray(count, items, over) =>
      VarintRead(count, |items|, LaidsText(items) + over);
      CountRead(items, depth + 1, max, over);
    case LGroup(items) =>
      StreamRead(items, depth + 1, max);
    case LKeyval(keyLen, key, value) =>
      KeyvalRead(keyLen, key, value, depth, max);
    case _ =>
      ScalarRead(b, depth, max);
  }

  lemma {:induction false} KeyvalRead(keyLen: bytes, key: bytes, value: Laid, depth: nat, max: nat)
    requires IsVarint(keyLen, |key|) && Good(value, depth + 1, max)
    ensures ParseKeyval(keyLen + (key + LaidText(value)), depth, max)
         == Ok(KeyvalBody(key, [Means(value, depth + 1, max)]))
    decreases value, 2
  {
    hide ReadVarint, IsVarint, ParseRecord, LaidText, Means, Good;
    var rest := key + LaidText(value);
    VarintRead(keyLen, |key|, rest);
    assert rest[..|key|] == key && rest[|key|..] == LaidText(value);
    LaidRead(value, depth + 1, max, []);
    assert LaidText(value) + [] == LaidText(value);
  }

  lemma {:induction false} LaidRead(l: Laid, depth: nat, max: nat, k: bytes)
    requires Good(l, depth, max)
    ensures ParseRecord(LaidText(l) + k, depth, max) == Ok((Means(l, depth, max), k))
    decreases l, 1
  {
    hide ReadVarint, IsVarint, ParseBody, BodyText, MeansBody, GoodBody;
    var payload := BodyText(l.body);
    var s := LaidText(l) + k;
    assert s == [Tag(l.body), l.flag] + (l.length + (payload + k));
    assert s[2..] == l.length + (payload + k);
    VarintRead(l.length, |payload|, payload + k);
    assert (payload + k)[..|payload|] == payload && (payload + k)[|payload|..] == k;
    BodyRead(l.body, depth, max);
  }

  lemma {:induction false} CountRead(ls: seq<Laid>, depth: nat, max: nat, k: bytes)
    requires AllGood(ls, depth, max)
    ensures ParseCount(LaidsText(ls) + k, |ls|, depth, max) == Ok((MeansAll(ls, depth, max), k))
    decreases ls, 0
  {
    hide ParseRecord, LaidText, Means, Good;
    if ls == [] {
      assert LaidsText(ls) + k == k;
    } else {
      Regroup3(LaidText(ls[0]), LaidsText(ls[1..]), k);
      LaidRead(ls[0], depth, max, LaidsText(ls[1..]) + k);
      CountRead(ls[1..], depth, max, k);
    }
  }

  lemma {:induction false} StreamRead(ls: seq<Laid>, depth: nat, max: nat)
    requires AllGood(ls, depth, max)
    ensures ParseStream(LaidsText(ls), depth, max) == Ok(MeansAll(ls, depth, max))
    decreases ls, 0
  {
    hide ParseRecord, Means, Good;
    if ls != [] {
      LaidRead(ls[0], depth, max, LaidsText(ls[1..]));
      StreamRead(ls[1..], depth, max);
    }
  }

  // ---- whatever is taken is laid out so

  /** A body laid out as `s`, and what it means. */
  ghost predicate BodyIs(b: LaidBody, tag: nat, s: bytes, depth: nat, max: nat, value: Body) {
    Tag(b) == tag && BodyText(b) == s && GoodBody(b, depth, max) && MeansBody(b, depth, max) == value
  }

  ghost predicate LaidIs(l: Laid, s: bytes, depth: nat, max: nat, r: Record, k: bytes) {
    Good(l, depth, max) && s == LaidText(l) + k && Means(l, depth, max) == r
  }

  ghost predicate AllAre(ls: seq<Laid>, s: bytes, depth: nat, max: nat, rs: seq<Record>) {
    AllGood(ls, depth, max) && s == LaidsText(ls) && MeansAll(ls, depth, max) == rs
  }

  lemma ScalarWritten(tag: nat, s: bytes, depth: nat, max: nat) returns (b: LaidBody)
    requires 1 <= tag <= 5 && ParseBody(tag, s, depth, max).Ok?
    ensures BodyIs(b, tag, s, depth, max, ParseBody(tag, s, depth, max).value)
  {
    hide ReadVarint, UnZigZag, Unfolded, Word, GroupSum, ParseCount, ParseStream, ParseKeyval;
    if tag <= 2 {
      var g := VarintWritten(s);
      var over := ReadVarint(s).value.1;
      UnfoldedIs(ReadVarint(s).value.0);
      b := if tag == 1 then LInt(g, over) else LUint(g, over);
    } else if tag == 3 {
      b := LFloat(s[..8], s[8..]);
      assert s == s[..8] + s[8..];
    } else {
      b := if tag == 4 then LString(s) else LBlob(s);
    }
  }

  lemma {:induction false} BodyWritten(tag: nat, s: bytes, depth: nat, max: nat) returns (b: LaidBody)
    requires 1 <= tag <= 8 && ParseBody(tag, s, depth, max).Ok?
    ensures BodyIs(b, tag, s, depth, max, ParseBody(tag, s, depth, max).value)
    decreases |s|, 4
  {
    hide ReadVarint, IsVarint, ParseCount, ParseStream, ParseKeyval, AllGood, Good, MeansAll, Means, LaidText,
         LaidsText;
    if tag <= 5 {
      b := ScalarWritten(tag, s, depth, max);
    } else if tag == 6 {
      var g := VarintWritten(s);
      ReadVarintShortens(s);
      var (count, s1) := ReadVarint(s).value;
      var over := ParseCount(s1, count, depth + 1, max).value.1;
      var items := CountWritten(s1, count, depth + 1, max);
      b := LArray(g, items, over);
    } else if tag == 7 {
      var items := StreamWritten(s, depth + 1, max);
      b := LGroup(items);
    } else {
      b := KeyvalWritten(s, depth, max);
    }
  }

  lemma {:induction false} KeyvalWritten(s: bytes, depth: nat, max: nat) returns (b: LaidBody)
    requires ParseKeyval(s, depth, max).Ok?
    ensures BodyIs(b, 8, s, depth, max, ParseKeyval(s, depth, max).value)
    decreases |s|, 3
  {
    hide ReadVarint, IsVarint, ParseRecord, Good, Means, LaidText;
    var g := VarintWritten(s);
    ReadVarintShortens(s);
    var (keyLen, s1) := ReadVarint(s).value;
    var key, s2 := s1[..keyLen], s1[keyLen..];
    var value := RecordWritten(s2, depth + 1, max);
    assert LaidText(value) + [] == LaidText(value);
    assert s1 == key + s2;
    b := LKeyval(g, key, value);
  }

  lemma {:induction false} RecordWritten(s: bytes, depth: nat, max: nat) returns (l: Laid)
    requires ParseRecord(s, depth, max).Ok?
    ensures LaidIs(l, s, depth, max, ParseRecord(s, depth, max).value.0, ParseRecord(s, depth, max).value.1)
    decreases |s|, 1
  {
    hide ReadVarint, IsVarint, ParseBody, GoodBody, MeansBody, BodyText;
    var g := VarintWritten(s[2..]);
    ReadVarintShortens(s[2..]);
    var (length, s1) := ReadVarint(s[2..]).value;
    var payload, k := s1[..length], s1[length..];
    var b := BodyWritten(s[0], payload, depth, max);
    l := Laid(s[1], g, b);
    assert s1 == payload + k;
    assert s == [s[0], s[1]] + (g + (payload + k));
    Regroup3([s[0], s[1]], g + payload, k);
    Regroup3(g, payload, k);
  }

  lemma {:induction false} CountWritten(s: bytes, count: nat, depth: nat, max: nat) returns (ls: seq<Laid>)
    requires ParseCount(s, count, depth, max).Ok?
    ensures |ls| == count && AllGood(ls, depth, max)
    ensures MeansAll(ls, depth, max) == ParseCount(s, count, depth, max).value.0
    ensures s == LaidsText(ls) + ParseCount(s, count, depth, max).value.1
    decreases |s|, 2
  {
    hide ParseRecord, Good, Means, LaidText;
    if count == 0 {
      ls := [];
    } else {
      var l := RecordWritten(s, depth, max);
      var rest := ParseRecord(s, depth, max).value.1;
      var more := CountWritten(rest, count - 1, depth, max);
      ls := [l] + more;
      assert ls[1..] == more;
      Regroup3(LaidText(l), LaidsText(more), ParseCount(s, count, depth, max).value.1);
    }
  }

  lemma {:induction false} StreamWritten(s: bytes, depth: nat, max: nat) returns (ls: seq<Laid>)
    requires ParseStream(s, depth, max).Ok?
    ensures AllAre(ls, s, depth, max, ParseStream(s, depth, max).value)
    decreases |s|, 2
  {
    hide ParseRecord, Good, Means, LaidText;
    if s == [] {
      ls := [];
    } else {
      var l := RecordWritten(s, depth, max);
      var rest := ParseRecord(s, depth, max).value.1;
      var more := StreamWritten(rest, depth, max);
      ls := [l] + more;
      assert ls[1..] == more;
    }
  }

  // ---- main result

  /** A byte string parses as records exactly when it lays them out, no deeper than the budget. */
  lemma StreamExactly(s: bytes, depth: nat, max: nat, rs: seq<Record>)
    ensures ParseStream(s, depth, max) == Ok(rs) <==> exists ls :: AllAre(ls, s, depth, max, rs)
  {
    hide ParseStream, AllGood, MeansAll, LaidsText;
    if ParseStream(s, depth, max) == Ok(rs) {
      var ls := StreamWritten(s, depth, max);
      assert AllAre(ls, s, depth, max, rs);
    }
    if exists ls :: AllAre(ls, s, depth, max, rs) {
      var ls :| AllAre(ls, s, depth, max, rs);
      StreamRead(ls, depth, max);
    }
  }
}
