/** Tagged records. */
module BinpackRecords {
  // The records of a BPK1 section: builder.cpp's encoding, record_parser.cpp's decoding as functions
  // of the bytes, and the proof that decoding undoes encoding exactly as deep as the budget reaches.

  import opened ByteReading
  import opened Common
  import opened Numbers
  import opened Seqs

  /** A float is carried as its 64-bit pattern, as both sides copy it. */
  datatype Body =
    | IntBody(i: i64)
    | UintBody(u: u64)
    | FloatBody(bits: u64)
    | StringBody(text: bytes)
    | BlobBody(blob: bytes)
    | ArrayBody(children: seq<Record>)
    | GroupBody(children: seq<Record>)
    | KeyvalBody(key: bytes, children: seq<Record>)

  datatype Record = Record(group: bool, body: Body)

  function TagByte(b: Body): (tag: byte)
    ensures 1 <= tag <= 8
  {
    match b
    case IntBody(_) => 1
    case UintBody(_) => 2
    case FloatBody(_) => 3
    case StringBody(_) => 4
    case BlobBody(_) => 5
    case ArrayBody(_) => 6
    case GroupBody(_) => 7
    case KeyvalBody(_, _) => 8
  }

  // ---- encoding

  function RecordBytes(r: Record): (b: bytes)
    ensures b != []
    decreases r, 1
  {
    var payload := Payload(r.body);
    [TagByte(r.body), if r.group then 1 else 0] + Varint(|payload|) + payload
  }

  function Payload(b: Body): bytes
    decreases b, 0
  {
    match b
    case IntBody(i) => Varint(ZigZag(i))
    case UintBody(u) => Varint(u)
    case FloatBody(bits) => Le(bits, 8)
    case StringBody(text) => text
    case BlobBody(blob) => blob
    case ArrayBody(children) => Varint(|children|) + ForestBytes(children)
    case GroupBody(children) => ForestBytes(children)
    case KeyvalBody(key, children) =>
      Varint(|key|) + key + if children == [] then [] else RecordBytes(children[0])
  }

  function ForestBytes(rs: seq<Record>): bytes
    decreases rs, 0
  {
    if rs == [] then [] else RecordBytes(rs[0]) + ForestBytes(rs[1..])
  }

  // ---- decoding

  function ParseStream(s: bytes, depth: nat, max: nat): Result<seq<Record>>
    decreases |s|, 2
  {
    if s == [] then Ok([])
    else
      var (r, rest) :- ParseRecord(s, depth, max);
      var tail :- ParseStream(rest, depth, max);
      Ok([r] + tail)
  }

  function ParseRecord(s: bytes, depth: nat, max: nat): (r: Result<(Record, bytes)>)
    ensures r.Ok? ==> |r.value.1| < |s|
    decreases |s|, 1
  {
    if depth > max then Err(DepthExceeded)
    else if |s| < 2 then Err(ShortRead)
    else if !(1 <= s[0] <= 8) then Err(BadType)
    else
      var (length, s1) :- ReadVarint(s[2..]);
      ReadVarintShortens(s[2..]);
      var (payload, rest) :- Split(s1, length);
      var body :- ParseBody(s[0], payload, depth, max);
      Ok((Record(s[1] % 2 == 1, body), rest))
  }

  lemma ReadVarintShortens(s: bytes)
    ensures ReadVarint(s).Ok? ==> |ReadVarint(s).value.1| < |s|
  {
  }

  function ParseBody(tag: byte, s: bytes, depth: nat, max: nat): Result<Body>
    requires 1 <= tag <= 8
    decreases |s|, 4
  {
    match tag
    case 1 =>
      var (u, _) :- ReadVarint(s);
      Ok(IntBody(UnZigZag(u)))
    case 2 =>
      var (u, _) :- ReadVarint(s);
      Ok(UintBody(u))
    case 3 =>
      var (field, _) :- Split(s, 8);
      Ok(FloatBody(Word(field)))
    case 4 => Ok(StringBody(s))
    case 5 => Ok(BlobBody(s))
    case 6 =>
      var (count, s1) :- ReadVarint(s);
      ReadVarintShortens(s);
      var (children, _) :- ParseCount(s1, count, depth + 1, max);
      Ok(ArrayBody(children))
    case 7 =>
      var children :- ParseStream(s, depth + 1, max);
      Ok(GroupBody(children))
    case _ => ParseKeyval(s, depth, max)
  }

  function Word(field: bytes): u64
    requires |field| == 8
  {
    FromLeBound(field);
    Widths();
    FromLe(field)
  }

  /** A key and exactly one value; anything behind the value is an error. */
  function ParseKeyval(s: bytes, depth: nat, max: nat): Result<Body>
    decreases |s|, 3
  {
    var (keyLen, s1) :- ReadVarint(s);
    ReadVarintShortens(s);
    var (key, s2) :- Split(s1, keyLen);
    var (value, rest) :- ParseRecord(s2, depth + 1, max);
    if rest != [] then Err(BadLength) else Ok(KeyvalBody(key, [value]))
  }

  /** Exactly `count` records from the front of `s`. */
  function ParseCount(s: bytes, count: nat, depth: nat, max: nat): Result<(seq<Record>, bytes)>
    decreases |s|, 2
  {
    if count == 0 then Ok(([], s))
    else
      var (r, rest) :- ParseRecord(s, depth, max);
      var (tail, end) :- ParseCount(rest, count - 1, depth, max);
      Ok(([r] + tail, end))
  }

  // ---- the round trip

  /** Sizes fit their varints, and a key-value has one value. */
  predicate Encodable(r: Record)
    decreases r, 1
  {
    EncodableBody(r.body) && |Payload(r.body)| < TWO64
  }

  predicate EncodableBody(b: Body)
    decreases b, 0
  {
    match b
    case ArrayBody(children) => |children| < TWO64 && AllEncodable(children)
    case GroupBody(children) => AllEncodable(children)
    case KeyvalBody(key, children) => |key| < TWO64 && |children| == 1 && Encodable(children[0])
    case _ => true
  }

  predicate AllEncodable(rs: seq<Record>)
    decreases rs, 0
  {
    rs == [] || (Encodable(rs[0]) && AllEncodable(rs[1..]))
  }

  /** What the writer needs: lengths and counts that fit a 64-bit varint. */
  predicate Sized(r: Record)
    decreases r, 1
  {
    SizedBody(r.body) && |Payload(r.body)| < TWO64
  }

  predicate SizedBody(b: Body)
    decreases b, 0
  {
    match b
    case ArrayBody(children) => |children| < TWO64 && AllSized(children)
    case GroupBody(children) => AllSized(children)
    case KeyvalBody(key, children) => |key| < TWO64 && (children != [] ==> Sized(children[0]))
    case _ => true
  }

  predicate AllSized(rs: seq<Record>)
    decreases rs, 0
  {
    rs == [] || (Sized(rs[0]) && AllSized(rs[1..]))
  }

  /** The height of a record tree: zero for a record without children. */
  function Height(r: Record): nat
    decreases r, 1
  {
    match r.body
    case ArrayBody(children) => 1 + Tallest(children)
    case GroupBody(children) => 1 + Tallest(children)
    case KeyvalBody(_, children) => 1 + Tallest(children)
    case _ => 0
  }

  /** The height of a forest's tallest tree, -1 for an empty forest. */
  function Tallest(rs: seq<Record>): (h: int)
    ensures h >= -1
    decreases rs, 0
  {
    if rs == [] then -1 else Max(Height(rs[0]), Tallest(rs[1..]))
  }

  /** The record comes back with exactly its bytes consumed, or the budget is exceeded. */
  lemma {:induction false} RecordReadsBack(r: Record, k: bytes, depth: nat, max: nat)
    requires Encodable(r)
    ensures ParseRecord(RecordBytes(r) + k, depth, max)
         == if depth + Height(r) <= max then Ok((r, k)) else Err(DepthExceeded)
    decreases r, 5
  {
    if depth <= max {
      var payload := Payload(r.body);
      BodyReadsBack(r, depth, max);
      var s := RecordBytes(r) + k;
      Regroup4([TagByte(r.body), if r.group then 1 else 0], Varint(|payload|), payload, k);
      hide RecordBytes, Payload, ParseBody, Encodable, Varint, ReadVarint, Height;
      assert s[2..] == Varint(|payload|) + (payload + k);
      VarintRoundTrip(|payload|, payload + k);
      assert Split(payload + k, |payload|) == Ok((payload, k));
    }
  }

  lemma {:induction false} BodyReadsBack(r: Record, depth: nat, max: nat)
    requires Encodable(r) && depth <= max
    ensures ParseBody(TagByte(r.body), Payload(r.body), depth, max)
         == if depth + Height(r) <= max then Ok(r.body) else Err(DepthExceeded)
    decreases r, 4
  {
    hide ParseBody, ParseStream, ParseCount, ParseRecord, Varint, Sized, RecordBytes, Tallest;
    match r.body
    case IntBody(i) => IntReadsBack(i, depth, max);
    case UintBody(u) => UintReadsBack(u, depth, max);
    case FloatBody(bits) => FloatReadsBack(bits, depth, max);
    case StringBody(text) => BytesReadBack(text, depth, max);
    case BlobBody(blob) => BytesReadBack(blob, depth, max);
    case ArrayBody(children) =>
      ForestCountReadsBack(children, [], depth + 1, max);
      ArrayReadsBack(children, depth, max);
    case GroupBody(children) =>
      ForestReadsBack(children, depth + 1, max);
      GroupReadsBack(children, depth, max);
    case KeyvalBody(key, children) =>
      RecordReadsBack(children[0], [], depth + 1, max);
      KeyvalReadsBack(key, children, depth, max);
  }

  lemma BytesReadBack(b: bytes, depth: nat, max: nat)
    ensures ParseBody(4, b, depth, max) == Ok(StringBody(b)) && ParseBody(5, b, depth, max) == Ok(BlobBody(b))
  {
  }

  lemma GroupReadsBack(children: seq<Record>, depth: nat, max: nat)
    requires ParseStream(ForestBytes(children), depth + 1, max)
          == if depth + 1 + Tallest(children) <= max then Ok(children) else Err(DepthExceeded)
    ensures ParseBody(7, ForestBytes(children), depth, max)
         == if depth + 1 + Tallest(children) <= max then Ok(GroupBody(children)) else Err(DepthExceeded)
  {
    hide ForestBytes, ParseStream, Tallest;
  }

  lemma IntReadsBack(i: i64, depth: nat, max: nat)
    ensures ParseBody(1, Varint(ZigZag(i)), depth, max) == Ok(IntBody(i))
  {
    hide Varint, ReadVarint, ZigZag, UnZigZag;
    VarintRoundTrip(ZigZag(i), []);
    ZigZagBijection(i, 0);
    assert Varint(ZigZag(i)) + [] == Varint(ZigZag(i));
  }

  lemma UintReadsBack(u: u64, depth: nat, max: nat)
    ensures ParseBody(2, Varint(u), depth, max) == Ok(UintBody(u))
  {
    hide Varint, ReadVarint;
    VarintRoundTrip(u, []);
    assert Varint(u) + [] == Varint(u);
  }

  lemma FloatReadsBack(bits: u64, depth: nat, max: nat)
    ensures ParseBody(3, Le(bits, 8), depth, max) == Ok(FloatBody(bits))
  {
    Widths();
    LeRoundTrip(bits, 8);
    hide Le, FromLe;
    assert Le(bits, 8)[..8] == Le(bits, 8);
  }

  lemma ArrayReadsBack(children: seq<Record>, depth: nat, max: nat)
    requires |children| < TWO64
    requires ParseCount(ForestBytes(children) + [], |children|, depth + 1, max)
          == if depth + 1 + Tallest(children) <= max then Ok((children, [])) else Err(DepthExceeded)
    ensures ParseBody(6, Varint(|children|) + ForestBytes(children), depth, max)
         == if depth + 1 + Tallest(children) <= max then Ok(ArrayBody(children)) else Err(DepthExceeded)
  {
    hide Varint, ReadVarint, ForestBytes, ParseCount, Tallest;
    assert ForestBytes(children) + [] == ForestBytes(children);
    VarintRoundTrip(|children|, ForestBytes(children));
  }

  lemma KeyvalReadsBack(key: bytes, children: seq<Record>, depth: nat, max: nat)
    requires |key| < TWO64 && |children| == 1
    requires ParseRecord(RecordBytes(children[0]) + [], depth + 1, max)
          == if depth + 1 + Height(children[0]) <= max then Ok((children[0], [])) else Err(DepthExceeded)
    ensures ParseBody(8, Varint(|key|) + key + RecordBytes(children[0]), depth, max)
         == if depth + 1 + Tallest(children) <= max then Ok(KeyvalBody(key, children)) else Err(DepthExceeded)
  {
    hide Varint, ReadVarint, RecordBytes, ParseRecord, Height;
    var value := RecordBytes(children[0]);
    assert value + [] == value;
    Regroup3(Varint(|key|), key, value);
    VarintRoundTrip(|key|, key + value);
    assert Split(key + value, |key|) == Ok((key, value));
    assert children == [children[0]] && children[1..] == [];
  }

  lemma {:induction false} ForestReadsBack(rs: seq<Record>, depth: nat, max: nat)
    requires AllEncodable(rs) && depth <= max + 1
    ensures ParseStream(ForestBytes(rs), depth, max)
         == if depth + Tallest(rs) <= max then Ok(rs) else Err(DepthExceeded)
    decreases rs, 0
  {
    if rs != [] {
      RecordReadsBack(rs[0], ForestBytes(rs[1..]), depth, max);
      ForestReadsBack(rs[1..], depth, max);
      assert rs == [rs[0]] + rs[1..];
      hide RecordBytes, ParseRecord, Height, Encodable;
    }
  }

  lemma {:induction false} ForestCountReadsBack(rs: seq<Record>, k: bytes, depth: nat, max: nat)
    requires AllEncodable(rs) && depth <= max + 1
    ensures ParseCount(ForestBytes(rs) + k, |rs|, depth, max)
         == if depth + Tallest(rs) <= max then Ok((rs, k)) else Err(DepthExceeded)
    decreases rs, 0
  {
    if rs == [] {
      assert ForestBytes(rs) + k == k;
    } else {
      var tail := ForestBytes(rs[1..]) + k;
      RecordReadsBack(rs[0], tail, depth, max);
      ForestCountReadsBack(rs[1..], k, depth, max);
      Regroup3(RecordBytes(rs[0]), ForestBytes(rs[1..]), k);
      assert rs == [rs[0]] + rs[1..];
      hide RecordBytes, ParseRecord, Height, Encodable;
    }
  }
}
