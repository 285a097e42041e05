/** Number encodings. */
module Numbers {
  // The encodings of the byte cursors: fixed widths in both orders, LEB128 and zig-zag.

  import opened Bits
  import opened Common

  // ---- fixed widths

  /** 256^n. */
  function Pow256(n: nat): (p: nat)
    ensures p >= 1
  {
    if n == 0 then 1 else 256 * Pow256(n - 1)
  }

  /** The `n` low bytes of a number, lowest first. */
  function Le(v: nat, n: nat): (b: bytes)
    ensures |b| == n
    decreases n, v
  {
    if n == 0 then [] else [v % 256] + Le(v / 256, n - 1)
  }

  /** The `n` low bytes of a number, highest first. */
  function Be(v: nat, n: nat): (b: bytes)
    ensures |b| == n
    decreases n, v
  {
    if n == 0 then [] else Be(v / 256, n - 1) + [v % 256]
  }

  function FromLe(b: bytes): nat {
    if b == [] then 0 else b[0] + 256 * FromLe(b[1..])
  }

  function FromBe(b: bytes): nat {
    if b == [] then 0 else 256 * FromBe(b[..|b| - 1]) + b[|b| - 1]
  }

  lemma {:induction false} LeRoundTrip(v: nat, n: nat)
    requires v < Pow256(n)
    ensures FromLe(Le(v, n)) == v
    decreases n
  {
    if n > 0 {
      LeRoundTrip(v / 256, n - 1);
      assert Le(v, n)[1..] == Le(v / 256, n - 1);
    }
  }

  lemma {:induction false} BeRoundTrip(v: nat, n: nat)
    requires v < Pow256(n)
    ensures FromBe(Be(v, n)) == v
    decreases n
  {
    if n > 0 {
      BeRoundTrip(v / 256, n - 1);
      assert Be(v, n)[..n - 1] == Be(v / 256, n - 1);
    }
  }

  lemma {:induction false} FromLeBound(b: bytes)
    ensures FromLe(b) < Pow256(|b|) && Le(FromLe(b), |b|) == b
  {
    if b != [] {
      FromLeBound(b[1..]);
      assert b == [b[0]] + b[1..];
    }
  }

  lemma {:induction false} FromBeBound(b: bytes)
    ensures FromBe(b) < Pow256(|b|) && Be(FromBe(b), |b|) == b
  {
    if b != [] {
      FromBeBound(b[..|b| - 1]);
      assert b == b[..|b| - 1] + [b[|b| - 1]];
    }
  }

  lemma Widths()
    ensures Pow256(1) == 0x100 && Pow256(2) == TWO16 && Pow256(4) == TWO32 && Pow256(8) == TWO64
  {
    assert Pow256(4) == TWO16 * Pow256(2);
    assert Pow256(6) == TWO16 * Pow256(4);
    assert Pow256(8) == TWO16 * Pow256(6);
  }

  // ---- places

  lemma DivTwice(v: nat, a: nat, b: nat)
    requires a > 0 && b > 0
    ensures v / a / b == v / (a * b)
  {
    var q, r, s := v / a / b, v / a % b, v % a;
    assert v == a * (b * q + r) + s;
    assert a * (b * q + r) == a * b * q + a * r;
    Below(a, b, r, s);
    QuotientIs(v, a * b, q, a * r + s);
  }

  lemma Below(a: nat, b: nat, r: nat, s: nat)
    requires s < a && r < b
    ensures a * r + s < a * b
  {
    assert a * (b - 1 - r) >= 0;
    assert a * b == a * (b - 1 - r) + a * r + a;
  }

  lemma QuotientIs(v: nat, d: nat, q: nat, rest: nat)
    requires d > 0 && rest < d && v == d * q + rest
    ensures v / d == q
  {
    var e := q - v / d;
    assert d * e == v % d - rest;
    Between(d, e);
  }

  /** A multiple smaller than one is none. */
  lemma Between(d: nat, e: int)
    requires d > 0 && 0 - d < d * e < d
    ensures e == 0
  {
  }

  /** Place `i` of a little-endian field holds the digit of 256^i. */
  lemma {:induction false} LeDigit(v: nat, n: nat, i: nat)
    requires i < n
    ensures Le(v, n)[i] == v / Pow256(i) % 256
    decreases n
  {
    if i > 0 {
      LeDigit(v / 256, n - 1, i - 1);
      DivTwice(v, 256, Pow256(i - 1));
    } else {
      assert Pow256(0) == 1;
    }
  }

  /** Big-endian is little-endian backwards. */
  lemma {:induction false} BeDigit(v: nat, n: nat, i: nat)
    requires i < n
    ensures Be(v, n)[n - 1 - i] == v / Pow256(i) % 256
    decreases n
  {
    if i > 0 {
      BeDigit(v / 256, n - 1, i - 1);
      DivTwice(v, 256, Pow256(i - 1));
    } else {
      assert Pow256(0) == 1;
    }
  }

  /** Two bytes as a number, and four, the lowest first. */
  function Two(low: nat, high: nat): nat {
    low + 0x100 * high
  }

  function Four(a: nat, b: nat, c: nat, d: nat): nat {
    a + 0x100 * b + 0x1_0000 * c + 0x100_0000 * d
  }

  lemma LeFields(b: bytes)
    ensures |b| == 2 ==> FromLe(b) == Two(b[0], b[1])
    ensures |b| == 4 ==> FromLe(b) == Four(b[0], b[1], b[2], b[3])
  {
    if |b| == 2 {
      assert b[1..][1..] == [];
    } else if |b| == 4 {
      assert FromLe(b[1..]) == b[1] + 256 * FromLe(b[1..][1..]);
      assert b[1..][1..] == b[2..];
      LeFields(b[2..]);
    }
  }

  lemma BeFields(b: bytes)
    ensures |b| == 2 ==> FromBe(b) == Two(b[1], b[0])
    ensures |b| == 4 ==> FromBe(b) == Four(b[3], b[2], b[1], b[0])
  {
    if |b| == 2 {
      assert b[..1][..0] == [] && FromBe(b[..1]) == b[0];
    } else if |b| == 4 {
      assert FromBe(b) == 256 * FromBe(b[..3]) + b[3];
      assert b[..3][..2] == b[..2];
      BeFields(b[..2]);
      assert b[..2][0] == b[0] && b[..2][1] == b[1] && b[..3][2] == b[2];
    }
  }

  /** A number in two bytes, and in four, the lowest first. */
  function TwoBytes(v: u16): bytes {
    [v % 0x100, v / 0x100]
  }

  function FourBytes(v: u32): bytes {
    [v % 0x100, v / 0x100 % 0x100, v / 0x1_0000 % 0x100, v / 0x100_0000]
  }

  lemma FourDigits(v: u32)
    ensures Four(v % 0x100, v / 0x100 % 0x100, v / 0x1_0000 % 0x100, v / 0x100_0000) == v
  {
    DivTwice(v, 0x100, 0x100);
    DivTwice(v, 0x100, 0x1_0000);
    DivTwice(v / 0x100, 0x100, 0x100);
    var q := v / 0x100;
    assert v == v % 0x100 + 0x100 * q;
    assert q == q % 0x100 + 0x100 * (q / 0x100);
    assert q / 0x100 == q / 0x100 % 0x100 + 0x100 * (q / 0x100 / 0x100);
  }

  /** A stored field of two bytes, and one of four, lowest byte first. */
  function Word16(field: bytes): u16
    requires |field| == 2
  {
    FromLeBound(field);
    Widths();
    FromLe(field)
  }

  function Word32(field: bytes): u32
    requires |field| == 4
  {
    FromLeBound(field);
    Widths();
    FromLe(field)
  }

  lemma WordsReadBack(v: u16, w: u32)
    ensures Word16(TwoBytes(v)) == v && Word32(FourBytes(w)) == w
  {
    hide FromLe;
    LeFields(TwoBytes(v));
    LeFields(FourBytes(w));
    FourDigits(w);
  }

  // ---- LEB128

  const VARINT_LIMIT: nat := 10

  function Varint(v: nat): (b: bytes)
    ensures b != []
  {
    if v >= 128 then [v % 128 + 128] + Varint(v / 128) else [v]
  }

  /** At most `left` bytes: the groups of seven bits, lowest first, and what follows them. */
  function Groups(s: bytes, left: nat): (r: Result<(nat, bytes)>)
    ensures r.Ok? ==> |r.value.1| < |s|
    decreases left, s
  {
    if left == 0 then Err(BadLength)
    else if s == [] then Err(ShortRead)
    else if s[0] < 128 then Ok((s[0], s[1..]))
    else
      var (v, rest) :- Groups(s[1..], left - 1);
      Ok((s[0] - 128 + 128 * v, rest))
  }

  /** `read_varint`: bits past the sixty-fourth are dropped. */
  function ReadVarint(s: bytes): Result<(u64, bytes)> {
    var (v, rest) :- Groups(s, VARINT_LIMIT);
    Ok((Truncate64(v), rest))
  }

  function Truncate64(v: nat): u64 {
    v % TWO64
  }

  function Pow128(n: nat): (p: nat)
    ensures p >= 1
  {
    if n == 0 then 1 else 128 * Pow128(n - 1)
  }

  lemma {:induction false} GroupsOfVarint(v: nat, left: nat, k: bytes)
    requires left > 0 && v < Pow128(left)
    ensures Groups(Varint(v) + k, left) == Ok((v, k)) && |Varint(v)| <= left
    decreases left
  {
    if v >= 128 {
      assert v / 128 < Pow128(left - 1);
      GroupsOfVarint(v / 128, left - 1, k);
      assert (Varint(v) + k)[1..] == Varint(v / 128) + k;
    } else {
      assert (Varint(v) + k)[1..] == k;
    }
  }

  lemma TenGroups()
    ensures TWO64 < Pow128(VARINT_LIMIT)
  {
    assert Pow128(4) == 0x1000_0000;
    assert Pow128(7) == 0x20_0000 * Pow128(4);
    assert Pow128(10) == 0x20_0000 * Pow128(7);
  }

  /** Every 64-bit value comes back, from at most ten bytes, and exactly those are consumed. */
  lemma VarintRoundTrip(v: u64, k: bytes)
    ensures ReadVarint(Varint(v) + k) == Ok((v, k)) && |Varint(v)| <= VARINT_LIMIT
  {
    TenGroups();
    GroupsOfVarint(v, VARINT_LIMIT, k);
  }

  // ---- zig-zag

  const ONES64: u64 := 0xFFFF_FFFF_FFFF_FFFF

  /** A two's complement word as the signed value it stores. */
  function Signed64(u: u64): i64 {
    if u < TWO63 then u else u - TWO64
  }

  function Word64(v: i64): u64 {
    if v < 0 then v + TWO64 else v
  }

  lemma Bound64(a: u64, b: u64)
    ensures Xor(a, b) < TWO64
  {
    Pow64();
    XorBound(a, b, 64);
  }

  lemma Pow64()
    ensures Pow2(63) == TWO63 && Pow2(64) == TWO64
  {
    Powers();
    assert Pow2(36) == 16 * Pow2(32);
    assert Pow2(40) == 16 * Pow2(36);
    assert Pow2(44) == 16 * Pow2(40);
    assert Pow2(48) == 16 * Pow2(44);
    assert Pow2(52) == 16 * Pow2(48);
    assert Pow2(56) == 16 * Pow2(52);
    assert Pow2(60) == 16 * Pow2(56);
    assert Pow2(63) == 8 * Pow2(60);
  }

  /** `(v << 1) ^ (v >> 63)`. */
  function ZigZag(v: i64): u64 {
    Bound64(2 * Word64(v) % TWO64, if v < 0 then ONES64 else 0);
    Xor(2 * Word64(v) % TWO64, if v < 0 then ONES64 else 0)
  }

  /** `(u >> 1) ^ (~(u & 1) + 1)`. */
  function UnZigZag(u: u64): i64 {
    Bound64(u / 2, (ONES64 - u % 2 + 1) % TWO64);
    Signed64(Xor(u / 2, (ONES64 - u % 2 + 1) % TWO64))
  }

  /** The interleaving zig-zag stands for: 0, -1, 1, -2, ... */
  lemma ZigZagOrder(v: i64)
    ensures ZigZag(v) == if v < 0 then -2 * v - 1 else 2 * v
  {
    Pow64();
    if v < 0 {
      XorOnes(2 * v + TWO64, 64);
    }
  }

  lemma UnZigZagOrder(u: u64)
    ensures UnZigZag(u) == if u % 2 == 1 then -(u / 2) - 1 else u / 2
  {
    Pow64();
    if u % 2 == 1 {
      XorOnes(u / 2, 64);
    }
  }

  /** Zig-zag is a bijection between signed and unsigned 64-bit values. */
  lemma ZigZagBijection(v: i64, u: u64)
    ensures UnZigZag(ZigZag(v)) == v && ZigZag(UnZigZag(u)) == u
  {
    ZigZagOrder(v);
    UnZigZagOrder(ZigZag(v));
    UnZigZagOrder(u);
    ZigZagOrder(UnZigZag(u));
    hide ZigZag, UnZigZag;
  }
}
