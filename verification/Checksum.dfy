/** CRC-32 and CRC-16. */
module Checksum {
  // checksum.cpp and the header CRC of frame.cpp: the table-driven form, the bit-by-bit form, and
  // the errors both are certain to detect.

  import opened Bits
  import opened Common

  const CRC32_POLY: u32 := 0xEDB8_8320
  const ONES32: u32 := 0xFFFF_FFFF
  const CRC16_POLY: u16 := 0x1021
  const ONES16: u16 := 0xFFFF

  /** One bit of the division by the reflected polynomial. */
  function Shift32(c: u32): u32 {
    Bound32(CRC32_POLY, c / 2);
    if c % 2 == 1 then Xor(CRC32_POLY, c / 2) else c / 2
  }

  lemma Bound32(a: nat, b: nat)
    requires a < TWO32 && b < TWO32
    ensures Xor(a, b) < TWO32
  {
    Powers();
    XorBound(a, b, 32);
  }

  lemma Bound16(a: nat, b: nat)
    requires a < TWO16 && b < TWO16
    ensures Xor(a, b) < TWO16
  {
    Powers();
    XorBound(a, b, 16);
  }

  function Shifts32(c: u32, n: nat): u32
    decreases n, c
  {
    if n == 0 then c else Shifts32(Shift32(c), n - 1)
  }

  /** RFC 1952 section 8, bit by bit: the `n` low bits of `b`, lowest first, enter the remainder. */
  function FeedBits(c: u32, b: byte, n: nat): u32
    decreases n, b, c
  {
    if n == 0 then c
    else
      Bound32(c, b % 2);
      FeedBits(Shift32(Xor(c, b % 2)), b / 2, n - 1)
  }

  /** The remainder once a whole message has been fed. */
  function Remainder(c: u32, data: bytes): u32
    decreases data
  {
    if data == [] then c else Remainder(FeedBits(c, data[0], 8), data[1..])
  }

  /** `crc32`: the complement of the remainder. */
  function Crc32(data: bytes): u32 {
    Bound32(Remainder(ONES32, data), ONES32);
    Xor(Remainder(ONES32, data), ONES32)
  }

  // ---- the table form is the bit form

  /** A shift divides: bits above the lowest come through one place down. */
  lemma ShiftLinear(a: u32, h: nat)
    requires 2 * h < TWO32
    ensures Xor(a, 2 * h) < TWO32 && Shift32(Xor(a, 2 * h)) == Xor(Shift32(a), h)
  {
    Bound32(a, 2 * h);
    hide Xor;
    var x, p := a / 2, a % 2;
    XorPair(x, p, h, 0);
    Halve(Xor(x, h), p);
    assert Xor(a, 2 * h) == 2 * Xor(x, h) + p;
    XorAssociates(CRC32_POLY, x, h);
  }

  lemma {:induction false} ShiftsLinear(a: u32, h: nat, n: nat)
    requires Scaled(h, n) < TWO32
    ensures Xor(a, Scaled(h, n)) < TWO32 && Shifts32(Xor(a, Scaled(h, n)), n) == Xor(Shifts32(a, n), h)
    decreases n
  {
    Bound32(a, Scaled(h, n));
    if n > 0 {
      ShiftLinear(a, Scaled(h, n - 1));
      ShiftsLinear(Shift32(a), h, n - 1);
      hide Xor, Shift32;
    }
  }

  lemma {:induction false} FeedIsShift(c: u32, b: byte, n: nat)
    requires b < Pow2(n)
    ensures Xor(c, b) < TWO32 && FeedBits(c, b, n) == Shifts32(Xor(c, b), n)
    decreases n
  {
    Bound32(c, b);
    if n > 0 {
      var q, h := b % 2, b / 2;
      Bound32(c, q);
      FeedIsShift(Shift32(Xor(c, q)), h, n - 1);
      ShiftLinear(Xor(c, q), h);
      hide Xor, Shift32;
      assert Xor(q, 2 * h) == b by { XorPair(0, q, h, 0); XorZero(h); }
      XorAssociates(c, q, 2 * h);
    } else {
      XorZero(c);
    }
  }

  lemma XorZero(a: nat)
    ensures Xor(0, a) == a && Xor(a, 0) == a
  {
  }

  /** The table entry for the low byte and the rest of the state give the next state. */
  lemma TableStep(c: u32, b: byte)
    ensures Xor(c, b) < TWO32
    ensures Xor(Shifts32(Xor(c, b) % 256, 8), c / 256) == FeedBits(c, b, 8)
  {
    hide Xor, Shifts32, FeedBits;
    Powers();
    FeedIsShift(c, b, 8);
    LowByteXor(c, b);
    ShiftsLinear(Xor(c, b) % 256, c / 256, 8);
  }

  /** Folding in a byte touches only the low byte of a state. */
  lemma LowByteXor(c: u32, b: byte)
    ensures Scaled(c / 256, 8) < TWO32
    ensures Xor(c, b) == Xor(Xor(c, b) % 256, Scaled(c / 256, 8))
  {
    hide Xor, Scaled, Pow2;
    Powers();
    var lo, hi := c % 256, c / 256;
    var x := Xor(b, lo);
    XorBound(b, lo, 8);
    assert c == 256 * hi + lo;
    ScaledByte(hi);
    SumIsXor(lo, hi, 8);
    XorAssociates(b, lo, Scaled(hi, 8));
    XorCommutes(b, c);
    SumIsXor(x, hi, 8);
    assert Xor(c, b) == 256 * hi + x;
  }

  /** Crc32Table: entry `n` is `n` after eight shifts. */
  method BuildTable() returns (entries: array<u32>)
    ensures fresh(entries) && entries.Length == 256
    ensures forall n | 0 <= n < 256 :: entries[n] == Shifts32(n, 8)
  {
    entries := new u32[256];
    for n := 0 to 256
      invariant forall m | 0 <= m < n :: entries[m] == Shifts32(m, 8)
    {
      var c := TableEntry(n);
      entries[n] := c;
    }
  }

  method TableEntry(n: u32) returns (c: u32)
    ensures c == Shifts32(n, 8)
  {
    hide Xor;
    c := n;
    for left := 8 downto 0
      invariant Shifts32(c, left) == Shifts32(n, 8)
    {
      Bound32(CRC32_POLY, c / 2);
      c := if c % 2 == 1 then Xor(CRC32_POLY, c / 2) else c / 2;
    }
  }

  /** `crc32_update`, one table lookup a byte. */
  method Crc32Update(entries: array<u32>, start: u32, data: bytes) returns (state: u32)
    requires entries.Length == 256 && forall n | 0 <= n < 256 :: entries[n] == Shifts32(n, 8)
    ensures state == Remainder(start, data)
  {
    hide Xor, Shifts32, FeedBits;
    state := start;
    assert data[0..] == data;
    for i := 0 to |data|
      invariant Remainder(state, data[i..]) == Remainder(start, data)
    {
      TableStep(state, data[i]);
      assert data[i..][1..] == data[i + 1..];
      state := Xor(entries[Xor(state, data[i]) % 256], state / 256);
    }
  }

  /** The one-shot form. */
  method ComputeCrc32(data: bytes) returns (crc: u32)
    ensures crc == Crc32(data)
  {
    var entries := BuildTable();
    var state := Crc32Update(entries, ONES32, data);
    Bound32(state, ONES32);
    crc := Xor(state, ONES32);
  }

  /** Feeding a message in two chunks is feeding it whole. */
  lemma {:induction false} RemainderComposes(c: u32, a: bytes, b: bytes)
    ensures Remainder(c, a + b) == Remainder(Remainder(c, a), b)
    decreases a
  {
    if a == [] {
      assert a + b == b;
    } else {
      hide FeedBits;
      assert (a + b)[1..] == a[1..] + b;
      RemainderComposes(FeedBits(c, a[0], 8), a[1..], b);
    }
  }

  // ---- detection

  lemma ShiftInjective(c: u32, d: u32)
    requires Shift32(c) == Shift32(d)
    ensures c == d
  {
    var x, y := c / 2, d / 2;
    hide Xor;
    if c % 2 == 1 && d % 2 == 1 {
      XorInjective(CRC32_POLY, x, y);
    } else if c % 2 == 1 {
      TopBitStays(x, y);
    } else if d % 2 == 1 {
      TopBitStays(y, x);
    }
  }

  lemma TopBitStays(x: nat, y: nat)
    requires x < TWO32 / 2 && y < TWO32 / 2
    ensures Xor(CRC32_POLY, x) != y
  {
    hide Xor;
    if Xor(CRC32_POLY, x) == y {
      XorCommutes(CRC32_POLY, x);
      XorCancels(x, CRC32_POLY);
      Powers();
      XorBound(x, y, 31);
      assert false;
    }
  }

  lemma {:induction false} ShiftsInjective(c: u32, d: u32, n: nat)
    requires Shifts32(c, n) == Shifts32(d, n)
    ensures c == d
    decreases n
  {
    if n > 0 {
      hide Shift32;
      ShiftsInjective(Shift32(c), Shift32(d), n - 1);
      ShiftInjective(c, d);
    }
  }

  /** A byte step loses nothing: neither of the state nor of the byte. */
  lemma FeedInjective(c: u32, d: u32, a: byte, b: byte)
    requires FeedBits(c, a, 8) == FeedBits(d, b, 8) && (c == d || a == b)
    ensures c == d && a == b
  {
    Powers();
    FeedIsShift(c, a, 8);
    FeedIsShift(d, b, 8);
    ShiftsInjective(Xor(c, a), Xor(d, b), 8);
    hide Xor, FeedBits;
    if c == d {
      XorInjective(c, a, b);
    } else {
      XorCommutes(c, a);
      XorCommutes(d, a);
      XorInjective(a, c, d);
    }
  }

  lemma {:induction false} RemainderInjective(c: u32, d: u32, data: bytes)
    requires Remainder(c, data) == Remainder(d, data)
    ensures c == d
    decreases data
  {
    if data != [] {
      hide FeedBits;
      RemainderInjective(FeedBits(c, data[0], 8), FeedBits(d, data[0], 8), data[1..]);
      FeedInjective(c, d, data[0], data[0]);
    }
  }

  /** Two inputs that differ in one byte, and in nothing else, have different CRC-32s. */
  lemma OneByteDetected(a: bytes, b: bytes, i: nat)
    requires |a| == |b| && i < |a| && a[i] != b[i]
    requires a[..i] == b[..i] && a[i + 1..] == b[i + 1..]
    ensures Crc32(a) != Crc32(b)
  {
    hide Xor, FeedBits;
    var c := Remainder(ONES32, a[..i]);
    SplitAt(ONES32, a, i);
    SplitAt(ONES32, b, i);
    if Crc32(a) == Crc32(b) {
      XorCommutes(Remainder(ONES32, a), ONES32);
      XorCommutes(Remainder(ONES32, b), ONES32);
      XorInjective(ONES32, Remainder(ONES32, a), Remainder(ONES32, b));
      RemainderInjective(FeedBits(c, a[i], 8), FeedBits(c, b[i], 8), a[i + 1..]);
      FeedInjective(c, c, a[i], b[i]);
    }
  }

  lemma SplitAt(c: u32, a: bytes, i: nat)
    requires i < |a|
    ensures Remainder(c, a) == Remainder(FeedBits(Remainder(c, a[..i]), a[i], 8), a[i + 1..])
  {
    hide FeedBits;
    assert a == a[..i] + a[i..] && a[i..][1..] == a[i + 1..];
    RemainderComposes(c, a[..i], a[i..]);
  }

  // ---- the header CRC-16

  /** One bit of the division by 0x1021, highest bit first, in sixteen bits. */
  function Shift16(c: u16): u16 {
    Bound16(2 * c % TWO16, CRC16_POLY);
    if c >= 0x8000 then Xor(2 * c % TWO16, CRC16_POLY) else 2 * c % TWO16
  }

  function Shifts16(c: u16, n: nat): u16
    decreases n, c
  {
    if n == 0 then c else Shifts16(Shift16(c), n - 1)
  }

  function Feed16(c: u16, b: byte): u16 {
    Bound16(c, 256 * b);
    Shifts16(Xor(c, 256 * b), 8)
  }

  function Remainder16(c: u16, data: bytes): u16
    decreases data
  {
    if data == [] then c else Remainder16(Feed16(c, data[0]), data[1..])
  }

  function Crc16(data: bytes): u16 {
    Remainder16(ONES16, data)
  }

  method ComputeCrc16(data: bytes) returns (crc: u16)
    ensures crc == Crc16(data)
  {
    hide Xor, Shift16;
    crc := ONES16;
    assert data[0..] == data;
    for i := 0 to |data|
      invariant Remainder16(crc, data[i..]) == Crc16(data)
    {
      ghost var before := crc;
      var high: u16 := 256 * (data[i] as int);
      Bound16(crc, high);
      crc := Xor(crc, high);
      for left := 8 downto 0
        invariant Shifts16(crc, left) == Feed16(before, data[i])
      {
        crc := ShiftOnce16(crc);
      }
      assert data[i..][1..] == data[i + 1..];
    }
  }

  method ShiftOnce16(c: u16) returns (r: u16)
    ensures r == Shift16(c)
  {
    r := 2 * c % TWO16;
    Bound16(r, CRC16_POLY);
    if c >= 0x8000 {
      r := Xor(r, CRC16_POLY);
    }
  }

  lemma Shift16Injective(c: u16, d: u16)
    requires Shift16(c) == Shift16(d)
    ensures c == d
  {
    hide Xor;
    var x, y := c % 0x8000, d % 0x8000;
    assert 2 * c % TWO16 == 2 * x && 2 * d % TWO16 == 2 * y;
    XorPair(x, 0, CRC16_POLY / 2, 1);
    XorPair(y, 0, CRC16_POLY / 2, 1);
    if c >= 0x8000 && d >= 0x8000 {
      XorCommutes(2 * x, CRC16_POLY);
      XorCommutes(2 * y, CRC16_POLY);
      XorInjective(CRC16_POLY, 2 * x, 2 * y);
    }
  }

  lemma {:induction false} Shifts16Injective(c: u16, d: u16, n: nat)
    requires Shifts16(c, n) == Shifts16(d, n)
    ensures c == d
    decreases n
  {
    if n > 0 {
      hide Shift16;
      Shifts16Injective(Shift16(c), Shift16(d), n - 1);
      Shift16Injective(c, d);
    }
  }

  lemma Feed16Injective(c: u16, d: u16, a: byte, b: byte)
    requires Feed16(c, a) == Feed16(d, b) && (c == d || a == b)
    ensures c == d && a == b
  {
    hide Xor, Shifts16;
    Bound16(c, 256 * a);
    Bound16(d, 256 * b);
    Shifts16Injective(Xor(c, 256 * a), Xor(d, 256 * b), 8);
    if c == d {
      XorInjective(c, 256 * a, 256 * b);
    } else {
      XorCommutes(c, 256 * a);
      XorCommutes(d, 256 * a);
      XorInjective(256 * a, c, d);
    }
  }

  lemma {:induction false} Remainder16Injective(c: u16, d: u16, data: bytes)
    requires Remainder16(c, data) == Remainder16(d, data)
    ensures c == d
    decreases data
  {
    if data != [] {
      hide Feed16;
      Remainder16Injective(Feed16(c, data[0]), Feed16(d, data[0]), data[1..]);
      Feed16Injective(c, d, data[0], data[0]);
    }
  }

  /** A header with one byte altered never keeps its CRC-16. */
  lemma {:induction false} OneByteDetected16(c: u16, a: bytes, b: bytes, i: nat)
    requires |a| == |b| && i < |a| && a[i] != b[i]
    requires a[..i] == b[..i] && a[i + 1..] == b[i + 1..]
    ensures Remainder16(c, a) != Remainder16(c, b)
    decreases i
  {
    hide Feed16;
    if i == 0 {
      if Remainder16(c, a) == Remainder16(c, b) {
        Remainder16Injective(Feed16(c, a[0]), Feed16(c, b[0]), a[1..]);
        Feed16Injective(c, c, a[0], b[0]);
      }
    } else {
      assert a[0] == a[..i][0] == b[..i][0] == b[0];
      assert a[1..][..i - 1] == a[..i][1..] && b[1..][..i - 1] == b[..i][1..];
      assert a[1..][i..] == a[i + 1..] && b[1..][i..] == b[i + 1..];
      OneByteDetected16(Feed16(c, a[0]), a[1..], b[1..], i - 1);
    }
  }
}
