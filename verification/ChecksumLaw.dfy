/** The two checksums as polynomial division. */
module ChecksumLaw {
  // Bit by bit, one step of either checksum is one step of a division by its generator polynomial,
  // and a message with its own checksum behind it leaves the same remainder whatever it says.

  import opened Bits
  import opened Checksum
  import opened Common
  import opened Numbers

  /** The powers of x in the generator of section 8 of RFC 1952, but for x^32. */
  predicate InCrc32(power: nat) {
    power in {26, 23, 22, 16, 12, 11, 10, 8, 7, 5, 4, 2, 1, 0}
  }

  /** The powers of x in the header checksum's generator, but for x^16. */
  predicate InCrc16(power: nat) {
    power == 12 || power == 5 || power == 0
  }

  /** Past its low byte, the bits of a number are those of the rest. */
  lemma BehindByte(x: nat, k: nat)
    ensures Bit(x, k + 8) == Bit(x / 256, k)
  {
    hide Dropped;
    BehindTwo(x, k + 6);
    BehindTwo(x / 4, k + 4);
    BehindTwo(x / 16, k + 2);
    BehindTwo(x / 64, k);
  }

  lemma BehindTwo(x: nat, n: nat)
    ensures Dropped(x, n + 2) == Dropped(x / 4, n)
  {
    assert Dropped(x, n + 2) == Dropped(x / 2, n + 1) == Dropped(x / 2 / 2, n);
  }

  lemma FewDropped(x: nat)
    ensures Dropped(x, 0) == x && Dropped(x, 1) == x / 2
  {
  }

  /** `x` shifted right by less than eight. */
  function Halved(x: nat, k: nat): nat
    requires k < 8
  {
    if k == 0 then x else if k == 1 then x / 2 else if k == 2 then x / 4 else if k == 3 then x / 8
    else if k == 4 then x / 16 else if k == 5 then x / 32 else if k == 6 then x / 64 else x / 128
  }

  lemma ByteBits(x: nat, k: nat)
    requires k < 8
    ensures Dropped(x, k) == Halved(x, k)
  {
    hide Dropped;
    var quarter, sixteenth, least := x / 4, x / 16, x / 64;
    assert quarter / 4 == sixteenth && sixteenth / 4 == least;
    assert x / 8 == quarter / 2 && x / 32 == sixteenth / 2 && x / 128 == least / 2;
    if k < 2 {
      FewDropped(x);
    } else {
      BehindTwo(x, k - 2);
      if k < 4 {
        FewDropped(quarter);
      } else {
        BehindTwo(quarter, k - 4);
        if k < 6 {
          FewDropped(sixteenth);
        } else {
          BehindTwo(sixteenth, k - 6);
          FewDropped(least);
        }
      }
    }
  }

  /** The constant of the source: the generator's powers, x^31 in the lowest bit. */
  lemma GeneratorBits(k: nat)
    requires k < 32
    ensures Bit(0xEDB8_8320, k) == 1 <==> InCrc32(31 - k)
  {
    hide Bit;
    if k < 8 {
      LowByte(0xEDB8_83, 0x20, k);
    } else if k < 16 {
      BehindByte(0xEDB8_8320, k - 8);
      LowByte(0xEDB8, 0x83, k - 8);
    } else if k < 24 {
      BehindByte(0xEDB8_8320, k - 8);
      BehindByte(0xEDB8_83, k - 16);
      LowByte(0xED, 0xB8, k - 16);
    } else {
      BehindByte(0xEDB8_8320, k - 8);
      BehindByte(0xEDB8_83, k - 16);
      BehindByte(0xEDB8, k - 24);
      LowByte(0, 0xED, k - 24);
    }
  }

  lemma LowByte(high: nat, low: byte, k: nat)
    requires k < 8
    ensures Bit(256 * high + low, k) == Bit(low, k)
    ensures Bit(low, k) == Halved(low, k) % 2
  {
    ByteBits(low, k);
    Powers();
    HighIgnored(high, low, k, 8);
    hide Bit, Pow2, Halved;
  }

  lemma {:induction false} HighIgnored(high: nat, low: nat, k: nat, n: nat)
    requires k < n
    ensures Bit(Pow2(n) * high + low, k) == Bit(low, k)
    decreases k
  {
    var p := Pow2(n - 1) * high;
    assert Pow2(n) * high == 2 * p;
    var x, b := low / 2, low % 2;
    assert low == 2 * x + b && 2 * p + low == 2 * (p + x) + b;
    hide Bit;
    BitOfPair(p + x, b, k);
    BitOfPair(x, b, k);
    if k > 0 {
      HighIgnored(high, x, k - 1, n - 1);
    }
  }

  lemma Generator16Bits(k: nat)
    requires k < 16
    ensures Bit(0x1021, k) == 1 <==> InCrc16(k)
  {
    hide Bit;
    if k < 8 {
      LowByte(0x10, 0x21, k);
    } else {
      BehindByte(0x1021, k - 8);
      LowByte(0, 0x10, k - 8);
    }
  }

  // ---- one step divides by the generator

  /**
    * One bit step of CRC-32, whose register holds x^31 in its lowest bit: every coefficient moves up
    * one power, and a coefficient of x^32 is taken off by the generator.
    */
  lemma ShiftExactly(c: u32, k: nat)
    requires k < 32
    ensures Bit(Shift32(c), k) == 1
       <==> (k < 31 && Bit(c, k + 1) == 1) != (c % 2 == 1 && InCrc32(31 - k))
  {
    TopBit(c);
    BehindOne(c, k);
    BitwiseBits(CRC32_POLY, c / 2, k);
    GeneratorBits(k);
    Bound32(CRC32_POLY, c / 2);
    hide Bit, Xor, InCrc32;
  }

  lemma TopBit(c: u32)
    ensures Bit(c, 32) == 0
  {
    Powers();
    AllDropped(c, 32);
  }

  lemma BehindOne(x: nat, k: nat)
    ensures Bit(x, k + 1) == Bit(x / 2, k)
  {
  }

  /** One bit step of the header checksum, highest power in the highest bit. */
  lemma Shift16Exactly(c: u16, k: nat)
    requires k < 16
    ensures Bit(Shift16(c), k) == 1
       <==> (k > 0 && Bit(c, k - 1) == 1) != (c >= 0x8000 && InCrc16(k))
  {
    var top := if c >= 0x8000 then 1 else 0;
    var doubled := 2 * c % TWO16;
    assert 2 * c == 0x1_0000 * top + doubled;
    Powers();
    HighIgnored(top, doubled, k, 16);
    assert Bit(doubled, k) == Bit(2 * c + 0, k);
    BitOfPair(c, 0, k);
    BitwiseBits(doubled, CRC16_POLY, k);
    Generator16Bits(k);
    Bound16(doubled, CRC16_POLY);
    hide Bit, Xor, InCrc16, Pow2;
  }

  /** The checksum is the remainder from all ones on, with every bit turned over. */
  lemma ChecksumExactly(data: bytes, k: nat)
    requires k < 32
    ensures Bit(Crc32(data), k) == 1 - Bit(Remainder(0xFFFF_FFFF, data), k)
  {
    Bound32(Remainder(ONES32, data), ONES32);
    BitwiseBits(Remainder(ONES32, data), ONES32, k);
    Powers();
    BitwiseBits(0, 0xFFFF_FFFF, k);
    ComplementBits(0, 0xFFFF_FFFF, 32, k);
    ZeroBits(k);
    hide Bit, Xor, Pow2;
  }

  lemma {:induction false} ZeroBits(k: nat)
    ensures Bit(0, k) == 0
  {
    if k > 0 {
      ZeroBits(k - 1);
    }
  }

  // ---- a message and its checksum

  lemma {:induction false} ShiftsAdd(c: u32, a: nat, b: nat)
    ensures Shifts32(c, a + b) == Shifts32(Shifts32(c, a), b)
    decreases a
  {
    if a > 0 {
      ShiftsAdd(Shift32(c), a - 1, b);
    }
  }

  /** Feeding the bytes of a word, lowest first, divides their sum with the register. */
  lemma {:induction false} WordFed(c: u32, w: u32, n: nat)
    requires w < Pow256(n)
    ensures Xor(c, w) < TWO32 && Remainder(c, Le(w, n)) == Shifts32(Xor(c, w), 8 * n)
    decreases n
  {
    Bound32(c, w);
    if n == 0 {
      XorZero(c);
    } else {
      var low, high := w % 256, w / 256;
      ByteFed(c, low, high);
      hide Xor, FeedBits, Shifts32;
      assert Le(w, n) == [low] + Le(high, n - 1);
      WordFed(FeedBits(c, low, 8), high, n - 1);
      ShiftsAdd(Xor(c, w), 8, 8 * (n - 1));
      assert Remainder(c, Le(w, n)) == Remainder(FeedBits(c, low, 8), Le(high, n - 1));
    }
  }

  lemma ByteFed(c: u32, low: byte, high: nat)
    requires 256 * high + low < TWO32
    ensures Xor(c, 256 * high + low) < TWO32
    ensures Shifts32(Xor(c, 256 * high + low), 8) == Xor(FeedBits(c, low, 8), high)
  {
    hide Xor, Shifts32, FeedBits;
    var w := 256 * high + low;
    Bound32(c, w);
    Bound32(c, low);
    ScaledByte(high);
    Powers();
    FeedIsShift(c, low, 8);
    SumIsXor(low, high, 8);
    XorAssociates(c, low, Scaled(high, 8));
    ShiftsLinear(Xor(c, low), high, 8);
  }

  /** Whatever the message, with its checksum behind it, lowest byte first, the remainder is the same. */
  lemma SealedRemainder(data: bytes)
    ensures Remainder(0xFFFF_FFFF, data + Le(Crc32(data), 4)) == Shifts32(0xFFFF_FFFF, 32)
  {
    hide Xor, Shifts32, Remainder;
    var c := Remainder(ONES32, data);
    RemainderComposes(ONES32, data, Le(Crc32(data), 4));
    Widths();
    WordFed(c, Crc32(data), 4);
    Bound32(c, ONES32);
    XorAssociates(c, c, ONES32);
    XorSelf(c);
    XorZero(ONES32);
  }

  lemma {:induction false} Remainder16Composes(c: u16, a: bytes, b: bytes)
    ensures Remainder16(c, a + b) == Remainder16(Remainder16(c, a), b)
    decreases a
  {
    hide Feed16;
    if a == [] {
      assert a + b == b;
    } else {
      assert (a + b)[1..] == a[1..] + b;
      Remainder16Composes(Feed16(c, a[0]), a[1..], b);
    }
  }

  /** With its highest bit clear a register is doubled. */
  lemma ShiftDoubles(low: nat, n: nat)
    requires n > 0 && low * Pow2(n) < TWO16
    ensures low * Pow2(n) == 2 * low * Pow2(n - 1) && 2 * low < TWO16 && Shift16(low) == 2 * low
  {
    var p := Pow2(n - 1);
    assert low * (2 * p) == 2 * low * p && 2 * low * 1 <= 2 * low * p;
    hide Xor, Pow2;
  }

  /** A low byte moves to the high one undivided. */
  lemma {:induction false} LowShifted(low: nat, n: nat)
    requires low * Pow2(n) < TWO16
    ensures low < TWO16 && Shifts16(low, n) == low * Pow2(n)
    decreases n
  {
    hide Shift16, Pow2;
    if n > 0 {
      ShiftDoubles(low, n);
      LowShifted(2 * low, n - 1);
    } else {
      PowZero();
    }
  }

  lemma PowZero()
    ensures Pow2(0) == 1
  {
  }

  lemma ZeroShifts(n: nat)
    ensures Shifts16(0, n) == 0
  {
    LowShifted(0, n);
  }

  /** Feeding a register its own two bytes, highest first, leaves nothing. */
  lemma OwnBytesFed(c: u16)
    ensures Remainder16(c, [c / 256, c % 256]) == 0
  {
    hide Xor, Shifts16;
    var high, low := c / 256, c % 256;
    HighTaken(c);
    Powers();
    LowShifted(low, 8);
    assert Feed16(c, high) == 256 * low;
    XorSelf(256 * low);
    ZeroShifts(8);
    assert Feed16(256 * low, low) == 0;
    hide Feed16;
    assert [high, low][1..] == [low] && [low][1..] == [];
    assert Remainder16(0, []) == 0;
    assert Remainder16(256 * low, [low]) == Remainder16(0, []);
  }

  lemma HighTaken(c: u16)
    ensures Xor(c, 256 * (c / 256)) == c % 256
  {
    hide Xor;
    var high, low := c / 256, c % 256;
    ScaledByte(high);
    Powers();
    SumIsXor(low, high, 8);
    XorAssociates(low, 256 * high, 256 * high);
    XorSelf(256 * high);
    XorZero(low);
  }

  /** A header with its checksum behind it, highest byte first, leaves no remainder. */
  lemma SealedHeader(data: bytes)
    ensures Remainder16(0xFFFF, data + Be(Crc16(data), 2)) == 0
  {
    hide Remainder16;
    var c := Crc16(data);
    Remainder16Composes(ONES16, data, Be(c, 2));
    OwnBytesFed(c);
    assert Be(c, 2) == [c / 256, c % 256];
  }
}
