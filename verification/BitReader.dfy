/** bit_reader.cpp: the bit cursor and its whole-byte fast path. */
module BitReading {
  import opened Bits
  import opened Common
  import opened Numbers

  /** Bit `i` of a buffer, counted from the highest bit of the first byte. */
  function BitAt(data: bytes, i: nat): bit
    requires i < 8 * |data|
  {
    Dropped(data[i / 8], 7 - i % 8) % 2
  }

  /** `n` single bits from `p` on, the first one most significant. */
  function BitsAt(data: bytes, p: nat, n: nat): (v: nat)
    requires p + n <= 8 * |data|
    ensures v < Pow2(n)
  {
    if n == 0 then 0 else 2 * BitsAt(data, p, n - 1) + BitAt(data, p + n - 1)
  }

  /** Two fields read one after the other are one field. */
  lemma {:induction false} BitsCompose(data: bytes, p: nat, a: nat, b: nat)
    requires p + a + b <= 8 * |data|
    ensures BitsAt(data, p, a + b) == Scaled(BitsAt(data, p, a), b) + BitsAt(data, p + a, b)
    decreases b
  {
    if b > 0 {
      BitsCompose(data, p, a, b - 1);
    }
  }

  lemma NoBits(data: bytes, p: nat)
    requires p <= 8 * |data|
    ensures BitsAt(data, p, 0) == 0
  {
  }

  lemma OneMoreBit(data: bytes, p: nat, n: nat)
    requires p + n < 8 * |data|
    ensures BitsAt(data, p, n + 1) == BitsAt(data, p, n) * 2 + BitAt(data, p + n)
  {
  }

  lemma OneMoreByte(data: bytes, p: nat, n: nat)
    requires p + n + 8 <= 8 * |data| && (p + n) % 8 == 0
    ensures BitsAt(data, p, n + 8) == BitsAt(data, p, n) * 256 + data[(p + n) / 8]
  {
    hide BitsAt, Scaled;
    BitsCompose(data, p, n, 8);
    ByteBits(data, (p + n) / 8);
    ScaledByte(BitsAt(data, p, n));
  }

  lemma FitsWord(n: nat)
    requires n <= 64
    ensures Pow2(n) <= TWO64
  {
    Pow64();
    Pow2Grows(n, 64);
  }

  lemma {:induction false} Pow2Grows(n: nat, m: nat)
    requires n <= m
    ensures Pow2(n) <= Pow2(m)
    decreases m
  {
    if n < m {
      Pow2Grows(n, m - 1);
    }
  }

  /** Eight bits on a byte boundary are that byte. */
  lemma ByteBits(data: bytes, k: nat)
    requires k < |data|
    ensures BitsAt(data, 8 * k, 8) == data[k]
  {
    HighBits(data, k, 8);
  }

  lemma {:induction false} HighBits(data: bytes, k: nat, n: nat)
    requires k < |data| && n <= 8
    ensures BitsAt(data, 8 * k, n) == Dropped(data[k], 8 - n)
    decreases n
  {
    if n == 0 {
      ByteDropped(data[k]);
    } else {
      HighBits(data, k, n - 1);
      var i := 8 * k + n - 1;
      assert i / 8 == k && i % 8 == n - 1;
      hide Dropped;
      DroppedStep(data[k], 8 - n);
    }
  }

  class BitReader {
    const data: bytes
    var bitPos: nat

    ghost predicate Valid()
      reads this
    {
      bitPos <= 8 * |data|
    }

    constructor (data: bytes)
      ensures Valid() && this.data == data && bitPos == 0
    {
      this.data := data;
      bitPos := 0;
    }

    function Remaining(): (n: nat)
      requires Valid()
      reads this
    {
      8 * |data| - bitPos
    }

    method ReadBit() returns (r: Result<bit>)
      requires Valid()
      modifies this
      ensures Valid()
      ensures if old(Remaining()) == 0 then r == Err(ShortRead) && bitPos == old(bitPos)
              else r == Ok(BitAt(data, old(bitPos))) && bitPos == old(bitPos) + 1
    {
      if bitPos >= 8 * |data| {
        return Err(ShortRead);
      }
      bitPos := bitPos + 1;
      r := Ok(BitAt(data, bitPos - 1));
    }

    /** Up to 64 bits, whole bytes at a time while the cursor is on a byte boundary. */
    method ReadBits(count: nat) returns (r: Result<u64>)
      requires Valid()
      modifies this
      ensures Valid()
      ensures if count > 64 then r == Err(BadLength) && bitPos == old(bitPos)
              else if count > old(Remaining()) then r == Err(ShortRead) && bitPos == old(bitPos)
              else r == Ok(BitsAt(data, old(bitPos), count)) && bitPos == old(bitPos) + count
    {
      if count == 0 {
        return Ok(0);
      }
      if count > 64 {
        return Err(BadLength);
      }
      if count > Remaining() {
        return Err(ShortRead);
      }
      r := ReadField(count);
    }

    /** The two loops of `read_bits`: whole bytes, then single bits. */
    method ReadField(count: nat) returns (r: Result<u64>)
      requires Valid() && count <= 64 && count <= Remaining()
      modifies this
      ensures Valid() && r == Ok(BitsAt(data, old(bitPos), count)) && bitPos == old(bitPos) + count
    {
      hide BitsAt, BitAt, Scaled, Pow2;
      ghost var start := bitPos;
      var value: nat, left: nat := ReadWholeBytes(count);
      while left > 0
        invariant Valid() && start <= bitPos && left <= count == bitPos - start + left && left <= Remaining()
        invariant value == BitsAt(data, start, bitPos - start)
        decreases left
      {
        OneMoreBit(data, start, bitPos - start);
        var b := ReadBit();
        value := value * 2 + b.value;
        left := left - 1;
      }
      FitsWord(count);
      r := Ok(value);
    }

    /** The fast path: as many whole bytes as `count` has, while on a byte boundary. */
    method ReadWholeBytes(count: nat) returns (value: nat, left: nat)
      requires Valid() && count <= Remaining()
      modifies this
      ensures Valid() && left <= count && bitPos == old(bitPos) + count - left
      ensures value == BitsAt(data, old(bitPos), count - left)
    {
      hide BitsAt, BitAt, Scaled, Pow2;
      ghost var start := bitPos;
      NoBits(data, start);
      value := 0;
      left := count;
      while left >= 8 && bitPos % 8 == 0
        invariant Valid() && start <= bitPos && left <= count == bitPos - start + left && left <= Remaining()
        invariant value == BitsAt(data, start, bitPos - start)
        decreases left
      {
        OneMoreByte(data, start, bitPos - start);
        var b: nat := data[bitPos / 8];
        value := value * 256 + b;
        bitPos := bitPos + 8;
        left := left - 8;
      }
    }

    method SkipBits(count: nat) returns (r: Result<()>)
      requires Valid()
      modifies this
      ensures Valid()
      ensures if count > old(Remaining()) then r == Err(ShortRead) && bitPos == old(bitPos)
              else r == Ok(()) && bitPos == old(bitPos) + count
    {
      if count > Remaining() {
        return Err(ShortRead);
      }
      bitPos := bitPos + count;
      r := Ok(());
    }

    /** On to the next byte boundary. */
    method Align()
      requires Valid()
      modifies this
      ensures Valid() && bitPos % 8 == 0 && old(bitPos) <= bitPos < old(bitPos) + 8
    {
      var rem := bitPos % 8;
      if rem != 0 {
        bitPos := bitPos + (8 - rem);
      }
    }
  }
}
