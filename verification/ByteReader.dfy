/**
  * byte_reader.cpp: the bounds-checked cursor every decoder reads through. A read either
  * consumes exactly the bytes of its field or fails with the cursor where it was, and its
  * value is that of the field's encoding.
  */
module ByteReading {
  import opened Bits
  import opened Common
  import opened Numbers
  import opened Seqs

  /** What a read of `n` bytes leaves and takes, or the short read. */
  function Split(s: bytes, n: nat): Result<(bytes, bytes)> {
    if n > |s| then Err(ShortRead) else Ok((s[..n], s[n..]))
  }

  class ByteReader {
    const data: bytes
    var pos: nat

    ghost predicate Valid()
      reads this
    {
      pos <= |data|
    }

    ghost function Rest(): bytes
      requires Valid()
      reads this
    {
      data[pos..]
    }

    constructor (data: bytes)
      ensures Valid() && this.data == data && pos == 0 && Rest() == data
    {
      this.data := data;
      pos := 0;
    }

    function Remaining(): (n: nat)
      requires Valid()
      reads this
      ensures n == |Rest()|
    {
      |data| - pos
    }

    method Skip(n: nat) returns (r: Result<()>)
      requires Valid()
      modifies this
      ensures Valid()
      ensures match Split(old(Rest()), n)
              case Ok((_, rest)) => r == Ok(()) && Rest() == rest
              case Err(code) => r == Err(code) && Rest() == old(Rest())
    {
      if n > Remaining() {
        return Err(ShortRead);
      }
      pos := pos + n;
      r := Ok(());
    }

    method ReadBytes(n: nat) returns (r: Result<bytes>)
      requires Valid()
      modifies this
      ensures Valid()
      ensures match Split(old(Rest()), n)
              case Ok((out, rest)) => r == Ok(out) && Rest() == rest
              case Err(code) => r == Err(code) && Rest() == old(Rest())
    {
      if n > Remaining() {
        return Err(ShortRead);
      }
      SuffixSlice(data, pos, 0, n);
      SuffixSlice(data, pos, n, |data| - pos);
      pos := pos + n;
      r := Ok(data[pos - n..pos]);
    }

    method ReadU8() returns (r: Result<byte>)
      requires Valid()
      modifies this
      ensures Valid()
      ensures var s := old(Rest());
              if s == [] then r == Err(ShortRead) && Rest() == s else r == Ok(s[0]) && Rest() == s[1..]
    {
      if Remaining() < 1 {
        return Err(ShortRead);
      }
      pos := pos + 1;
      r := Ok(data[pos - 1]);
    }

    /** A field of `n` bytes read highest byte first: two, four and eight bytes in the format. */
    method ReadBe(n: nat) returns (r: Result<nat>)
      requires Valid()
      modifies this
      ensures Valid()
      ensures match Split(old(Rest()), n)
              case Ok((field, rest)) => r == Ok(FromBe(field)) && Rest() == rest
              case Err(code) => r == Err(code) && Rest() == old(Rest())
    {
      if n > Remaining() {
        return Err(ShortRead);
      }
      ghost var field := data[pos..][..n];
      assert field[..0] == [];
      var v := 0;
      for i := 0 to n
        invariant v == FromBe(field[..i])
      {
        assert field[..i + 1][..i] == field[..i] && field[i] == data[pos + i];
        var digit: nat := data[pos + i];
        v := 256 * v + digit;
      }
      assert field[..n] == field;
      SuffixSlice(data, pos, n, |data| - pos);
      pos := pos + n;
      r := Ok(v);
    }

    /** The same, lowest byte first: the loop runs from the last byte down. */
    method ReadLe(n: nat) returns (r: Result<nat>)
      requires Valid()
      modifies this
      ensures Valid()
      ensures match Split(old(Rest()), n)
              case Ok((field, rest)) => r == Ok(FromLe(field)) && Rest() == rest
              case Err(code) => r == Err(code) && Rest() == old(Rest())
    {
      if n > Remaining() {
        return Err(ShortRead);
      }
      ghost var field := data[pos..][..n];
      var v := 0;
      for i := n downto 0
        invariant v == FromLe(field[i..])
      {
        assert field[i..][1..] == field[i + 1..] && field[i] == data[pos + i];
        var digit: nat := data[pos + i];
        v := 256 * v + digit;
      }
      assert field[0..] == field;
      SuffixSlice(data, pos, n, |data| - pos);
      pos := pos + n;
      r := Ok(v);
    }

    /** Unsigned LEB128; the bits or-ed into the 64-bit accumulator are still clear in it. */
    method ReadVarint() returns (r: Result<u64>)
      requires Valid()
      modifies this
      ensures Valid()
      ensures match Numbers.ReadVarint(old(Rest()))
              case Ok((v, rest)) => r == Ok(v) && Rest() == rest
              case Err(code) => r == Err(code)
    {
      hide Groups, Join, Pow128, Truncate64, Payload;
      JoinNone(Groups(Rest(), VARINT_LIMIT));
      FirstPower();
      ghost var whole := Groups(Rest(), VARINT_LIMIT);
      var result: u64 := 0;
      var scale := 1;  // 2^shift
      for i := 0 to VARINT_LIMIT
        invariant Valid() && scale == Pow128(i) && result < scale && i < VARINT_LIMIT
        invariant whole == Join(result, scale, Groups(Rest(), VARINT_LIMIT - i))
      {
        GroupsStep(Rest(), VARINT_LIMIT - i, result, scale);
        ScaleFits(i);
        var b :- ReadU8();
        var low := Payload(b);
        if b < 128 {
          assert whole == Ok((result + scale * low, Rest()));
          return Ok(Truncate64(result + scale * low));
        }
        if i + 1 == VARINT_LIMIT {
          assert whole == Err(BadLength);
          return Err(BadLength);
        }
        StaysClear(scale, result, low);
        result := Truncate64(result + scale * low);
        scale := 128 * scale;
      }
      assert false;
    }

    /** Zig-zag over LEB128. */
    method ReadSvarint() returns (r: Result<i64>)
      requires Valid()
      modifies this
      ensures Valid()
      ensures match Numbers.ReadVarint(old(Rest()))
              case Ok((v, rest)) => r == Ok(UnZigZag(v)) && Rest() == rest
              case Err(code) => r == Err(code)
    {
      hide Numbers.ReadVarint, UnZigZag;
      var u :- ReadVarint();
      r := Ok(UnZigZag(u));
    }
  }

  /** Groups read so far, worth `acc` in all, in front of the result for the others. */
  ghost function Join(acc: nat, scale: nat, later: Result<(nat, bytes)>): Result<(nat, bytes)> {
    var (v, rest) :- later;
    Ok((acc + scale * v, rest))
  }

  lemma JoinNone(r: Result<(nat, bytes)>)
    ensures Join(0, 1, r) == r
  {
    if r.Ok? {
      assert r.value == (r.value.0, r.value.1);
    }
  }

  lemma FirstPower()
    ensures Pow128(0) == 1
  {
  }

  /** The seven value bits of a group. */
  function Payload(b: byte): (p: nat)
    ensures p < 128
  {
    if b < 128 then b else b - 128
  }

  lemma GroupsStep(s: bytes, left: nat, acc: nat, scale: nat)
    requires left > 0
    ensures Join(acc, scale, Groups(s, left)) ==
            if s == [] then Err(ShortRead)
            else if s[0] < 128 then Ok((acc + scale * Payload(s[0]), s[1..]))
            else if left == 1 then Err(BadLength)
            else Join(acc + scale * Payload(s[0]), 128 * scale, Groups(s[1..], left - 1))
  {
    if s == [] {
      assert Join(acc, scale, Groups(s, left)) == Err(ShortRead);
    } else if s[0] < 128 {
      assert Join(acc, scale, Groups(s, left)) == Ok((acc + scale * Payload(s[0]), s[1..]));
    } else if left == 1 {
      assert Groups(s[1..], left - 1) == Err(BadLength);
      assert Groups(s, left) == Err(BadLength);
    } else {
      var later := Groups(s[1..], left - 1);
      if later.Ok? {
        JoinTwice(acc, scale, Payload(s[0]), later.value.0);
      }
    }
  }

  lemma JoinTwice(acc: nat, scale: nat, low: nat, v: nat)
    ensures acc + scale * (low + 128 * v) == acc + scale * low + 128 * scale * v
  {
  }

  lemma ScaleFits(i: nat)
    requires i < VARINT_LIMIT
    ensures Pow128(i) <= TWO63
    ensures i + 1 < VARINT_LIMIT ==> Pow128(i + 1) == 128 * Pow128(i) <= TWO63
  {
    assert Pow128(3) == 0x20_0000;
    assert Pow128(6) == 0x20_0000 * Pow128(3);
    assert Pow128(9) == 0x20_0000 * Pow128(6);
    Pow128Grows(i, 9);
    if i + 1 < VARINT_LIMIT {
      Pow128Grows(i + 1, 9);
    }
  }

  lemma {:induction false} Pow128Grows(i: nat, j: nat)
    requires i <= j
    ensures Pow128(i) <= Pow128(j)
    decreases j
  {
    if i < j {
      Pow128Grows(i, j - 1);
    }
  }

  lemma StaysClear(scale: nat, result: nat, low: nat)
    requires result < scale && low < 128
    ensures scale * low >= 0 && result + scale * low < 128 * scale
    ensures 128 * scale <= TWO63 ==> Truncate64(result + scale * low) == result + scale * low
  {
    assert scale * low <= scale * 127;
  }
}
