/**
  * byte_writer.cpp: the growing output buffer and its back-patched slots. A put appends
  * exactly the bytes of its field's encoding; a patch overwrites four bytes and leaves all
  * others alone.
  */
module ByteWriting {
  import opened Common
  import opened Numbers
  import opened Seqs

  class ByteWriter {
    var buffer: bytes

    constructor ()
      ensures buffer == []
    {
      buffer := [];
    }

    method PutU8(v: byte)
      modifies this
      ensures buffer == old(buffer) + [v]
    {
      buffer := buffer + [v];
    }

    /** A field of `n` bytes, lowest byte first. */
    method PutLe(v: nat, n: nat)
      modifies this
      ensures buffer == old(buffer) + Le(v, n)
    {
      ghost var start := buffer;
      var left := v;  // v >> (8 * i)
      for i := 0 to n
        invariant buffer + Le(left, n - i) == start + Le(v, n)
      {
        Regroup3(buffer, [left % 256], Le(left / 256, n - i - 1));
        buffer := buffer + [left % 256];
        left := left / 256;
      }
    }

    /** The same, highest byte first. */
    method PutBe(v: nat, n: nat)
      modifies this
      ensures buffer == old(buffer) + Be(v, n)
    {
      ghost var start := buffer;
      for i := n downto 0
        invariant buffer == start + Be(Above(v, i), n - i)
      {
        AboveStep(v, i);
        Regroup3(start, Be(Above(v, i + 1), n - i - 1), [Above(v, i) % 256]);
        buffer := buffer + [Above(v, i) % 256];
      }
    }

    method PutVarint(v: u64)
      modifies this
      ensures buffer == old(buffer) + Varint(v)
    {
      ghost var start := buffer;
      var left: u64 := v;
      while left >= 0x80
        invariant buffer + Varint(left) == start + Varint(v)
        decreases left
      {
        Regroup3(buffer, [left % 128 + 128], Varint(left / 128));
        buffer := buffer + [left % 128 + 128];
        left := left / 128;
      }
      buffer := buffer + [left];
    }

    method PutSvarint(v: i64)
      modifies this
      ensures buffer == old(buffer) + Varint(ZigZag(v))
    {
      PutVarint(ZigZag(v));
    }

    method PutBytes(data: bytes)
      modifies this
      ensures buffer == old(buffer) + data
    {
      buffer := buffer + data;
    }

    /** Four zero bytes to be overwritten later, and where they are. */
    method ReserveU32le() returns (slot: nat)
      modifies this
      ensures slot == |old(buffer)| && buffer == old(buffer) + [0, 0, 0, 0]
    {
      slot := |buffer|;
      buffer := buffer + [0, 0, 0, 0];
    }

    /** Overwrites four bytes in place. */
    method PatchU32le(slot: nat, v: u32)
      requires slot + 4 <= |buffer|
      modifies this
      ensures buffer == old(buffer)[..slot] + Le(v, 4) + old(buffer)[slot + 4..]
    {
      ghost var start := buffer;
      ghost var field := Le(v, 4);
      var left: nat := v;
      for i := 0 to 4
        invariant |buffer| == |start| && buffer[..slot] == start[..slot] && buffer[slot + 4..] == start[slot + 4..]
        invariant field[i..] == Le(left, 4 - i) && buffer[slot..slot + i] == field[..i]
      {
        ghost var before := buffer;
        assert field[i] == field[i..][0] == left % 256 && field[i + 1..] == field[i..][1..];
        buffer := buffer[slot + i := left % 256];
        assert buffer[slot..slot + i + 1] == before[slot..slot + i] + [left % 256];
        left := left / 256;
      }
      assert buffer == buffer[..slot] + buffer[slot..slot + 4] + buffer[slot + 4..];
    }
  }

  /** `v >> (8 * n)`. */
  function Above(v: nat, n: nat): nat
    decreases n
  {
    if n == 0 then v else Above(v / 256, n - 1)
  }

  lemma {:induction false} AboveStep(v: nat, n: nat)
    ensures Above(v, n + 1) == Above(v, n) / 256
    decreases n
  {
    if n > 0 {
      AboveStep(v / 256, n - 1);
    }
  }
}
