/** The value types and the structured error model every decoder shares. */
module Common {

  datatype Option<+T> = None | Some(value: T)

  /** The taxonomy a thrown ParseError carries; message text and offsets are not modelled. */
  datatype ErrorCode =
    | ShortRead
    | BadMagic
    | BadVersion
    | BadChecksum
    | BadLength
    | BadType
    | DepthExceeded
    | StateViolation
    | Truncated

  /** A decode outcome: a value, or the code of the ParseError that ended it. */
  datatype Result<+T> = Ok(value: T) | Err(code: ErrorCode) {
    predicate IsFailure() {
      Err?
    }

    function PropagateFailure<U>(): Result<U>
      requires Err?
    {
      Err(code)
    }

    function Extract(): T
      requires Ok?
    {
      value
    }
  }

  type byte = x: int | 0 <= x < 0x100
  type bytes = seq<byte>

  const TWO16: int := 0x1_0000
  const TWO32: int := 0x1_0000_0000
  const TWO63: int := 0x8000_0000_0000_0000
  const TWO64: int := 0x1_0000_0000_0000_0000

  type u16 = x: int | 0 <= x < TWO16
  type u32 = x: int | 0 <= x < TWO32
  type u64 = x: int | 0 <= x < TWO64
  type i64 = x: int | -TWO63 <= x < TWO63

  function Min(a: int, b: int): int {
    if a < b then a else b
  }

  function Max(a: int, b: int): int {
    if a < b then b else a
  }

  /** Unsigned lexicographic three-way comparison of byte strings: -1, 0 or 1. */
  function CompareBytes(a: bytes, b: bytes): int {
    if a == [] && b == [] then 0
    else if a == [] then -1
    else if b == [] then 1
    else if a[0] != b[0] then (if a[0] < b[0] then -1 else 1)
    else CompareBytes(a[1..], b[1..])
  }

  lemma {:induction false} CompareReverses(a: bytes, b: bytes)
    ensures CompareBytes(a, b) == -CompareBytes(b, a) && (CompareBytes(a, b) == 0 <==> a == b)
    decreases a
  {
    if a != [] && b != [] && a[0] == b[0] {
      CompareReverses(a[1..], b[1..]);
      assert a == [a[0]] + a[1..] && b == [b[0]] + b[1..];
    }
  }

  lemma {:induction false} CompareChains(a: bytes, b: bytes, c: bytes)
    requires CompareBytes(a, b) <= 0 && CompareBytes(b, c) <= 0
    ensures CompareBytes(a, c) <= 0
    ensures CompareBytes(a, b) < 0 || CompareBytes(b, c) < 0 ==> CompareBytes(a, c) < 0
    decreases a
  {
    if a != [] && b != [] && c != [] && a[0] == b[0] == c[0] {
      CompareChains(a[1..], b[1..], c[1..]);
    }
  }

  /** The order is lexicographic: the first place where the keys differ decides, or the shorter goes first. */
  lemma {:induction false} CompareDecides(a: bytes, b: bytes) returns (k: nat)
    requires a != b
    ensures k <= |a| && k <= |b| && a[..k] == b[..k]
    ensures CompareBytes(a, b) == -1 <==> k < |b| && (k == |a| || a[k] < b[k])
    ensures CompareBytes(a, b) == 1 <==> k < |a| && (k == |b| || b[k] < a[k])
    decreases a
  {
    if a != [] && b != [] && a[0] == b[0] {
      assert a == [a[0]] + a[1..] && b == [b[0]] + b[1..];
      var n := CompareDecides(a[1..], b[1..]);
      k := n + 1;
      assert a[..k] == [a[0]] + a[1..][..n] && b[..k] == [b[0]] + b[1..][..n];
    } else {
      k := 0;
    }
  }
}
