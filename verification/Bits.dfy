/** Exclusive or on naturals, bit by bit, and powers of two. */
module Bits {

  function Pow2(n: nat): (p: nat)
    ensures p >= 1
  {
    if n == 0 then 1 else 2 * Pow2(n - 1)
  }

  lemma Powers()
    ensures Pow2(8) == 0x100 && Pow2(15) == 0x8000 && Pow2(16) == 0x1_0000
    ensures Pow2(31) == 0x8000_0000 && Pow2(32) == 0x1_0000_0000
  {
    assert Pow2(4) == 16;
    assert Pow2(8) == 16 * Pow2(4);
    assert Pow2(12) == 16 * Pow2(8);
    assert Pow2(16) == 16 * Pow2(12);
    assert Pow2(20) == 16 * Pow2(16);
    assert Pow2(24) == 16 * Pow2(20);
    assert Pow2(28) == 16 * Pow2(24);
    assert Pow2(32) == 16 * Pow2(28);
  }

  lemma {:induction false} PowerSum(a: nat, b: nat)
    ensures Pow2(a + b) == Pow2(a) * Pow2(b)
    decreases a
  {
    if a > 0 {
      PowerSum(a - 1, b);
      var p, q := Pow2(a - 1), Pow2(b);
      assert 2 * (p * q) == (2 * p) * q;
    }
  }

  type bit = x: int | 0 <= x < 2

  function Flip(p: bit, q: bit): bit {
    if p == q then 0 else 1
  }

  function Xor(a: nat, b: nat): nat
    decreases a + b
  {
    if a == 0 then b
    else if b == 0 then a
    else 2 * Xor(a / 2, b / 2) + Flip(a % 2, b % 2)
  }

  /** The defining equation on numbers taken apart into a low bit and the rest. */
  lemma XorPair(x: nat, p: bit, y: nat, q: bit)
    ensures Xor(2 * x + p, 2 * y + q) == 2 * Xor(x, y) + Flip(p, q)
  {
    var a, b := 2 * x + p, 2 * y + q;
    assert a / 2 == x && a % 2 == p && b / 2 == y && b % 2 == q;
  }

  /** A shift by one, undone. */
  lemma Halve(x: nat, p: bit)
    ensures (2 * x + p) / 2 == x && (2 * x + p) % 2 == p
  {
  }

  lemma {:induction false} XorCommutes(a: nat, b: nat)
    ensures Xor(a, b) == Xor(b, a)
    decreases a + b
  {
    if a != 0 && b != 0 {
      XorCommutes(a / 2, b / 2);
    }
  }

  lemma {:induction false} XorAssociates(a: nat, b: nat, c: nat)
    ensures Xor(Xor(a, b), c) == Xor(a, Xor(b, c))
    decreases a + b + c
  {
    if a != 0 && b != 0 && c != 0 {
      hide Xor;
      var x, p, y, q, z, r := a / 2, a % 2, b / 2, b % 2, c / 2, c % 2;
      XorAssociates(x, y, z);
      assert a == 2 * x + p;
      assert b == 2 * y + q;
      assert c == 2 * z + r;
      AssociateStep(x, p, y, q, z, r);
    }
  }

  lemma AssociateStep(x: nat, p: bit, y: nat, q: bit, z: nat, r: bit)
    requires Xor(Xor(x, y), z) == Xor(x, Xor(y, z))
    ensures Xor(Xor(2 * x + p, 2 * y + q), 2 * z + r) == Xor(2 * x + p, Xor(2 * y + q, 2 * z + r))
  {
    hide Xor;
    XorPair(x, p, y, q);
    XorPair(y, q, z, r);
    XorPair(Xor(x, y), Flip(p, q), z, r);
    XorPair(x, p, Xor(y, z), Flip(q, r));
  }

  lemma {:induction false} XorSelf(a: nat)
    ensures Xor(a, a) == 0
  {
    if a != 0 {
      XorSelf(a / 2);
    }
  }

  lemma XorCancels(a: nat, b: nat)
    ensures Xor(a, Xor(a, b)) == b
  {
    XorAssociates(a, a, b);
    XorSelf(a);
  }

  lemma XorInjective(a: nat, b: nat, c: nat)
    requires Xor(a, b) == Xor(a, c)
    ensures b == c
  {
    hide Xor;
    XorCancels(a, b);
    XorCancels(a, c);
  }

  lemma {:induction false} XorBound(a: nat, b: nat, n: nat)
    requires a < Pow2(n) && b < Pow2(n)
    ensures Xor(a, b) < Pow2(n)
    decreases n
  {
    if n > 0 {
      XorBound(a / 2, b / 2, n - 1);
      XorPair(a / 2, a % 2, b / 2, b % 2);
    }
  }

  /** Against all ones, exclusive or is the complement. */
  lemma {:induction false} XorOnes(a: nat, n: nat)
    requires a < Pow2(n)
    ensures Xor(a, Pow2(n) - 1) == Pow2(n) - 1 - a
    decreases n
  {
    if n > 0 {
      XorOnes(a / 2, n - 1);
      hide Xor;
      XorPair(a / 2, a % 2, Pow2(n - 1) - 1, 1);
    }
  }

  /** Numbers without a bit in common add up to their exclusive or. */
  lemma {:induction false} SumIsXor(lo: nat, hi: nat, n: nat)
    requires lo < Pow2(n)
    ensures Scaled(hi, n) + lo == Xor(lo, Scaled(hi, n))
    decreases n
  {
    if n > 0 {
      SumIsXor(lo / 2, hi, n - 1);
      hide Xor;
      XorPair(lo / 2, lo % 2, Scaled(hi, n - 1), 0);
    }
  }

  function And(a: nat, b: nat): nat {
    if a == 0 || b == 0 then 0 else 2 * And(a / 2, b / 2) + if a % 2 == 1 && b % 2 == 1 then 1 else 0
  }

  function Or(a: nat, b: nat): nat
    decreases a + b
  {
    if a == 0 then b
    else if b == 0 then a
    else 2 * Or(a / 2, b / 2) + if a % 2 == 1 || b % 2 == 1 then 1 else 0
  }

  /** The three bitwise operations, tied to addition and to each other. */
  lemma {:induction false} BitwiseSums(a: nat, b: nat)
    ensures And(a, b) + Or(a, b) == a + b
    ensures Xor(a, b) + 2 * And(a, b) == a + b
    decreases a + b
  {
    if a > 0 && b > 0 {
      BitwiseSums(a / 2, b / 2);
    }
  }

  /** De Morgan on `n` bits: `c` and `d` are the complements of `a` and `b`. */
  lemma {:induction false} ComplementMeets(a: nat, b: nat, c: nat, d: nat, n: nat)
    requires a + c == b + d == Pow2(n) - 1
    ensures Or(c, d) + And(a, b) == Pow2(n) - 1
    decreases n
  {
    if n > 0 {
      ComplementMeets(a / 2, b / 2, c / 2, d / 2, n - 1);
      hide And, Or;
      AndPair(a / 2, a % 2, b / 2, b % 2);
      OrPair(c / 2, c % 2, d / 2, d % 2);
      assert 2 * (a / 2) + a % 2 == a && 2 * (b / 2) + b % 2 == b;
      assert 2 * (c / 2) + c % 2 == c && 2 * (d / 2) + d % 2 == d;
      assert a % 2 + c % 2 == 1 && b % 2 + d % 2 == 1;
    }
  }

  lemma AndPair(x: nat, p: bit, y: nat, q: bit)
    ensures And(2 * x + p, 2 * y + q) == 2 * And(x, y) + if p == 1 && q == 1 then 1 else 0
  {
    Halve(x, p);
    Halve(y, q);
  }

  lemma OrPair(x: nat, p: bit, y: nat, q: bit)
    ensures Or(2 * x + p, 2 * y + q) == 2 * Or(x, y) + if p == 1 || q == 1 then 1 else 0
  {
    Halve(x, p);
    Halve(y, q);
  }

  /** `x << n`. */
  function Scaled(x: nat, n: nat): nat {
    if n == 0 then x else 2 * Scaled(x, n - 1)
  }

  lemma ScaledByte(h: nat)
    ensures Scaled(h, 8) == 256 * h
  {
    assert Scaled(h, 1) == 2 * h;
    assert Scaled(h, 2) == 4 * h;
    assert Scaled(h, 4) == 4 * Scaled(h, 2);
    assert Scaled(h, 6) == 4 * Scaled(h, 4);
  }

  /** `x >> n`. */
  function Dropped(x: nat, n: nat): (r: nat)
    decreases n, x
  {
    if n == 0 then x else Dropped(x / 2, n - 1)
  }

  lemma {:induction false} DroppedStep(x: nat, n: nat)
    ensures Dropped(x, n + 1) == Dropped(x, n) / 2
    decreases n
  {
    if n > 0 {
      DroppedStep(x / 2, n - 1);
    }
  }

  /** Nothing is left of a number once all its bits are dropped. */
  lemma {:induction false} AllDropped(x: nat, n: nat)
    requires x < Pow2(n)
    ensures Dropped(x, n) == 0
    decreases n
  {
    if n > 0 {
      AllDropped(x / 2, n - 1);
    }
  }

  lemma ByteDropped(b: nat)
    requires b < 256
    ensures Dropped(b, 8) == 0
  {
    hide Dropped;
    Powers();
    AllDropped(b, 8);
  }

  // ---- bit by bit

  /** Bit `k`, the lowest being bit 0. */
  function Bit(x: nat, k: nat): bit {
    Dropped(x, k) % 2
  }

  lemma BitOfPair(x: nat, p: bit, k: nat)
    ensures Bit(2 * x + p, k) == if k == 0 then p else Bit(x, k - 1)
  {
    Halve(x, p);
  }

  /** Bit `k` of all three is that of the operands, combined. */
  predicate Bitwise(a: nat, b: nat, k: nat) {
    && (Bit(And(a, b), k) == 1 <==> Bit(a, k) == 1 && Bit(b, k) == 1)
    && (Bit(Or(a, b), k) == 1 <==> Bit(a, k) == 1 || Bit(b, k) == 1)
    && (Bit(Xor(a, b), k) == 1 <==> Bit(a, k) != Bit(b, k))
  }

  lemma BitwiseStep(x: nat, p: bit, y: nat, q: bit, k: nat)
    requires k > 0 ==> Bitwise(x, y, k - 1)
    ensures Bitwise(2 * x + p, 2 * y + q, k)
  {
    hide And, Or, Xor, Bit;
    AndPair(x, p, y, q);
    OrPair(x, p, y, q);
    XorPair(x, p, y, q);
    BitOfPair(x, p, k);
    BitOfPair(y, q, k);
    BitOfPair(And(x, y), if p == 1 && q == 1 then 1 else 0, k);
    BitOfPair(Or(x, y), if p == 1 || q == 1 then 1 else 0, k);
    BitOfPair(Xor(x, y), Flip(p, q), k);
  }

  /** The three operations take their operands bit by bit. */
  lemma {:induction false} BitwiseBits(a: nat, b: nat, k: nat)
    ensures Bitwise(a, b, k)
    decreases k
  {
    hide Bitwise;
    if k > 0 {
      BitwiseBits(a / 2, b / 2, k - 1);
    }
    BitwiseStep(a / 2, a % 2, b / 2, b % 2, k);
    assert a == 2 * (a / 2) + a % 2 && b == 2 * (b / 2) + b % 2;
  }

  lemma {:induction false} ComplementBits(a: nat, c: nat, n: nat, k: nat)
    requires a + c == Pow2(n) - 1 && k < n
    ensures Bit(c, k) == 1 - Bit(a, k)
    decreases k
  {
    var x, p, y, q := a / 2, a % 2, c / 2, c % 2;
    assert a == 2 * x + p && c == 2 * y + q && Pow2(n) == 2 * Pow2(n - 1);
    assert p + q == 1 && x + y == Pow2(n - 1) - 1;
    hide Bit, Pow2;
    BitOfPair(x, p, k);
    BitOfPair(y, q, k);
    if k > 0 {
      ComplementBits(x, y, n - 1, k - 1);
    }
  }

  lemma {:induction false} BitwiseBound(a: nat, b: nat, n: nat)
    requires a < Pow2(n) && b < Pow2(n)
    ensures And(a, b) < Pow2(n) && Or(a, b) < Pow2(n)
    decreases n
  {
    if n > 0 {
      BitwiseBound(a / 2, b / 2, n - 1);
      AndPair(a / 2, a % 2, b / 2, b % 2);
      OrPair(a / 2, a % 2, b / 2, b % 2);
      hide And, Or;
      assert a == 2 * (a / 2) + a % 2 && b == 2 * (b / 2) + b % 2;
    }
  }
}
