/** Laws of the operators. */
module CfgEvaluatorLaw {
  // What the evaluator's integer operators amount to: arithmetic modulo 2^64.

  import opened Common
  import opened CfgEvaluator
  import opened CfgGrammar
  import opened CfgLexSpec
  import opened CfgModel
  import Bits
  import Numbers

  // ---- integers

  function Sum(x: i64, y: i64): (r: i64)
    ensures r == Wrap64(x + y)
  {
    Apply(Plus, VInt(x), VInt(y)).value.i
  }

  function Difference(x: i64, y: i64): (r: i64)
    ensures r == Wrap64(x - y)
  {
    Apply(Minus, VInt(x), VInt(y)).value.i
  }

  function Product(x: i64, y: i64): (r: i64)
    ensures r == Wrap64(Times(x, y))
  {
    Apply(Star, VInt(x), VInt(y)).value.i
  }

  /** The exact product, by name so that proofs can treat it as a symbol. */
  function Times(a: int, b: int): int {
    a * b
  }

  lemma TimesLaws(a: int, b: int, c: int)
    ensures Times(a, b) == Times(b, a) && Times(Times(a, b), c) == Times(a, Times(b, c))
    ensures Times(a, b + c) == Times(a, b) + Times(a, c)
  {
    assert (a * b) * c == a * (b * c);
    assert a * (b + c) == a * b + a * c;
  }

  function Negated(x: i64): (r: i64)
    ensures r == Wrap64(0 - x)
  {
    ApplyUnary(Minus, VInt(x)).value.i
  }

  lemma WrapShift(v: int, k: int)
    ensures Wrap64(v + k * TWO64) == Wrap64(v)
  {
  }

  /** Wrapping a term or a factor first changes nothing. */
  lemma WrapTerm(a: int, b: int)
    ensures Wrap64(Wrap64(a) + b) == Wrap64(a + b) == Wrap64(b + Wrap64(a))
  {
    var k := (Wrap64(a) - a) / TWO64;
    assert Wrap64(a) == a + k * TWO64;
    hide Wrap64;
    WrapShift(a + b, k);
  }

  lemma WrapFactor(a: int, b: int)
    ensures Wrap64(Times(Wrap64(a), b)) == Wrap64(Times(a, b)) == Wrap64(Times(b, Wrap64(a)))
  {
    var k := (Wrap64(a) - a) / TWO64;
    assert Wrap64(a) == a + k * TWO64;
    hide Wrap64;
    assert Wrap64(a) * b == a * b + (k * b) * TWO64;
    WrapShift(a * b, k * b);
  }

  /** The operators form a commutative ring on 64-bit values: every overflow is consistent. */
  lemma IntegerRing(x: i64, y: i64, z: i64)
    ensures Sum(x, y) == Sum(y, x) && Product(x, y) == Product(y, x)
    ensures Sum(Sum(x, y), z) == Sum(x, Sum(y, z)) && Product(Product(x, y), z) == Product(x, Product(y, z))
    ensures Product(x, Sum(y, z)) == Sum(Product(x, y), Product(x, z))
    ensures Difference(x, y) == Sum(x, Negated(y)) && Sum(x, Negated(x)) == 0
  {
    hide Wrap64, Sum, Product, Difference, Negated, Times;
    TimesLaws(x, y, 0);
    SumsAssociate(x, y, z);
    ProductsAssociate(x, y, z);
    Distributes(x, y, z);
    WrapTerm(0 - y, x);
    WrapTerm(0 - x, x);
    ZeroWraps();
  }

  lemma SumsAssociate(x: i64, y: i64, z: i64)
    ensures Sum(Sum(x, y), z) == Sum(x, Sum(y, z))
  {
    hide Wrap64, Sum;
    WrapTerm(x + y, z);
    WrapTerm(y + z, x);
  }

  lemma ProductsAssociate(x: i64, y: i64, z: i64)
    ensures Product(Product(x, y), z) == Product(x, Product(y, z))
  {
    hide Wrap64, Product, Times;
    WrapFactor(Times(x, y), z);
    WrapFactor(Times(y, z), x);
    TimesLaws(x, y, z);
    TimesLaws(Times(y, z), x, 0);
  }

  lemma Distributes(x: i64, y: i64, z: i64)
    ensures Product(x, Sum(y, z)) == Sum(Product(x, y), Product(x, z))
  {
    hide Wrap64, Product, Sum, Times;
    WrapFactor(y + z, x);
    TimesLaws(y + z, x, 0);
    TimesLaws(x, y, z);
    WrapTerm(Times(x, y), Wrap64(Times(x, z)));
    WrapTerm(Times(x, z), Times(x, y));
  }

  lemma ZeroWraps()
    ensures Wrap64(0) == 0
  {
  }

  /**
    * Quotient and remainder: the remainder takes the dividend's sign and is smaller than the
    * divisor, and together they give the dividend back exactly but for INT64_MIN by -1.
    */
  lemma DivisionLaw(x: i64, y: i64)
    requires y != 0
    ensures var q, r := Apply(Slash, VInt(x), VInt(y)), Apply(Percent, VInt(x), VInt(y));
            && q.Ok? && q.value.VInt? && r.Ok? && r.value.VInt?
            && (x >= 0 ==> r.value.i >= 0) && (x <= 0 ==> r.value.i <= 0) && Abs(r.value.i) < Abs(y)
            && (q.value.i * y + r.value.i == x <==> !(x == -TWO63 && y == -1))
  {
    var q := TruncatedDiv(x, y);
    QuotientFits(x, y);
    if x == -TWO63 && y == -1 {
      assert q == TWO63;
    }
  }

  lemma QuotientFits(x: i64, y: i64)
    requires y != 0
    ensures var q := TruncatedDiv(x, y);
            -TWO63 <= q <= TWO63 && (q == TWO63 ==> x == -TWO63 && y == -1)
            && -TWO63 <= x - q * y < TWO63
  {
    hide TruncatedDiv;
    var q, m := TruncatedDiv(x, y), Abs(y);
    var k := if (x >= 0) == (y > 0) then q else 0 - q;
    var whole := q * y;
    assert k * m == if x >= 0 then whole else 0 - whole;
    QuotientBound(Abs(x), k, m, Abs(x - whole), k * m);
  }

  lemma QuotientBound(n: nat, k: int, m: nat, r: nat, whole: int)
    requires m > 0 && r < m && whole == k * m && n == whole + r
    ensures 0 <= k <= n && whole >= 0 && (m >= 2 ==> 2 * k <= n) && (k == n ==> n == 0 || m == 1)
  {
    assert k < 0 ==> k * m <= 0 - m;
    assert k * m >= k;
    if m >= 2 {
      assert k * m >= k * 2;
    }
  }

  /** The bitwise operators, pinned down by addition and complement. */
  lemma BitwiseLaw(x: i64, y: i64)
    ensures Sum(Bitwise(Amp, x, y), Bitwise(Pipe, x, y)) == Sum(x, y)
    ensures Sum(Bitwise(Caret, x, y), Sum(Bitwise(Amp, x, y), Bitwise(Amp, x, y))) == Sum(x, y)
    ensures Bitwise(Pipe, -1 - x, -1 - y) == -1 - Bitwise(Amp, x, y)
  {
    hide Bits.And, Bits.Or, Bits.Xor, Wrap64, Pattern, Bitwise, Sum;
    var p, q := Pattern(x), Pattern(y);
    var a, o, e := Bits.And(p, q), Bits.Or(p, q), Bits.Xor(p, q);
    Bits.BitwiseSums(p, q);
    BitwiseParts(x, y);
    PatternSum(x, y);
    SumOfWraps(a, o);
    SumOfWraps(a, a);
    SumOfWraps(e, 2 * a);
    DeMorgan(x, y);
  }

  lemma BitwiseParts(x: i64, y: i64)
    ensures var p, q := Pattern(x), Pattern(y);
            && Bitwise(Amp, x, y) == Wrap64(Bits.And(p, q)) && Bitwise(Pipe, x, y) == Wrap64(Bits.Or(p, q))
            && Bitwise(Caret, x, y) == Wrap64(Bits.Xor(p, q))
  {
    hide Bits.And, Bits.Or, Bits.Xor, Wrap64, Pattern;
  }

  lemma PatternSum(x: i64, y: i64)
    ensures Wrap64(Pattern(x) + Pattern(y)) == Sum(x, y)
  {
    hide Wrap64, Sum;
    SameWrap(Pattern(x) + Pattern(y), x + y);
  }

  lemma DeMorgan(x: i64, y: i64)
    ensures Bitwise(Pipe, -1 - x, -1 - y) == -1 - Bitwise(Amp, x, y)
  {
    hide Bits.And, Bits.Or, Bits.Pow2, Wrap64, Bitwise;
    var p, q := Pattern(x), Pattern(y);
    var a: int := Bits.And(p, q);
    PatternOfComplement(x);
    PatternOfComplement(y);
    Numbers.Pow64();
    Bits.ComplementMeets(p, q, TWO64 - 1 - p, TWO64 - 1 - q, 64);
    hide Pattern;
    BitwiseParts(x, y);
    BitwiseParts(-1 - x, -1 - y);
    SameWrap(-1 - a, TWO64 - 1 - a);
    ComplementWraps(a);
  }

  lemma PatternOfComplement(x: i64)
    ensures Pattern(-1 - x) == TWO64 - 1 - Pattern(x)
  {
  }

  lemma SameWrap(a: int, b: int)
    requires (a - b) % TWO64 == 0
    ensures Wrap64(a) == Wrap64(b)
  {
  }

  lemma SumOfWraps(a: int, b: int)
    ensures Sum(Wrap64(a), Wrap64(b)) == Wrap64(a + b)
  {
    hide Wrap64, Sum;
    WrapTerm(a, Wrap64(b));
    WrapTerm(b, a);
  }

  lemma ComplementWraps(a: int)
    ensures Wrap64(-1 - a) == -1 - Wrap64(a)
  {
  }

  /** `x << a`, wrapped. */
  function Left(x: i64, a: nat): i64
    requires a <= 63
  {
    Apply(Shl, VInt(x), VInt(a)).value.i
  }

  /** `x >> a`, keeping the sign. */
  function Right(x: i64, a: nat): i64
    requires a <= 63
  {
    Apply(Shr, VInt(x), VInt(a)).value.i
  }

  /** Two shifts in one direction are one by the sum of their amounts. */
  lemma ShiftLaw(x: i64, a: nat, b: nat)
    requires a + b <= 63
    ensures Left(Left(x, a), b) == Left(x, a + b)
    ensures Right(Right(x, a), b) == Right(x, a + b)
  {
    var m, n := Bits.Pow2(a), Bits.Pow2(b);
    PowersMultiply(a, b);
    LeftIsProduct(x, a);
    LeftIsProduct(Left(x, a), b);
    LeftIsProduct(x, a + b);
    WrapFactor(Times(x, m), n);
    TimesLaws(x, m, n);
    RightIsQuotient(x, a);
    RightIsQuotient(Right(x, a), b);
    RightIsQuotient(x, a + b);
    QuotientsNest(x, m, n);
    hide *;
  }

  lemma LeftIsProduct(x: i64, a: nat)
    requires a <= 63
    ensures Left(x, a) == Wrap64(Times(x, Bits.Pow2(a)))
  {
    hide Wrap64, Bits.Pow2;
  }

  lemma RightIsQuotient(x: i64, a: nat)
    requires a <= 63
    ensures Right(x, a) == x / Bits.Pow2(a)
  {
    hide Wrap64, Bits.Pow2;
    SmallQuotient(x, Bits.Pow2(a));
  }

  lemma SmallQuotient(x: i64, m: nat)
    requires m > 0
    ensures -TWO63 <= x / m < TWO63
  {
    PartsAreSmall(x, m, x / m, x % m);
  }

  lemma PartsAreSmall(x: i64, m: nat, q: int, r: nat)
    requires m > 0 && x == m * q + r && r < m
    ensures -TWO63 <= q < TWO63
  {
    if q >= 0 {
      Grows(m, q);
    } else {
      var k := 0 - q - 1;
      assert m * q == 0 - m * k - m;
      Grows(m, k);
    }
  }

  lemma Grows(m: nat, k: nat)
    requires m > 0
    ensures m * k >= k
  {
    assert (m - 1) * k >= 0;
  }

  lemma {:induction false} PowersMultiply(a: nat, b: nat)
    ensures Bits.Pow2(a + b) == Times(Bits.Pow2(a), Bits.Pow2(b))
    decreases b
  {
    if b > 0 {
      PowersMultiply(a, b - 1);
    }
  }

  lemma QuotientsNest(x: int, m: nat, n: nat)
    requires m > 0 && n > 0
    ensures Times(m, n) > 0 && x / m / n == x / Times(m, n)
  {
    var q := x / m;
    PartsNest(x, m, n, q, x % m, q / n, q % n);
  }

  lemma PartsNest(x: int, m: nat, n: nat, q: int, r: nat, s: int, t: nat)
    requires m > 0 && n > 0 && x == m * q + r && r < m && q == n * s + t && t < n
    ensures Times(m, n) > 0 && x / Times(m, n) == s
  {
    var whole, low := m * n, m * t;
    Regroup(m, n, s, t);
    BelowTop(m, n, t);
    QuotientUnique(x, whole, s, low + r);
  }

  lemma Regroup(m: nat, n: nat, s: int, t: nat)
    ensures m * (n * s + t) == (m * n) * s + m * t
  {
  }

  lemma BelowTop(m: nat, n: nat, t: nat)
    requires m > 0 && t < n
    ensures m * n > 0 && m * t <= m * n - m
  {
    Grows(n, m);
    assert m * (n - 1 - t) >= 0;
  }

  lemma QuotientUnique(x: int, m: nat, q: int, r: nat)
    requires m > 0 && x == m * q + r && r < m
    ensures x / m == q
  {
    var d := x / m - q;
    assert m * d == r - x % m;
    assert d >= 1 ==> m * d >= m;
    assert d <= -1 ==> m * d <= 0 - m;
  }
}
