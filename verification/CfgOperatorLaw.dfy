/** What the operators give. */
module CfgOperatorLaw {
  // Each operator on values: when it refuses, what it answers on integers, floats and strings, bit
  // by bit, digit by digit and by the nearest double.

  import Bits
  import opened CfgComparisonLaw
  import opened CfgEvaluator
  import opened CfgEvaluatorLaw
  import opened CfgGrammar
  import opened CfgLexRoundTrip
  import opened CfgLexSpec
  import opened CfgModel
  import opened CfgSerializer
  import opened Common
  import Doubles
  import Numbers

  // ---- truth

  /** The values that count as false. */
  predicate CountsAsFalse(v: Value) {
    || v == VNull || v == VBool(false) || v == VInt(0) || v == VFloat(Doubles.Finite(0.0))
    || v == VStr([]) || v == VArray([]) || v == VObject([])
  }

  lemma TruthyExactly(v: Value)
    ensures Truthy(v) <==> !CountsAsFalse(v)
  {
  }

  /** `!` answers whether its operand counts as false. */
  lemma NotLaw(v: Value)
    ensures ApplyUnary(Bang, v) == Ok(VBool(CountsAsFalse(v)))
  {
    TruthyExactly(v);
    hide Truthy;
  }

  // ---- unary operators

  /** Bit `k` of a 64-bit value in two's complement. */
  function BitOf(x: i64, k: nat): Bits.bit {
    Bits.Bit(if x < 0 then x + TWO64 else x, k)
  }

  /** `~` turns every bit around, and wants an integer. */
  lemma ComplementLaw(v: Value, k: nat)
    requires k < 64
    ensures ApplyUnary(Tilde, v)
         == if v.VInt? then Ok(VInt(ApplyUnary(Tilde, v).value.i)) else Err(BadType)
    ensures v.VInt? ==> BitOf(ApplyUnary(Tilde, v).value.i, k) == 1 - BitOf(v.i, k)
  {
    hide Bits.Bit, Bits.Pow2;
    Numbers.Pow64();
    if v.VInt? {
      var p: nat := if v.i < 0 then v.i + TWO64 else v.i;
      Bits.ComplementBits(p, TWO64 - 1 - p, 64, k);
    }
  }

  /** Sum, difference and product of two integers, but for a multiple of 2^64. */
  lemma IntegerLaw(x: i64, y: i64)
    ensures var sum, difference, product := Apply(Plus, VInt(x), VInt(y)), Apply(Minus, VInt(x), VInt(y)),
                                            Apply(Star, VInt(x), VInt(y));
            && sum.Ok? && sum.value.VInt? && (sum.value.i - (x + y)) % 0x1_0000_0000_0000_0000 == 0
            && difference.Ok? && difference.value.VInt?
            && (difference.value.i - (x - y)) % 0x1_0000_0000_0000_0000 == 0
            && product.Ok? && product.value.VInt? && (product.value.i - x * y) % 0x1_0000_0000_0000_0000 == 0
  {
    hide Wrap64;
  }

  /** `-` adds up to zero with an integer, turns the sign of a float, and wants a number. */
  lemma MinusLaw(v: Value)
    ensures match v
            case VInt(x) =>
              ApplyUnary(Minus, v).Ok? && ApplyUnary(Minus, v).value.VInt? && Sum(x, ApplyUnary(Minus, v).value.i) == 0
            case VFloat(f) =>
              ApplyUnary(Minus, v)
              == Ok(VFloat(if f.Finite? then Doubles.Finite(0.0 - f.r)
                           else if f.NaN? then f else Doubles.Infinity(!f.negative)))
            case _ => ApplyUnary(Minus, v) == Err(BadType)
  {
    if v.VInt? {
      IntegerRing(v.i, 0, 0);
      hide Wrap64;
    }
  }

  // ---- bits

  /** `&`, `|` and `^` take two integers bit by bit. */
  lemma BitLaw(x: i64, y: i64, k: nat)
    requires k < 64
    ensures BitOf(Bitwise(Amp, x, y), k) == 1 <==> BitOf(x, k) == 1 && BitOf(y, k) == 1
    ensures BitOf(Bitwise(Pipe, x, y), k) == 1 <==> BitOf(x, k) == 1 || BitOf(y, k) == 1
    ensures BitOf(Bitwise(Caret, x, y), k) == 1 <==> BitOf(x, k) != BitOf(y, k)
  {
    hide Bits.And, Bits.Or, Bits.Xor, Bits.Bit, Bits.Pow2;
    var p, q := Pattern(x), Pattern(y);
    Numbers.Pow64();
    Bits.BitwiseBits(p, q, k);
    Bits.BitwiseBound(p, q, 64);
    Bits.XorBound(p, q, 64);
    PatternBits(Bits.And(p, q), k);
    PatternBits(Bits.Or(p, q), k);
    PatternBits(Bits.Xor(p, q), k);
    PatternIs(x);
    PatternIs(y);
    hide Wrap64, Pattern;
  }

  lemma PatternIs(x: i64)
    ensures Pattern(x) == if x < 0 then x + TWO64 else x
  {
  }

  lemma PatternBits(p: nat, k: nat)
    requires p < TWO64
    ensures BitOf(Wrap64(p), k) == Bits.Bit(p, k)
  {
    hide Bits.Bit;
  }

  /** One place to the left is doubling, one to the right is halving down; no place is nothing. */
  lemma OnePlaceLaw(x: i64)
    ensures Left(x, 0) == x == Right(x, 0)
    ensures Left(x, 1) == Sum(x, x)
    ensures 2 * Right(x, 1) <= x <= 2 * Right(x, 1) + 1
  {
    hide Wrap64, Left, Right, Bits.Pow2, Times, Sum;
    LeftIsProduct(x, 0);
    LeftIsProduct(x, 1);
    RightIsQuotient(x, 0);
    RightIsQuotient(x, 1);
    FirstPowers();
    TimesSmall(x);
    SmallWrap(x);
    Halves(x);
  }

  lemma FirstPowers()
    ensures Bits.Pow2(0) == 1 && Bits.Pow2(1) == 2
  {
  }

  lemma TimesSmall(x: int)
    ensures Times(x, 1) == x && Times(x, 2) == x + x
  {
  }

  lemma Halves(x: int)
    ensures 2 * (x / 2) <= x <= 2 * (x / 2) + 1 && x / 1 == x
  {
  }

  lemma SmallWrap(x: i64)
    ensures Wrap64(x) == x
  {
  }

  // ---- strings

  /** Decimal digits of a number, without a zero in front. */
  predicate Decimal(t: bytes, n: nat) {
    t != [] && (forall i | 0 <= i < |t| :: IsDigit(t[i])) && DigitsValue(t, 10) == n && (|t| > 1 ==> t[0] != 48)
  }

  /** The text a value adds to a string. */
  predicate Shows(v: Value, t: bytes) {
    match v
    case VStr(s) => t == s
    case VInt(i) => if i < 0 then t != [] && t[0] == 45 && Decimal(t[1..], 0 - i) else Decimal(t, i)
    case VFloat(f) => t == FloatText(f)
    case VBool(b) => t == if b then [116, 114, 117, 101] else [102, 97, 108, 115, 101]
    case VNull => t == [110, 117, 108, 108]
    case _ => t == []
  }

  lemma {:induction false} NatTextDecimal(n: nat)
    ensures Decimal(NatText(n), n)
  {
    NatTextDigits(n);
    hide DigitsValue;
    if n >= 10 {
      NatTextDecimal(n / 10);
      assert NatText(n)[0] == NatText(n / 10)[0];
      if |NatText(n / 10)| == 1 {
        SingleDigit(n / 10);
      }
    }
  }

  lemma SingleDigit(n: nat)
    requires n > 0 && |NatText(n)| == 1
    ensures NatText(n)[0] != 48
  {
  }

  lemma ShownText(v: Value)
    ensures Shows(v, ConcatText(v))
  {
    hide NatText, DigitsValue, FloatText;
    if v.VInt? {
      NatTextDecimal(if v.i < 0 then 0 - v.i else v.i);
      assert v.i < 0 ==> IntText(v.i)[1..] == NatText(0 - v.i);
    }
  }

  /** `+` with a string on either side joins the two texts. */
  lemma ConcatLaw(l: Value, r: Value) returns (a: bytes, b: bytes)
    requires l.VStr? || r.VStr?
    ensures Apply(Plus, l, r) == Ok(VStr(a + b)) && Shows(l, a) && Shows(r, b)
  {
    hide Shows, ConcatText;
    a, b := ConcatText(l), ConcatText(r);
    ShownText(l);
    ShownText(r);
  }

  // ---- floats

  /** `z` is `x` rounded: a nearest double, or an infinity where none is nearer than 2^1024. */
  ghost predicate RoundedTo(z: Doubles.Double, x: real) {
    && Doubles.IsRounded(z) && !z.NaN?
    && (z.Finite? ==> forall d: real {:trigger Doubles.IsRounded(Doubles.Finite(d))} ::
          Doubles.IsRounded(Doubles.Finite(d)) ==> Doubles.Distance(z.r, x) <= Doubles.Distance(d, x))
    && (z.Infinity? ==> (z.negative <==> x < 0.0) && BeyondAll(if x < 0.0 then 0.0 - x else x))
  }

  /** No double is nearer to it than 2^1024 is. */
  ghost predicate BeyondAll(x: real) {
    forall d: real, top: real {:trigger Nearer(d, top, x)} :: Nearer(d, top, x)
  }

  ghost predicate Nearer(d: real, top: real, x: real) {
    Doubles.IsRounded(Doubles.Finite(d)) && x <= top && Doubles.Down(top, Doubles.RANGE_BITS) == 1.0
    ==> Doubles.Distance(top, x) <= Doubles.Distance(d, x)
  }

  lemma RoundIsRoundedTo(x: real)
    ensures RoundedTo(Doubles.Round(x), x)
  {
    hide Doubles.IsRounded, Doubles.Round, Doubles.Down, Doubles.Distance;
    Doubles.RoundIsRounded(x);
    Doubles.RoundIsNumber(x);
    var z := Doubles.Round(x);
    if z.Finite? {
      forall d: real | Doubles.IsRounded(Doubles.Finite(d))
        ensures Doubles.Distance(z.r, x) <= Doubles.Distance(d, x)
      {
        Doubles.RoundIsNearest(x, d);
      }
    } else {
      var y := if x < 0.0 then 0.0 - x else x;
      InfiniteEitherWay(x);
      forall d: real, top: real ensures Nearer(d, top, y) {
        if Doubles.IsRounded(Doubles.Finite(d)) && y <= top && Doubles.Down(top, Doubles.RANGE_BITS) == 1.0 {
          Doubles.InfinityIsNearest(y, d, top);
        }
      }
    }
  }

  lemma InfiniteEitherWay(x: real)
    requires Doubles.Round(x).Infinity?
    ensures Doubles.Round(if x < 0.0 then 0.0 - x else x) == Doubles.Infinity(false)
  {
    hide Doubles.RoundPositive;
    Doubles.RoundIsNumber(x);
    Doubles.PositiveIsNumber(if x < 0.0 then 0.0 - x else x);
  }

  /** The double a number counts as next to a float: itself, or the integer rounded. */
  ghost predicate CountsAs(v: Value, x: Doubles.Double) {
    (v.VFloat? && x == v.f) || (v.VInt? && x.Finite? && RoundedTo(x, v.i as real))
  }

  lemma AsDoubleCounts(v: Value)
    requires IsNumber(v)
    ensures CountsAs(v, AsDouble(v))
  {
    hide RoundedTo, Doubles.Round, Doubles.ToDouble;
    if v.VInt? {
      Doubles.ConversionIsRounding(v.i);
      RoundIsRoundedTo(v.i as real);
    }
  }

  /** The exact result of an operator on two finite numbers. */
  function Exact(op: Token, x: real, y: real): real
    requires op == Slash ==> y != 0.0
  {
    match op
    case Plus => x + y
    case Minus => x - y
    case Star => x * y
    case Slash => x / y
    case _ => 0.0
  }

  predicate IsArithmetic(op: Token) {
    op == Plus || op == Minus || op == Star || op == Slash
  }

  /**
    * `+`, `-`, `*` and `/` on numbers, one of them a float, give the exact result rounded: no
    * double is nearer to it.
    */
  lemma FloatLaw(op: Token, l: Value, r: Value) returns (x: Doubles.Double, y: Doubles.Double)
    requires IsArithmetic(op) && IsNumber(l) && IsNumber(r) && (l.VFloat? || r.VFloat?)
    ensures CountsAs(l, x) && CountsAs(r, y)
    ensures x.Finite? && y.Finite? && !(op == Slash && y.r == 0.0) ==>
              var z := Apply(op, l, r);
              z.Ok? && z.value.VFloat? && RoundedTo(z.value.f, Exact(op, x.r, y.r))
    ensures !(x.Finite? && y.Finite?) && !(op == Slash && y == Doubles.Finite(0.0)) ==>
              Apply(op, l, r) == Ok(VFloat(AtTheEnds(op, x, y)))
    ensures op == Slash && y == Doubles.Finite(0.0) ==> Apply(op, l, r) == Err(StateViolation)
  {
    hide RoundedTo, CountsAs, AsDouble, AtTheEnds;
    AsDoubleCounts(l);
    AsDoubleCounts(r);
    x, y := AsDouble(l), AsDouble(r);
    AppliedToDoubles(op, l, r);
    hide Apply;
    if !(op == Slash && y == Doubles.Finite(0.0)) {
      if x.Finite? && y.Finite? {
        FiniteResult(op, x, y);
      } else {
        ResultAtTheEnds(op, x, y);
      }
    }
  }

  /** The operator on two doubles. */
  function OnDoubles(op: Token, x: Doubles.Double, y: Doubles.Double): Doubles.Double
    requires IsArithmetic(op) && !(op == Slash && y == Doubles.Finite(0.0))
  {
    if op == Plus then Doubles.Plus(x, y)
    else if op == Minus then Doubles.Minus(x, y)
    else if op == Star then Doubles.Times(x, y)
    else Doubles.Over(x, y)
  }

  lemma AppliedToDoubles(op: Token, l: Value, r: Value)
    requires IsArithmetic(op) && IsNumber(l) && IsNumber(r) && (l.VFloat? || r.VFloat?)
    ensures var x, y := AsDouble(l), AsDouble(r);
            Apply(op, l, r)
            == if op == Slash && y == Doubles.Finite(0.0) then Err(StateViolation) else Ok(VFloat(OnDoubles(op, x, y)))
  {
    hide AsDouble, Doubles.Plus, Doubles.Minus, Doubles.Times, Doubles.Over, TruncatedDiv, Wrap64, ConcatText;
  }

  lemma FiniteResult(op: Token, x: Doubles.Double, y: Doubles.Double)
    requires IsArithmetic(op) && x.Finite? && y.Finite? && !(op == Slash && y.r == 0.0)
    ensures RoundedTo(OnDoubles(op, x, y), Exact(op, x.r, y.r))
  {
    hide RoundedTo, Doubles.Round;
    if op == Plus {
      RoundIsRoundedTo(x.r + y.r);
    } else if op == Minus {
      assert x.r + (0.0 - y.r) == x.r - y.r;
      RoundIsRoundedTo(x.r - y.r);
    } else if op == Star {
      ProductRounded(x, y, Exact(op, x.r, y.r));
    } else {
      RoundIsRoundedTo(x.r / y.r);
    }
  }

  lemma ProductRounded(x: Doubles.Double, y: Doubles.Double, p: real)
    requires x.Finite? && y.Finite? && p == x.r * y.r
    ensures RoundedTo(Doubles.Times(x, y), p)
  {
    hide RoundedTo, Doubles.Round;
    assert Doubles.Times(x, y) == Doubles.Round(p);
    RoundIsRoundedTo(p);
  }

  lemma ResultAtTheEnds(op: Token, x: Doubles.Double, y: Doubles.Double)
    requires IsArithmetic(op) && !(x.Finite? && y.Finite?) && !(op == Slash && y == Doubles.Finite(0.0))
    ensures OnDoubles(op, x, y) == AtTheEnds(op, x, y)
  {
    hide Doubles.Round;
  }

  /** The sign of a number that is not NaN: -1, 0 or 1. */
  function Sign(x: Doubles.Double): int {
    match x
    case NaN => 0
    case Infinity(negative) => if negative then -1 else 1
    case Finite(r) => if r < 0.0 then -1 else if r > 0.0 then 1 else 0
  }

  /** What an operator gives next to an infinity or NaN. */
  function AtTheEnds(op: Token, x: Doubles.Double, y: Doubles.Double): Doubles.Double {
    if x.NaN? || y.NaN? then Doubles.NaN
    else if op == Star then
      if Sign(x) * Sign(y) == 0 then Doubles.NaN else Doubles.Infinity(Sign(x) * Sign(y) < 0)
    else if op == Slash then
      if x.Infinity? && y.Infinity? then Doubles.NaN
      else if y.Infinity? then Doubles.Finite(0.0)
      else Doubles.Infinity((Sign(x) < 0) != (Sign(y) < 0))
    else
      var s := if op == Minus then 0 - Sign(y) else Sign(y);
      if x.Infinity? && y.Infinity? && Sign(x) != s then Doubles.NaN
      else if x.Infinity? then x
      else Doubles.Infinity(s < 0)
  }

  // ---- refusals

  /** When a binary operator refuses its operands, and with which code. */
  function Refusal(op: Token, l: Value, r: Value): Option<ErrorCode> {
    var numbers, integers := IsNumber(l) && IsNumber(r), l.VInt? && r.VInt?;
    if op == EqEq || op == Ne then None
    else if op == Plus && (l.VStr? || r.VStr?) then None
    else if op == Plus || op == Minus || op == Star then if numbers then None else Some(BadType)
    else if op == Slash || op == Percent then
      if !numbers then Some(BadType)
      else if r == VInt(0) || (r.VFloat? && r.f == Doubles.Finite(0.0)) then Some(StateViolation)
      else if op == Percent && !integers then Some(BadType)
      else None
    else if op == Shl || op == Shr then
      if !integers then Some(BadType) else if 0 <= r.i < 64 then None else Some(StateViolation)
    else if op == Amp || op == Caret || op == Pipe then if integers then None else Some(BadType)
    else if op == Lt || op == Le || op == Gt || op == Ge then
      if numbers || (l.VStr? && r.VStr?) then None else Some(BadType)
    else Some(BadType)
  }

  /** Refused exactly where the list says so. */
  predicate AsListed(op: Token, l: Value, r: Value, out: Result<Value>) {
    (out.Ok? <==> Refusal(op, l, r) == None) && (out.Err? ==> Refusal(op, l, r) == Some(out.code))
  }

  lemma RefusesExactly(op: Token, l: Value, r: Value)
    ensures AsListed(op, l, r, Apply(op, l, r))
  {
    hide ValuesEqual, Bitwise, Arithmetic, DivMod, Shift, Compare, AsListed, Refusal;
    match op
    case Plus | Minus | Star => ArithmeticRefuses(op, l, r);
    case Slash | Percent => DivModRefuses(op, l, r);
    case Shl | Shr => ShiftRefuses(op, l, r);
    case Lt | Le | Gt | Ge => CompareRefuses(op, l, r);
    case Amp | Caret | Pipe => BitwiseRefuses(op, l, r);
    case EqEq | Ne => NeverRefused(op, l, r);
    case _ => NoOperator(op, l, r);
  }

  lemma BitwiseRefuses(op: Token, l: Value, r: Value)
    requires op == Amp || op == Caret || op == Pipe
    ensures AsListed(op, l, r, Apply(op, l, r))
  {
    hide Bitwise;
  }

  lemma NeverRefused(op: Token, l: Value, r: Value)
    requires op == EqEq || op == Ne
    ensures AsListed(op, l, r, Apply(op, l, r))
  {
    hide ValuesEqual, IsNumber;
  }

  lemma NoOperator(op: Token, l: Value, r: Value)
    requires !(op == Plus || op == Minus || op == Star || op == Slash || op == Percent || op == Shl || op == Shr)
    requires !(op == Lt || op == Le || op == Gt || op == Ge || op == Amp || op == Caret || op == Pipe)
    requires op != EqEq && op != Ne
    ensures AsListed(op, l, r, Apply(op, l, r))
  {
    NotApplied(op, l, r);
    NotListed(op, l, r);
    hide Apply, Refusal;
  }

  lemma NotApplied(op: Token, l: Value, r: Value)
    requires !(op == Plus || op == Minus || op == Star || op == Slash || op == Percent || op == Shl || op == Shr)
    requires !(op == Lt || op == Le || op == Gt || op == Ge || op == Amp || op == Caret || op == Pipe)
    requires op != EqEq && op != Ne
    ensures Apply(op, l, r) == Err(BadType)
  {
    hide ValuesEqual, Bitwise, Arithmetic, DivMod, Shift, Compare;
  }

  lemma NotListed(op: Token, l: Value, r: Value)
    requires !(op == Plus || op == Minus || op == Star || op == Slash || op == Percent || op == Shl || op == Shr)
    requires !(op == Lt || op == Le || op == Gt || op == Ge || op == Amp || op == Caret || op == Pipe)
    requires op != EqEq && op != Ne
    ensures Refusal(op, l, r) == Some(BadType)
  {
    hide IsNumber;
  }

  lemma ArithmeticRefuses(op: Token, l: Value, r: Value)
    requires op == Plus || op == Minus || op == Star
    ensures AsListed(op, l, r, Arithmetic(op, l, r))
  {
    hide AsDouble, Doubles.Plus, Doubles.Minus, Doubles.Times, ConcatText, Wrap64;
  }

  lemma DivModRefuses(op: Token, l: Value, r: Value)
    requires op == Slash || op == Percent
    ensures AsListed(op, l, r, DivMod(op, l, r))
  {
    hide AsDouble, Doubles.Over, TruncatedDiv, Wrap64;
    if IsNumber(r) {
      ZeroDivisor(r);
    }
  }

  lemma ShiftRefuses(op: Token, l: Value, r: Value)
    requires op == Shl || op == Shr
    ensures AsListed(op, l, r, Shift(op, l, r))
  {
    hide Wrap64, Bits.Pow2;
  }

  lemma CompareRefuses(op: Token, l: Value, r: Value)
    requires op == Lt || op == Le || op == Gt || op == Ge
    ensures AsListed(op, l, r, Compare(op, l, r))
  {
    hide CompareNumbers, CompareBytes;
  }

  lemma ZeroDivisor(r: Value)
    requires IsNumber(r)
    ensures AsDouble(r) == Doubles.Finite(0.0) <==> r == VInt(0) || (r.VFloat? && r.f == Doubles.Finite(0.0))
  {
    if r.VInt? {
      hide Doubles.ToDouble;
      if r.i == 0 {
        Doubles.SmallAreExact(0);
      } else {
        NotZero(r.i);
      }
    }
  }

  lemma NotZero(i: i64)
    requires i != 0
    ensures Doubles.ToDouble(i) != 0
  {
    hide Doubles.ToDouble;
    Doubles.SmallAreExact(1);
    Doubles.SmallAreExact(-1);
    if i > 0 {
      Doubles.ToDoubleMonotone(1, i);
    } else {
      Doubles.ToDoubleMonotone(i, -1);
    }
  }

  // ---- comparisons

  predicate BelowDouble(x: Doubles.Double, y: Doubles.Double) {
    match (x, y)
    case (Finite(a), Finite(b)) => a < b
    case (Finite(_), Infinity(negative)) => !negative
    case (Infinity(negative), Finite(_)) => negative
    case (Infinity(m), Infinity(n)) => m && !n
    case (_, _) => false
  }

  /**
    * `<`: integers by size; next to a float both as doubles; strings at the first place where they
    * differ, or the shorter before the longer.
    */
  lemma LessLaw(l: Value, r: Value) returns (x: Doubles.Double, y: Doubles.Double, k: nat)
    requires Comparable(l, r)
    ensures l.VInt? && r.VInt? ==> (Holds(Lt, l, r) <==> l.i < r.i)
    ensures IsNumber(l) && IsNumber(r) && (l.VFloat? || r.VFloat?) ==>
              CountsAs(l, x) && CountsAs(r, y) && (Holds(Lt, l, r) <==> BelowDouble(x, y))
    ensures l.VStr? && r.VStr? && l.s == r.s ==> !Holds(Lt, l, r)
    ensures l.VStr? && r.VStr? && l.s != r.s ==>
              && k <= |l.s| && k <= |r.s| && l.s[..k] == r.s[..k]
              && (Holds(Lt, l, r) <==> k < |r.s| && (k == |l.s| || l.s[k] < r.s[k]))
  {
    OrderDecides(l, r);
    hide Holds, CompareBytes, CountsAs, AsDouble;
    x, y, k := Doubles.NaN, Doubles.NaN, 0;
    if l.VStr? {
      CompareReverses(l.s, r.s);
      if l.s != r.s {
        k := CompareDecides(l.s, r.s);
        CompareSigns(l.s, r.s);
      }
    } else {
      x, y := AsDouble(l), AsDouble(r);
      AsDoubleCounts(l);
      AsDoubleCounts(r);
    }
  }

  lemma {:induction false} CompareSigns(a: bytes, b: bytes)
    ensures -1 <= CompareBytes(a, b) <= 1
    decreases a
  {
    if a != [] && b != [] {
      CompareSigns(a[1..], b[1..]);
    }
  }

  /** Without floats inside, equality is being the same value. */
  predicate FloatFree(v: Value)
    decreases v, 1
  {
    match v
    case VFloat(_) => false
    case VArray(items) => AllFloatFree(items)
    case VObject(members) => MembersFloatFree(members)
    case _ => true
  }

  predicate AllFloatFree(items: seq<Value>)
    decreases items, 0
  {
    items == [] || (FloatFree(items[0]) && AllFloatFree(items[1..]))
  }

  predicate MembersFloatFree(members: seq<Member>)
    decreases members, 0
  {
    members == [] || (FloatFree(members[0].val) && MembersFloatFree(members[1..]))
  }

  lemma {:induction false} EqualIsSame(a: Value, b: Value)
    requires FloatFree(a) && FloatFree(b)
    ensures Holds(EqEq, a, b) <==> a == b
    decreases a, 1
  {
    ValuesSame(a, b);
    hide ValuesEqual;
  }

  lemma {:induction false} ValuesSame(a: Value, b: Value)
    requires FloatFree(a) && FloatFree(b)
    ensures ValuesEqual(a, b) <==> a == b
    decreases a, 1
  {
    match (a, b)
    case (VArray(x), VArray(y)) => ItemsSame(x, y);
    case (VObject(x), VObject(y)) => MembersSame(x, y);
    case (_, _) =>
  }

  lemma {:induction false} ItemsSame(a: seq<Value>, b: seq<Value>)
    requires AllFloatFree(a) && AllFloatFree(b)
    ensures ItemsEqual(a, b) <==> a == b
    decreases a, 0
  {
    hide ValuesEqual, FloatFree;
    if a != [] && b != [] {
      ValuesSame(a[0], b[0]);
      ItemsSame(a[1..], b[1..]);
      assert a == [a[0]] + a[1..] && b == [b[0]] + b[1..];
    }
  }

  lemma {:induction false} MembersSame(a: seq<Member>, b: seq<Member>)
    requires MembersFloatFree(a) && MembersFloatFree(b)
    ensures MembersEqual(a, b) <==> a == b
    decreases a, 0
  {
    hide ValuesEqual, FloatFree;
    if a != [] && b != [] {
      ValuesSame(a[0].val, b[0].val);
      MembersSame(a[1..], b[1..]);
      assert a == [a[0]] + a[1..] && b == [b[0]] + b[1..];
      assert a[0] == Member(a[0].key, a[0].val) && b[0] == Member(b[0].key, b[0].val);
    }
  }
}
