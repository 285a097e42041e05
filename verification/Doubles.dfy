/**
  * Double precision: 53 significant bits, exponents down to 2^-1074 and up to 2^1024, round to
  * nearest and ties to even (section 4.3.1 of IEEE 754). Zero is one value here, and so is NaN.
  */
module Doubles {
  import Bits
  import opened Common

  datatype Double = NaN | Infinity(negative: bool) | Finite(r: real)

  /** 2^53: up to here every integer is a double. */
  const EXACT: nat := 0x20_0000_0000_0000

  // ---- rounding to a whole number of units

  /** The distance between neighbouring doubles around `n` units: doubled for every bit past the 53rd. */
  function Spacing(n: nat): (u: nat)
    ensures u >= 1
  {
    if n < EXACT then 1 else 2 * Spacing(n / 2)
  }

  /** Whether the nearer multiple is the upper one; halfway the even one is chosen. */
  predicate RoundsUp(q: nat, rest: real, u: nat) {
    2.0 * rest > u as real || (2.0 * rest == u as real && q % 2 == 1)
  }

  function RoundParts(q: nat, rest: real, u: nat): nat {
    (if RoundsUp(q, rest, u) then q + 1 else q) * u
  }

  function Quotient(y: real): nat
    requires y >= 0.0
  {
    y.Floor / Spacing(y.Floor)
  }

  function RoundUnits(y: real): nat
    requires y >= 0.0
  {
    var u, q := Spacing(y.Floor), Quotient(y);
    RoundParts(q, y - (q * u) as real, u)
  }

  /** A whole number of units that is a double. */
  predicate IsDouble(d: nat) {
    d % Spacing(d) == 0
  }

  /** Its last significant bit is clear. */
  predicate IsEven(d: nat) {
    d / Spacing(d) % 2 == 0
  }

  lemma {:induction false} SpacingBounds(n: nat)
    ensures n < EXACT * Spacing(n)
    ensures Spacing(n) > 1 ==> EXACT / 2 * Spacing(n) <= n
  {
    if n >= EXACT {
      SpacingBounds(n / 2);
    }
  }

  /** Larger numbers have the same spacing or at least twice as much. */
  lemma {:induction false} SpacingGrows(n: nat, m: nat)
    requires n <= m
    ensures Spacing(n) == Spacing(m) || 2 * Spacing(n) <= Spacing(m)
  {
    if n >= EXACT {
      SpacingGrows(n / 2, m / 2);
    }
  }

  lemma Parts(n: nat, u: nat)
    requires u > 0
    ensures n == n / u * u + n % u && n % u < u
  {
  }

  /** A number is its multiple and a rest below the spacing. */
  lemma RealParts(y: real)
    requires y >= 0.0
    ensures var u, q := Spacing(y.Floor), Quotient(y);
            (q * u) as real <= y < (q * u + u) as real && q * u <= y.Floor < q * u + u
  {
    Parts(y.Floor, Spacing(y.Floor));
    hide Spacing;
  }

  /** The two candidates, and how far they are. */
  lemma RoundedBetween(q: nat, rest: real, u: nat)
    ensures RoundParts(q, rest, u) == q * u || RoundParts(q, rest, u) == q * u + u
    ensures RoundParts(q, rest, u) == q * u && u > 0 ==> 2.0 * rest <= u as real
    ensures RoundParts(q, rest, u) == q * u + u && u > 0 ==> 2.0 * rest >= u as real
  {
    assert (q + 1) * u == q * u + u;
  }

  lemma FewerParts(q: nat, p: nat, u: nat)
    requires q < p
    ensures q * u + u <= p * u
  {
    assert (p - q - 1) * u >= 0;
    assert p * u == q * u + u + (p - q - 1) * u;
  }

  lemma MultipleGrows(q: nat, p: nat, u: nat)
    requires q <= p
    ensures q * u <= p * u
  {
    assert (p - q) * u >= 0;
  }

  /** A rounded number stays within the range of its spacing. */
  lemma RoundedInRange(y: real)
    requires y >= 0.0
    ensures RoundUnits(y) <= EXACT * Spacing(y.Floor)
    ensures Spacing(y.Floor) > 1 ==> EXACT / 2 * Spacing(y.Floor) <= RoundUnits(y)
  {
    var u, q := Spacing(y.Floor), Quotient(y);
    SpacingBounds(y.Floor);
    RealParts(y);
    RoundedBetween(q, y - (q * u) as real, u);
    hide Spacing, RoundParts, Quotient;
    CandidatesInRange(y.Floor, q, u);
  }

  /** The candidates around a number are in its range. */
  lemma CandidatesInRange(n: nat, q: nat, u: nat)
    requires q * u <= n < q * u + u && n < EXACT * u
    ensures q * u + u <= EXACT * u
    ensures EXACT / 2 * u <= n ==> EXACT / 2 * u <= q * u
  {
    if q < EXACT / 2 {
      FewerParts(q, EXACT / 2, u);
    } else {
      MultipleGrows(EXACT / 2, q, u);
    }
    if q >= EXACT {
      MultipleGrows(EXACT, q, u);
    } else {
      FewerParts(q, EXACT, u);
    }
  }

  // ---- rounding keeps the order

  lemma RoundUnitsMonotone(x: real, y: real)
    requires 0.0 <= x <= y
    ensures RoundUnits(x) <= RoundUnits(y)
  {
    SpacingGrows(x.Floor, y.Floor);
    if Spacing(x.Floor) == Spacing(y.Floor) {
      hide Spacing, RoundUnits;
      SameSpacing(x, y);
    } else {
      hide Spacing, RoundUnits;
      RoundedInRange(x);
      RoundedInRange(y);
    }
  }

  lemma SameSpacing(x: real, y: real)
    requires 0.0 <= x <= y && Spacing(x.Floor) == Spacing(y.Floor)
    ensures RoundUnits(x) <= RoundUnits(y)
  {
    var u, q, p := Spacing(x.Floor), Quotient(x), Quotient(y);
    RealParts(x);
    RealParts(y);
    hide Spacing, Quotient;
    if p < q {
      FewerParts(p, q, u);
    }
    PartsMonotone(q, x - (q * u) as real, p, y - (p * u) as real, u);
  }

  /** Rounding keeps the order of multiples and rests of one spacing. */
  lemma PartsMonotone(q: nat, rest: real, p: nat, tail: real, u: nat)
    requires 0.0 <= rest < u as real && 0.0 <= tail < u as real && (q < p || (q == p && rest <= tail))
    ensures RoundParts(q, rest, u) <= RoundParts(p, tail, u)
  {
    RoundedBetween(q, rest, u);
    RoundedBetween(p, tail, u);
    if q < p {
      hide RoundParts;
      FewerParts(q, p, u);
    } else {
      assert RoundsUp(q, rest, u) ==> RoundsUp(p, tail, u);
      assert (q + 1) * u == q * u + u;
    }
  }

  // ---- the result is the nearest double

  /** Doubles in the range of a spacing have that spacing. */
  lemma SpacingInRange(n: nat, d: nat)
    requires Spacing(n) > 1 && EXACT / 2 * Spacing(n) <= d < EXACT * Spacing(n)
    ensures Spacing(d) == Spacing(n)
  {
    hide Spacing;
    SpacingBounds(d);
    if d <= n {
      SpacingGrows(d, n);
    } else {
      SpacingGrows(n, d);
    }
  }

  /** No double lies strictly between the two candidates. */
  lemma NothingBetween(y: real, d: nat)
    requires y >= 0.0 && IsDouble(d)
    ensures var u, q := Spacing(y.Floor), Quotient(y); d <= q * u || d >= q * u + u
  {
    var n := y.Floor;
    var u, q := Spacing(n), Quotient(y);
    SpacingBounds(n);
    RealParts(y);
    hide Spacing, Quotient;
    if u > 1 && q * u < d < q * u + u {
      CandidatesInRange(n, q, u);
      SpacingInRange(n, d);
      NoMultipleBetween(q, u, d, d / u);
    }
  }

  lemma NoMultipleBetween(q: nat, u: nat, d: nat, k: nat)
    requires u > 0 && k == d / u && d % u == 0
    ensures d <= q * u || d >= q * u + u
  {
    Parts(d, u);
    if k <= q {
      MultipleGrows(k, q, u);
    } else {
      FewerParts(q, k, u);
    }
  }

  lemma MultipleLeavesNothing(k: nat, u: nat)
    requires u > 0
    ensures k * u % u == 0 && k * u / u == k
  {
    var d := k * u;
    Parts(d, u);
    if d / u < k {
      FewerParts(d / u, k, u);
    } else if k < d / u {
      FewerParts(k, d / u, u);
    }
  }

  /** Rounding past the largest number of a spacing lands on the first of the next, which is even. */
  lemma NextRange(n: nat, d: nat)
    requires d == EXACT * Spacing(n) && n <= d
    ensures IsDouble(d) && IsEven(d)
  {
    hide Spacing;
    SpacingBounds(d);
    SpacingGrows(n, d);
    assert Spacing(d) == 2 * Spacing(n) && d == EXACT / 2 * Spacing(d);
    MultipleLeavesNothing(EXACT / 2, Spacing(d));
  }

  /** Small numbers of units are all doubles. */
  lemma SmallUnits(y: real)
    requires y >= 0.0 && Spacing(y.Floor) == 1
    ensures RoundUnits(y) == y.Floor || RoundUnits(y) == y.Floor + 1
    ensures y.Floor < EXACT && IsDouble(RoundUnits(y))
  {
    SpacingBounds(y.Floor);
    var d := RoundUnits(y);
    assert Quotient(y) == y.Floor;
    if d < EXACT {
      assert Spacing(d) == 1;
    } else {
      NextRange(y.Floor, d);
    }
  }

  /** The result is a double; whichever multiple it is, it is the even one where that had to decide. */
  lemma RoundedIsDouble(y: real)
    requires y >= 0.0
    ensures IsDouble(RoundUnits(y))
  {
    var n := y.Floor;
    var u, q, d := Spacing(n), Quotient(y), RoundUnits(y);
    RoundedInRange(y);
    if u == 1 {
      hide RoundUnits, Quotient;
      SmallUnits(y);
    } else if d == EXACT * u {
      SpacingBounds(n);
      hide RoundUnits, Quotient, Spacing;
      NextRange(n, d);
    } else {
      SpacingInRange(n, d);
      hide Spacing, Quotient;
      MultipleLeavesNothing(if RoundsUp(q, y - (q * u) as real, u) then q + 1 else q, u);
    }
  }

  function Distance(a: real, b: real): real {
    if a < b then b - a else a - b
  }

  /** No double is nearer than the rounded number. */
  lemma RoundUnitsNearest(y: real, d: nat)
    requires y >= 0.0 && IsDouble(d)
    ensures Distance(RoundUnits(y) as real, y) <= Distance(d as real, y)
  {
    var u, q := Spacing(y.Floor), Quotient(y);
    RealParts(y);
    NothingBetween(y, d);
    RoundedBetween(q, y - (q * u) as real, u);
    hide Spacing, RoundParts, IsDouble, Quotient;
  }

  /** A double as near as the rounded number gives way to it because that one is even. */
  lemma TieIsEven(y: real, d: nat)
    requires y >= 0.0 && IsDouble(d) && d != RoundUnits(y)
    requires Distance(RoundUnits(y) as real, y) == Distance(d as real, y)
    ensures IsEven(RoundUnits(y))
  {
    var k := TieMultiple(y, d);
    EvenMultiple(y, k);
  }

  /** Halfway the even multiple is chosen. */
  lemma TieMultiple(y: real, d: nat) returns (k: nat)
    requires y >= 0.0 && IsDouble(d) && d != RoundUnits(y)
    requires Distance(RoundUnits(y) as real, y) == Distance(d as real, y)
    ensures k % 2 == 0 && RoundUnits(y) == k * Spacing(y.Floor)
  {
    hide Spacing, RoundParts, RoundsUp, IsDouble, Quotient, Distance;
    var u, q := Spacing(y.Floor), Quotient(y);
    RealParts(y);
    NothingBetween(y, d);
    RoundedBetween(q, y - (q * u) as real, u);
    Halfway(y, q * u, u, d, RoundUnits(y));
    EvenChosen(q, y - (q * u) as real, u);
    k := if q % 2 == 1 then q + 1 else q;
  }

  lemma Halfway(y: real, low: nat, u: nat, d: nat, r: nat)
    requires low as real <= y < (low + u) as real && (r == low || r == low + u)
    requires (d <= low || d >= low + u) && d != r
    requires r == low ==> 2.0 * (y - low as real) <= u as real
    requires r == low + u ==> 2.0 * (y - low as real) >= u as real
    requires Distance(r as real, y) == Distance(d as real, y)
    ensures 2.0 * (y - low as real) == u as real
  {
  }

  lemma EvenChosen(q: nat, rest: real, u: nat)
    requires 2.0 * rest == u as real
    ensures RoundParts(q, rest, u) == (if q % 2 == 1 then q + 1 else q) * u
  {
  }

  lemma EvenMultiple(y: real, k: nat)
    requires y >= 0.0 && k % 2 == 0 && RoundUnits(y) == k * Spacing(y.Floor)
    ensures IsEven(RoundUnits(y))
  {
    var n := y.Floor;
    var u, r := Spacing(n), RoundUnits(y);
    RoundedInRange(y);
    SpacingBounds(n);
    hide RoundUnits, Quotient;
    MultipleLeavesNothing(k, u);
    if r == EXACT * u {
      hide Spacing;
      NextRange(n, r);
    } else if u > 1 {
      SpacingInRange(n, r);
    } else {
      assert Spacing(r) == 1;
    }
  }

  /** Doubles round to themselves. */
  lemma DoublesStay(d: nat)
    requires IsDouble(d)
    ensures RoundUnits(d as real) == d
  {
    hide IsDouble, RoundUnits;
    RoundUnitsNearest(d as real, d);
  }

  // ---- integers

  /** `static_cast<double>` of an integer: of 64 bits, all in range. */
  function ToDouble(i: int): int {
    if i < 0 then 0 - RoundUnits((0 - i) as real) else RoundUnits(i as real)
  }

  function Magnitude(i: int): nat {
    if i < 0 then 0 - i else i
  }

  /** Conversion never reverses an order, but it can merge what was apart. */
  lemma ToDoubleMonotone(i: int, j: int)
    requires i <= j
    ensures ToDouble(i) <= ToDouble(j)
  {
    hide RoundUnits;
    if j < 0 {
      RoundUnitsMonotone((0 - j) as real, (0 - i) as real);
    } else if i >= 0 {
      RoundUnitsMonotone(i as real, j as real);
    }
  }

  lemma SmallIsDouble(n: nat)
    requires n <= EXACT
    ensures IsDouble(n)
  {
    if n == EXACT {
      assert Spacing(EXACT / 2) == 1 && Spacing(EXACT) == 2;
      assert EXACT % 2 == 0;
    }
  }

  /** Integers of at most 53 bits are converted exactly. */
  lemma SmallAreExact(i: int)
    requires -(EXACT as int) <= i <= EXACT
    ensures ToDouble(i) == i
  {
    hide RoundUnits, IsDouble;
    SmallIsDouble(Magnitude(i));
    DoublesStay(Magnitude(i));
  }

  /**
    * An integer is converted to a double, no other double is nearer, and one as near gives way
    * because the last significant bit of the result is clear.
    */
  lemma ToDoubleIsNearest(i: int, d: int)
    requires IsDouble(Magnitude(d))
    ensures IsDouble(Magnitude(ToDouble(i)))
    ensures Distance(ToDouble(i) as real, i as real) <= Distance(d as real, i as real)
    ensures Distance(ToDouble(i) as real, i as real) == Distance(d as real, i as real) && d != ToDouble(i) ==>
              IsEven(Magnitude(ToDouble(i)))
  {
    var y := Magnitude(i) as real;
    RoundedIsDouble(y);
    var other := if (i < 0) == (d < 0) || d == 0 then Magnitude(d) else 0;
    SmallIsDouble(0);
    hide RoundUnits, IsDouble, IsEven;
    RoundUnitsNearest(y, other);
    if Distance(RoundUnits(y) as real, y) == Distance(other as real, y) && other != RoundUnits(y) {
      TieIsEven(y, other);
    }
  }

  /** Twice a number of units rounds to twice as much: a shift of the point changes nothing. */
  lemma RoundTwice(n: nat)
    ensures RoundUnits((2 * n) as real) == 2 * RoundUnits(n as real)
  {
    if n < EXACT {
      hide RoundUnits, IsDouble;
      SmallIsDouble(n);
      DoublesStay(n);
      TwiceSmall(n);
      DoublesStay(2 * n);
    } else {
      var u := Spacing(n);
      assert Spacing(2 * n) == 2 * u;
      Parts(n, u);
      var q, r := n / u, n % u;
      assert 2 * n == q * (2 * u) + 2 * r;
      MultipleAndRest(q, 2 * r, 2 * u);
      assert Quotient((2 * n) as real) == q && Quotient(n as real) == q;
      TwiceParts(q, r, u);
    }
  }

  lemma TwiceParts(q: nat, r: nat, u: nat)
    ensures RoundParts(q, (2 * r) as real, 2 * u) == 2 * RoundParts(q, r as real, u)
  {
    assert (q + 1) * (2 * u) == 2 * ((q + 1) * u) && q * (2 * u) == 2 * (q * u);
  }

  lemma MultipleAndRest(q: nat, r: nat, u: nat)
    requires r < u
    ensures (q * u + r) / u == q
  {
    var n := q * u + r;
    Parts(n, u);
    if n / u < q {
      FewerParts(n / u, q, u);
    } else if q < n / u {
      FewerParts(q, n / u, u);
    }
  }

  lemma TwiceSmall(n: nat)
    requires n < EXACT
    ensures IsDouble(2 * n)
  {
    if 2 * n >= EXACT {
      assert Spacing(n) == 1 && Spacing(2 * n) == 2;
      assert 2 * n % 2 == 0;
    }
  }

  // ---- rounding a real number

  /** Doubles are whole multiples of 2^-1074, and less than 2^1024. */
  const UNIT_BITS: nat := 1074

  const RANGE_BITS: nat := 1024

  /** `x` times 2^n. */
  function Up(x: real, n: nat): (r: real)
    ensures x >= 0.0 ==> r >= x
    decreases n, x
  {
    if n == 0 then x else Up(2.0 * x, n - 1)
  }

  /** `x` divided by 2^n. */
  function Down(x: real, n: nat): (r: real)
    ensures x >= 0.0 ==> 0.0 <= r <= x
    decreases n, x
  {
    if n == 0 then x else Down(x / 2.0, n - 1)
  }

  /** The number a real is rounded to: to infinity from half a step below 2^1024 on. */
  function Round(x: real): Double {
    if x < 0.0 then Negate(RoundPositive(0.0 - x)) else RoundPositive(x)
  }

  function RoundPositive(x: real): Double
    requires x >= 0.0
  {
    var r := Down(RoundUnits(Up(x, UNIT_BITS)) as real, UNIT_BITS);
    if Down(r, RANGE_BITS) >= 1.0 then Infinity(false) else Finite(r)
  }

  // ---- arithmetic

  function Negate(x: Double): Double {
    match x
    case NaN => NaN
    case Infinity(negative) => Infinity(!negative)
    case Finite(r) => Finite(0.0 - r)
  }

  predicate IsNegative(x: Double) {
    x == Infinity(true) || (x.Finite? && x.r < 0.0)
  }

  function Plus(x: Double, y: Double): Double {
    if x.Finite? && y.Finite? then Round(x.r + y.r)
    else if x.NaN? || y.NaN? || (x.Infinity? && y.Infinity? && x != y) then NaN
    else if x.Infinity? then x
    else y
  }

  function Minus(x: Double, y: Double): Double {
    Plus(x, Negate(y))
  }

  function Times(x: Double, y: Double): Double {
    if x.Finite? && y.Finite? then Round(x.r * y.r)
    else if x.NaN? || y.NaN? || x == Finite(0.0) || y == Finite(0.0) then NaN
    else Infinity(IsNegative(x) != IsNegative(y))
  }

  function Over(x: Double, y: Double): Double
    requires y != Finite(0.0)
  {
    if x.Finite? && y.Finite? then Round(x.r / y.r)
    else if x.NaN? || y.NaN? || (x.Infinity? && y.Infinity?) then NaN
    else if y.Infinity? then Finite(0.0)
    else Infinity(IsNegative(x) != IsNegative(y))
  }

  /** Nothing is less than NaN, and NaN less than nothing. */
  predicate Less(x: Double, y: Double) {
    if x.Finite? && y.Finite? then x.r < y.r
    else !x.NaN? && !y.NaN? && x != y && (x == Infinity(true) || y == Infinity(false))
  }

  // ---- scaling by powers of two

  lemma {:induction false} UpDown(x: real, k: nat)
    ensures Up(Down(x, k), k) == x
    decreases k, x
  {
    if k > 0 {
      UpDown(x / 2.0, k - 1);
      DownLast(x, k);
      UpLast(Down(x, k), k);
    }
  }

  lemma {:induction false} DownUp(x: real, k: nat)
    ensures Down(Up(x, k), k) == x
    decreases k, x
  {
    if k > 0 {
      DownUp(2.0 * x, k - 1);
      DownLast(Up(x, k), k);
    }
  }

  /** The last halving instead of the first. */
  lemma {:induction false} DownLast(x: real, k: nat)
    requires k > 0
    ensures Down(x, k) == Down(x, k - 1) / 2.0
    decreases k, x
  {
    if k > 1 {
      DownLast(x / 2.0, k - 1);
    }
  }

  lemma {:induction false} UpLast(x: real, k: nat)
    requires k > 0
    ensures Up(x, k) == 2.0 * Up(x, k - 1)
    decreases k, x
  {
    if k > 1 {
      UpLast(2.0 * x, k - 1);
    }
  }

  lemma {:induction false} UpMonotone(x: real, y: real, k: nat)
    requires x <= y
    ensures Up(x, k) <= Up(y, k)
    decreases k, x
  {
    if k > 0 {
      UpMonotone(2.0 * x, 2.0 * y, k - 1);
    }
  }

  lemma {:induction false} DownMonotone(x: real, y: real, k: nat)
    requires x <= y
    ensures Down(x, k) <= Down(y, k)
    decreases k, x
  {
    if k > 0 {
      DownMonotone(x / 2.0, y / 2.0, k - 1);
    }
  }

  lemma {:induction false} DownMinus(x: real, y: real, k: nat)
    ensures Down(x - y, k) == Down(x, k) - Down(y, k)
    decreases k, x
  {
    if k > 0 {
      DownMinus(x / 2.0, y / 2.0, k - 1);
      assert (x - y) / 2.0 == x / 2.0 - y / 2.0;
    }
  }

  lemma {:induction false} DownTwice(x: real, j: nat, k: nat)
    ensures Down(Down(x, j), k) == Down(x, j + k)
    decreases j, x
  {
    if j > 0 {
      DownTwice(x / 2.0, j - 1, k);
    }
  }

  lemma {:induction false} UpTwice(x: real, j: nat, k: nat)
    ensures Up(Up(x, j), k) == Up(x, j + k)
    decreases j, x
  {
    if j > 0 {
      UpTwice(2.0 * x, j - 1, k);
    }
  }

  lemma DownDistance(x: real, y: real, a: real, b: real, k: nat)
    requires Distance(a, b) <= Distance(x, y)
    ensures Distance(Down(a, k), Down(b, k)) <= Distance(Down(x, k), Down(y, k))
  {
    hide Down;
    ScaledDistance(x, y, k);
    ScaledDistance(a, b, k);
    DownMonotone(Distance(a, b), Distance(x, y), k);
  }

  lemma ScaledDistance(x: real, y: real, k: nat)
    ensures Distance(Down(x, k), Down(y, k)) == Down(Distance(x, y), k)
  {
    hide Down;
    if x <= y {
      DownMonotone(x, y, k);
      DownMinus(y, x, k);
    } else {
      DownMonotone(y, x, k);
      DownMinus(x, y, k);
    }
  }

  // ---- rounding keeps the order of reals

  lemma RoundPositiveMonotone(x: real, y: real)
    requires 0.0 <= x <= y
    ensures !Less(RoundPositive(y), RoundPositive(x))
  {
    hide RoundUnits, Up, Down;
    UpMonotone(x, y, UNIT_BITS);
    var m, n := RoundUnits(Up(x, UNIT_BITS)), RoundUnits(Up(y, UNIT_BITS));
    RoundUnitsMonotone(Up(x, UNIT_BITS), Up(y, UNIT_BITS));
    DownMonotone(m as real, n as real, UNIT_BITS);
    DownMonotone(Down(m as real, UNIT_BITS), Down(n as real, UNIT_BITS), RANGE_BITS);
  }

  lemma PositiveIsNumber(x: real)
    requires x >= 0.0
    ensures RoundPositive(x) == Infinity(false) || (RoundPositive(x).Finite? && RoundPositive(x).r >= 0.0)
  {
    hide RoundUnits, Up, Down;
  }

  lemma RoundIsNumber(x: real)
    ensures !Round(x).NaN?
    ensures x >= 0.0 ==> Round(x) == Infinity(false) || (Round(x).Finite? && Round(x).r >= 0.0)
    ensures x < 0.0 ==> Round(x) == Infinity(true) || (Round(x).Finite? && Round(x).r <= 0.0)
  {
    hide RoundPositive;
    PositiveIsNumber(if x < 0.0 then 0.0 - x else x);
  }

  /** Rounding never reverses an order, infinities included. */
  lemma RoundMonotone(x: real, y: real)
    requires x <= y
    ensures !Less(Round(y), Round(x))
  {
    hide RoundPositive;
    if y < 0.0 {
      RoundPositiveMonotone(0.0 - y, 0.0 - x);
    } else if x >= 0.0 {
      RoundPositiveMonotone(x, y);
    } else {
      RoundIsNumber(x);
      RoundIsNumber(y);
    }
  }

  // ---- which numbers are doubles

  function Size(r: real): real {
    if r < 0.0 then 0.0 - r else r
  }

  /** One of the doubles: a whole number of units with 53 significant bits, or none. */
  ghost predicate IsRounded(x: Double) {
    x.Finite? ==> exists n: nat :: InFormat(n, Size(x.r))
  }

  ghost predicate InFormat(n: nat, size: real) {
    IsDouble(n) && size == Down(n as real, UNIT_BITS) && Down(size, RANGE_BITS) < 1.0
  }

  lemma RoundPositiveIsRounded(x: real)
    requires x >= 0.0
    ensures IsRounded(RoundPositive(x))
  {
    hide RoundUnits, IsDouble, Up, Down;
    var n := RoundUnits(Up(x, UNIT_BITS));
    RoundedIsDouble(Up(x, UNIT_BITS));
    if RoundPositive(x).Finite? {
      assert InFormat(n, Size(RoundPositive(x).r));
    }
  }

  lemma NegatedIsRounded(x: Double)
    requires IsRounded(x)
    ensures IsRounded(Negate(x))
  {
    hide InFormat;
    if x.Finite? {
      var n: nat :| InFormat(n, Size(x.r));
      assert Size(0.0 - x.r) == Size(x.r);
      assert InFormat(n, Size(Negate(x).r));
    }
  }

  /** Rounding gives a double. */
  lemma RoundIsRounded(x: real)
    ensures IsRounded(Round(x))
  {
    hide RoundPositive, IsRounded;
    RoundPositiveIsRounded(if x < 0.0 then 0.0 - x else x);
    if x < 0.0 {
      NegatedIsRounded(RoundPositive(0.0 - x));
    }
  }

  lemma PositiveStays(size: real, n: nat)
    requires InFormat(n, size)
    ensures size >= 0.0 && RoundPositive(size) == Finite(size)
  {
    hide RoundUnits, IsDouble, Up, Down;
    UpDown(n as real, UNIT_BITS);
    DoublesStay(n);
  }

  /** A double stays as it is. */
  lemma RoundedStays(r: real)
    requires IsRounded(Finite(r))
    ensures Round(r) == Finite(r)
  {
    hide RoundPositive, InFormat;
    var n: nat :| InFormat(n, Size(r));
    PositiveStays(Size(r), n);
  }

  lemma ArithmeticIsRounded(x: Double, y: Double)
    requires IsRounded(x) && IsRounded(y)
    ensures IsRounded(Plus(x, y)) && IsRounded(Minus(x, y)) && IsRounded(Times(x, y)) && IsRounded(Negate(x))
    ensures y != Finite(0.0) ==> IsRounded(Over(x, y))
  {
    hide IsRounded, Plus, Times, Over;
    NegatedIsRounded(x);
    NegatedIsRounded(y);
    SumIsRounded(x, y);
    SumIsRounded(x, Negate(y));
    ProductIsRounded(x, y);
    if y != Finite(0.0) {
      QuotientIsRounded(x, y);
    }
  }

  lemma ProductIsRounded(x: Double, y: Double)
    ensures IsRounded(Times(x, y))
  {
    hide IsRounded, Round;
    NoneIsRounded();
    forall p: real ensures IsRounded(Round(p)) {
      RoundIsRounded(p);
    }
  }

  lemma QuotientIsRounded(x: Double, y: Double)
    requires y != Finite(0.0)
    ensures IsRounded(Over(x, y))
  {
    hide IsRounded, Round;
    NoneIsRounded();
    if x.Finite? && y.Finite? {
      RoundIsRounded(x.r / y.r);
    }
  }

  lemma SumIsRounded(x: Double, y: Double)
    requires IsRounded(x) && IsRounded(y)
    ensures IsRounded(Plus(x, y))
  {
    hide IsRounded, Round;
    NoneIsRounded();
    if x.Finite? && y.Finite? {
      RoundIsRounded(x.r + y.r);
    }
  }

  lemma NoneIsRounded()
    ensures IsRounded(NaN) && IsRounded(Infinity(false)) && IsRounded(Infinity(true)) && IsRounded(Finite(0.0))
  {
    hide Down;
    SmallIsDouble(0);
    assert InFormat(0, Size(0.0));
  }

  // ---- conversion is rounding

  lemma {:induction false} RoundScaled(n: nat, k: nat)
    ensures RoundUnits(Up(n as real, k)) as real == Up(RoundUnits(n as real) as real, k)
    decreases k, n
  {
    hide RoundUnits;
    if k > 0 {
      RoundTwice(n);
      RoundScaled(2 * n, k - 1);
    }
  }

  /** A small whole number scaled up is a whole number of units and a double. */
  lemma ScaledIsDouble(c: nat, k: nat) returns (n: nat)
    requires c <= EXACT
    ensures IsDouble(n) && n as real == Up(c as real, k)
  {
    hide RoundUnits, IsDouble, Up;
    SmallIsDouble(c);
    DoublesStay(c);
    RoundScaled(c, k);
    n := RoundUnits(Up(c as real, k));
    RoundedIsDouble(Up(c as real, k));
  }

  /** Below 2^64 nothing is out of range. */
  lemma {:induction false} DownBelow(x: real, j: nat)
    requires x < Bits.Pow2(j) as real
    ensures Down(x, j) < 1.0
    decreases j, x
  {
    if j > 0 {
      DownBelow(x / 2.0, j - 1);
    }
  }

  lemma SmallInRange(x: real, j: nat, k: nat)
    requires 0.0 <= x < TWO64 as real && j == 64 <= k
    ensures Down(x, k) < 1.0
  {
    hide Bits.Pow2, Down;
    Power64(j);
    DownBelow(x, j);
    DownTwice(x, j, k - j);
  }

  lemma Power64(j: nat)
    requires j == 64
    ensures Bits.Pow2(j) == TWO64
  {
    Bits.Powers();
    hide Bits.Pow2;
    Bits.PowerSum(32, 32);
  }

  lemma DoubledAtMost(n: nat)
    requires n <= TWO63
    ensures RoundUnits(n as real) < TWO64
  {
    RoundUnitsNearest(n as real, 0);
    hide RoundUnits;
  }

  /** Converting a 64-bit integer is rounding it as any real number is. */
  lemma ConversionIsRounding(i: i64)
    ensures Round(i as real) == Finite(ToDouble(i) as real)
  {
    hide RoundUnits, Up, Down, RoundPositive;
    WholeRounds(Magnitude(i));
  }

  lemma WholeRounds(n: nat)
    requires n <= TWO63
    ensures RoundPositive(n as real) == Finite(RoundUnits(n as real) as real)
  {
    hide RoundUnits, Up, Down;
    var m := RoundUnits(n as real);
    DoubledAtMost(n);
    RoundScaled(n, UNIT_BITS);
    DownUp(m as real, UNIT_BITS);
    SmallInRange(m as real, 64, RANGE_BITS);
  }

  // ---- the ends of the range

  /** From 2^1024 on everything rounds to infinity. */
  lemma TooLargeIsInfinite(x: real)
    requires x >= 0.0 && Down(x, RANGE_BITS) >= 1.0
    ensures Round(x) == Infinity(false)
  {
    hide RoundUnits, IsDouble, Up, Down;
    var n := ScaledIsDouble(1, RANGE_BITS + UNIT_BITS);
    var limit := Up(1 as real, RANGE_BITS);
    UpMonotone(1 as real, Down(x, RANGE_BITS), RANGE_BITS);
    UpDown(x, RANGE_BITS);
    UpTwice(1 as real, RANGE_BITS, UNIT_BITS);
    UpMonotone(limit, x, UNIT_BITS);
    DoublesStay(n);
    RoundUnitsMonotone(n as real, Up(x, UNIT_BITS));
    var m := RoundUnits(Up(x, UNIT_BITS));
    DownMonotone(n as real, m as real, UNIT_BITS);
    DownUp(limit, UNIT_BITS);
    DownMonotone(limit, Down(m as real, UNIT_BITS), RANGE_BITS);
    DownUp(1 as real, RANGE_BITS);
  }

  /** Two or three times a power of two just below the range is a double. */
  lemma LargeIsDouble(size: real, c: nat)
    requires 1 <= c <= 3 && size >= 0.0 && Down(size, RANGE_BITS - 2) == c as real
    ensures IsRounded(Finite(size))
  {
    hide IsDouble, Up, Down;
    var k: nat := RANGE_BITS - 2;
    var n := ScaledIsDouble(c, k + UNIT_BITS);
    UpDown(size, k);
    UpTwice(c as real, k, UNIT_BITS);
    DownUp(size, UNIT_BITS);
    DownTwice(size, k, 2);
    Quarter(c as real);
    assert InFormat(n, Size(size));
  }

  lemma Quarter(x: real)
    ensures Down(x, 2) == x / 4.0
  {
    assert Down(x / 2.0, 1) == Down(x / 2.0 / 2.0, 0);
  }

  /** Below 2^64 rounding stays in range. */
  lemma SmallIsFinite(x: real)
    requires 0.0 <= x <= TWO63 as real
    ensures Round(x).Finite?
  {
    hide RoundPositive, ToDouble;
    WholeRounds(TWO63);
    RoundPositiveMonotone(x, TWO63 as real);
    PositiveIsNumber(x);
  }

  // ---- how far doubles are apart

  /** A double of at least 2^53 multiples of 2^-(1074 - k) is an even number of them. */
  lemma {:induction false} LargeIsEven(n: nat, k: nat) returns (m: nat)
    requires IsDouble(n) && Down(n as real, k) >= EXACT as real
    ensures Down(n as real, k) == (2 * m) as real
    decreases k, n
  {
    var half := HalfIsDouble(n, k);
    if k == 0 {
      m := half;
    } else {
      m := LargeIsEven(half, k - 1);
    }
  }

  lemma HalfIsDouble(n: nat, k: nat) returns (m: nat)
    requires IsDouble(n) && Down(n as real, k) >= EXACT as real
    ensures n == 2 * m && IsDouble(m)
  {
    assert n >= EXACT;
    var u := Spacing(n / 2);
    assert Spacing(n) == 2 * u;
    hide Spacing, Down;
    Parts(n, 2 * u);
    var q := n / (2 * u);
    TwiceProduct(q, u);
    m := q * u;
    MultipleLeavesNothing(q, u);
  }

  lemma TwiceProduct(q: nat, u: nat)
    ensures q * (2 * u) == 2 * (q * u)
  {
  }

  /** A double of at least 2^53 is a whole number. */
  lemma LargeIsWhole(size: real) returns (m: nat)
    requires IsRounded(Finite(size)) && size >= EXACT as real
    ensures size == m as real
  {
    hide IsDouble, Down;
    var n: nat :| InFormat(n, Size(size));
    m := LargeIsEven(n, UNIT_BITS);
    m := 2 * m;
  }

  /** 2^33: from here on doubles are more than a millionth apart, and before it less. */
  const COARSE: nat := 0x2_0000_0000

  /** From 2^33 on there are this many doubles, and no more, in a step of one. */
  const STEPS: nat := 0x8_0000

  const FINE_BITS: nat := 20

  lemma FineUp(x: real)
    ensures Up(x, FINE_BITS) == x * (2 * STEPS) as real
  {
    hide Up;
    FourUp(x);
    FourUp(16.0 * x);
    FourUp(256.0 * x);
    FourUp(4096.0 * x);
    FourUp(65536.0 * x);
    UpTwice(x, 4, 16);
    UpTwice(16.0 * x, 4, 12);
    UpTwice(256.0 * x, 4, 8);
    UpTwice(4096.0 * x, 4, 4);
  }

  lemma FourUp(x: real)
    ensures Up(x, 4) == 16.0 * x
  {
    assert Up(2.0 * x, 3) == Up(4.0 * x, 2);
    assert Up(4.0 * x, 2) == Up(8.0 * x, 1) == Up(16.0 * x, 0);
  }

  /** From 2^33 on doubles are whole multiples of 2^-19. */
  lemma CoarseSteps(n: nat, size: real) returns (m: nat)
    requires IsDouble(n) && size == Down(n as real, UNIT_BITS) && size >= COARSE as real
    ensures size * STEPS as real == m as real
  {
    hide IsDouble, Down, Up;
    DownTwice(n as real, UNIT_BITS - FINE_BITS, FINE_BITS);
    var z := Down(n as real, UNIT_BITS - FINE_BITS);
    UpDown(z, FINE_BITS);
    FineUp(size);
    m := LargeIsEven(n, UNIT_BITS - FINE_BITS);
  }

  /** The spacing of what is less than 2^53 steps is at most a step. */
  lemma {:induction false} SpacingBelow(n: nat, w: real, t: real, k: nat)
    requires n as real < Up(w, k) && w <= EXACT as real && t >= 1.0
    ensures Spacing(n) as real <= Up(t, k)
    decreases k, n
  {
    if n >= EXACT {
      if k > 0 {
        UpLast(w, k);
        UpLast(t, k);
        SpacingBelow(n / 2, w, t, k - 1);
      }
    }
  }

  lemma FineUnits(y: real, w: real, t: real, k: nat)
    requires y == Up(w, k) && 0.0 <= w < EXACT as real && t >= 1.0
    ensures y >= 0.0 && 2.0 * Distance(RoundUnits(y) as real, y) <= Up(t, k)
  {
    hide Spacing, RoundParts, Quotient, Up;
    var u, q := Spacing(y.Floor), Quotient(y);
    FloorBelow(y, w, k);
    SpacingBelow(y.Floor, EXACT as real, t, k);
    RealParts(y);
    RoundedBetween(q, y - (q * u) as real, u);
  }

  lemma FloorBelow(y: real, w: real, k: nat)
    requires y == Up(w, k) && 0.0 <= w < EXACT as real
    ensures y >= 0.0 && y.Floor as real < Up(EXACT as real, k)
  {
    hide Up;
    UpStrict(w, EXACT as real, k);
  }

  lemma {:induction false} UpStrict(x: real, y: real, k: nat)
    requires x < y
    ensures Up(x, k) < Up(y, k)
    decreases k, x
  {
    if k > 0 {
      UpStrict(2.0 * x, 2.0 * y, k - 1);
    }
  }

  /** Below 2^33 rounding moves a number by less than half a millionth. */
  lemma RoundFine(x: real)
    requires 0.0 <= x < COARSE as real
    ensures Round(x).Finite? && Round(x).r >= 0.0 && 4.0 * STEPS as real * Distance(Round(x).r, x) <= 1.0
  {
    hide RoundUnits, RoundPositive, Up, Down;
    SmallIsFinite(x);
    FineWithin(x, 1.0);
    RoundedValue(x);
    PositiveIsNumber(x);
  }

  lemma RoundedValue(x: real)
    requires x >= 0.0 && Round(x).Finite?
    ensures Round(x).r == Down(RoundUnits(Up(x, UNIT_BITS)) as real, UNIT_BITS)
  {
    hide RoundUnits, Up, Down;
  }

  lemma FineWithin(x: real, t: real)
    requires 0.0 <= x < COARSE as real && t >= 1.0
    ensures Up(x, UNIT_BITS) >= 0.0
    ensures var r := Down(RoundUnits(Up(x, UNIT_BITS)) as real, UNIT_BITS);
            4.0 * STEPS as real * Distance(r, x) <= t
  {
    hide RoundUnits, Up, Down, Distance;
    var y, w := Up(x, UNIT_BITS), Up(x, FINE_BITS);
    UpTwice(x, FINE_BITS, UNIT_BITS - FINE_BITS);
    FineUp(x);
    FineUnits(y, w, t, UNIT_BITS - FINE_BITS);
    FineDown(RoundUnits(y) as real, x, t);
  }

  lemma FineDown(n: real, x: real, t: real)
    requires 2.0 * Distance(n, Up(x, UNIT_BITS)) <= Up(t, UNIT_BITS - FINE_BITS)
    ensures 4.0 * STEPS as real * Distance(Down(n, UNIT_BITS), x) <= t
  {
    hide Up, Down, Distance;
    var d := Distance(n, Up(x, UNIT_BITS));
    ScaledDistance(n, Up(x, UNIT_BITS), UNIT_BITS);
    DownUp(x, UNIT_BITS);
    DownMonotone(2.0 * d, Up(t, UNIT_BITS - FINE_BITS), UNIT_BITS - FINE_BITS);
    DownUp(t, UNIT_BITS - FINE_BITS);
    DownDouble(d, UNIT_BITS - FINE_BITS);
    DownTwice(d, UNIT_BITS - FINE_BITS, FINE_BITS);
    UpDown(Down(d, UNIT_BITS - FINE_BITS), FINE_BITS);
    FineUp(Down(d, UNIT_BITS));
  }

  lemma {:induction false} DownDouble(x: real, k: nat)
    ensures Down(2.0 * x, k) == 2.0 * Down(x, k)
    decreases k, x
  {
    if k > 0 {
      DownDouble(x / 2.0, k - 1);
    }
  }

  lemma CoarseIsDouble()
    ensures Round(COARSE as real) == Finite(COARSE as real)
  {
    hide Round, ToDouble;
    ConversionIsRounding(COARSE);
    SmallAreExact(COARSE);
  }

  /** What a number from 2^33 on rounds to is at least 2^33. */
  lemma CoarseReached(size: real, x: real)
    requires x >= COARSE as real && Round(x) == Finite(size)
    ensures size >= COARSE as real
  {
    hide Round;
    CoarseIsDouble();
    RoundMonotone(COARSE as real, x);
  }

  /** From 2^33 on a number within half a millionth of a double rounds to it. */
  lemma CoarseNearest(size: real, y: real)
    requires IsRounded(Finite(size)) && size >= COARSE as real && y >= COARSE as real
    requires 2.0 * Distance(size, y) * 1000000.0 <= 1.0
    ensures Round(y) == Finite(size)
  {
    hide RoundUnits, IsDouble, Up, Down, Distance;
    var d: nat :| InFormat(d, Size(size));
    var z := Up(y, UNIT_BITS);
    var n := RoundUnits(z);
    var r := Down(n as real, UNIT_BITS);
    RoundedIsDouble(z);
    RoundUnitsNearest(z, d);
    DownDistance(d as real, z, n as real, z, UNIT_BITS);
    DownUp(y, UNIT_BITS);
    CoarseUnits(y);
    var j := CoarseSteps(n, r);
    var k := CoarseSteps(d, size);
    SameStep(r, size, y, j, k);
  }

  lemma CoarseUnits(y: real)
    requires y >= COARSE as real
    ensures Down(RoundUnits(Up(y, UNIT_BITS)) as real, UNIT_BITS) >= COARSE as real
  {
    hide RoundUnits, Up, Down;
    var n := RoundUnits(Up(y, UNIT_BITS));
    var m := RoundUnits(Up(COARSE as real, UNIT_BITS));
    UpMonotone(COARSE as real, y, UNIT_BITS);
    RoundUnitsMonotone(Up(COARSE as real, UNIT_BITS), Up(y, UNIT_BITS));
    DownMonotone(m as real, n as real, UNIT_BITS);
    CoarseIsDouble();
    RoundedValue(COARSE as real);
  }

  lemma SameStep(r: real, size: real, y: real, j: nat, k: nat)
    requires Distance(r, y) <= Distance(size, y) && 2.0 * Distance(size, y) * 1000000.0 <= 1.0
    requires r * STEPS as real == j as real && size * STEPS as real == k as real
    ensures r == size
  {
    assert Distance(r, size) * 1000000.0 <= 1.0;
    assert Distance(j as real, k as real) < 1.0;
    assert j == k;
  }

  // ---- no double is nearer

  lemma PositiveNearest(x: real, r: real, size: real, n: nat)
    requires x >= 0.0 && InFormat(n, size) && r == Down(RoundUnits(Up(x, UNIT_BITS)) as real, UNIT_BITS)
    ensures Distance(r, x) <= Distance(size, x)
  {
    hide RoundUnits, IsDouble, Up, Down, Distance;
    var y := Up(x, UNIT_BITS);
    RoundUnitsNearest(y, n);
    DownUp(x, UNIT_BITS);
    DownDistance(n as real, y, RoundUnits(y) as real, y, UNIT_BITS);
  }

  /** A finite rounded number is a nearest double: no other is closer to what was rounded. */
  lemma RoundIsNearest(x: real, d: real)
    requires Round(x).Finite? && IsRounded(Finite(d))
    ensures Distance(Round(x).r, x) <= Distance(d, x)
  {
    hide RoundUnits, IsDouble, Up, Down, InFormat;
    var n: nat :| InFormat(n, Size(d));
    NoneIsRounded();
    var zero: nat :| InFormat(zero, Size(0.0));
    var y := if x < 0.0 then 0.0 - x else x;
    var r := RoundPositive(y).r;
    PositiveNearest(y, r, Size(d), n);
    PositiveNearest(y, r, 0.0, zero);
  }

  /** What is rounded to infinity is no closer to any double than to 2^1024. */
  lemma InfinityIsNearest(x: real, d: real, top: real)
    requires x >= 0.0 && Round(x) == Infinity(false) && IsRounded(Finite(d))
    requires 0.0 <= x <= top && Down(top, RANGE_BITS) == 1.0
    ensures Distance(top, x) <= Distance(d, x)
  {
    hide RoundUnits, IsDouble, Up, Down, InFormat;
    var n: nat :| InFormat(n, Size(d));
    var r := Down(RoundUnits(Up(x, UNIT_BITS)) as real, UNIT_BITS);
    assert Down(r, RANGE_BITS) >= 1.0;
    AtLeastTop(r, top);
    PositiveNearest(x, r, Size(d), n);
  }

  lemma AtLeastTop(r: real, top: real)
    requires Down(r, RANGE_BITS) >= 1.0 && Down(top, RANGE_BITS) == 1.0
    ensures r >= top
  {
    hide Up, Down;
    UpMonotone(Down(top, RANGE_BITS), Down(r, RANGE_BITS), RANGE_BITS);
    UpDown(r, RANGE_BITS);
    UpDown(top, RANGE_BITS);
  }
}
