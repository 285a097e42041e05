/** The text of floats. */
module CfgFloatText {
  // A float is printed with six decimals and read back as the nearest double: a finite one always
  // scans, but comes back only if it is the double its six decimals name.

  import opened CfgGrammar
  import opened CfgLexRoundTrip
  import opened CfgLexSpec
  import opened CfgSerializer
  import opened Common
  import Doubles
  import opened Seqs

  // ---- scanning six decimals

  lemma {:induction false} PaddedDigits(n: nat, width: nat)
    ensures var t := PaddedText(n, width);
            |t| == width && (forall i | 0 <= i < |t| :: IsDigit(t[i])) && DigitsValue(t, 10) == n % Tens(width)
    decreases width
  {
    if width > 0 {
      var t := PaddedText(n, width);
      PaddedDigits(n / 10, width - 1);
      assert t[..width - 1] == PaddedText(n / 10, width - 1);
      LastDigit(n, Tens(width - 1));
    }
  }

  function Tens(n: nat): (p: nat)
    ensures p >= 1
  {
    if n == 0 then 1 else 10 * Tens(n - 1)
  }

  lemma LastDigit(n: nat, p: nat)
    requires p >= 1
    ensures n / 10 % p * 10 + n % 10 == n % (10 * p)
  {
    var q, r := n / 10 / p, n / 10 % p;
    assert n == 10 * (p * q + r) + n % 10;
    assert 10 * (p * q) == 10 * p * q;
    Remainder(q, 10 * r + n % 10, 10 * p);
  }

  lemma Remainder(q: nat, r: nat, p: nat)
    requires r < p
    ensures (p * q + r) % p == r
  {
    Doubles.MultipleAndRest(q, r, p);
    Doubles.Parts(p * q + r, p);
    assert p * q == q * p;
  }

  /** Six decimals scan to the nearest double of the number they name. */
  lemma LexDecimals(m: nat, k: bytes)
    requires EndsNumber(k)
    ensures var t := FloatToken(m as real / 1000000.0);
            Lex(NatText(m / 1000000) + [46] + PaddedText(m % 1000000, 6) + k)
            == if t.Ok? then Tok(t.value, Lex(k)) else End(Some(BadLength))
  {
    DecimalDigits(m);
    hide *;
    LexDigits(NatText(m / 1000000), PaddedText(m % 1000000, 6), m, k);
  }

  lemma DecimalDigits(m: nat)
    ensures var t, p := NatText(m / 1000000), PaddedText(m % 1000000, 6);
            && t != [] && |p| == 6
            && (forall i | 0 <= i < |t| :: IsDigit(t[i])) && (forall i | 0 <= i < |p| :: IsDigit(p[i]))
            && DigitsValue(t, 10) == m / 1000000 && DigitsValue(p, 10) == m % 1000000
  {
    NatTextDigits(m / 1000000);
    PaddedDigits(m % 1000000, 6);
    assert Tens(6) == 1000000;
    hide NatText, PaddedText, DigitsValue;
  }

  lemma LexDigits(t: bytes, p: bytes, m: nat, k: bytes)
    requires EndsNumber(k) && t != [] && |p| == 6
    requires (forall i | 0 <= i < |t| :: IsDigit(t[i])) && (forall i | 0 <= i < |p| :: IsDigit(p[i]))
    requires DigitsValue(t, 10) == m / 1000000 && DigitsValue(p, 10) == m % 1000000
    ensures var token := FloatToken(m as real / 1000000.0);
            Lex(t + [46] + p + k) == if token.Ok? then Tok(token.value, Lex(k)) else End(Some(BadLength))
  {
    hide DigitsValue, FloatToken, Lex, EndsNumber, LexNumber, LexAfterWhole, FloatValue;
    Regroup4(t, [46], p, k);
    Regroup3([46], p, k);
    var rest := [46] + p + k;
    DecimalsHere(t, p, k);
    WholeHere(t, rest);
    DecimalValue(t, p, m);
    FloatScanned(t + rest, t, rest);
    OnlyTooLarge(m as real / 1000000.0);
  }

  lemma OnlyTooLarge(x: real)
    requires x >= 0.0
    ensures FloatToken(x).Err? ==> FloatToken(x).code == BadLength
  {
  }

  lemma DecimalsHere(t: bytes, p: bytes, k: bytes)
    requires |p| == 6 && EndsNumber(k)
    requires (forall i | 0 <= i < |t| :: IsDigit(t[i])) && (forall i | 0 <= i < |p| :: IsDigit(p[i]))
    ensures var token := FloatToken(FloatValue(t, p, false, []));
            LexAfterWhole(t, [46] + p + k) == if token.Ok? then Ok((token.value, k)) else Err(token.code)
  {
    var rest := [46] + p + k;
    FractionHere(p, k);
    assert rest[1..7] == p && rest[7..] == k;
    hide FloatToken, FloatValue, DigitsValue, FractionLength;
  }

  lemma FractionHere(p: bytes, k: bytes)
    requires |p| == 6 && EndsNumber(k) && forall i | 0 <= i < |p| :: IsDigit(p[i])
    ensures FractionLength([46] + p + k) == 7
  {
    var s := [46] + p + k;
    assert s[1..] == p + k;
    SpanExact(p, k, IsDigit);
  }

  lemma WholeHere(t: bytes, rest: bytes)
    requires t != [] && rest != [] && !IsDigit(rest[0]) && rest[0] != 120 && rest[0] != 88
    requires forall i | 0 <= i < |t| :: IsDigit(t[i])
    ensures LexNumber(t + rest) == LexAfterWhole(t, rest)
  {
    var x := t + rest;
    SpanExact(t, rest, IsDigit);
    assert x[..|t|] == t && x[|t|..] == rest;
    assert x[0] == t[0] && At(x, |t|) == rest[0];
    assert |t| > 1 ==> At(x, 1) == t[1];
  }

  lemma FloatScanned(x: bytes, t: bytes, rest: bytes)
    requires t != [] && IsDigit(t[0]) && x == t + rest
    ensures Scan(x) == LexNumber(x)
    ensures LexNumber(x).Ok? ==> Lex(x) == Tok(LexNumber(x).value.0, Lex(LexNumber(x).value.1))
    ensures LexNumber(x).Err? ==> Lex(x) == End(Some(LexNumber(x).code))
  {
    assert x[0] == t[0];
    assert SkipTrivia(x) == Ok(x);
    hide LexNumber;
  }

  lemma DecimalValue(t: bytes, p: bytes, m: nat)
    requires (forall i | 0 <= i < |t| :: IsDigit(t[i])) && (forall i | 0 <= i < |p| :: IsDigit(p[i])) && |p| == 6
    requires DigitsValue(t, 10) == m / 1000000 && DigitsValue(p, 10) == m % 1000000
    ensures FloatValue(t, p, false, []) == m as real / 1000000.0
  {
    assert DigitsValue([], 10) == 0;
    LoweredSix((m % 1000000) as real);
    assert m == m / 1000000 * 1000000 + m % 1000000;
    hide DigitsValue;
  }

  lemma LoweredSix(x: real)
    ensures Lowered(x, 6) == x / 1000000.0
  {
    assert Lowered(x, 6) == Lowered(x / 100.0, 4) == Lowered(x / 10000.0, 2) == Lowered(x / 1000000.0, 0);
  }

  // ---- printing and reading back

  /** The number the text of a float names, without its sign. */
  function PrintedSize(f: Doubles.Double): (x: real)
    requires f.Finite?
    ensures x >= 0.0
  {
    Micros(Doubles.Size(f.r)) as real / 1000000.0
  }

  /** The double its text is read as, without its sign. */
  function Printed(f: Doubles.Double): Doubles.Double
    requires f.Finite?
  {
    Doubles.Round(PrintedSize(f))
  }

  /** Finite, and so is what its text is read as. */
  predicate Scans(f: Doubles.Double) {
    f.Finite? && Printed(f).Finite?
  }

  function RereadFloat(f: Doubles.Double): Doubles.Double
    requires f.Finite?
  {
    if f.r < 0.0 then Doubles.Negate(Printed(f)) else Printed(f)
  }

  /** The float is the one its text is read as. */
  predicate Survives(f: Doubles.Double) {
    Scans(f) && RereadFloat(f) == f
  }

  /** A number of millionths is printed as it is. */
  lemma MicrosOf(size: real, m: nat)
    requires size >= 0.0 && 2.0 * Doubles.Distance(size * 1000000.0, m as real) < 1.0
    ensures Micros(size) == m
  {
    var scaled := size * 1000000.0;
    Doubles.RoundedBetween(scaled.Floor, scaled - scaled.Floor as real, 1);
    hide Doubles.RoundParts;
  }

  lemma PrintedBack(f: Doubles.Double, m: nat)
    requires f.Finite? && Doubles.IsRounded(f) && Micros(Doubles.Size(f.r)) == m
    requires Doubles.Round(m as real / 1000000.0) == Doubles.Finite(Doubles.Size(f.r))
    ensures Survives(f)
  {
    hide Doubles.Round, Doubles.IsRounded, Micros;
  }

  /** Integers, halves, quarters, down to sixty-fourths survive. */
  lemma SixtyFourthsSurvive(f: Doubles.Double, m: nat)
    requires f.Finite? && Doubles.IsRounded(f) && Doubles.Size(f.r) * 64.0 == m as real
    ensures Survives(f)
  {
    hide Doubles.Round, Doubles.IsRounded, Micros;
    var size := Doubles.Size(f.r);
    assert size * 1000000.0 == (m * 15625) as real;
    MicrosOf(size, m * 15625);
    SizeIsRounded(f);
    Doubles.RoundedStays(size);
    PrintedBack(f, m * 15625);
  }

  lemma SizeIsRounded(f: Doubles.Double)
    requires f.Finite? && Doubles.IsRounded(f)
    ensures Doubles.IsRounded(Doubles.Finite(Doubles.Size(f.r)))
  {
    if f.r < 0.0 {
      Doubles.NegatedIsRounded(f);
    }
    hide Doubles.IsRounded;
  }

  /** What is written with at most six decimals survives, below 2^32. */
  lemma SixDecimalsSurvive(m: nat)
    requires m < TWO32 * 1000000
    ensures Survives(Doubles.Round(m as real / 1000000.0))
  {
    hide Doubles.Round, Doubles.IsRounded, Micros;
    var x := m as real / 1000000.0;
    Doubles.RoundFine(x);
    var f := Doubles.Round(x);
    Doubles.RoundIsRounded(x);
    assert Doubles.Distance(f.r * 1000000.0, m as real) == Doubles.Distance(f.r, x) * 1000000.0;
    MicrosOf(f.r, m);
    PrintedBack(f, m);
  }

  /** Too small for six decimals: read back as zero. */
  lemma TinyIsLost(f: Doubles.Double)
    requires f.Finite? && 0.0 < Doubles.Size(f.r) < 0.0000005
    ensures Scans(f) && RereadFloat(f) == Doubles.Finite(0.0) != f
  {
    hide Doubles.Round, Doubles.IsRounded, Micros;
    MicrosOf(Doubles.Size(f.r), 0);
    Doubles.NoneIsRounded();
    Doubles.RoundedStays(0.0);
  }

  /** A finite double always scans. */
  lemma FiniteScans(f: Doubles.Double)
    requires f.Finite? && Doubles.IsRounded(f)
    ensures Scans(f)
  {
    hide Doubles.Round, Doubles.IsRounded, Micros;
    var size := Doubles.Size(f.r);
    if size >= Doubles.EXACT as real {
      SizeIsRounded(f);
      var m := Doubles.LargeIsWhole(size);
      SixtyFourthsSurvive(f, 64 * m);
    } else {
      PrintedNear(size);
      Doubles.SmallIsFinite(PrintedSize(f));
    }
  }

  lemma PrintedNear(size: real)
    requires size >= 0.0
    ensures Micros(size) as real / 1000000.0 <= size + 1.0
  {
    var scaled := size * 1000000.0;
    Doubles.RoundedBetween(scaled.Floor, scaled - scaled.Floor as real, 1);
    hide Doubles.RoundParts;
  }

  // ---- which floats survive

  /** The float is the double nearest to some number of six decimals. */
  ghost predicate NearestToDecimals(f: Doubles.Double) {
    exists m: nat :: NearestTo(f, m)
  }

  predicate NearestTo(f: Doubles.Double, m: nat) {
    f.Finite? && Doubles.Round(m as real / 1000000.0) == Doubles.Finite(Doubles.Size(f.r))
  }

  /** The number of millionths that is printed is within half a millionth. */
  lemma PrintedWithin(size: real)
    requires size >= 0.0
    ensures 2.0 * Doubles.Distance(Micros(size) as real, size * 1000000.0) <= 1.0
  {
    var scaled := size * 1000000.0;
    Doubles.RoundedBetween(scaled.Floor, scaled - scaled.Floor as real, 1);
    hide Doubles.RoundParts;
  }

  /** Between a double and a number that rounds to it everything does. */
  lemma BetweenRounds(size: real, x: real, y: real)
    requires Doubles.IsRounded(Doubles.Finite(size)) && Doubles.Round(x) == Doubles.Finite(size)
    requires size <= y <= x || x <= y <= size
    ensures Doubles.Round(y) == Doubles.Finite(size)
  {
    hide Doubles.Round, Doubles.IsRounded, Doubles.Less;
    Doubles.RoundedStays(size);
    if size <= y <= x {
      Doubles.RoundMonotone(size, y);
      Doubles.RoundMonotone(y, x);
    } else {
      Doubles.RoundMonotone(x, y);
      Doubles.RoundMonotone(y, size);
    }
    NeitherSide(size, y);
  }

  lemma NeitherSide(size: real, y: real)
    requires var d := Doubles.Round(y);
             !Doubles.Less(d, Doubles.Finite(size)) && !Doubles.Less(Doubles.Finite(size), d)
    ensures Doubles.Round(y) == Doubles.Finite(size)
  {
    Doubles.RoundIsNumber(y);
    hide Doubles.Round;
  }

  /** What rounds to a double from half a millionth away is at least 2^33. */
  lemma FarMeansCoarse(size: real, x: real)
    requires x >= 0.0 && Doubles.Round(x) == Doubles.Finite(size)
    requires 2.0 * Doubles.Distance(size, x) * 1000000.0 >= 1.0
    ensures x >= Doubles.COARSE as real
  {
    hide Doubles.Round;
    if x < Doubles.COARSE as real {
      Doubles.RoundFine(x);
    }
  }

  /** The printed number rounds back if some number of six decimals rounds to the double. */
  lemma PrintedRoundsBack(size: real, m: nat)
    requires Doubles.IsRounded(Doubles.Finite(size)) && size >= 0.0
    requires Doubles.Round(m as real / 1000000.0) == Doubles.Finite(size)
    ensures Doubles.Round(Micros(size) as real / 1000000.0) == Doubles.Finite(size)
  {
    hide Doubles.Round, Doubles.IsRounded, Doubles.Distance, Micros;
    PrintedWithin(size);
    var p, a := Micros(size), size * 1000000.0;
    if m as real <= a < p as real {
      OtherSide(size, m, p, p - 1);
    } else if p as real < a <= m as real {
      OtherSide(size, m, p, p + 1);
    } else {
      SameSide(a, m, p);
      BetweenRounds(size, m as real / 1000000.0, p as real / 1000000.0);
    }
  }

  lemma SameSide(a: real, m: int, p: int)
    requires 2.0 * Doubles.Distance(p as real, a) <= 1.0
    requires !(m as real <= a < p as real) && !(p as real < a <= m as real)
    ensures a <= p as real <= m as real || m as real <= p as real <= a
  {
    Whole(m, p);
    Whole(p, m);
    CloseSide(a, m as real, p as real);
  }

  lemma Whole(m: int, p: int)
    ensures m as real < p as real ==> m as real <= p as real - 1.0
  {
    if m as real < p as real {
      assert m < p;
      assert m <= p - 1;
      assert (p - 1) as real == p as real - 1.0;
    }
  }

  lemma CloseSide(a: real, m: real, p: real)
    requires 2.0 * Doubles.Distance(p, a) <= 1.0 && !(m <= a < p) && !(p < a <= m)
    requires (m < p ==> m <= p - 1.0) && (p < m ==> p <= m - 1.0)
    ensures a <= p <= m || m <= p <= a
  {
  }

  /**
    * The printed millionth on one side, its neighbour on the other, with a number that rounds to
    * the double behind it.
    */
  lemma OtherSide(size: real, m: nat, p: nat, q: nat)
    requires Doubles.IsRounded(Doubles.Finite(size)) && size >= 0.0
    requires Doubles.Round(m as real / 1000000.0) == Doubles.Finite(size)
    requires 2.0 * Doubles.Distance(p as real, size * 1000000.0) <= 1.0
    requires var a := size * 1000000.0;
             (m as real <= a < p as real && q == p - 1) || (p as real < a <= m as real && q == p + 1)
    ensures Doubles.Round(p as real / 1000000.0) == Doubles.Finite(size)
  {
    hide Doubles.Round, Doubles.IsRounded;
    Neighbours(size, m, p, q);
    hide Doubles.Distance;
    var x, y := q as real / 1000000.0, p as real / 1000000.0;
    BetweenRounds(size, m as real / 1000000.0, x);
    FarMeansCoarse(size, x);
    Doubles.CoarseReached(size, x);
    AboveCoarse(size, p);
    Doubles.CoarseNearest(size, y);
  }

  lemma Neighbours(size: real, m: nat, p: nat, q: nat)
    requires size >= 0.0 && 2.0 * Doubles.Distance(p as real, size * 1000000.0) <= 1.0
    requires var a := size * 1000000.0;
             (m as real <= a < p as real && q == p - 1) || (p as real < a <= m as real && q == p + 1)
    ensures var x := q as real / 1000000.0;
            && x >= 0.0 && 2.0 * Doubles.Distance(size, x) * 1000000.0 >= 1.0
            && (size <= x <= m as real / 1000000.0 || m as real / 1000000.0 <= x <= size)
    ensures 2.0 * Doubles.Distance(size, p as real / 1000000.0) * 1000000.0 <= 1.0
  {
    InMillionths(size, q as real);
    InMillionths(size, p as real);
    Whole(m, p);
    Whole(p, m);
    Ordered(size * 1000000.0, m as real, p as real, q as real);
    hide Doubles.Distance;
    Millionths(size, m as real, q as real);
  }

  lemma Millionths(size: real, m: real, q: real)
    requires size * 1000000.0 <= q <= m || m <= q <= size * 1000000.0
    ensures size <= q / 1000000.0 <= m / 1000000.0 || m / 1000000.0 <= q / 1000000.0 <= size
  {
  }

  lemma InMillionths(size: real, q: real)
    ensures Doubles.Distance(size, q / 1000000.0) * 1000000.0 == Doubles.Distance(size * 1000000.0, q)
    ensures Doubles.Distance(size * 1000000.0, q) == Doubles.Distance(q, size * 1000000.0)
  {
  }

  lemma Ordered(a: real, m: real, p: real, q: real)
    requires 2.0 * Doubles.Distance(p, a) <= 1.0
    requires (m <= a < p && q == p - 1.0) || (p < a <= m && q == p + 1.0)
    requires (m < p ==> m <= p - 1.0) && (p < m ==> p <= m - 1.0)
    ensures 2.0 * Doubles.Distance(q, a) >= 1.0 && (a <= q <= m || m <= q <= a)
  {
  }

  /** 2^33 is a whole number of millionths. */
  lemma AboveCoarse(size: real, p: nat)
    requires Doubles.IsRounded(Doubles.Finite(size)) && size >= Doubles.COARSE as real
    requires 2.0 * Doubles.Distance(size, p as real / 1000000.0) * 1000000.0 <= 1.0
    ensures p as real / 1000000.0 >= Doubles.COARSE as real
  {
    hide Doubles.IsRounded;
    assert p as real >= (Doubles.COARSE * 1000000) as real - 0.5;
  }

  /** A float survives exactly if it is the double nearest to some number of six decimals. */
  lemma SurvivesExactly(f: Doubles.Double)
    requires f.Finite? && Doubles.IsRounded(f)
    ensures Survives(f) <==> NearestToDecimals(f)
  {
    hide Doubles.Round, Doubles.IsRounded, Micros;
    var size := Doubles.Size(f.r);
    SizeIsRounded(f);
    if Survives(f) {
      SurvivorIsPrinted(f);
      assert NearestTo(f, Micros(size));
    }
    if NearestToDecimals(f) {
      var m: nat :| NearestTo(f, m);
      PrintedRoundsBack(size, m);
      PrintedBack(f, Micros(size));
    }
  }

  lemma SurvivorIsPrinted(f: Doubles.Double)
    requires Survives(f)
    ensures Printed(f) == Doubles.Finite(Doubles.Size(f.r))
  {
    hide Doubles.Round, Micros;
  }
}
