/** NaN from source text. */
module CfgNaN {
  // The text `x = 1e308 * 10 - 1e308 * 10;` parses to a document whose only value is NaN: the
  // literal is a finite double, ten times it is infinite, and the two infinities leave NaN.

  import opened CfgDocumentSpec
  import opened CfgEvaluator
  import opened CfgFloatText
  import opened CfgGrammar
  import opened CfgLexRoundTrip
  import opened CfgLexSpec
  import opened CfgModel
  import opened CfgParserSpec
  import opened CfgRoundTrip
  import opened CfgSerializer
  import opened CfgStatements
  import opened Common
  import Doubles
  import opened Seqs

  // ---- powers of ten among powers of two

  lemma {:induction false} RaisedTwice(x: real, a: nat, b: nat)
    ensures Raised(Raised(x, a), b) == Raised(x, a + b)
    decreases a, x
  {
    if a > 0 {
      RaisedTwice(10.0 * x, a - 1, b);
    }
  }

  lemma {:induction false} DownTimes(c: real, x: real, y: real, n: nat)
    requires y == c * x
    ensures Doubles.Down(y, n) == c * Doubles.Down(x, n)
    decreases n, x
  {
    if n > 0 {
      Scaled(0.5, c, x, y);
      DownTimes(c, x / 2.0, y / 2.0, n - 1);
    }
  }

  lemma Scaled(a: real, c: real, x: real, y: real)
    requires y == c * x
    ensures a * y == c * (a * x)
  {
  }

  lemma Grows(c: real, x: real, y: real)
    requires c >= 0.0 && x <= y
    ensures c * x <= c * y
  {
  }

  /** 10^(a + c) is as many times 2^(b + d) as 10^a is 2^b times as 10^c is 2^d. */
  lemma Compose(x: real, a: nat, b: nat, low: real, high: real, c: nat, d: nat, l: real, h: real)
    requires var y := Raised(x, a);
             low * x <= Doubles.Down(y, b) <= high * x && l * y <= Doubles.Down(Raised(y, c), d) <= h * y
    requires x >= 0.0 && 0.0 <= l <= h
    ensures l * (low * x) <= Doubles.Down(Raised(x, a + c), b + d) <= h * (high * x)
  {
    hide Doubles.Down, Raised;
    var y, z := Raised(x, a), Raised(x, a + c);
    RaisedTwice(x, a, c);
    Doubles.DownTwice(z, d, b);
    var v := Doubles.Down(z, d);
    AtLeast(l, low * x, y, v, b);
    AtMost(h, high * x, y, v, b);
  }

  lemma AtLeast(c: real, p: real, y: real, v: real, b: nat)
    requires c >= 0.0 && p <= Doubles.Down(y, b) && c * y <= v
    ensures c * p <= Doubles.Down(v, b)
  {
    hide Doubles.Down;
    var under := c * y;
    Doubles.DownMonotone(under, v, b);
    DownTimes(c, y, under, b);
    var q, r := Doubles.Down(y, b), Doubles.Down(under, b);
    assert r == c * q;
    Grows(c, p, q);
  }

  lemma AtMost(c: real, p: real, y: real, v: real, b: nat)
    requires c >= 0.0 && Doubles.Down(y, b) <= p && v <= c * y
    ensures Doubles.Down(v, b) <= c * p
  {
    hide Doubles.Down;
    var over := c * y;
    Doubles.DownMonotone(v, over, b);
    DownTimes(c, y, over, b);
    var q, r := Doubles.Down(y, b), Doubles.Down(over, b);
    assert r == c * q;
    Grows(c, q, p);
  }

  lemma Ten(x: real)
    requires x >= 0.0
    ensures 1.25 * x <= Doubles.Down(Raised(x, 1), 3) <= 1.25 * x
  {
    assert Raised(x, 1) == 10.0 * x;
    Doubles.Quarter(5.0 * x);
  }

  lemma TenTo2(x: real)
    requires x >= 0.0
    ensures 1.5625 * x <= Doubles.Down(Raised(x, 2), 6) <= 1.5625 * x
  {
    hide Doubles.Down, Raised;
    var y := Raised(x, 1);
    Ten(x);
    Ten(y);
    Compose(x, 1, 3, 1.25, 1.25, 1, 3, 1.25, 1.25);
  }

  lemma TenTo4(x: real)
    requires x >= 0.0
    ensures 1.2207 * x <= Doubles.Down(Raised(x, 4), 13) <= 1.2208 * x
  {
    hide Doubles.Down, Raised;
    var y := Raised(x, 2);
    TenTo2(x);
    TenTo2(y);
    Compose(x, 2, 6, 1.5625, 1.5625, 2, 6, 1.5625, 1.5625);
    Doubles.DownLast(Raised(x, 4), 13);
  }

  lemma TenTo8(x: real)
    requires x >= 0.0
    ensures 1.4901 * x <= Doubles.Down(Raised(x, 8), 26) <= 1.4904 * x
  {
    hide Doubles.Down, Raised;
    var y := Raised(x, 4);
    TenTo4(x);
    TenTo4(y);
    Compose(x, 4, 13, 1.2207, 1.2208, 4, 13, 1.2207, 1.2208);
  }

  lemma TenTo16(x: real)
    requires x >= 0.0
    ensures 1.11 * x <= Doubles.Down(Raised(x, 16), 53) <= 1.1107 * x
  {
    hide Doubles.Down, Raised;
    var y := Raised(x, 8);
    TenTo8(x);
    TenTo8(y);
    Compose(x, 8, 26, 1.4901, 1.4904, 8, 26, 1.4901, 1.4904);
    Doubles.DownLast(Raised(x, 16), 53);
  }

  lemma TenTo32(x: real)
    requires x >= 0.0
    ensures 1.232 * x <= Doubles.Down(Raised(x, 32), 106) <= 1.2337 * x
  {
    hide Doubles.Down, Raised;
    var y := Raised(x, 16);
    TenTo16(x);
    TenTo16(y);
    Compose(x, 16, 53, 1.11, 1.1107, 16, 53, 1.11, 1.1107);
  }

  lemma TenTo64(x: real)
    requires x >= 0.0
    ensures 1.5178 * x <= Doubles.Down(Raised(x, 64), 212) <= 1.5221 * x
  {
    hide Doubles.Down, Raised;
    var y := Raised(x, 32);
    TenTo32(x);
    TenTo32(y);
    Compose(x, 32, 106, 1.232, 1.2337, 32, 106, 1.232, 1.2337);
  }

  lemma TenTo128(x: real)
    requires x >= 0.0
    ensures 1.1518 * x <= Doubles.Down(Raised(x, 128), 425) <= 1.1585 * x
  {
    hide Doubles.Down, Raised;
    var y := Raised(x, 64);
    TenTo64(x);
    TenTo64(y);
    Compose(x, 64, 212, 1.5178, 1.5221, 64, 212, 1.5178, 1.5221);
    Doubles.DownLast(Raised(x, 128), 425);
  }

  lemma TenTo256(x: real)
    requires x >= 0.0
    ensures 1.31 * x <= Doubles.Down(Raised(x, 256), 850) <= 1.35 * x
  {
    hide Doubles.Down, Raised;
    var y := Raised(x, 128);
    TenTo128(x);
    TenTo128(y);
    Compose(x, 128, 425, 1.1518, 1.1585, 128, 425, 1.1518, 1.1585);
  }

  lemma TenTo48(x: real)
    requires x >= 0.0
    ensures 1.36 * x <= Doubles.Down(Raised(x, 48), 159) <= 1.38 * x
  {
    hide Doubles.Down, Raised;
    var y := Raised(x, 32);
    TenTo32(x);
    TenTo16(y);
    Compose(x, 32, 106, 1.232, 1.2337, 16, 53, 1.11, 1.1107);
  }

  lemma TenTo52(x: real)
    requires x >= 0.0
    ensures 1.66 * x <= Doubles.Down(Raised(x, 52), 172) <= 1.69 * x
  {
    hide Doubles.Down, Raised;
    var y := Raised(x, 48);
    TenTo48(x);
    TenTo4(y);
    Compose(x, 48, 159, 1.36, 1.38, 4, 13, 1.2207, 1.2208);
  }

  /** 10^308 is between two and three times 2^1022. */
  lemma TenTo308(x: real)
    requires x >= 0.0
    ensures 2.0 * x <= Doubles.Down(Raised(x, 308), Doubles.RANGE_BITS - 2) <= 3.0 * x
  {
    hide Doubles.Down, Raised;
    var y := Raised(x, 256);
    TenTo256(x);
    TenTo52(y);
    Compose(x, 256, 850, 1.31, 1.35, 52, 172, 1.66, 1.69);
  }

  // ---- the literal

  /** Just below the range a number rounds to a finite double that ten times exceeds the range. */
  lemma LargeRounds(x: real)
    requires x >= 0.0 && 2.0 <= Doubles.Down(x, Doubles.RANGE_BITS - 2) <= 3.0
    ensures Large(Doubles.Round(x))
  {
    hide Doubles.Round, Doubles.IsRounded, Doubles.Up, Doubles.Down;
    var k: nat := Doubles.RANGE_BITS - 2;
    var low, high := Doubles.Up(2.0, k), Doubles.Up(3.0, k);
    StaysDouble(low, 2, k);
    StaysDouble(high, 3, k);
    Doubles.UpDown(x, k);
    Doubles.UpMonotone(2.0, Doubles.Down(x, k), k);
    Doubles.UpMonotone(Doubles.Down(x, k), 3.0, k);
    Doubles.RoundMonotone(low, x);
    Doubles.RoundMonotone(x, high);
    Doubles.RoundIsNumber(x);
    TenTimesTooLarge(Doubles.Round(x).r, k);
  }

  lemma StaysDouble(size: real, c: nat, k: nat)
    requires 1 <= c <= 3 && k == Doubles.RANGE_BITS - 2 && size == Doubles.Up(c as real, k)
    ensures size > 0.0 && Doubles.Round(size) == Doubles.Finite(size)
  {
    hide Doubles.Round, Doubles.IsRounded, Doubles.Up, Doubles.Down;
    Doubles.DownUp(c as real, k);
    Doubles.LargeIsDouble(size, c);
    Doubles.RoundedStays(size);
  }

  lemma TenTimesTooLarge(r: real, k: nat)
    requires k == Doubles.RANGE_BITS - 2 && Doubles.Up(2.0, k) <= r
    ensures Doubles.Round(r * 10.0) == Doubles.Infinity(false)
  {
    hide Doubles.Round, Doubles.Up, Doubles.Down;
    Doubles.DownUp(2.0, k);
    Doubles.DownMonotone(Doubles.Up(2.0, k), r, k);
    DownTimes(10.0, r, r * 10.0, k);
    Doubles.DownTwice(r * 10.0, k, 2);
    Doubles.Quarter(Doubles.Down(r * 10.0, k));
    Doubles.TooLargeIsInfinite(r * 10.0);
  }

  function LargeText(): bytes {
    [49, 101, 51, 48, 56]
  }

  /** Whole digits, an exponent mark and its digits are one float literal. */
  lemma LexScientific(t: bytes, e: bytes, k: bytes)
    requires t != [] && e != [] && k != [] && !IsDigit(k[0])
    requires (forall i | 0 <= i < |t| :: IsDigit(t[i])) && (forall i | 0 <= i < |e| :: IsDigit(e[i]))
    ensures var token := FloatToken(FloatValue(t, [], false, e));
            token.Ok? ==> Lex(t + [101] + e + k) == Tok(token.value, Lex(k))
  {
    hide DigitsValue, FloatToken, Lex, LexNumber, LexAfterWhole, FloatValue;
    Regroup4(t, [101], e, k);
    Regroup3([101], e, k);
    var rest := [101] + e + k;
    ExponentHere(t, e, k);
    WholeHere(t, rest);
    FloatScanned(t + rest, t, rest);
  }

  lemma ExponentHere(t: bytes, e: bytes, k: bytes)
    requires e != [] && k != [] && !IsDigit(k[0])
    requires (forall i | 0 <= i < |t| :: IsDigit(t[i])) && (forall i | 0 <= i < |e| :: IsDigit(e[i]))
    ensures var token := FloatToken(FloatValue(t, [], false, e));
            LexAfterWhole(t, [101] + e + k) == if token.Ok? then Ok((token.value, k)) else Err(token.code)
  {
    var rest := [101] + e + k;
    assert rest[1..] == e + k && At(rest, 1) == e[0];
    SpanExact(e, k, IsDigit);
    assert (e + k)[..|e|] == e && (e + k)[|e|..] == k;
    assert FractionLength(rest) == 0 && ExponentStart(rest) == Some(1);
    hide FloatToken, FloatValue, DigitsValue, Span;
  }

  /** The number `1e308` denotes is just below the range. */
  lemma LargeDenotes(t: bytes, e: bytes)
    requires (forall i | 0 <= i < |t| :: IsDigit(t[i])) && (forall i | 0 <= i < |e| :: IsDigit(e[i]))
    requires DigitsValue(t, 10) == 1 && DigitsValue(e, 10) == 308
    ensures 2.0 <= Doubles.Down(FloatValue(t, [], false, e), Doubles.RANGE_BITS - 2) <= 3.0
  {
    var x: real := DigitsValue(t, 10) as real;
    TenTo308(x);
    assert Lowered(0.0, 0) == 0.0 && DigitsValue([], 10) == 0;
    hide DigitsValue, Raised, Doubles.Down, Lowered;
  }

  /** A float that is finite, and ten times it is not. */
  predicate Large(d: Doubles.Double) {
    d.Finite? && 0.0 < d.r && Doubles.Round(d.r * 10.0) == Doubles.Infinity(false)
  }

  /** `1e308` before a blank is one float token, a finite double ten times which is infinite. */
  lemma LargeLexed(k: bytes) returns (d: Doubles.Double)
    requires k != [] && k[0] == SPACE
    ensures Large(d) && Lex(LargeText() + k) == Tok(FloatLit(d), Lex(k))
  {
    hide Doubles.Round, Doubles.Down, Raised, FloatValue, Lex, DigitsValue;
    var t, e: bytes := [49], [51, 48, 56];
    ThreeDigits(t, e);
    LargeDenotes(t, e);
    var x := FloatValue(t, [], false, e);
    LargeRounds(x);
    d := Doubles.Round(x);
    assert LargeText() == t + [101] + e;
    LexScientific(t, e, k);
  }

  lemma ThreeDigits(t: bytes, e: bytes)
    requires t == [49] && e == [51, 48, 56]
    ensures DigitsValue(t, 10) == 1 && DigitsValue(e, 10) == 308
  {
    assert e[..2] == [51, 48] && [51, 48][..1] == [51] && [51][..0] == [] && t[..0] == [];
    assert DigitsValue([51], 10) == 3;
    assert DigitsValue([51, 48], 10) == 30;
  }

  // ---- the text

  /** `1e308 * 10` */
  function ProductText(): bytes {
    LargeText() + [SPACE, 42, SPACE] + NatText(10)
  }

  /** `x = 1e308 * 10 - 1e308 * 10;` */
  function NaNText(): bytes {
    [120] + EQUALS + ProductText() + [SPACE, 45, SPACE] + ProductText() + [59]
  }

  /** The tree of one product. */
  function LargeTree(d: Doubles.Double): Cst {
    Bin(Star, Leaf(FloatLit(d)), Leaf(IntLit(10)))
  }

  function Difference(d: Doubles.Double, f: Doubles.Double): Cst {
    Bin(Minus, LargeTree(d), LargeTree(f))
  }

  /** An operator between two blanks. */
  lemma ScanBetween(scan: bytes -> Stream, mark: byte, k: bytes, t: Token)
    requires IsScanner(scan) && IsPunctuation(mark) && Punctuator(mark, SPACE) == Some((t, 1))
    ensures scan([SPACE, mark, SPACE] + k) == Tok(t, scan(k))
  {
    assert [SPACE, mark, SPACE] == [SPACE] + [mark] + [SPACE];
    Regroup4([SPACE], [mark], [SPACE], k);
    ScanBlank(scan, SPACE, [mark] + ([SPACE] + k));
    ScanMark(scan, mark, [SPACE] + k, t);
    ScanBlank(scan, SPACE, k);
  }

  lemma ProductLexed(scan: bytes -> Stream, k: bytes) returns (d: Doubles.Double)
    requires IsScanner(scan) && k != [] && (k[0] == SPACE || k[0] == 59)
    ensures Large(d) && scan(ProductText() + k) == Spell(LargeTree(d), scan(k))
  {
    hide Large, LargeText, NatText, Lex;
    var large, ten := LargeText(), NatText(10);
    Regroup4(large, [SPACE, 42, SPACE], ten, k);
    d := LargeLexed([SPACE, 42, SPACE] + (ten + k));
    ScanBetween(scan, 42, ten + k, Star);
    assert EndsNumber(k);
    LexNatText(10, k);
  }

  lemma DifferenceSpelled(d: Doubles.Double, f: Doubles.Double, k: Stream)
    ensures Spell(Difference(d, f), k) == Spell(LargeTree(d), Tok(Minus, Spell(LargeTree(f), k)))
  {
    hide LargeTree;
  }

  lemma TextLexed(scan: bytes -> Stream) returns (d: Doubles.Double, f: Doubles.Double)
    requires IsScanner(scan)
    ensures Large(d) && Large(f)
    ensures scan(NaNText()) == Tok(Ident([120]), Tok(Assign, Spell(Difference(d, f), Tok(Semicolon, scan([])))))
  {
    hide Large, LargeTree, ProductText, Lex, Spell;
    var product := ProductText();
    var last := product + [59];
    var right := [SPACE, 45, SPACE] + last;
    Regroup5([120], EQUALS, product, [SPACE, 45, SPACE] + product, [59]);
    assert NaNText() == [120] + (EQUALS + (product + right));
    ScanName(scan, [120], EQUALS + (product + right));
    LexEquals(scan, product + right);
    d := ProductLexed(scan, right);
    ScanBetween(scan, 45, last, Minus);
    f := ProductLexed(scan, [59]);
    assert [59] + [] == [59];
    ScanMark(scan, 59, [], Semicolon);
    DifferenceSpelled(d, f, Tok(Semicolon, scan([])));
  }

  // ---- its value

  const INFINITE := VFloat(Doubles.Infinity(false))

  lemma LargeProduct(d: Doubles.Double)
    requires Large(d)
    ensures Apply(Star, VFloat(d), VInt(10)) == Ok(INFINITE)
  {
    hide Doubles.Round, Doubles.ToDouble;
    Doubles.SmallAreExact(10);
  }

  lemma InfinityLessInfinity()
    ensures Apply(Minus, INFINITE, INFINITE) == Ok(VFloat(Doubles.NaN))
  {
    hide Doubles.Round, Doubles.ToDouble;
  }

  lemma ProductIsInfinite(d: Doubles.Double, env: Scopes, depth: nat)
    requires depth + 1 <= MAX_DEPTH && Large(d)
    ensures Evaluate(Ast(LargeTree(d)), env, depth) == Ok(INFINITE)
  {
    hide Large, Apply;
    LargeProduct(d);
    var x, y := EFloat(d), EInt(10);
    assert Ast(LargeTree(d)) == EBinary(Star, x, y);
    assert Evaluate(x, env, depth + 1) == Ok(VFloat(d)) && Evaluate(y, env, depth + 1) == Ok(VInt(10));
  }

  lemma DifferenceIsNaN(d: Doubles.Double, f: Doubles.Double, env: Scopes, depth: nat)
    requires depth + 2 <= MAX_DEPTH && Large(d) && Large(f)
    ensures Evaluate(Ast(Difference(d, f)), env, depth) == Ok(VFloat(Doubles.NaN))
  {
    hide Large, Apply, Evaluate, LargeTree;
    ProductIsInfinite(d, env, depth + 1);
    ProductIsInfinite(f, env, depth + 1);
    InfinityLessInfinity();
    Combined(Minus, Ast(LargeTree(d)), Ast(LargeTree(f)), env, depth);
  }

  lemma Combined(op: Token, x: Expr, y: Expr, env: Scopes, depth: nat)
    requires depth <= MAX_DEPTH && op != AndAnd && op != OrOr
    requires Evaluate(x, env, depth + 1).Ok? && Evaluate(y, env, depth + 1).Ok?
    ensures Evaluate(EBinary(op, x, y), env, depth)
         == Apply(op, Evaluate(x, env, depth + 1).value, Evaluate(y, env, depth + 1).value)
  {
    hide Apply;
  }

  lemma TreeFormed(d: Doubles.Double, n: nat)
    ensures Formed(LargeTree(d)) && Level(LargeTree(d)) == 11 && NeedBinary(LargeTree(d), n) == n + 2
  {
    var x, y := Leaf(FloatLit(d)), Leaf(IntLit(10));
    assert Formed(x) && Formed(y) && Level(x) == Level(y) == 13;
    assert NeedPrimary(x, n + 1) == n + 1 && NeedPrimary(y, n + 2) == n + 2;
    assert NeedBinary(x, n) == n + 1 && NeedBinary(y, n + 1) == n + 2;
  }

  lemma DifferenceFormed(d: Doubles.Double, f: Doubles.Double)
    ensures Formed(Difference(d, f)) && Need(Difference(d, f), 1) <= MAX_DEPTH
  {
    hide LargeTree, NeedUnary;
    TreeFormed(d, 1);
    TreeFormed(f, 2);
    assert NeedBinary(Difference(d, f), 1) == 4;
  }

  lemma DocumentRead(value: Cst)
    requires Formed(value) && Need(value, 1) <= MAX_DEPTH
    ensures var s := Tok(Ident([120]), Tok(Assign, Spell(value, Tok(Semicolon, End(None)))));
            ParseDocument(s) == Ok(([AssignStmt([[120]], Ast(value))], End(None)))
  {
    hide ParseDocument, Spell, Formed, Need, Ast;
    var c := Assigned([[120]], value);
    assert [c][1..] == [];
    assert StatementsAst([c]) == [StatementAst(c)];
    assert NeedStatements([c], 1) == Max(NeedStatement(c, 1), NeedStatements([], 1)) <= MAX_DEPTH;
    assert SpellStatements([c], End(None)) == SpellStatement(c, End(None));
    DocumentComplete([c], End(None));
  }

  lemma BuiltFrom(e: Expr, v: Value)
    requires Evaluate(e, [map[]], 1) == Ok(v)
    ensures var r := BuildNodes([AssignStmt([[120]], e)], [map[]]);
            r.Ok? && r.value.0 == [Assignment([[120]], v)]
  {
    hide Evaluate;
    var st := AssignStmt([[120]], e);
    assert [st][1..] == [];
  }

  lemma ParsedTo(text: bytes, e: Expr, v: Value)
    requires ParseStatements(text) == Ok([AssignStmt([[120]], e)]) && Evaluate(e, [map[]], 1) == Ok(v)
    ensures Parse(text) == Ok([Assignment([[120]], v)])
  {
    hide Evaluate, ParseStatements, BuildNodes;
    BuiltFrom(e, v);
    var r := BuildNodes([AssignStmt([[120]], e)], [map[]]);
    assert r.value.0 == [Assignment([[120]], v)];
  }

  lemma NothingLeft()
    ensures Lex([]) == End(None)
  {
  }

  /** `x = 1e308 * 10 - 1e308 * 10;` is a document in which x is NaN. */
  lemma NaNFromText()
    ensures Parse(NaNText()) == Ok([Assignment([[120]], VFloat(Doubles.NaN))])
  {
    hide Large, Evaluate, Difference, Parse, ParseDocument, NaNText, Lex;
    var d, f := TextLexed(Lex);
    NothingLeft();
    DifferenceFormed(d, f);
    DocumentRead(Difference(d, f));
    DifferenceIsNaN(d, f, [map[]], 1);
    var e := Ast(Difference(d, f));
    assert ParseStatements(NaNText()) == Ok([AssignStmt([[120]], e)]);
    ParsedTo(NaNText(), e, VFloat(Doubles.NaN));
  }
}
