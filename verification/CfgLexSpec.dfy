/**
  * The scanner of lexer.cpp as functions of the bytes still to be read: trivia, words,
  * numbers, strings with their escapes, punctuators, and the token stream of a whole input up
  * to its first lexical error.
  */
module CfgLexSpec {
  import opened Common
  import opened CfgGrammar
  import Doubles
  import Utf8

  const TAB: byte := 9
  const LF: byte := 10
  const VT: byte := 11
  const FF: byte := 12
  const CR: byte := 13
  const SPACE: byte := 32
  const QUOTE: byte := 34
  const BACKSLASH: byte := 92

  /** `peek(i)`: the byte `i` ahead, or zero past the end. */
  function At(s: bytes, i: nat): byte {
    if i < |s| then s[i] else 0
  }

  predicate IsIdentStart(c: byte) {
    65 <= c <= 90 || 97 <= c <= 122 || c == 95
  }

  predicate IsDigit(c: byte) {
    48 <= c <= 57
  }

  predicate IsIdentPart(c: byte) {
    IsIdentStart(c) || IsDigit(c)
  }

  predicate IsHexDigit(c: byte) {
    IsDigit(c) || 97 <= c <= 102 || 65 <= c <= 70
  }

  function HexValue(c: byte): (v: nat)
    requires IsHexDigit(c)
    ensures v < 16
  {
    if IsDigit(c) then c - 48 else if 97 <= c <= 102 then c - 87 else c - 55
  }

  predicate IsSpace(c: byte) {
    c == SPACE || c == TAB || c == CR || c == LF || c == FF || c == VT
  }

  /** Length of the longest prefix of `s` whose bytes all satisfy `p`. */
  function Span(s: bytes, p: byte -> bool): (n: nat)
    ensures n <= |s|
    ensures forall i | 0 <= i < n :: p(s[i])
    ensures n < |s| ==> !p(s[n])
  {
    if s == [] || !p(s[0]) then 0 else 1 + Span(s[1..], p)
  }

  /** A run that stops where `p` fails, or at the end, is the longest one. */
  lemma SpanUnique(s: bytes, n: nat, p: byte -> bool)
    requires n <= |s| && (forall i | 0 <= i < n :: p(s[i]))
    ensures Span(s, p) >= n
    ensures n == |s| || !p(s[n]) ==> Span(s, p) == n
  {
    hide Span;
  }

  /** What is left from the next newline on. */
  function SkipLine(s: bytes): (r: bytes)
    ensures |r| <= |s|
  {
    if s == [] || s[0] == LF then s else SkipLine(s[1..])
  }

  /** What is left after the first closing mark of a block comment. */
  function BlockEnd(s: bytes): (r: Option<bytes>)
    ensures r.Some? ==> |r.value| < |s|
  {
    if s == [] then None
    else if s[0] == 42 && At(s, 1) == 47 then Some(s[2..])
    else BlockEnd(s[1..])
  }

  function SkipTrivia(s: bytes): (r: Result<bytes>)
    ensures r.Ok? ==> |r.value| <= |s|
    decreases |s|
  {
    if s == [] then Ok(s)
    else if IsSpace(s[0]) then SkipTrivia(s[1..])
    else if s[0] == 35 then SkipTrivia(SkipLine(s[1..]))
    else if s[0] == 47 && At(s, 1) == 47 then SkipTrivia(SkipLine(s[2..]))
    else if s[0] == 47 && At(s, 1) == 42 then
      var end := BlockEnd(s[2..]);
      if end.None? then Err(BadType) else SkipTrivia(end.value)
    else Ok(s)
  }

  type Lexed = Result<(Token, bytes)>

  const TRUE_WORD: bytes := [116, 114, 117, 101]
  const FALSE_WORD: bytes := [102, 97, 108, 115, 101]
  const NULL_WORD: bytes := [110, 117, 108, 108]
  const INCLUDE_WORD: bytes := [105, 110, 99, 108, 117, 100, 101]

  function WordToken(w: bytes): Token {
    if w == TRUE_WORD then True
    else if w == FALSE_WORD then False
    else if w == NULL_WORD then Null
    else if w == INCLUDE_WORD then Include
    else Ident(w)
  }

  function LexWord(s: bytes): (Token, bytes) {
    var n := Span(s, IsIdentPart);
    (WordToken(s[..n]), s[n..])
  }

  /** Positional value of a digit run in the given base. */
  function DigitsValue(s: bytes, base: nat): nat
    requires forall i | 0 <= i < |s| :: IsHexDigit(s[i])
  {
    if s == [] then 0
    else DigitsValue(s[..|s| - 1], base) * base + HexValue(s[|s| - 1])
  }

  lemma DigitsStep(s: bytes, n: nat, base: nat)
    requires n < |s| && forall i | 0 <= i <= n :: IsHexDigit(s[i])
    ensures DigitsValue(s[..n + 1], base) == DigitsValue(s[..n], base) * base + HexValue(s[n])
  {
    assert s[..n + 1][..n] == s[..n];
  }

  /** The 64-bit accumulator of a hex literal: it keeps the value modulo 2^64. */
  function HexAccumulator(s: bytes): (acc: nat)
    requires forall i | 0 <= i < |s| :: IsHexDigit(s[i])
  {
    if s == [] then 0 else Shift4(HexAccumulator(s[..|s| - 1]), HexValue(s[|s| - 1]))
  }

  function Shift4(acc: nat, v: nat): nat {
    (acc * 16 + v) % TWO64
  }

  lemma Shift4Wraps(before: nat, v: nat)
    ensures Shift4(before % TWO64, v) == (before * 16 + v) % TWO64
  {
    var q := before / TWO64;
    assert before * 16 + v == before % TWO64 * 16 + v + 16 * q * TWO64;
  }

  lemma HexAccumulatorStep(s: bytes, n: nat)
    requires n < |s| && forall i | 0 <= i <= n :: IsHexDigit(s[i])
    ensures HexAccumulator(s[..n + 1]) == Shift4(HexAccumulator(s[..n]), HexValue(s[n]))
  {
    assert s[..n + 1][..n] == s[..n];
  }

  lemma {:induction false} HexAccumulatorIsValue(s: bytes)
    requires forall i | 0 <= i < |s| :: IsHexDigit(s[i])
    ensures HexAccumulator(s) == DigitsValue(s, 16) % TWO64
  {
    if s != [] {
      var t, v := s[..|s| - 1], HexValue(s[|s| - 1]);
      HexAccumulatorIsValue(t);
      Shift4Wraps(DigitsValue(t, 16), v);
    }
  }

  /** `static_cast<int64_t>` of a 64-bit accumulator. */
  function Wrap64(v: int): (r: i64)
    ensures (r - v) % TWO64 == 0
    ensures -TWO63 <= v < TWO63 ==> r == v
  {
    var m := v % TWO64;
    if m < TWO63 then m else m - TWO64
  }

  /** `x` times 10^n. */
  function Raised(x: real, n: nat): (r: real)
    ensures x >= 0.0 ==> r >= x
    decreases n, x
  {
    if n == 0 then x else Raised(10.0 * x, n - 1)
  }

  /** `x` divided by 10^n. */
  function Lowered(x: real, n: nat): (r: real)
    ensures x >= 0.0 ==> 0.0 <= r <= x
    decreases n, x
  {
    if n == 0 then x else Lowered(x / 10.0, n - 1)
  }

  /** The number a float lexeme denotes, with exact decimal scaling. */
  function FloatValue(whole: bytes, fraction: bytes, negativeExp: bool, exponent: bytes): (x: real)
    ensures x >= 0.0
    requires forall i | 0 <= i < |whole| :: IsDigit(whole[i])
    requires forall i | 0 <= i < |fraction| :: IsDigit(fraction[i])
    requires forall i | 0 <= i < |exponent| :: IsDigit(exponent[i])
  {
    var mantissa := DigitsValue(whole, 10) as real + Lowered(DigitsValue(fraction, 10) as real, |fraction|);
    var shift := DigitsValue(exponent, 10);
    if negativeExp then Lowered(mantissa, shift) else Raised(mantissa, shift)
  }

  /** Length of the fractional part `s` starts with: none unless a digit follows the point. */
  function FractionLength(s: bytes): (n: nat)
    ensures n <= |s| && n != 1
    ensures forall i | 1 <= i < n :: IsDigit(s[i])
  {
    if At(s, 0) == 46 && IsDigit(At(s, 1)) then
      var tail := s[1..];
      assert forall i | 1 <= i < |s| :: s[i] == tail[i - 1];
      1 + Span(tail, IsDigit)
    else 0
  }

  predicate IsSign(c: byte) {
    c == 43 || c == 45
  }

  /** Where the exponent digits of `s` start, or None when no digit follows the `e`. */
  function ExponentStart(s: bytes): (m: Option<nat>)
    ensures m.Some? ==> 0 < m.value < |s| && IsDigit(s[m.value])
  {
    var look := if IsSign(At(s, 1)) then 2 else 1;
    if (At(s, 0) == 101 || At(s, 0) == 69) && IsDigit(At(s, look)) then Some(look) else None
  }

  predicate IsHexPrefix(s: bytes) {
    At(s, 0) == 48 && (At(s, 1) == 120 || At(s, 1) == 88)
  }

  function LexHex(s: bytes): (r: Lexed)
    requires IsHexPrefix(s)
    ensures r.Ok? ==> |r.value.1| < |s| && r.value.0 != Eof
  {
    var n := Span(s[2..], IsHexDigit);
    if n == 0 then Err(BadType)
    else Ok((IntLit(Wrap64(HexAccumulator(s[2..][..n]))), s[2..][n..]))
  }

  /** `std::stod`: the nearest double, or an error where that is infinite. */
  function FloatToken(x: real): (r: Result<Token>)
    requires x >= 0.0
    ensures r.Ok? ==> r.value.FloatLit?
  {
    var d := Doubles.Round(x);
    if d.Finite? then Ok(FloatLit(d)) else Err(BadLength)
  }

  /** The float with the given digits, whose exponent, if any, starts `s`. */
  function LexFloat(whole: bytes, fraction: bytes, s: bytes): (r: Lexed)
    requires forall i | 0 <= i < |whole| :: IsDigit(whole[i])
    requires forall i | 0 <= i < |fraction| :: IsDigit(fraction[i])
    ensures r.Ok? ==> |r.value.1| <= |s| && r.value.0.FloatLit?
  {
    var exp := ExponentStart(s);
    if exp.None? then
      var t :- FloatToken(FloatValue(whole, fraction, false, []));
      Ok((t, s))
    else
      var s1 := s[exp.value..];
      var len := Span(s1, IsDigit);
      var t :- FloatToken(FloatValue(whole, fraction, At(s, 1) == 45, s1[..len]));
      Ok((t, s1[len..]))
  }

  /** The number with digits `whole`, followed in the input by `s`. */
  function LexAfterWhole(whole: bytes, s: bytes): (r: Lexed)
    requires forall i | 0 <= i < |whole| :: IsDigit(whole[i])
    ensures r.Ok? ==> |r.value.1| <= |s| && r.value.0 != Eof
  {
    var n := FractionLength(s);
    if n != 0 then LexFloat(whole, s[1..n], s[n..])
    else if ExponentStart(s).Some? then LexFloat(whole, [], s)
    else
      var v := DigitsValue(whole, 10);
      if v >= TWO63 then Err(BadLength) else Ok((IntLit(v), s))
  }

  function LexNumber(s: bytes): (r: Lexed)
    requires s != [] && IsDigit(s[0])
    ensures r.Ok? ==> |r.value.1| < |s| && r.value.0 != Eof
  {
    if IsHexPrefix(s) then LexHex(s)
    else
      var n := Span(s, IsDigit);
      LexAfterWhole(s[..n], s[n..])
  }

  /** One escape sequence: the bytes it stands for and what follows it. */
  function Escape(s: bytes): (r: Result<(bytes, bytes)>)
    requires s != [] && s[0] == BACKSLASH
    ensures r.Ok? ==> |r.value.1| < |s|
  {
    if |s| < 2 then Err(BadType)
    else if s[1] == 110 then Ok(([LF], s[2..]))
    else if s[1] == 116 then Ok(([TAB], s[2..]))
    else if s[1] == 114 then Ok(([CR], s[2..]))
    else if s[1] == 48 then Ok(([0], s[2..]))
    else if s[1] == BACKSLASH then Ok(([BACKSLASH], s[2..]))
    else if s[1] == QUOTE then Ok(([QUOTE], s[2..]))
    else if s[1] == 120 then
      if IsHexDigit(At(s, 2)) && IsHexDigit(At(s, 3)) then
        var b: byte := 16 * HexValue(s[2]) + HexValue(s[3]);
        Ok(([b], s[4..]))
      else Err(BadType)
    else if s[1] == 117 then
      if At(s, 2) != 123 then Err(BadType)
      else
        var n := Span(s[3..], IsHexDigit);
        if n == 0 || n > 6 || At(s, 3 + n) != 125 then Err(BadType)
        else
          var cp := DigitsValue(s[3..][..n], 16);
          if Utf8.IsScalar(cp) then Ok((Utf8.Encode(cp), s[4 + n..])) else Err(BadType)
    else Err(BadType)
  }

  /** The decoded payload of a string literal up to its closing quote, and what follows. */
  function StringBody(s: bytes): (r: Result<(bytes, bytes)>)
    ensures r.Ok? ==> |r.value.1| < |s|
    decreases |s|
  {
    if s == [] then Err(BadType)
    else if s[0] == QUOTE then Ok(([], s[1..]))
    else if s[0] == LF then Err(BadType)
    else if s[0] == BACKSLASH then
      var (e, s1) :- Escape(s);
      var (t, s2) :- StringBody(s1);
      Ok((e + t, s2))
    else
      var (t, s1) :- StringBody(s[1..]);
      Ok(([s[0]] + t, s1))
  }

  /** A punctuator or operator: the token and the number of bytes it takes. */
  function Punctuator(c: byte, next: byte): (p: Option<(Token, nat)>)
    ensures p.Some? ==> (p.value.1 == 1 || (p.value.1 == 2 && next != 0)) && p.value.0 != Eof
  {
    if c == 123 then Some((LBrace, 1))
    else if c == 125 then Some((RBrace, 1))
    else if c == 91 then Some((LBracket, 1))
    else if c == 93 then Some((RBracket, 1))
    else if c == 40 then Some((LParen, 1))
    else if c == 41 then Some((RParen, 1))
    else if c == 59 then Some((Semicolon, 1))
    else if c == 44 then Some((Comma, 1))
    else if c == 46 then Some((Dot, 1))
    else if c == 63 then Some((Question, 1))
    else if c == 58 then Some((Colon, 1))
    else if c == 43 then Some((Plus, 1))
    else if c == 45 then Some((Minus, 1))
    else if c == 42 then Some((Star, 1))
    else if c == 47 then Some((Slash, 1))
    else if c == 37 then Some((Percent, 1))
    else if c == 94 then Some((Caret, 1))
    else if c == 126 then Some((Tilde, 1))
    else if c == 61 then Some(if next == 61 then (EqEq, 2) else (Assign, 1))
    else if c == 33 then Some(if next == 61 then (Ne, 2) else (Bang, 1))
    else if c == 60 then Some(if next == 60 then (Shl, 2) else if next == 61 then (Le, 2) else (Lt, 1))
    else if c == 62 then Some(if next == 62 then (Shr, 2) else if next == 61 then (Ge, 2) else (Gt, 1))
    else if c == 38 then Some(if next == 38 then (AndAnd, 2) else (Amp, 1))
    else if c == 124 then Some(if next == 124 then (OrOr, 2) else (Pipe, 1))
    else None
  }

  function Next(s: bytes): (r: Lexed)
    ensures r.Ok? && r.value.0 != Eof ==> |r.value.1| < |s|
    ensures r.Ok? && r.value.0 == Eof ==> r.value.1 == []
  {
    var s1 :- SkipTrivia(s);
    if s1 == [] then Ok((Eof, []))
    else Scan(s1)
  }

  /** The token that starts at the first byte, which is neither trivia nor the end. */
  function Scan(s: bytes): (r: Lexed)
    requires s != []
    ensures r.Ok? ==> |r.value.1| < |s| && r.value.0 != Eof
  {
    if IsIdentStart(s[0]) then Ok(LexWord(s))
    else if IsDigit(s[0]) then LexNumber(s)
    else if s[0] == QUOTE then
      var (text, rest) :- StringBody(s[1..]);
      Ok((StringLit(text), rest))
    else
      var p := Punctuator(s[0], At(s, 1));
      if p.None? then Err(BadType) else Ok((p.value.0, s[p.value.1..]))
  }

  /** The token stream of a whole input. */
  function Lex(s: bytes): Stream
    decreases |s|
  {
    match Next(s)
    case Err(code) => End(Some(code))
    case Ok((t, rest)) => if t == Eof then End(None) else Tok(t, Lex(rest))
  }

  /**
    * `scan` is the scanner. The proofs about whole texts take it as a parameter and use
    * nothing but laws stated for it, so that its definition is not unfolded in them.
    */
  ghost predicate IsScanner(scan: bytes -> Stream) {
    forall s: bytes {:trigger Lex(s)} :: scan(s) == Lex(s)
  }
}
