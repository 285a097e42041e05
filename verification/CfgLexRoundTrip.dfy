/** Scanning the pieces of text. */
module CfgLexRoundTrip {
  // Blanks vanish, and every punctuator, word, number and escaped string of canonical text gives
  // back the token it was written for.

  import opened Common
  import opened CfgGrammar
  import opened CfgLexSpec
  import opened CfgSerializer

  lemma LexSpace(c: byte, s: bytes)
    requires IsSpace(c)
    ensures Lex([c] + s) == Lex(s)
  {
    assert ([c] + s)[1..] == s;
    assert SkipTrivia([c] + s) == SkipTrivia(s);
    assert Next([c] + s) == Next(s);
  }

  lemma {:induction false} LexSpaces(n: int, s: bytes)
    ensures Lex(Spaces(n) + s) == Lex(s)
    decreases if n < 0 then 0 else n
  {
    if n <= 0 {
      assert Spaces(n) + s == s;
    } else {
      assert Spaces(n) + s == [SPACE] + (Spaces(n - 1) + s);
      LexSpace(SPACE, Spaces(n - 1) + s);
      LexSpaces(n - 1, s);
    }
  }

  lemma {:induction false} LexIndent(depth: nat, width: int, s: bytes)
    ensures Lex(Indent(depth, width) + s) == Lex(s)
  {
    if depth == 0 {
      assert Indent(0, width) + s == s;
    } else {
      assert Indent(depth, width) + s == Spaces(width) + (Indent(depth - 1, width) + s);
      LexSpaces(width, Indent(depth - 1, width) + s);
      LexIndent(depth - 1, width, s);
    }
  }

  /** A byte that begins neither trivia nor a word, number or string. */
  predicate IsPunctuation(c: byte) {
    !IsSpace(c) && c != 35 && c != 47 && !IsIdentStart(c) && !IsDigit(c) && c != QUOTE
  }

  lemma LexPunctuator(c: byte, s: bytes, t: Token)
    requires IsPunctuation(c) && Punctuator(c, At(s, 0)) == Some((t, 1))
    ensures Lex([c] + s) == Tok(t, Lex(s))
  {
    var x := [c] + s;
    assert x[1..] == s;
    assert At(x, 1) == At(s, 0);
    assert SkipTrivia(x) == Ok(x);
    assert Scan(x) == Ok((t, s));
    assert Next(x) == Ok((t, s));
  }

  lemma SpanExact(a: bytes, k: bytes, p: byte -> bool)
    requires forall i | 0 <= i < |a| :: p(a[i])
    requires k == [] || !p(k[0])
    ensures Span(a + k, p) == |a|
  {
    assert forall i | 0 <= i < |a| :: (a + k)[i] == a[i];
    assert k != [] ==> (a + k)[|a|] == k[0];
  }

  predicate IsWord(w: bytes) {
    w != [] && IsIdentStart(w[0]) && forall i | 0 <= i < |w| :: IsIdentPart(w[i])
  }

  /** A name that the scanner gives back as an identifier, not as a keyword. */
  predicate IsName(w: bytes) {
    IsWord(w) && WordToken(w) == Ident(w)
  }

  lemma LexWordText(w: bytes, k: bytes)
    requires IsWord(w) && (k == [] || !IsIdentPart(k[0]))
    ensures Lex(w + k) == Tok(WordToken(w), Lex(k))
  {
    var x := w + k;
    SpanExact(w, k, IsIdentPart);
    assert x[..|w|] == w && x[|w|..] == k;
    assert x[0] == w[0];
    assert SkipTrivia(x) == Ok(x);
    assert Next(x) == Ok((WordToken(w), k));
  }

  // ---- strings

  lemma HexDigitValue(n: nat)
    requires n < 16
    ensures IsHexDigit(HexDigit(n)) && HexValue(HexDigit(n)) == n
  {
  }

  lemma EscapeReadsBack(c: byte, k: bytes)
    requires |EscapeByte(c)| > 1
    ensures var x := EscapeByte(c) + k; x[0] == BACKSLASH && Escape(x) == Ok(([c], k))
  {
    var e := EscapeByte(c);
    var x := e + k;
    assert x[|e|..] == k;
    assert forall i | 0 <= i < |e| :: x[i] == e[i];
    if |e| == 4 {
      HexDigitValue(c / 16);
      HexDigitValue(c % 16);
    }
  }

  /** Scanning inverts escaping on every byte string. */
  lemma {:induction false} UnescapeEscape(s: bytes, k: bytes)
    ensures StringBody(EscapeString(s) + [QUOTE] + k) == Ok((s, k))
  {
    var x := EscapeString(s) + [QUOTE] + k;
    if s == [] {
      assert x == [QUOTE] + k && x[1..] == k;
    } else {
      var e := EscapeByte(s[0]);
      var y := EscapeString(s[1..]) + [QUOTE] + k;
      assert x == e + y;
      UnescapeEscape(s[1..], k);
      assert s == [s[0]] + s[1..];
      if |e| > 1 {
        EscapeReadsBack(s[0], y);
      } else {
        assert x[1..] == y;
      }
    }
  }

  lemma LexQuoted(s: bytes, k: bytes)
    ensures Lex(Quoted(s) + k) == Tok(StringLit(s), Lex(k))
  {
    var x := Quoted(s) + k;
    assert x[1..] == EscapeString(s) + [QUOTE] + k;
    UnescapeEscape(s, k);
    assert SkipTrivia(x) == Ok(x);
    assert Next(x) == Ok((StringLit(s), k));
  }

  // ---- numbers

  lemma {:induction false} NatTextDigits(n: nat)
    ensures forall i | 0 <= i < |NatText(n)| :: IsDigit(NatText(n)[i])
    ensures DigitsValue(NatText(n), 10) == n
  {
    var t := NatText(n);
    if n < 10 {
      assert t == [48 + n] && t[..0] == [];
      assert DigitsValue([], 10) == 0;
    } else {
      NatTextDigits(n / 10);
      assert t[..|t| - 1] == NatText(n / 10);
    }
  }

  /** What may follow a value in canonical text. */
  predicate Delimits(k: bytes) {
    k != [] && (k[0] == 59 || k[0] == 44 || k[0] == 93)
  }

  /** What ends a decimal integer: no digit, hex mark, fraction or exponent goes on with it. */
  predicate EndsNumber(k: bytes) {
    && (k == [] || (!IsDigit(k[0]) && k[0] != 120 && k[0] != 88))
    && FractionLength(k) == 0 && ExponentStart(k).None?
  }

  lemma NumberEndsHere(t: bytes, k: bytes)
    requires EndsNumber(k) && forall i | 0 <= i < |t| :: IsDigit(t[i])
    ensures LexAfterWhole(t, k)
         == if DigitsValue(t, 10) >= TWO63 then Err(BadLength) else Ok((IntLit(DigitsValue(t, 10)), k))
  {
  }

  lemma LexNatText(n: nat, k: bytes)
    requires EndsNumber(k)
    ensures Lex(NatText(n) + k) == if n >= TWO63 then End(Some(BadLength)) else Tok(IntLit(n), Lex(k))
  {
    var t := NatText(n);
    var x := t + k;
    NatTextDigits(n);
    SpanExact(t, k, IsDigit);
    assert x[..|t|] == t && x[|t|..] == k;
    assert x[0] == t[0] && At(x, |t|) == At(k, 0);
    assert |t| > 1 ==> At(x, 1) == t[1];
    NumberEndsHere(t, k);
    assert LexNumber(x) == LexAfterWhole(t, k);
    assert SkipTrivia(x) == Ok(x);
    assert Scan(x) == LexNumber(x);
  }

  // ---- the same facts about a scanner given only by name

  lemma ScanBlank(scan: bytes -> Stream, c: byte, k: bytes)
    requires IsScanner(scan) && IsSpace(c)
    ensures scan([c] + k) == scan(k)
  {
    LexSpace(c, k);
  }

  lemma ScanIndent(scan: bytes -> Stream, depth: nat, width: int, k: bytes)
    requires IsScanner(scan)
    ensures scan(Indent(depth, width) + k) == scan(k)
  {
    LexIndent(depth, width, k);
  }

  lemma ScanMark(scan: bytes -> Stream, c: byte, k: bytes, t: Token)
    requires IsScanner(scan) && IsPunctuation(c) && Punctuator(c, At(k, 0)) == Some((t, 1))
    ensures scan([c] + k) == Tok(t, scan(k))
  {
    LexPunctuator(c, k, t);
  }

  lemma ScanName(scan: bytes -> Stream, w: bytes, k: bytes)
    requires IsScanner(scan) && IsName(w) && (k == [] || !IsIdentPart(k[0]))
    ensures scan(w + k) == Tok(Ident(w), scan(k))
  {
    LexWordText(w, k);
  }

  lemma ScanKeyword(scan: bytes -> Stream, w: bytes, k: bytes)
    requires IsScanner(scan) && IsWord(w) && (k == [] || !IsIdentPart(k[0]))
    ensures scan(w + k) == Tok(WordToken(w), scan(k))
  {
    LexWordText(w, k);
  }

  lemma ScanQuoted(scan: bytes -> Stream, s: bytes, k: bytes)
    requires IsScanner(scan)
    ensures scan(Quoted(s) + k) == Tok(StringLit(s), scan(k))
  {
    LexQuoted(s, k);
  }

  lemma ScanNat(scan: bytes -> Stream, n: nat, k: bytes)
    requires IsScanner(scan) && Delimits(k)
    ensures scan(NatText(n) + k) == if n >= TWO63 then End(Some(BadLength)) else Tok(IntLit(n), scan(k))
  {
    assert EndsNumber(k);
    LexNatText(n, k);
  }
}
