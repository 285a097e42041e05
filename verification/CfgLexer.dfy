/**
  * The scanner of lexer.cpp: a cursor over the input that hands out one token at a time.
  * Every method is proved to leave the cursor where the scanner's specification stops and to
  * answer the token or the error it reads.
  */
module CfgLexer {
  import opened Common
  import opened CfgGrammar
  import opened CfgLexSpec
  import opened Seqs
  import Utf8

  class Lexer {
    const data: bytes
    var pos: nat

    ghost predicate Valid()
      reads this
    {
      pos <= |data|
    }

    /** The bytes still to be read. */
    ghost function Rest(): bytes
      requires Valid()
      reads this
    {
      data[pos..]
    }

    constructor (data: bytes)
      ensures Valid() && this.data == data && Rest() == data
    {
      this.data := data;
      pos := 0;
    }

    function Peek(ahead: nat): (c: byte)
      requires Valid()
      reads this
      ensures c == At(Rest(), ahead)
    {
      if pos + ahead < |data| then data[pos + ahead] else 0
    }

    /** `while (!at_end() && p(peek())) advance();` */
    method SkipWhile(p: byte -> bool)
      requires Valid()
      modifies this
      ensures Valid() && pos == old(pos) + Span(old(Rest()), p)
      ensures Rest() == old(Rest())[Span(old(Rest()), p)..]
    {
      while pos < |data| && p(data[pos])
        invariant old(pos) <= pos <= |data|
        invariant Span(old(Rest()), p) == (pos - old(pos)) + Span(data[pos..], p)
        decreases |data| - pos
      {
        assert data[pos..][1..] == data[pos + 1..];
        pos := pos + 1;
      }
    }

    method SkipToLineEnd()
      requires Valid()
      modifies this
      ensures Valid() && Rest() == SkipLine(old(Rest()))
    {
      while pos < |data| && data[pos] != LF
        invariant old(pos) <= pos <= |data|
        invariant SkipLine(data[pos..]) == SkipLine(old(Rest()))
        decreases |data| - pos
      {
        assert data[pos..][1..] == data[pos + 1..];
        pos := pos + 1;
      }
    }

    /** The inside of a block comment; false when it is never closed. */
    method SkipBlock() returns (closed: bool)
      requires Valid()
      modifies this
      ensures Valid()
      ensures var end := BlockEnd(old(Rest())); closed == end.Some? && (closed ==> Rest() == end.value)
    {
      while pos < |data|
        invariant old(pos) <= pos <= |data|
        invariant BlockEnd(data[pos..]) == BlockEnd(old(Rest()))
        decreases |data| - pos
      {
        if Peek(0) == 42 && Peek(1) == 47 {
          assert data[pos..][2..] == data[pos + 2..];
          pos := pos + 2;
          return true;
        }
        assert data[pos..][1..] == data[pos + 1..];
        pos := pos + 1;
      }
      closed := false;
    }

    method SkipTrivia() returns (r: Result<()>)
      requires Valid()
      modifies this
      ensures Valid()
      ensures match CfgLexSpec.SkipTrivia(old(Rest()))
              case Ok(rest) => r == Ok(()) && Rest() == rest
              case Err(code) => r == Err(code)
    {
      hide SkipLine, BlockEnd;
      while true
        invariant Valid() && CfgLexSpec.SkipTrivia(Rest()) == CfgLexSpec.SkipTrivia(old(Rest()))
        decreases |data| - pos
      {
        if pos >= |data| {
          return Ok(());
        }
        var c := Peek(0);
        ghost var here := Rest();
        assert here[1..] == data[pos + 1..];
        if IsSpace(c) {
          pos := pos + 1;
        } else if c == 35 {
          pos := pos + 1;
          SkipToLineEnd();
        } else if c == 47 && Peek(1) == 47 {
          assert here[2..] == data[pos + 2..];
          pos := pos + 2;
          SkipToLineEnd();
        } else if c == 47 && Peek(1) == 42 {
          assert here[2..] == data[pos + 2..];
          pos := pos + 2;
          var closed := SkipBlock();
          if !closed {
            return Err(BadType);
          }
        } else {
          return Ok(());
        }
        assert |Rest()| < |here|;
      }
    }

    method LexIdentOrKeyword() returns (t: Token)
      requires Valid()
      modifies this
      ensures Valid() && (t, Rest()) == LexWord(old(Rest()))
    {
      var start := pos;
      SkipWhile(IsIdentPart);
      var word := data[start..pos];
      assert word == data[start..][..pos - start];
      if word == TRUE_WORD {
        t := True;
      } else if word == FALSE_WORD {
        t := False;
      } else if word == NULL_WORD {
        t := Null;
      } else if word == INCLUDE_WORD {
        t := Include;
      } else {
        t := Ident(word);
      }
    }

    /** The accumulator of a hex literal keeps 64 bits. */
    method AccumulateHex() returns (acc: nat)
      requires Valid()
      modifies this
      ensures var s := old(Rest());
              var n := Span(s, IsHexDigit);
              Valid() && pos == old(pos) + n && Rest() == s[n..] && acc == HexAccumulator(s[..n])
    {
      ghost var s := Rest();
      var start := pos;
      assert s[..0] == [] && HexAccumulator(s[..0]) == 0;
      hide HexAccumulator, Shift4;
      acc := 0;
      while pos < |data| && IsHexDigit(data[pos])
        invariant start <= pos <= |data|
        invariant Span(s, IsHexDigit) == (pos - start) + Span(data[pos..], IsHexDigit)
        invariant acc == HexAccumulator(s[..pos - start])
        decreases |data| - pos
      {
        assert data[pos..][1..] == data[pos + 1..];
        HexAccumulatorStep(s, pos - start);
        acc := Shift4(acc, HexValue(data[pos]));
        pos := pos + 1;
      }
    }

    method LexHexNumber() returns (r: Result<Token>)
      requires Valid() && IsHexPrefix(Rest())
      modifies this
      ensures Valid()
      ensures match LexHex(old(Rest()))
              case Ok((t, rest)) => r == Ok(t) && Rest() == rest
              case Err(code) => r == Err(code)
    {
      assert Rest()[2..] == data[pos + 2..];
      pos := pos + 2;
      var start := pos;
      var acc := AccumulateHex();
      if pos == start {
        return Err(BadType);
      }
      r := Ok(IntLit(Wrap64(acc)));
    }

    /** The fractional part, consumed only when a digit follows the point. */
    method SkipFraction()
      requires Valid()
      modifies this
      ensures Valid() && pos == old(pos) + FractionLength(old(Rest()))
    {
      if Peek(0) == 46 && IsDigit(Peek(1)) {
        assert Rest()[1..] == data[pos + 1..];
        pos := pos + 1;
        SkipWhile(IsDigit);
      }
    }

    method LexNumber() returns (r: Result<Token>)
      requires Valid() && Rest() != [] && IsDigit(Rest()[0])
      modifies this
      ensures Valid()
      ensures match CfgLexSpec.LexNumber(old(Rest()))
              case Ok((t, rest)) => r == Ok(t) && Rest() == rest
              case Err(code) => r == Err(code)
    {
      hide LexAfterWhole, LexHex, DigitsValue;
      if Peek(0) == 48 && (Peek(1) == 120 || Peek(1) == 88) {
        r := LexHexNumber();
        return;
      }
      var start := pos;
      SkipWhile(IsDigit);
      assert data[start..pos] == old(Rest())[..pos - start];
      r := LexDecimal(start);
    }

    /** What follows the whole part `data[start..pos]` decides between integer and float. */
    method LexDecimal(start: nat) returns (r: Result<Token>)
      requires Valid() && start <= pos && forall i | start <= i < pos :: IsDigit(data[i])
      modifies this
      ensures Valid()
      ensures match LexAfterWhole(data[start..old(pos)], old(Rest()))
              case Ok((t, rest)) => r == Ok(t) && Rest() == rest
              case Err(code) => r == Err(code)
    {
      hide FloatValue, DigitsValue, LexFloat, FractionLength;
      var whole := data[start..pos];
      var point := pos;
      ghost var s := Rest();
      SkipFraction();
      if pos != point {
        var fraction := data[point + 1..pos];
        SuffixSlice(data, point, 1, pos - point);
        SuffixSlice(data, point, pos - point, |s|);
        assert LexAfterWhole(whole, s) == LexFloat(whole, fraction, Rest());
        r := LexExponent(whole, fraction);
        return;
      }
      if ExponentStart(data[pos..]).Some? {
        assert LexAfterWhole(whole, s) == LexFloat(whole, [], s);
        r := LexExponent(whole, []);
        return;
      }
      var v := DigitsValue(whole, 10);
      if v >= TWO63 {
        return Err(BadLength);
      }
      r := Ok(IntLit(v));
    }

    /** How far ahead the exponent digits start; None when no digit follows the `e`. */
    method FindExponent() returns (m: Option<nat>)
      requires Valid()
      ensures m == ExponentStart(Rest())
    {
      var look := 1;
      if IsSign(Peek(look)) {
        look := look + 1;
      }
      m := if (Peek(0) == 101 || Peek(0) == 69) && IsDigit(Peek(look)) then Some(look) else None;
    }

    /** The exponent, consumed only when a digit follows it, and then the value of the lexeme. */
    method LexExponent(whole: bytes, fraction: bytes) returns (r: Result<Token>)
      requires Valid() && (forall i | 0 <= i < |whole| :: IsDigit(whole[i]))
      requires forall i | 0 <= i < |fraction| :: IsDigit(fraction[i])
      modifies this
      ensures Valid()
      ensures match LexFloat(whole, fraction, old(Rest()))
              case Ok((t, rest)) => r == Ok(t) && Rest() == rest
              case Err(code) => r == Err(code)
    {
      hide FloatToken, FloatValue, DigitsValue, ExponentStart, Span, IsDigit;
      ghost var s := Rest();
      var look := FindExponent();
      if look.None? {
        return FloatToken(FloatValue(whole, fraction, false, []));
      }
      var negative := Peek(1) == 45;
      SuffixSlice(data, pos, look.value, |s|);
      pos := pos + look.value;
      var digits := TakeDigits();
      r := FloatToken(FloatValue(whole, fraction, negative, digits));
    }

    /** The digit run ahead. */
    method TakeDigits() returns (digits: bytes)
      requires Valid()
      modifies this
      ensures var s := old(Rest());
              var n := Span(s, IsDigit);
              Valid() && digits == s[..n] && Rest() == s[n..] && forall i | 0 <= i < |digits| :: IsDigit(digits[i])
    {
      var start := pos;
      ghost var s := Rest();
      SkipWhile(IsDigit);
      digits := data[start..pos];
      assert digits == s[..pos - start];
    }

    /** One escape sequence after its backslash has been seen, appended to `out`. */
    method LexEscape(out: bytes) returns (r: Result<bytes>)
      requires Valid() && Rest() != [] && Rest()[0] == BACKSLASH
      modifies this
      ensures Valid()
      ensures match Escape(old(Rest()))
              case Ok((e, rest)) => r == Ok(out + e) && Rest() == rest
              case Err(code) => r == Err(code)
    {
      ghost var s := Rest();
      if pos + 1 >= |data| {
        return Err(BadType);
      }
      var e := data[pos + 1];
      assert s[2..] == data[pos + 2..];
      pos := pos + 2;
      if e == 110 {
        r := Ok(out + [LF]);
      } else if e == 116 {
        r := Ok(out + [TAB]);
      } else if e == 114 {
        r := Ok(out + [CR]);
      } else if e == 48 {
        r := Ok(out + [0]);
      } else if e == BACKSLASH {
        r := Ok(out + [BACKSLASH]);
      } else if e == QUOTE {
        r := Ok(out + [QUOTE]);
      } else if e == 120 {
        if !IsHexDigit(Peek(0)) || !IsHexDigit(Peek(1)) {
          return Err(BadType);
        }
        var b: byte := 16 * HexValue(Peek(0)) + HexValue(Peek(1));
        assert s[4..] == data[pos + 2..];
        pos := pos + 2;
        r := Ok(out + [b]);
      } else if e == 117 {
        r := LexUnicodeEscape(out);
      } else {
        r := Err(BadType);
      }
    }

    /** The braces of a `\u{...}` escape, then the UTF-8 of the scalar they name. */
    method LexUnicodeEscape(out: bytes) returns (r: Result<bytes>)
      requires Valid() && pos >= 2 && data[pos - 2] == BACKSLASH && data[pos - 1] == 117
      modifies this
      ensures Valid()
      ensures match Escape(data[old(pos) - 2..])
              case Ok((e, rest)) => r == Ok(out + e) && Rest() == rest
              case Err(code) => r == Err(code)
    {
      ghost var s := data[pos - 2..];
      if Peek(0) != 123 {
        return Err(BadType);
      }
      pos := pos + 1;
      var start := pos;
      assert s[3..] == data[start..];
      var short, cp := ReadScalar();
      if !short || pos == start || pos >= |data| || data[pos] != 125 {
        return Err(BadType);
      }
      assert s[4 + (pos - start)..] == data[pos + 1..];
      pos := pos + 1;
      var ok, encoded := AppendUtf8(out, cp);
      r := if ok then Ok(encoded) else Err(BadType);
    }

    /** Up to six hex digits; a seventh is an error. */
    method ReadScalar() returns (short: bool, cp: nat)
      requires Valid()
      modifies this
      ensures var s := old(Rest());
              var n := Span(s, IsHexDigit);
              Valid() && short == (n <= 6) && (short ==> pos == old(pos) + n && cp == DigitsValue(s[..n], 16))
    {
      ghost var s := Rest();
      var start := pos;
      assert s[..0] == [] && DigitsValue(s[..0], 16) == 0;
      hide DigitsValue, Span, IsHexDigit;
      cp := 0;
      while pos < |data| && IsHexDigit(data[pos])
        invariant start <= pos <= |data| && pos - start <= 6
        invariant forall i | 0 <= i < pos - start :: IsHexDigit(s[i])
        invariant cp == DigitsValue(s[..pos - start], 16)
        decreases |data| - pos
      {
        assert s[pos - start] == data[pos];
        DigitsStep(s, pos - start, 16);
        cp := cp * 16 + HexValue(data[pos]);
        pos := pos + 1;
        if pos - start > 6 {
          SpanUnique(s, pos - start, IsHexDigit);
          return false, cp;
        }
      }
      SpanUnique(s, pos - start, IsHexDigit);
      short := true;
    }

    /** `append_utf8`: it appends what the UTF-8 library encodes, and refuses the same scalars. */
    static method AppendUtf8(out: bytes, cp: nat) returns (ok: bool, r: bytes)
      ensures ok == Utf8.IsScalar(cp)
      ensures ok ==> r == out + Utf8.Encode(cp)
    {
      r := out;
      if cp > 0x10FFFF || 0xD800 <= cp <= 0xDFFF {
        return false, out;
      }
      if cp <= 0x7F {
        r := r + [cp];
      } else if cp <= 0x7FF {
        r := r + [0xC0 + cp / 64];
        r := r + [0x80 + cp % 64];
      } else if cp <= 0xFFFF {
        r := r + [0xE0 + cp / 64 / 64];
        r := r + [0x80 + cp / 64 % 64];
        r := r + [0x80 + cp % 64];
      } else {
        r := r + [0xF0 + cp / 64 / 64 / 64];
        r := r + [0x80 + cp / 64 / 64 % 64];
        r := r + [0x80 + cp / 64 % 64];
        r := r + [0x80 + cp % 64];
      }
      ok := true;
    }

    method LexString() returns (r: Result<Token>)
      requires Valid() && Rest() != [] && Rest()[0] == QUOTE
      modifies this
      ensures Valid()
      ensures match StringBody(old(Rest())[1..])
              case Ok((text, rest)) => r == Ok(StringLit(text)) && Rest() == rest
              case Err(code) => r == Err(code)
    {
      hide Escape;
      ghost var body := Rest()[1..];
      assert body == data[pos + 1..];
      pos := pos + 1;
      var out: bytes := [];
      assert forall t: bytes :: out + t == t;
      while true
        invariant Valid()
        invariant StringBody(body) == match StringBody(Rest())
                                      case Ok((t, rest)) => Ok((out + t, rest))
                                      case Err(code) => Err(code)
        decreases |data| - pos
      {
        if pos >= |data| {
          return Err(BadType);
        }
        var c := Peek(0);
        ghost var here := Rest();
        assert here[1..] == data[pos + 1..];
        if c == QUOTE {
          pos := pos + 1;
          assert out + [] == out;
          return Ok(StringLit(out));
        }
        if c == LF {
          return Err(BadType);
        }
        ghost var before := out;
        if c != BACKSLASH {
          out := out + [c];
          pos := pos + 1;
          assert forall t: bytes :: before + ([c] + t) == out + t;
        } else {
          var e := LexEscape(out);
          if e.Err? {
            return Err(e.code);
          }
          out := e.value;
          ghost var piece := Escape(here).value.0;
          assert forall t: bytes :: before + (piece + t) == out + t;
        }
      }
    }

    method Next() returns (r: Result<Token>)
      requires Valid()
      modifies this
      ensures Valid()
      ensures match CfgLexSpec.Next(old(Rest()))
              case Ok((t, rest)) => r == Ok(t) && Rest() == rest
              case Err(code) => r == Err(code)
    {
      var skipped := SkipTrivia();
      if skipped.Err? {
        return Err(skipped.code);
      }
      if pos >= |data| {
        return Ok(Eof);
      }
      r := ScanToken();
    }

    method ScanToken() returns (r: Result<Token>)
      requires Valid() && Rest() != []
      modifies this
      ensures Valid()
      ensures match Scan(old(Rest()))
              case Ok((t, rest)) => r == Ok(t) && Rest() == rest
              case Err(code) => r == Err(code)
    {
      var c := Peek(0);
      if IsIdentStart(c) {
        var t := LexIdentOrKeyword();
        return Ok(t);
      }
      if IsDigit(c) {
        r := LexNumber();
        return;
      }
      if c == QUOTE {
        r := LexString();
        return;
      }
      var p := Punctuator(c, Peek(1));
      if p.None? {
        return Err(BadType);
      }
      assert Rest()[p.value.1..] == data[pos + p.value.1..];
      pos := pos + p.value.1;
      r := Ok(p.value.0);
    }
  }
}
