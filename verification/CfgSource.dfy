/** The lexical grammar. */
module CfgSource {
  // What source text is made of: blanks and comments, words, numbers, strings and marks. Text put
  // together from them scans to the tokens they stand for, and text that scans without an error
  // was put together from them.

  import opened CfgGrammar
  import opened CfgLexRoundTrip
  import opened CfgLexSpec
  import opened Common
  import Doubles
  import opened Seqs
  import Utf8

  // ---- blanks and comments

  datatype Gap = Blank(c: byte) | LineNote(hash: bool, note: bytes) | BlockNote(note: bytes)

  predicate NoLineFeed(t: bytes) {
    forall i | 0 <= i < |t| :: t[i] != 10
  }

  /** No closing mark before the one behind the note. */
  predicate Unclosed(note: bytes) {
    var t := note + [42, 47];
    forall i | 0 <= i < |note| :: !(t[i] == 42 && t[i + 1] == 47)
  }

  predicate GapGood(g: Gap) {
    match g
    case Blank(c) => c == 32 || c == 9 || c == 13 || c == 10 || c == 12 || c == 11
    case LineNote(_, note) => NoLineFeed(note)
    case BlockNote(note) => Unclosed(note)
  }

  function NoteStart(hash: bool): bytes {
    if hash then [35] else [47, 47]
  }

  function GapText(g: Gap): bytes {
    match g
    case Blank(c) => [c]
    case LineNote(hash, note) => NoteStart(hash) + note + [10]
    case BlockNote(note) => [47, 42] + note + [42, 47]
  }

  function GapsText(gaps: seq<Gap>): bytes {
    if gaps == [] then [] else GapText(gaps[0]) + GapsText(gaps[1..])
  }

  predicate GapsGood(gaps: seq<Gap>) {
    forall i | 0 <= i < |gaps| :: GapGood(gaps[i])
  }

  lemma {:induction false} LineSkipped(note: bytes, k: bytes)
    requires NoLineFeed(note) && (k == [] || k[0] == 10)
    ensures SkipLine(note + k) == k
  {
    if note == [] {
      assert note + k == k;
    } else {
      assert (note + k)[1..] == note[1..] + k;
      LineSkipped(note[1..], k);
    }
  }

  lemma {:induction false} BlockSkipped(note: bytes, k: bytes)
    requires Unclosed(note)
    ensures BlockEnd(note + [42, 47] + k) == Some(k)
  {
    var s := note + [42, 47] + k;
    if note == [] {
      assert s[2..] == k;
    } else {
      var t := note + [42, 47];
      assert s[0] == t[0] && At(s, 1) == t[1];
      assert s[1..] == note[1..] + [42, 47] + k;
      assert note[1..] + [42, 47] == t[1..];
      BlockSkipped(note[1..], k);
    }
  }

  lemma LineNoteSkipped(hash: bool, note: bytes, k: bytes)
    requires NoLineFeed(note) && (k == [] || k[0] == 10)
    ensures SkipTrivia(NoteStart(hash) + (note + k)) == SkipTrivia(k)
  {
    hide SkipLine;
    var s := NoteStart(hash) + (note + k);
    LineSkipped(note, k);
    assert s[0] == NoteStart(hash)[0] && s[|NoteStart(hash)|..] == note + k;
    if !hash {
      assert At(s, 1) == 47;
    }
  }

  lemma BlockNoteSkipped(note: bytes, k: bytes)
    requires Unclosed(note)
    ensures SkipTrivia([47, 42] + (note + [42, 47] + k)) == SkipTrivia(k)
  {
    hide BlockEnd, Unclosed;
    var s := [47, 42] + (note + [42, 47] + k);
    BlockSkipped(note, k);
    assert s[2..] == note + [42, 47] + k && s[0] == 47 && At(s, 1) == 42;
  }

  lemma BlankSkipped(c: byte, k: bytes)
    requires GapGood(Blank(c))
    ensures SkipTrivia([c] + k) == SkipTrivia(k)
  {
    assert ([c] + k)[1..] == k;
  }

  lemma GapSkipped(g: Gap, k: bytes)
    requires GapGood(g)
    ensures SkipTrivia(GapText(g) + k) == SkipTrivia(k)
  {
    hide SkipTrivia, Unclosed;
    match g
    case Blank(c) => BlankSkipped(c, k);
    case LineNote(hash, note) =>
      LineNoteSkipped(hash, note, [10] + k);
      BlankSkipped(10, k);
      Regroup4(NoteStart(hash), note, [10], k);
    case BlockNote(note) =>
      BlockNoteSkipped(note, k);
      Regroup4([47, 42], note, [42, 47], k);
      Regroup3(note, [42, 47], k);
  }

  lemma {:induction false} GapsSkipped(gaps: seq<Gap>, k: bytes)
    requires GapsGood(gaps)
    ensures SkipTrivia(GapsText(gaps) + k) == SkipTrivia(k)
  {
    hide GapText, SkipTrivia, GapGood;
    if gaps == [] {
      assert GapsText(gaps) + k == k;
    } else {
      Regroup3(GapText(gaps[0]), GapsText(gaps[1..]), k);
      GapSkipped(gaps[0], GapsText(gaps[1..]) + k);
      GapsSkipped(gaps[1..], k);
    }
  }

  // ---- lexemes

  /** A piece of a string literal: a byte, or an escape. */
  datatype Piece = Raw(c: byte) | Short(letter: byte) | Hex(high: byte, low: byte) | Scalar(digits: bytes)

  predicate PieceGood(p: Piece) {
    match p
    case Raw(c) => c != 34 && c != 92 && c != 10
    case Short(letter) =>
      letter == 110 || letter == 116 || letter == 114 || letter == 48 || letter == 92 || letter == 34
    case Hex(high, low) => IsHexDigit(high) && IsHexDigit(low)
    case Scalar(digits) =>
      && 1 <= |digits| <= 6 && (forall i | 0 <= i < |digits| :: IsHexDigit(digits[i]))
      && Utf8.IsScalar(DigitsValue(digits, 16))
  }

  function PieceText(p: Piece): bytes {
    match p
    case Raw(c) => [c]
    case Short(letter) => [92, letter]
    case Hex(high, low) => [92, 120, high, low]
    case Scalar(digits) => [92, 117, 123] + digits + [125]
  }

  /** The bytes a piece stands for: itself, a control byte, a byte in hexadecimal, a scalar in UTF-8. */
  function PieceBytes(p: Piece): bytes
    requires PieceGood(p)
  {
    match p
    case Raw(c) => [c]
    case Short(letter) =>
      if letter == 110 then [10] else if letter == 116 then [9] else if letter == 114 then [13]
      else if letter == 48 then [0] else [letter]
    case Hex(high, low) => [16 * HexValue(high) + HexValue(low)]
    case Scalar(digits) => Utf8.Encode(DigitsValue(digits, 16))
  }

  function PiecesText(ps: seq<Piece>): bytes {
    if ps == [] then [] else PieceText(ps[0]) + PiecesText(ps[1..])
  }

  predicate PiecesGood(ps: seq<Piece>) {
    forall i | 0 <= i < |ps| :: PieceGood(ps[i])
  }

  function PiecesBytes(ps: seq<Piece>): bytes
    requires PiecesGood(ps)
  {
    if ps == [] then [] else PieceBytes(ps[0]) + PiecesBytes(ps[1..])
  }

  /** The exponent of a float: its mark, a sign or none, and its digits. */
  datatype Exponent = Exponent(mark: byte, sign: bytes, digits: bytes)

  datatype Lexeme =
    | Word(w: bytes)
    | Whole(digits: bytes)
    | Hexadecimal(mark: byte, digits: bytes)
    | Fractional(whole: bytes, fraction: bytes, exponent: Option<Exponent>)
    | Quotation(pieces: seq<Piece>)
    | Mark(token: Token)

  predicate Digits(t: bytes) {
    t != [] && forall i | 0 <= i < |t| :: IsDigit(t[i])
  }

  predicate ExponentGood(e: Exponent) {
    (e.mark == 101 || e.mark == 69) && (e.sign == [] || e.sign == [43] || e.sign == [45]) && Digits(e.digits)
  }

  function ExponentText(e: Option<Exponent>): bytes {
    if e.None? then [] else [e.value.mark] + e.value.sign + e.value.digits
  }

  /** The number a float literal denotes. */
  function Denoted(whole: bytes, fraction: bytes, e: Option<Exponent>): (x: real)
    requires Digits(whole) && (fraction == [] || Digits(fraction)) && (e.Some? ==> ExponentGood(e.value))
    ensures x >= 0.0
  {
    FloatValue(whole, fraction, e.Some? && e.value.sign == [45], if e.None? then [] else e.value.digits)
  }

  predicate LexemeGood(l: Lexeme) {
    match l
    case Word(w) => IsWord(w)
    case Whole(digits) => Digits(digits) && DigitsValue(digits, 10) < TWO63
    case Hexadecimal(mark, digits) =>
      (mark == 120 || mark == 88) && digits != [] && forall i | 0 <= i < |digits| :: IsHexDigit(digits[i])
    case Fractional(whole, fraction, e) =>
      && Digits(whole) && (fraction == [] || Digits(fraction)) && (e.Some? ==> ExponentGood(e.value))
      && (fraction != [] || e.Some?) && Doubles.Round(Denoted(whole, fraction, e)).Finite?
    case Quotation(pieces) => PiecesGood(pieces)
    case Mark(token) => MarkText(token) != []
  }

  function LexemeText(l: Lexeme): bytes {
    match l
    case Word(w) => w
    case Whole(digits) => digits
    case Hexadecimal(mark, digits) => [48, mark] + digits
    case Fractional(whole, fraction, e) =>
      whole + (if fraction == [] then [] else [46] + fraction) + ExponentText(e)
    case Quotation(pieces) => [34] + PiecesText(pieces) + [34]
    case Mark(token) => MarkText(token)
  }

  /** How punctuators and operators are written. */
  function MarkText(t: Token): bytes {
    match t
    case LBrace => [123]
    case RBrace => [125]
    case LBracket => [91]
    case RBracket => [93]
    case LParen => [40]
    case RParen => [41]
    case Semicolon => [59]
    case Comma => [44]
    case Assign => [61]
    case Dot => [46]
    case Question => [63]
    case Colon => [58]
    case Plus => [43]
    case Minus => [45]
    case Star => [42]
    case Slash => [47]
    case Percent => [37]
    case Shl => [60, 60]
    case Shr => [62, 62]
    case Lt => [60]
    case Le => [60, 61]
    case Gt => [62]
    case Ge => [62, 61]
    case EqEq => [61, 61]
    case Ne => [33, 61]
    case Amp => [38]
    case Caret => [94]
    case Pipe => [124]
    case AndAnd => [38, 38]
    case OrOr => [124, 124]
    case Bang => [33]
    case Tilde => [126]
    case _ => []
  }

  /** A word is `true`, `false`, `null`, `include`, or a name. */
  function WordMeans(w: bytes): Token {
    if w == [116, 114, 117, 101] then True
    else if w == [102, 97, 108, 115, 101] then False
    else if w == [110, 117, 108, 108] then Null
    else if w == [105, 110, 99, 108, 117, 100, 101] then Include
    else Ident(w)
  }

  /** Two's complement of the low 64 bits. */
  function Signed(v: nat): i64 {
    var low := v % TWO64;
    if low < TWO63 then low else low - TWO64
  }

  function LexemeToken(l: Lexeme): Token
    requires LexemeGood(l)
  {
    match l
    case Word(w) => WordMeans(w)
    case Whole(digits) => IntLit(DigitsValue(digits, 10))
    case Hexadecimal(_, digits) => IntLit(Signed(DigitsValue(digits, 16)))
    case Fractional(whole, fraction, e) => FloatLit(Doubles.Round(Denoted(whole, fraction, e)))
    case Quotation(pieces) => StringLit(PiecesBytes(pieces))
    case Mark(token) => token
  }

  /** An exponent starts here: its mark, a sign or none, and a digit. */
  predicate ExponentAhead(k: bytes) {
    && (At(k, 0) == 101 || At(k, 0) == 69)
    && (IsDigit(At(k, 1)) || ((At(k, 1) == 43 || At(k, 1) == 45) && IsDigit(At(k, 2))))
  }

  /** The lexeme ends where `k` starts: nothing there goes on with it. */
  predicate Ends(l: Lexeme, k: bytes) {
    match l
    case Word(_) => !IsIdentPart(At(k, 0))
    case Whole(digits) =>
      && !IsDigit(At(k, 0)) && !(At(k, 0) == 46 && IsDigit(At(k, 1))) && !ExponentAhead(k)
      && !(digits == [48] && (At(k, 0) == 120 || At(k, 0) == 88))
    case Hexadecimal(_, _) => !IsHexDigit(At(k, 0))
    case Fractional(_, _, e) => !IsDigit(At(k, 0)) && (e.None? ==> !ExponentAhead(k))
    case Quotation(_) => true
    case Mark(token) =>
      var c := At(k, 0);
      match token
      case Slash => c != 47 && c != 42
      case Assign => c != 61
      case Bang => c != 61
      case Lt => c != 60 && c != 61
      case Gt => c != 62 && c != 61
      case Amp => c != 38
      case Pipe => c != 124
      case _ => true
  }

  // ---- written text scans

  lemma ScalarRead(digits: bytes, k: bytes)
    requires PieceGood(Scalar(digits))
    ensures var s := [92, 117, 123] + digits + [125] + k;
            Escape(s) == Ok((Utf8.Encode(DigitsValue(digits, 16)), k))
  {
    hide DigitsValue, Utf8.Encode, Utf8.IsScalar;
    var s := [92, 117, 123] + digits + [125] + k;
    assert s[3..] == digits + ([125] + k);
    SpanExact(digits, [125] + k, IsHexDigit);
    hide Span;
    assert s[3..][..|digits|] == digits;
    assert At(s, 3 + |digits|) == 125 && s[4 + |digits|..] == k;
  }

  lemma PieceRead(p: Piece, k: bytes)
    requires PieceGood(p) && !p.Raw?
    ensures var s := PieceText(p) + k; s[0] == 92 && Escape(s) == Ok((PieceBytes(p), k))
  {
    hide DigitsValue, Utf8.Encode, Utf8.IsScalar;
    var s := PieceText(p) + k;
    if p.Scalar? {
      ScalarRead(p.digits, k);
      hide Escape;
    } else {
      hide Span;
      assert s[|PieceText(p)|..] == k;
    }
  }

  lemma {:induction false} PiecesRead(ps: seq<Piece>, k: bytes)
    requires PiecesGood(ps)
    ensures StringBody(PiecesText(ps) + ([34] + k)) == Ok((PiecesBytes(ps), k))
    decreases |ps|
  {
    hide PieceGood, Escape;
    if ps == [] {
      assert PiecesText(ps) + ([34] + k) == [34] + k;
      assert ([34] + k)[1..] == k;
    } else {
      var rest := PiecesText(ps[1..]) + ([34] + k);
      Regroup3(PieceText(ps[0]), PiecesText(ps[1..]), [34] + k);
      PiecesRead(ps[1..], k);
      if ps[0].Raw? {
        RawPiece(ps[0]);
        assert ([ps[0].c] + rest)[1..] == rest;
      } else {
        PieceRead(ps[0], rest);
      }
    }
  }

  lemma RawPiece(p: Piece)
    requires PieceGood(p) && p.Raw?
    ensures p.c != 34 && p.c != 92 && p.c != 10 && PieceBytes(p) == [p.c]
  {
  }

  lemma WordRead(w: bytes, k: bytes)
    requires IsWord(w) && !IsIdentPart(At(k, 0))
    ensures Scan(w + k) == Ok((WordMeans(w), k))
  {
    SpanExact(w, k, IsIdentPart);
    assert (w + k)[..|w|] == w && (w + k)[|w|..] == k && (w + k)[0] == w[0];
  }

  lemma HexRead(mark: byte, digits: bytes, k: bytes)
    requires LexemeGood(Hexadecimal(mark, digits)) && !IsHexDigit(At(k, 0))
    ensures Scan([48, mark] + digits + k) == Ok((IntLit(Signed(DigitsValue(digits, 16))), k))
  {
    hide DigitsValue, HexAccumulator, Span, LexAfterWhole, LexHex;
    var s := [48, mark] + digits + k;
    Regroup3([48, mark], digits, k);
    HexDigitsRead(mark, digits, k);
    HexAccumulatorIsValue(digits);
    SameSigned(DigitsValue(digits, 16));
    assert s[0] == 48 && At(s, 1) == mark;
  }

  lemma SameSigned(v: nat)
    ensures Wrap64(v % TWO64) == Signed(v)
  {
  }

  lemma HexDigitsRead(mark: byte, digits: bytes, k: bytes)
    requires LexemeGood(Hexadecimal(mark, digits)) && !IsHexDigit(At(k, 0))
    ensures var s := [48, mark] + (digits + k);
            IsHexPrefix(s) && LexHex(s) == Ok((IntLit(Wrap64(HexAccumulator(digits))), k))
  {
    hide HexAccumulator, Wrap64;
    var s := [48, mark] + (digits + k);
    assert s[2..] == digits + k && At(s, 1) == mark;
    SpanExact(digits, k, IsHexDigit);
    hide Span;
    assert (digits + k)[..|digits|] == digits && (digits + k)[|digits|..] == k;
  }

  /** Digits in front of what is neither a digit nor a hex mark are the whole part. */
  lemma WholeRead(digits: bytes, k: bytes)
    requires Digits(digits) && !IsDigit(At(k, 0)) && !(digits == [48] && (At(k, 0) == 120 || At(k, 0) == 88))
    ensures Scan(digits + k) == LexNumber(digits + k) == LexAfterWhole(digits, k)
  {
    var s := digits + k;
    SpanExact(digits, k, IsDigit);
    assert s[..|digits|] == digits && s[|digits|..] == k && s[0] == digits[0];
    assert At(s, |digits|) == At(k, 0);
    assert |digits| > 1 ==> At(s, 1) == digits[1];
    hide LexAfterWhole;
  }

  lemma AheadIsStart(k: bytes)
    ensures ExponentAhead(k) <==> ExponentStart(k).Some?
  {
  }

  lemma NaturalRead(digits: bytes, k: bytes)
    requires LexemeGood(Whole(digits)) && Ends(Whole(digits), k)
    ensures Scan(digits + k) == Ok((IntLit(DigitsValue(digits, 10)), k))
  {
    WholeRead(digits, k);
    AheadIsStart(k);
    hide DigitsValue, ExponentStart, ExponentAhead, Scan, LexNumber, LexFloat;
    assert FractionLength(k) == 0;
  }

  /** Where the digits of an exponent stand, and how its sign is seen. */
  lemma ExponentPlaced(x: Exponent, k: bytes)
    requires ExponentGood(x)
    ensures var s := [x.mark] + x.sign + x.digits + k;
            && ExponentStart(s) == Some(1 + |x.sign|) && s[1 + |x.sign|..] == x.digits + k
            && (At(s, 1) == 45 <==> x.sign == [45])
  {
    var s := [x.mark] + x.sign + x.digits + k;
    assert s == [x.mark] + (x.sign + (x.digits + k));
    if x.sign == [] {
      assert At(s, 1) == x.digits[0];
    } else {
      assert At(s, 1) == x.sign[0] && At(s, 2) == x.digits[0];
    }
  }

  lemma ExponentDigits(digits: bytes, k: bytes)
    requires Digits(digits) && !IsDigit(At(k, 0))
    ensures var n := Span(digits + k, IsDigit);
            n == |digits| && (digits + k)[..n] == digits && (digits + k)[n..] == k
  {
    SpanExact(digits, k, IsDigit);
  }

  lemma ExponentRead(whole: bytes, fraction: bytes, e: Option<Exponent>, k: bytes)
    requires Digits(whole) && (fraction == [] || Digits(fraction)) && (e.Some? ==> ExponentGood(e.value))
    requires !IsDigit(At(k, 0)) && (e.None? ==> !ExponentAhead(k))
    ensures var t := FloatToken(Denoted(whole, fraction, e));
            LexFloat(whole, fraction, ExponentText(e) + k) == if t.Ok? then Ok((t.value, k)) else Err(t.code)
  {
    hide FloatToken, FloatValue, ExponentStart, Span;
    if e.None? {
      assert ExponentText(e) + k == k;
      AheadIsStart(k);
    } else {
      ExponentPlaced(e.value, k);
      ExponentDigits(e.value.digits, k);
      hide ExponentAhead;
    }
  }

  lemma FloatRead(whole: bytes, fraction: bytes, e: Option<Exponent>, k: bytes)
    requires LexemeGood(Fractional(whole, fraction, e)) && Ends(Fractional(whole, fraction, e), k)
    ensures Scan(LexemeText(Fractional(whole, fraction, e)) + k)
         == Ok((FloatLit(Doubles.Round(Denoted(whole, fraction, e))), k))
  {
    hide Doubles.Round, Denoted, Scan, LexNumber, LexFloat, LexAfterWhole, ExponentAhead, Digits, ExponentText;
    var tail := ExponentText(e) + k;
    ExponentRead(whole, fraction, e, k);
    TailStarts(e, k);
    var rest := (if fraction == [] then [] else [46] + fraction) + tail;
    assert LexemeText(Fractional(whole, fraction, e)) + k == whole + rest;
    if fraction == [] {
      assert rest == tail;
      ExponentIsAhead(e, k);
      ExponentOnly(whole, tail);
    } else {
      assert rest == [46] + (fraction + tail);
      FractionFirst(whole, fraction, tail);
    }
    WholeRead(whole, rest);
  }

  lemma ExponentOnly(whole: bytes, tail: bytes)
    requires Digits(whole) && ExponentAhead(tail)
    ensures LexAfterWhole(whole, tail) == LexFloat(whole, [], tail) && tail != []
  {
    hide LexFloat, Digits, DigitsValue;
    AheadIsStart(tail);
    assert FractionLength(tail) == 0;
    hide ExponentStart, ExponentAhead, FractionLength;
  }

  lemma FractionFirst(whole: bytes, fraction: bytes, tail: bytes)
    requires Digits(whole) && Digits(fraction) && (tail == [] || !IsDigit(tail[0]))
    ensures LexAfterWhole(whole, [46] + (fraction + tail)) == LexFloat(whole, fraction, tail)
  {
    hide LexFloat, DigitsValue, ExponentStart;
    var rest := [46] + (fraction + tail);
    assert rest[1..] == fraction + tail && At(rest, 1) == fraction[0];
    SpanExact(fraction, tail, IsDigit);
    hide Span;
    assert rest[1..1 + |fraction|] == fraction && rest[1 + |fraction|..] == tail;
    assert FractionLength(rest) == 1 + |fraction|;
  }

  lemma TailStarts(e: Option<Exponent>, k: bytes)
    requires (e.Some? ==> ExponentGood(e.value)) && (e.None? ==> !IsDigit(At(k, 0)))
    ensures var tail := ExponentText(e) + k; tail == [] || !IsDigit(tail[0])
    ensures e.Some? ==> var c := At(ExponentText(e) + k, 0); c == 101 || c == 69
  {
  }

  lemma ExponentIsAhead(e: Option<Exponent>, k: bytes)
    requires e.Some? && ExponentGood(e.value)
    ensures ExponentAhead(ExponentText(e) + k)
  {
    var x := e.value;
    var s := ExponentText(e) + k;
    assert s == [x.mark] + (x.sign + (x.digits + k));
    assert At(s, 1) == if x.sign == [] then x.digits[0] else x.sign[0];
    assert x.sign != [] ==> At(s, 2) == x.digits[0];
  }

  lemma MarkIsPunctuator(token: Token, k: bytes)
    requires MarkText(token) != [] && Ends(Mark(token), k)
    ensures var t := MarkText(token);
            && 1 <= |t| <= 2 && Punctuator(t[0], if |t| == 1 then At(k, 0) else t[1]) == Some((token, |t|))
            && !IsIdentStart(t[0]) && !IsDigit(t[0]) && t[0] != QUOTE
  {
  }

  lemma MarkRead(token: Token, k: bytes)
    requires MarkText(token) != [] && Ends(Mark(token), k)
    ensures Scan(MarkText(token) + k) == Ok((token, k))
  {
    hide MarkText, Ends, Punctuator, LexWord, LexNumber, StringBody;
    MarkIsPunctuator(token, k);
    var t := MarkText(token);
    var s := t + k;
    assert s[|t|..] == k && s[0] == t[0];
    assert At(s, 1) == if |t| == 1 then At(k, 0) else t[1];
  }

  lemma QuotationRead(ps: seq<Piece>, k: bytes)
    requires PiecesGood(ps)
    ensures Scan([34] + PiecesText(ps) + [34] + k) == Ok((StringLit(PiecesBytes(ps)), k))
  {
    hide PiecesText, StringBody, PieceGood;
    var s := [34] + PiecesText(ps) + [34] + k;
    Regroup4([34], PiecesText(ps), [34], k);
    PiecesRead(ps, k);
    assert s[1..] == PiecesText(ps) + ([34] + k);
  }

  /** A lexeme that ends where `k` starts is scanned as the token it stands for, up to there. */
  lemma LexemeRead(l: Lexeme, k: bytes)
    requires LexemeGood(l) && Ends(l, k)
    ensures LexemeText(l) != []
    ensures Scan(LexemeText(l) + k) == Ok((LexemeToken(l), k))
  {
    hide Scan, DigitsValue, Doubles.Round, FloatValue, PiecesText, PieceGood;
    match l
    case Word(w) => WordRead(w, k);
    case Whole(digits) => NaturalRead(digits, k);
    case Hexadecimal(mark, digits) => HexRead(mark, digits, k);
    case Fractional(_, _, _) => FloatRead(l.whole, l.fraction, l.exponent, k);
    case Quotation(ps) => QuotationRead(ps, k);
    case Mark(token) => MarkRead(token, k);
  }

  /** No lexeme starts as a gap does. */
  lemma LexemeIsNoGap(l: Lexeme, k: bytes)
    requires LexemeGood(l) && Ends(l, k)
    ensures SkipTrivia(LexemeText(l) + k) == Ok(LexemeText(l) + k)
  {
    hide DigitsValue, Doubles.Round, FloatValue, PiecesText, PieceGood, PiecesGood, Denoted;
    var s := LexemeText(l) + k;
    if l.Mark? && l.token == Slash {
      assert s == [47] + k;
      assert At(s, 1) == At(k, 0);
    } else {
      assert s[0] == LexemeText(l)[0];
      assert s[0] != 47 && s[0] != 35 && !IsSpace(s[0]);
    }
  }

  // ---- whole texts

  /** A lexeme and the gaps in front of it. */
  datatype Part = Part(gaps: seq<Gap>, lexeme: Lexeme)

  /** What follows the last lexeme: gaps, and perhaps a note on a last line that does not end. */
  datatype Tail = Tail(gaps: seq<Gap>, openNote: Option<(bool, bytes)>)

  function TailText(tail: Tail): bytes {
    GapsText(tail.gaps)
    + if tail.openNote.None? then [] else NoteStart(tail.openNote.value.0) + tail.openNote.value.1
  }

  function PartsText(parts: seq<Part>, tail: Tail): bytes {
    if parts == [] then TailText(tail)
    else GapsText(parts[0].gaps) + (LexemeText(parts[0].lexeme) + PartsText(parts[1..], tail))
  }

  predicate TailGood(tail: Tail) {
    GapsGood(tail.gaps) && (tail.openNote.Some? ==> NoLineFeed(tail.openNote.value.1))
  }

  predicate PartsGood(parts: seq<Part>, tail: Tail) {
    if parts == [] then TailGood(tail)
    else
      && GapsGood(parts[0].gaps) && LexemeGood(parts[0].lexeme)
      && Ends(parts[0].lexeme, PartsText(parts[1..], tail)) && PartsGood(parts[1..], tail)
  }

  /** The tokens of the lexemes, and a clean end. */
  function PartsTokens(parts: seq<Part>, tail: Tail): Stream
    requires PartsGood(parts, tail)
  {
    if parts == [] then End(None) else Tok(LexemeToken(parts[0].lexeme), PartsTokens(parts[1..], tail))
  }

  lemma TailRead(tail: Tail)
    requires TailGood(tail)
    ensures Lex(TailText(tail)) == End(None)
  {
    hide GapsText, SkipTrivia, GapGood;
    var last := if tail.openNote.None? then [] else NoteStart(tail.openNote.value.0) + tail.openNote.value.1;
    GapsSkipped(tail.gaps, last);
    NothingSkipped();
    if tail.openNote.Some? {
      LineNoteSkipped(tail.openNote.value.0, tail.openNote.value.1, []);
      assert tail.openNote.value.1 + [] == tail.openNote.value.1;
    }
  }

  lemma NothingSkipped()
    ensures SkipTrivia([]) == Ok([])
  {
  }

  lemma PartRead(part: Part, k: bytes)
    requires GapsGood(part.gaps) && LexemeGood(part.lexeme) && Ends(part.lexeme, k)
    ensures Lex(GapsText(part.gaps) + (LexemeText(part.lexeme) + k)) == Tok(LexemeToken(part.lexeme), Lex(k))
  {
    hide Lex, GapsText, LexemeText, LexemeGood, Ends, SkipTrivia, Scan, GapGood, LexemeToken;
    var l := LexemeText(part.lexeme) + k;
    GapsSkipped(part.gaps, l);
    LexemeIsNoGap(part.lexeme, k);
    LexemeRead(part.lexeme, k);
    LexOnce(GapsText(part.gaps) + l, l, LexemeToken(part.lexeme), k);
  }

  lemma LexOnce(s: bytes, l: bytes, t: Token, k: bytes)
    requires l != [] && SkipTrivia(s) == Ok(l) && Scan(l) == Ok((t, k))
    ensures Lex(s) == Tok(t, Lex(k))
  {
    hide SkipTrivia, Scan;
  }

  /** Text put together from gaps and lexemes scans to the tokens of the lexemes, to its clean end. */
  lemma {:induction false} SourceScans(parts: seq<Part>, tail: Tail)
    requires PartsGood(parts, tail)
    ensures Lex(PartsText(parts, tail)) == PartsTokens(parts, tail)
    decreases |parts|
  {
    hide Lex, LexemeGood, LexemeText, LexemeToken, Ends, TailText, TailGood, GapsText, GapsGood;
    if parts == [] {
      TailRead(tail);
    } else {
      SourceScans(parts[1..], tail);
      PartRead(parts[0], PartsText(parts[1..], tail));
    }
  }

  // ---- whatever scans was written so

  /** What a piece looks like at the start of a string body. */
  ghost predicate StartsWith(p: Piece, s: bytes, value: bytes, k: bytes) {
    PieceGood(p) && s == PieceText(p) + k && PieceBytes(p) == value
  }

  lemma ShortOrHexWritten(s: bytes) returns (p: Piece)
    requires s != [] && s[0] == BACKSLASH && Escape(s).Ok? && At(s, 1) != 117
    ensures StartsWith(p, s, Escape(s).value.0, Escape(s).value.1)
  {
    if s[1] == 120 {
      p := Hex(s[2], s[3]);
      assert s == [92, 120, s[2], s[3]] + s[4..];
    } else {
      p := Short(s[1]);
      assert s == [92, s[1]] + s[2..];
    }
  }

  lemma ScalarWritten(s: bytes) returns (p: Piece)
    requires s != [] && s[0] == BACKSLASH && Escape(s).Ok? && At(s, 1) == 117
    ensures StartsWith(p, s, Escape(s).value.0, Escape(s).value.1)
  {
    hide DigitsValue, Utf8.Encode, Utf8.IsScalar;
    var n := Span(s[3..], IsHexDigit);
    var digits := s[3..][..n];
    p := Scalar(digits);
    assert s == [92, 117, 123] + digits + [125] + s[4 + n..];
  }

  lemma {:induction false} BodyWritten(s: bytes) returns (ps: seq<Piece>)
    requires StringBody(s).Ok?
    ensures PiecesGood(ps) && PiecesBytes(ps) == StringBody(s).value.0
    ensures s == PiecesText(ps) + ([34] + StringBody(s).value.1)
    decreases |s|
  {
    hide Escape, PieceGood, PieceBytes, PieceText;
    if s[0] == QUOTE {
      ps := [];
      assert s == [] + ([34] + s[1..]);
    } else {
      var p: Piece;
      var rest: bytes;
      if s[0] == BACKSLASH {
        rest := Escape(s).value.1;
        if At(s, 1) == 117 {
          p := ScalarWritten(s);
        } else {
          p := ShortOrHexWritten(s);
        }
      } else {
        rest := s[1..];
        p := RawWritten(s);
      }
      var more := BodyWritten(rest);
      ps := [p] + more;
      assert ps[1..] == more;
      Regroup3(PieceText(p), PiecesText(more), [34] + StringBody(s).value.1);
    }
  }

  lemma RawWritten(s: bytes) returns (p: Piece)
    requires s != [] && s[0] != QUOTE && s[0] != LF && s[0] != BACKSLASH
    ensures StartsWith(p, s, [s[0]], s[1..])
  {
    p := Raw(s[0]);
  }

  /** The lexeme stands at the start of `s`, ends where `k` starts, and is read as `t`. */
  ghost predicate StandsAt(l: Lexeme, s: bytes, t: Token, k: bytes) {
    LexemeGood(l) && Ends(l, k) && s == LexemeText(l) + k && LexemeToken(l) == t
  }

  lemma WordWritten(s: bytes) returns (l: Lexeme)
    requires s != [] && IsIdentStart(s[0])
    ensures StandsAt(l, s, LexWord(s).0, LexWord(s).1)
  {
    var n := Span(s, IsIdentPart);
    l := Word(s[..n]);
    assert s == s[..n] + s[n..];
    hide Span;
  }

  lemma HexWritten(s: bytes) returns (l: Lexeme)
    requires IsHexPrefix(s) && LexHex(s).Ok?
    ensures StandsAt(l, s, LexHex(s).value.0, LexHex(s).value.1)
  {
    hide DigitsValue, HexAccumulator;
    var n := Span(s[2..], IsHexDigit);
    var digits := s[2..][..n];
    l := Hexadecimal(s[1], digits);
    HexAccumulatorIsValue(digits);
    SameSigned(DigitsValue(digits, 16));
    hide Span, Wrap64;
    assert s == [48, s[1]] + digits + s[2..][n..];
  }

  /** The exponent `s` starts with, where it starts with one. */
  lemma ExponentWritten(s: bytes) returns (x: Exponent)
    requires ExponentStart(s).Some?
    ensures var s1 := s[ExponentStart(s).value..];
            var n := Span(s1, IsDigit);
            && ExponentGood(x) && x.digits == s1[..n] && (x.sign == [45] <==> At(s, 1) == 45)
            && s == ExponentText(Some(x)) + s1[n..] && !IsDigit(At(s1[n..], 0))
  {
    var m := ExponentStart(s).value;
    var s1 := s[m..];
    var n := Span(s1, IsDigit);
    x := Exponent(s[0], s[1..m], s1[..n]);
    assert n > 0;
    hide Span;
    assert s == [s[0]] + s[1..m] + s1[..n] + s1[n..];
    assert x.sign == [] || x.sign == [s[1]];
  }

  lemma FloatWritten(whole: bytes, fraction: bytes, s: bytes) returns (l: Lexeme)
    requires Digits(whole) && (fraction == [] || Digits(fraction)) && !IsDigit(At(s, 0))
    requires (fraction != [] || ExponentStart(s).Some?) && LexFloat(whole, fraction, s).Ok?
    ensures StandsAt(l, whole + ((if fraction == [] then [] else [46] + fraction) + s),
                     LexFloat(whole, fraction, s).value.0, LexFloat(whole, fraction, s).value.1)
  {
    hide DigitsValue, Doubles.Round, FloatValue, Span, ExponentStart, ExponentAhead;
    var e: Option<Exponent> := None;
    if ExponentStart(s).Some? {
      var x := ExponentWritten(s);
      e := Some(x);
    } else {
      AheadIsStart(s);
    }
    l := Fractional(whole, fraction, e);
    var k := LexFloat(whole, fraction, s).value.1;
    assert s == ExponentText(e) + k;
    hide LexFloat, ExponentText, ExponentGood;
    Regroup4(whole, if fraction == [] then [] else [46] + fraction, ExponentText(e), k);
  }

  lemma AfterWholeWritten(whole: bytes, s: bytes) returns (l: Lexeme)
    requires Digits(whole) && !IsDigit(At(s, 0)) && LexAfterWhole(whole, s).Ok?
    requires !(whole == [48] && (At(s, 0) == 120 || At(s, 0) == 88))
    ensures StandsAt(l, whole + s, LexAfterWhole(whole, s).value.0, LexAfterWhole(whole, s).value.1)
  {
    hide DigitsValue, LexFloat, StandsAt, ExponentStart, FractionLength, Digits;
    if FractionLength(s) != 0 {
      l := FractionWritten(whole, s);
    } else if ExponentStart(s).Some? {
      l := FloatWritten(whole, [], s);
      assert [] + s == s;
    } else {
      l := Whole(whole);
      WholeWritten(whole, s);
    }
  }

  lemma FractionWritten(whole: bytes, s: bytes) returns (l: Lexeme)
    requires Digits(whole) && FractionLength(s) != 0
    requires var n := FractionLength(s); LexFloat(whole, s[1..n], s[n..]).Ok?
    ensures var n := FractionLength(s);
            var read := LexFloat(whole, s[1..n], s[n..]);
            StandsAt(l, whole + s, read.value.0, read.value.1)
  {
    FractionStops(s);
    hide LexFloat, StandsAt, ExponentStart, FractionLength, Digits;
    var n := FractionLength(s);
    l := FloatWritten(whole, s[1..n], s[n..]);
    assert s == [46] + s[1..n] + s[n..];
  }

  lemma FractionStops(s: bytes)
    requires FractionLength(s) != 0
    ensures var n := FractionLength(s); 2 <= n && s[0] == 46 && Digits(s[1..n]) && !IsDigit(At(s[n..], 0))
  {
    var n := FractionLength(s);
    var tail := s[1..];
    assert n < |s| ==> s[n] == tail[n - 1];
    hide Span;
  }

  lemma WholeWritten(whole: bytes, s: bytes)
    requires Digits(whole) && !IsDigit(At(s, 0)) && DigitsValue(whole, 10) < TWO63
    requires !(whole == [48] && (At(s, 0) == 120 || At(s, 0) == 88))
    requires FractionLength(s) == 0 && ExponentStart(s).None?
    ensures StandsAt(Whole(whole), whole + s, IntLit(DigitsValue(whole, 10)), s)
  {
    hide DigitsValue;
    AheadIsStart(s);
    hide ExponentStart, ExponentAhead;
  }

  lemma NumberWritten(s: bytes) returns (l: Lexeme)
    requires s != [] && IsDigit(s[0]) && LexNumber(s).Ok?
    ensures StandsAt(l, s, LexNumber(s).value.0, LexNumber(s).value.1)
  {
    hide LexHex, LexAfterWhole, StandsAt;
    if IsHexPrefix(s) {
      l := HexWritten(s);
    } else {
      var n := Span(s, IsDigit);
      hide Span;
      assert s == s[..n] + s[n..];
      assert n == 1 ==> At(s[n..], 0) == At(s, 1);
      assert s[..n] == [48] ==> n == 1 && s[0] == 48;
      l := AfterWholeWritten(s[..n], s[n..]);
    }
  }

  lemma PunctuatorText(c: byte, next: byte)
    requires Punctuator(c, next).Some?
    ensures var (t, n) := Punctuator(c, next).value; MarkText(t) == if n == 1 then [c] else [c, next]
  {
  }

  /** A mark is the longest that fits. */
  lemma PunctuatorEnds(c: byte, next: byte, k: bytes)
    requires Punctuator(c, next).Some? && !(c == 47 && (next == 47 || next == 42))
    requires Punctuator(c, next).value.1 == 1 ==> At(k, 0) == next
    ensures Ends(Mark(Punctuator(c, next).value.0), k)
  {
  }

  lemma MarkWritten(s: bytes)
    requires s != [] && Punctuator(s[0], At(s, 1)).Some?
    requires !(s[0] == 47 && (At(s, 1) == 47 || At(s, 1) == 42))
    ensures var (t, n) := Punctuator(s[0], At(s, 1)).value; n <= |s| && MarkText(t) == s[..n] && Ends(Mark(t), s[n..])
  {
    var n := Punctuator(s[0], At(s, 1)).value.1;
    PunctuatorText(s[0], At(s, 1));
    hide Punctuator, MarkText, Ends;
    assert n == 1 ==> At(s[1..], 0) == At(s, 1);
    PunctuatorEnds(s[0], At(s, 1), s[n..]);
  }

  lemma LexemeWritten(s: bytes) returns (l: Lexeme)
    requires s != [] && SkipTrivia(s) == Ok(s) && Scan(s).Ok?
    ensures StandsAt(l, s, Scan(s).value.0, Scan(s).value.1)
  {
    NoNote(s);
    hide SkipTrivia, LexWord, LexNumber, StringBody, Punctuator;
    if IsIdentStart(s[0]) {
      l := WordWritten(s);
    } else if IsDigit(s[0]) {
      l := NumberWritten(s);
    } else if s[0] == QUOTE {
      l := QuotationWritten(s);
    } else {
      var (t, n) := Punctuator(s[0], At(s, 1)).value;
      l := Mark(t);
      MarkWritten(s);
      hide MarkText, Ends;
      assert s == s[..n] + s[n..];
    }
  }

  lemma NoNote(s: bytes)
    requires s != [] && SkipTrivia(s) == Ok(s)
    ensures !(s[0] == 47 && (At(s, 1) == 47 || At(s, 1) == 42))
  {
  }

  lemma QuotationWritten(s: bytes) returns (l: Lexeme)
    requires s != [] && s[0] == QUOTE && StringBody(s[1..]).Ok?
    ensures StandsAt(l, s, StringLit(StringBody(s[1..]).value.0), StringBody(s[1..]).value.1)
  {
    hide StringBody, PiecesText, PiecesBytes, PiecesGood;
    var (text, rest) := StringBody(s[1..]).value;
    var ps := BodyWritten(s[1..]);
    l := Quotation(ps);
    assert s == [34] + s[1..];
    Regroup4([34], PiecesText(ps), [34], rest);
  }

  /** The gaps `s` starts with, and the note on its last line where nothing else is left. */
  lemma {:induction false} GapsWritten(s: bytes) returns (tail: Tail)
    requires SkipTrivia(s).Ok?
    ensures TailGood(tail) && s == TailText(tail) + SkipTrivia(s).value
    ensures tail.openNote.Some? ==> SkipTrivia(s).value == []
    decreases |s|
  {
    hide SkipLine, BlockEnd, GapText, GapGood, TailText, TailGood;
    var k := SkipTrivia(s).value;
    NoGaps(s);
    tail := Tail([], None);
    if s == [] {
    } else if IsSpace(s[0]) {
      var rest := GapsWritten(s[1..]);
      BlankText(s[0]);
      assert s == [s[0]] + s[1..];
      tail := Behind(Blank(s[0]), rest, s, s[1..], k);
    } else if s[0] == 35 {
      tail := NoteWritten(true, s);
    } else if s[0] == 47 && At(s, 1) == 47 {
      tail := NoteWritten(false, s);
    } else if s[0] == 47 && At(s, 1) == 42 {
      var after := BlockEnd(s[2..]).value;
      var note := BlockWritten(s[2..]);
      var rest := GapsWritten(after);
      BlockText(note);
      assert s == [47, 42] + s[2..];
      Regroup3([47, 42], note + [42, 47], after);
      assert [47, 42] + note + [42, 47] == [47, 42] + (note + [42, 47]);
      tail := Behind(BlockNote(note), rest, s, after, k);
    }
  }

  lemma NoGaps(s: bytes)
    ensures TailGood(Tail([], None)) && TailText(Tail([], None)) + s == s
  {
  }

  lemma BlankText(c: byte)
    requires IsSpace(c)
    ensures GapGood(Blank(c)) && GapText(Blank(c)) == [c]
  {
  }

  lemma BlockText(note: bytes)
    requires Unclosed(note)
    ensures GapGood(BlockNote(note)) && GapText(BlockNote(note)) == [47, 42] + note + [42, 47]
  {
  }

  lemma {:induction false} NoteWritten(hash: bool, s: bytes) returns (tail: Tail)
    requires SkipTrivia(s).Ok? && |NoteStart(hash)| <= |s| && s[..|NoteStart(hash)|] == NoteStart(hash)
    ensures TailGood(tail) && s == TailText(tail) + SkipTrivia(s).value
    ensures tail.openNote.Some? ==> SkipTrivia(s).value == []
    decreases |s|, 0
  {
    hide SkipLine, NoLineFeed, SkipTrivia, GapText, TailText, GapsGood;
    var from := s[|NoteStart(hash)|..];
    var note := LineWritten(from);
    var left := SkipLine(from);
    NoteLeaves(hash, s);
    if left == [] {
      tail := Tail([], Some((hash, note)));
      OpenNote(hash, note);
      assert note + [] == note && s == NoteStart(hash) + note;
    } else {
      var rest := GapsWritten(left[1..]);
      assert left == [10] + left[1..];
      assert s == NoteStart(hash) + note + [10] + left[1..] == GapText(LineNote(hash, note)) + left[1..] by {
        NoteText(hash, note);
      }
      tail := Behind(LineNote(hash, note), rest, s, left[1..], SkipTrivia(s).value);
    }
  }

  lemma NoteText(hash: bool, note: bytes)
    requires NoLineFeed(note)
    ensures GapText(LineNote(hash, note)) == NoteStart(hash) + note + [10] && GapGood(LineNote(hash, note))
  {
  }

  lemma OpenNote(hash: bool, note: bytes)
    requires NoLineFeed(note)
    ensures TailText(Tail([], Some((hash, note)))) == NoteStart(hash) + note && TailGood(Tail([], Some((hash, note))))
  {
    assert [] + (NoteStart(hash) + note) == NoteStart(hash) + note;
  }

  lemma NoteLeaves(hash: bool, s: bytes)
    requires |NoteStart(hash)| <= |s| && s[..|NoteStart(hash)|] == NoteStart(hash)
    ensures var left := SkipLine(s[|NoteStart(hash)|..]);
            SkipTrivia(s) == if left == [] then Ok([]) else SkipTrivia(left[1..])
  {
    var n := |NoteStart(hash)|;
    var left := SkipLine(s[n..]);
    var note := LineWritten(s[n..]);
    hide SkipLine;
    assert s[0] == s[..n][0] && (!hash ==> At(s, 1) == s[..n][1]);
    if left == [] {
      NothingSkipped();
    } else {
      BlankSkipped(10, left[1..]);
      assert left == [10] + left[1..];
    }
  }

  lemma {:induction false} LineWritten(s: bytes) returns (note: bytes)
    ensures NoLineFeed(note) && s == note + SkipLine(s)
    ensures SkipLine(s) == [] || SkipLine(s)[0] == 10
  {
    if s == [] || s[0] == LF {
      note := [];
    } else {
      var more := LineWritten(s[1..]);
      note := [s[0]] + more;
    }
  }

  lemma {:induction false} BlockWritten(s: bytes) returns (note: bytes)
    requires BlockEnd(s).Some?
    ensures Unclosed(note) && s == note + [42, 47] + BlockEnd(s).value
  {
    if s[0] == 42 && At(s, 1) == 47 {
      note := [];
      assert s == [42, 47] + s[2..];
    } else {
      var more := BlockWritten(s[1..]);
      note := [s[0]] + more;
      var t, u := note + [42, 47], more + [42, 47];
      assert t[1..] == u;
      assert At(s, 1) == u[0] by { assert s[1..] == u + BlockEnd(s).value; }
      assert forall i | 1 <= i < |note| :: t[i] == u[i - 1] && t[i + 1] == u[i];
    }
  }

  /** A gap in front of what was found. */
  lemma Behind(g: Gap, rest: Tail, s: bytes, after: bytes, k: bytes) returns (tail: Tail)
    requires GapGood(g) && TailGood(rest) && s == GapText(g) + after && after == TailText(rest) + k
    ensures TailGood(tail) && s == TailText(tail) + k && tail.openNote == rest.openNote
  {
    hide GapText, GapGood, NoLineFeed;
    tail := Tail([g] + rest.gaps, rest.openNote);
    assert tail.gaps[1..] == rest.gaps;
    Regroup4(GapText(g), GapsText(rest.gaps), if rest.openNote.None? then []
             else NoteStart(rest.openNote.value.0) + rest.openNote.value.1, k);
  }

  /** Text that scans to its end without an error was put together from gaps and lexemes. */
  lemma {:induction false} ScannedWritten(s: bytes) returns (parts: seq<Part>, tail: Tail)
    requires Ending(Lex(s)) == End(None)
    ensures PartsGood(parts, tail) && s == PartsText(parts, tail)
    decreases |s|
  {
    hide SkipTrivia, Scan, TailText, TailGood, LexemeGood, LexemeText, LexemeToken, Ends;
    tail := GapsWritten(s);
    var l := SkipTrivia(s).value;
    if l == [] {
      parts := [];
      assert TailText(tail) + [] == TailText(tail);
    } else {
      var (t, k) := Scan(l).value;
      SkippedOnce(s);
      var lexeme := LexemeWritten(l);
      var more, last := ScannedWritten(k);
      parts := [Part(tail.gaps, lexeme)] + more;
      assert parts[1..] == more;
      NoOpenNote(tail);
      tail := last;
    }
  }

  lemma NoOpenNote(tail: Tail)
    requires TailGood(tail) && tail.openNote.None?
    ensures TailText(tail) == GapsText(tail.gaps) && GapsGood(tail.gaps)
  {
  }

  lemma {:induction false} SkippedOnce(s: bytes)
    requires SkipTrivia(s).Ok?
    ensures SkipTrivia(SkipTrivia(s).value) == SkipTrivia(s)
    decreases |s|
  {
    hide SkipLine, BlockEnd;
    if s == [] {
    } else if IsSpace(s[0]) {
      SkippedOnce(s[1..]);
    } else if s[0] == 35 {
      SkippedOnce(SkipLine(s[1..]));
    } else if s[0] == 47 && At(s, 1) == 47 {
      SkippedOnce(SkipLine(s[2..]));
    } else if s[0] == 47 && At(s, 1) == 42 {
      SkippedOnce(BlockEnd(s[2..]).value);
    }
  }

  // ---- errors

  /** Only a decimal number can be too large; every other fault is one of form. */
  lemma ScanFault(s: bytes)
    requires s != [] && Scan(s).Err?
    ensures Scan(s).code == if IsDigit(s[0]) && !(s[0] == 48 && (At(s, 1) == 120 || At(s, 1) == 88)) then BadLength
                            else BadType
  {
    hide Span, DigitsValue, FloatValue, FloatToken, HexAccumulator, Punctuator, LexWord, LexFloat, ExponentStart;
    if s[0] == QUOTE {
      BodyFault(s[1..]);
    } else if IsDigit(s[0]) && !IsHexPrefix(s) {
      hide StringBody;
      var n := Span(s, IsDigit);
      AfterWholeFault(s[..n], s[n..]);
    }
  }

  lemma AfterWholeFault(whole: bytes, s: bytes)
    requires forall i | 0 <= i < |whole| :: IsDigit(whole[i])
    ensures LexAfterWhole(whole, s).Err? ==> LexAfterWhole(whole, s).code == BadLength
  {
    hide Span, DigitsValue, FloatValue, ExponentStart, FractionLength, Doubles.Round;
  }

  lemma {:induction false} BodyFault(s: bytes)
    ensures StringBody(s).Err? ==> StringBody(s).code == BadType
    decreases |s|
  {
    hide Span, DigitsValue, Utf8.Encode, Utf8.IsScalar;
    if s != [] && s[0] != QUOTE && s[0] != LF {
      if s[0] == BACKSLASH {
        if Escape(s).Ok? {
          BodyFault(Escape(s).value.1);
        }
      } else {
        BodyFault(s[1..]);
      }
    }
  }

  // ---- main result

  /** The text was put together from those parts, and its tokens are theirs. */
  ghost predicate IsSource(s: bytes, parts: seq<Part>, tail: Tail, ts: Stream) {
    PartsGood(parts, tail) && s == PartsText(parts, tail) && ts == PartsTokens(parts, tail)
  }

  /** A text scans to its end exactly when it was put together from gaps and lexemes, and to their tokens. */
  lemma LexExactly(s: bytes, ts: Stream)
    ensures Lex(s) == ts && Ending(ts) == End(None) <==> exists parts, tail :: IsSource(s, parts, tail, ts)
  {
    hide Lex, PartsGood, PartsText, PartsTokens;
    if Lex(s) == ts && Ending(ts) == End(None) {
      var parts, tail := ScannedWritten(s);
      SourceScans(parts, tail);
      assert IsSource(s, parts, tail, ts);
    }
    if exists parts, tail :: IsSource(s, parts, tail, ts) {
      var parts, tail :| IsSource(s, parts, tail, ts);
      SourceScans(parts, tail);
      PartsEnd(parts, tail);
    }
  }

  lemma {:induction false} PartsEnd(parts: seq<Part>, tail: Tail)
    requires PartsGood(parts, tail)
    ensures Ending(PartsTokens(parts, tail)) == End(None)
    decreases |parts|
  {
    if parts != [] {
      LexemeIsToken(parts[0].lexeme);
      hide LexemeToken, LexemeGood, Ends, GapsGood;
      PartsEnd(parts[1..], tail);
    }
  }

  lemma LexemeIsToken(l: Lexeme)
    requires LexemeGood(l)
    ensures LexemeToken(l) != Eof
  {
  }
}
