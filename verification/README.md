# Bytewright, modelled and verified

Bytewright is a C++ library of four format codecs over small byte and bit cursors:

* **cfgscript**, a configuration language: scanner, precedence-climbing parser, evaluator with nested
  scopes, canonical serializer, path queries and document differences;
* **streamcodec**, framed messages: fragmenting encoder, resynchronising frame reader, out-of-order
  reassembler, reordering delivery queue and a run-length transform;
* **binpack**, a checksummed container of nested tagged records;
* **minidb**, a page file with a write-ahead journal, overflow chains and index pages.

This project models those parts and proves what they are for. Code that works step by step is modelled by
methods and classes with the same fields and loops, each proved against a specification function; the laws
are lemmas about those functions, for every input, every run or every reachable state. A thrown
`ParseError` is an `Err` with its code.

## Main results

* *Text.* Any document reads back from what the serializer writes, in every layout, exactly when its nesting
  fits the depth budget and everything in it has a source form: names are identifiers, INT64_MIN is nowhere
  and each float is, but for its sign, the double nearest to some number of six decimals. A document of
  identifiers and finite floats that is read back changed reads back unchanged from then on. From bytes on,
  text parses exactly when it was put together from lexemes whose tokens spell statements of the grammar.
  Every expression form has its law: which branch a ternary takes, what short circuit leaves out, which scope
  a name is looked up in; integer operators are arithmetic modulo 2^64, float operators give the nearest
  double, and every refusal has its code. Comparisons chain except around NaN and around a float two integers
  both round to. The layout is exact: which text is on one line, and every line and indentation of one that is
  not. A difference of two flattened documents is a patch, in line order.
* *Stream.* Fragments of any number of messages, shuffled and interleaved, decode to each message exactly
  once. The search for a sync word stops at the first within 4096 bytes, so frames decode alike with fewer
  bytes than that between them, no sync word among them, and without. Among frames of every kind a DATA frame
  emits exactly when FIN has come and the bytes claimed since its message last completed or its stream was
  reset are an initial segment that reaches the announced end, and every byte of what comes out is that of the
  last frame to claim it. The vector-and-index reassembler behaves as a map from message to partial; a RESET
  keeps that exactly when no survivor sits behind two dropped slots.
* *Delivery and run lengths.* Over any run of offers and flushes nothing is lost or invented, the window holds
  and no release is behind the cursor, which wraps after the last 32-bit id; ids ascend exactly while the
  calls behind that wrap are quiet. What one offer releases, holds, drops and counts is told by ids alone, and
  gaps counted are jumps among the releases. Decompression undoes compression, and the size bound is exact.
* *Containers.* A built container parses back to its trimmed records exactly when its version is 1, no
  key-value lacks a child and the tallest tree fits the depth budget, and is refused otherwise. One altered
  byte in a container with a trailer never goes unnoticed. Any file parses exactly when its bytes stand where
  the format puts them, and any byte string is records exactly when it lays them out.
* *Database.* The bytes of a log read back as its ops, and replay is atomic: each key has the bytes of the
  last op on it that took effect. Every field of a page and its slots is told by its bytes. The overflow walk
  ends on every page graph with the one outcome its chain determines. Index lookups agree with linear search
  of the wire order.
* *Primitives.* Table CRC-32 is bit-by-bit division by its generator polynomial, leaves one remainder on every
  sealed message and detects every one-byte change; LEB128, zig-zag and UTF-8 are bijections on their ranges;
  the bit reader's fast path equals single-bit reads.

## Where the code disagrees with its documentation or with itself

* `include/streamcodec/transform.hpp:43` promises compressed sizes of at most n + ceil(n/128). "abbcdd"
  takes 8 bytes for 6 (`RunLength.DocumentedBoundFails`). `RunLengthBound.DocumentedBoundExactly` says
  which run lengths keep the promise, and `NoPairsKeepBound` that inputs without a run of exactly two do;
  n + ceil(n/3) holds for all, and some input of every length takes all of it.
* `src/streamcodec/reassembler.cpp:143-146` says a RESET slides index entries to match the store. They
  slide by one however many slots were dropped (`:176-182`). `Reassembling.SlideVerdict` says exactly when
  that is right, `StreamDecoding.PastTheEnd` gives five frames of which the last reads past the end of the
  store, and `CountedAgrees` proves the slide the comment describes.
* `src/streamcodec/reassembler.cpp:42-53` wants a single range, so a stray range behind the end withholds
  completion although every byte is there (`ReassemblyLaw.StrayWithholds`). `CompletionLaw.EmitsExactlyWhen`
  says exactly which frames complete a message.
* `include/cfgscript/serializer.hpp:3-5` aims at text that parses into an equivalent document. The smallest
  integer is written as a minus sign and digits that `src/cfgscript/lexer.cpp:199-264` refuses
  (`CfgLimits.SmallestIntRefused`), and a float below half a millionth is written as zero
  (`CfgFloatText.TinyIsLost`); infinities and NaN are written as the names `inf` and `nan`
  (`CfgDocumentLaw.TextIsFinite`). `CfgReadBack.ReadsBackExactly` says exactly which documents read back.
* `src/cfgscript/evaluator.cpp:34-47` compares two integers exactly but rounds an integer next to a float, and
  answers zero for NaN, so neither `<=` nor `==` is transitive: 2^53 + 1, the float 2^53 and 2^53
  (`CfgComparisonLaw.RoundingBreaksChains`); 1, NaN and 0 (`NaNBreaksChains`), where NaN is
  `1e308 * 10 - 1e308 * 10` (`CfgNaN.NaNFromText`). `OrderChainsExactly` and `EqualityChainsExactly` say
  exactly which triples chain.
* `src/streamcodec/delivery.cpp:14-26` wraps its cursor after the id 2^32 - 1: a repeat of that id is then held
  instead of dropped (`Delivery.LastIdWraps`), and id 0 is released behind it
  (`DeliveryOrdering.WrapsOutOfOrder`). `AscendsExactly` says exactly which runs release ascending ids.
* `src/binpack/builder.cpp:52-124` writes one child of a key-value and none of none, where
  `src/binpack/record_parser.cpp:81-148` wants one: further children are dropped without a complaint, and a
  missing one makes a container its own parser refuses (`BinpackTrimming.RecordReadsBackTrimmed`).
* `include/cfgscript/value.hpp:101-102` lists null, false, 0, 0.0 and "" as what counts as false; empty arrays
  and objects do as well (`src/cfgscript/value.cpp:27-28`, `CfgMeaning.TernaryLaw`).
* `include/cfgscript/parser.hpp:30` has no stray semicolons between the members of an object; the parser
  reads over them (`CfgParserSpec.StraySemicolonAccepted`).

## Model

| member | source | states |
|---|---|---|
| CfgReadBack.ReadsBackExactly | src/cfgscript/serializer.cpp:59-236 | Any document whatever comes back from its text, in every layout, if and only if all its names are identifiers of the scanner, INT64_MIN is nowhere in it, every float is up to sign the double nearest to some number of six decimals, and its nesting fits the budget of 64 |
| CfgReadBack.ReadableExactly | src/cfgscript/serializer.cpp:59-236 | Where the text scans: it reads back exactly if INT64_MIN is nowhere, the nesting fits and all floats are finite and survive printing; with finite floats text that parses is the document with its floats as printed, and where only the nesting is too deep the error is DepthExceeded |
| CfgSettles.SettlesAtOnce | include/cfgscript/serializer.hpp:3-8 | Whatever the text of a document of finite floats is read back as reads back as itself, from any layout |
| CfgParsed.ParsedIsProper | src/cfgscript/document.cpp:171-179 | Every document that any text parses to has identifiers of the scanner for names, paths that are not empty, and doubles for floats |
| CfgDocumentLaw.TextIsFinite | src/cfgscript/serializer.cpp:36-41 | Infinities and NaN are written as names, and whatever the text of a document reads back as holds none |
| CfgReadBack.RereadExactly | src/cfgscript/serializer.cpp:36-41 | Printing and reading leaves a value alone exactly when it does each float inside |
| CfgFloatText.SurvivesExactly | src/cfgscript/serializer.cpp:36-41 | A finite double survives printing if and only if it is the double nearest to some number of six decimals |
| CfgFloatText.SixDecimalsSurvive | src/cfgscript/serializer.cpp:36-41 | What is written with at most six decimals, below 2^32, is printed and read back as the same double |
| CfgFloatText.SixtyFourthsSurvive | src/cfgscript/serializer.cpp:36-41 | Whole doubles of any size, and multiples of 1/64, survive |
| CfgFloatText.TinyIsLost | src/cfgscript/serializer.cpp:36-41 | A float other than zero below half a millionth is read back as zero |
| CfgFloatText.FiniteScans | src/cfgscript/serializer.cpp:36-41 | The text of every finite double scans |
| CfgFloatText.LexDecimals | src/cfgscript/lexer.cpp:224-263 | Six decimals scan to the double nearest to the number they name |
| CfgReadBack.SmallestRefused | src/cfgscript/lexer.cpp:199-264 | INT64_MIN anywhere, in arrays, objects, blocks or later statements, makes the text unreadable in every layout |
| CfgText.TextExactly | src/cfgscript/parser.cpp:80-179 | Text parses to a statement list if and only if it was put together from blanks, comments and lexemes, each the longest that fits, whose tokens spell that list, and the nesting fits the budget |
| CfgSource.LexExactly | src/cfgscript/lexer.cpp:65-358 | Text scans to its end without an error if and only if it was put together from gaps and lexemes, and to their tokens: words, decimal, hexadecimal and float numbers, strings of bytes and escapes, and every mark |
| CfgSource.SourceScans | src/cfgscript/lexer.cpp:108-180 | Whatever gaps and lexemes are put together, one lexeme not going on in the next, scan to the tokens they stand for |
| CfgSource.LexemeRead | src/cfgscript/lexer.cpp:108-358 | A lexeme that ends here is scanned up to here, as its keyword or name, its decimal value, its hexadecimal value in 64 bits, the double nearest to what its digits say, its unescaped bytes, or its mark |
| CfgSource.LexemeWritten | src/cfgscript/lexer.cpp:108-358 | Whatever scans is such a lexeme, and nothing behind it goes on with it |
| CfgSource.GapsWritten | src/cfgscript/lexer.cpp:65-106 | What is skipped is blanks, `#` and `//` lines and closed block comments, and at the end of the text perhaps a line without a line feed |
| CfgSource.ScanFault | src/cfgscript/lexer.cpp:108-358 | A decimal number fails only with BadLength, everything else only with BadType |
| CfgEbnf.ExprExactly | include/cfgscript/parser.hpp:12-30 | The header's grammar, production by production, derives exactly the trees the parser answers, stray semicolons in objects aside |
| CfgEbnf.DerivesExactly | include/cfgscript/parser.hpp:14-26 | Each production derives exactly the trees whose operators bind at its place or tighter, left-associative |
| CfgReadBack.ParsedToTheEnd | src/cfgscript/parser.cpp:86-94 | A document is parsed up to the end of its text, and no lexical error stands there |
| CfgLimits.WithinLimits | src/cfgscript/parser.cpp:80-94 | Blocks nested up to 63 deep and values nested up to 30 deep always read back, floats as printed |
| CfgLimits.LimitIsTight | src/cfgscript/parser.cpp:198-310 | Thirty is tight: a negative integer inside n arrays reads back exactly for n at most 30 |
| CfgLimits.SmallestIntRefused | src/cfgscript/lexer.cpp:199-264 | The assignment of INT64_MIN alone fails with BadLength, under every name and layout |
| CfgLexRoundTrip.UnescapeEscape | src/cfgscript/serializer.cpp:193-224 | Scanning a string literal inverts escaping on all byte strings, whatever follows |
| CfgLexRoundTrip.LexQuoted | src/cfgscript/serializer.cpp:43-47 | A quoted string is scanned as one literal token with the original bytes |
| CfgLexRoundTrip.LexNatText | src/cfgscript/lexer.cpp:199-264 | Decimal text before anything that does not continue a number scans as its value below 2^63 and is refused with BadLength from there on |
| CfgLexRoundTrip.LexWordText | src/cfgscript/lexer.cpp:182-197 | A word followed by a non-word byte scans as exactly that keyword or identifier |
| CfgRoundTrip.LexValue | src/cfgscript/serializer.cpp:59-139 | The text of a value scans to the same tokens for every indentation and depth, up to the digits of INT64_MIN, where they end in BadLength |
| CfgRoundTrip.TokensSpell | src/cfgscript/parser.cpp:181-330 | Without INT64_MIN those tokens are the ones of one concrete tree |
| CfgRoundTrip.LexNode | src/cfgscript/serializer.cpp:151-182 | The text of a statement, blocks and labels included, scans to the same tokens for every indentation |
| CfgRoundTrip.NodeSpells | src/cfgscript/parser.cpp:96-179 | Without INT64_MIN those tokens are the ones of a statement of the grammar |
| CfgRoundTrip.ValueFormed | src/cfgscript/parser.cpp:181-330 | The tree of a value's text belongs to the grammar, and reading it takes exactly two levels per aggregate and one for a minus sign |
| CfgDocumentLaw.ParseNode | src/cfgscript/parser.cpp:96-179 | The tokens of a statement parse to that statement with nothing else consumed, or run out of depth |
| CfgDocumentLaw.EvaluateValue | src/cfgscript/evaluator.cpp:175-331 | Evaluating the tree of a value's text gives the value, its floats as printed, in any scope |
| CfgDocumentLaw.BuildBack | src/cfgscript/document.cpp:29-72 | Building the statements of a document's text gives its nodes back, floats as printed, whatever names are already bound |
| CfgParserSpec.ExpressionExact | src/cfgscript/parser.cpp:181-330 | The descent returns a tree and a rest if and only if the input is that tree of the stratified grammar followed by a token that cannot continue it, within the depth budget |
| CfgParserSpec.ClimbingExact | src/cfgscript/parser.cpp:198-215 | One climbing call returns exactly the maximal operator run that binds at its level or tighter, as the tree with left-associative precedence |
| CfgParserSpec.GrammarUnambiguous | include/cfgscript/parser.hpp:12-30 | One token run spells at most one tree of the grammar, and where the expression ends is fixed |
| CfgStatements.DocumentExact | src/cfgscript/parser.cpp:86-179 | The statement parser answers a statement list if and only if the input spells it, with empty statements, labels, includes and dotted paths, up to the end of the input, and the depth budget covers it |
| CfgStatements.DocumentComplete | include/cfgscript/parser.hpp:5-10 | Every spelled statement list parses to its statements, or is refused for depth exactly when its need passes the limit |
| CfgStatements.StatementComplete | src/cfgscript/parser.cpp:96-179 | One spelled statement parses to itself with nothing else consumed, or runs out of depth |
| CfgStatements.DocumentSound | src/cfgscript/parser.cpp:86-179 | Whatever parses was spelled by statements of the grammar |
| CfgParserSpec.LoopSound | src/cfgscript/parser.cpp:198-215 | The climbing loop keeps left children at least as tight and right children tighter than their operator |
| CfgParserSpec.BinaryComplete | src/cfgscript/parser.cpp:198-215 | Every grammar tree of sufficient level is read back, the whole left spine at one depth |
| CfgParserSpec.TernaryComplete | src/cfgscript/parser.cpp:181-196 | Every grammar tree is read back, or refused for depth exactly when its need passes the limit |
| CfgParserSpec.PrimaryComplete | src/cfgscript/parser.cpp:231-291 | Leaves, parentheses, arrays and objects are read back, or refused for depth exactly when their need passes the limit |
| CfgParserSpec.ElemsComplete | src/cfgscript/parser.cpp:293-310 | Element lists read back with and without one trailing comma |
| CfgParserSpec.ItemsComplete | src/cfgscript/parser.cpp:312-330 | Member lists with stray semicolons read back |
| CfgParserSpec.StraySemicolonAccepted | src/cfgscript/parser.cpp:312-330 | `{ ; }` is read as an empty object |
| CfgParser.Parser.ParseTernary | src/cfgscript/parser.cpp:181-196 | The method consumes and answers exactly what the grammar descent reads, as an abstract tree |
| CfgParser.Parser.ParseBinary | src/cfgscript/parser.cpp:198-215 | The in-place climbing loop agrees with the descent on tree, rest and error |
| CfgParser.Parser.ParseUnary | src/cfgscript/parser.cpp:217-229 | Agrees with the descent on tree, rest and error |
| CfgParser.Parser.ParsePrimary | src/cfgscript/parser.cpp:231-291 | Agrees with the descent on tree, rest and error |
| CfgParser.Parser.ParseElements | src/cfgscript/parser.cpp:293-310 | The element loop collects exactly the elements the descent reads |
| CfgParser.Parser.ParseFields | src/cfgscript/parser.cpp:312-330 | The member loop collects exactly the members the descent reads, skipping stray semicolons |
| CfgParser.Parser.ParseStatement | src/cfgscript/parser.cpp:96-144 | Include, block or assignment, as the statement grammar decides, with its errors |
| CfgParser.Parser.ParseBlock | src/cfgscript/parser.cpp:146-162 | The children up to the closing brace, one level deeper |
| CfgParser.Parser.ParseAssignment | src/cfgscript/parser.cpp:164-177 | The expression of an assignment under its dotted path, up to the semicolon |
| CfgParser.Parser.ParseDocument | src/cfgscript/parser.cpp:86-94 | The whole statement list or the first error |
| CfgLexer.Lexer.SkipTrivia | src/cfgscript/lexer.cpp:65-106 | The cursor ends behind all blanks and comments; an unclosed block comment is an error |
| CfgLexer.Lexer.Next | src/cfgscript/lexer.cpp:108-180 | The token at the cursor and the input after it, as the scanner specification reads them |
| CfgLexer.Lexer.LexIdentOrKeyword | src/cfgscript/lexer.cpp:182-197 | The longest word, as keyword or identifier |
| CfgLexer.Lexer.LexNumber | src/cfgscript/lexer.cpp:199-264 | Hex, decimal and float forms, backing off where no digit follows a point or an exponent mark; a float is the nearest double, and BadLength where that is infinite |
| CfgLexSpec.HexAccumulatorIsValue | src/cfgscript/lexer.cpp:199-264 | A hex literal is its value modulo 2^64 |
| CfgLexer.Lexer.LexString | src/cfgscript/lexer.cpp:288-358 | The decoded literal and the input behind its closing quote, or the error of the first bad escape |
| CfgLexer.Lexer.ReadScalar | src/cfgscript/lexer.cpp:288-358 | At most six hex digits of a scalar escape are read and summed; a seventh is noticed |
| CfgLexer.Lexer.AppendUtf8 | src/cfgscript/lexer.cpp:266-286 | Appends what the UTF-8 library encodes and refuses exactly the non-scalars |
| CfgMeaning.TernaryLaw | src/cfgscript/evaluator.cpp:235-239 | A ternary is its second branch, one level deeper, if its condition is null, false, 0, 0.0, "", [] or {}, and else its first |
| CfgMeaning.AndLaw | src/cfgscript/evaluator.cpp:243-248 | `&&` is false behind a left side of that kind whatever the right side is, even an error; else it is the truth of the right side |
| CfgMeaning.OrLaw | src/cfgscript/evaluator.cpp:249-254 | `||` is true behind any other left side whatever the right side is; else it is the truth of the right side |
| CfgMeaning.BinaryLaw | src/cfgscript/evaluator.cpp:256-326 | Every other operator evaluates both sides one level deeper and fails as the left one does, then as the right one |
| CfgMeaning.ErrorsPass | src/cfgscript/evaluator.cpp:212-260 | An error in an operand, a condition or a left side is the error of the whole |
| CfgMeaning.UnaryLaw | src/cfgscript/evaluator.cpp:212-233 | A unary operator takes the value of its operand one level deeper |
| CfgMeaning.LevelLaw | src/cfgscript/evaluator.cpp:28-32 | Parentheses cost no level; nothing is evaluated past the sixty-fourth |
| CfgMeaning.LeafLaw | src/cfgscript/evaluator.cpp:178-192 | Literals are their values; a name is what it is bound to, or a StateViolation |
| CfgMeaning.ArrayLaw | src/cfgscript/evaluator.cpp:194-201 | An array holds the values of its elements in order, or fails as the first of them that fails |
| CfgMeaning.ObjectLaw | src/cfgscript/evaluator.cpp:203-210 | An object holds its members' values under their keys, in order, or fails as the first that fails |
| CfgMeaning.LookupLaw | include/cfgscript/environment.hpp:34-42 | A name is what the innermost scope that has it says, and nothing exactly if no scope has it |
| CfgMeaning.StatementsSee | src/cfgscript/document.cpp:29-72 | Every statement becomes its node in a scope in which a name is what the last assignment before it said, or else what is around the list; a block leaves nothing behind |
| CfgMeaning.BlockSees | src/cfgscript/document.cpp:29-72 | A block starts out seeing exactly what is around it |
| CfgMeaning.FirstFailure | src/cfgscript/document.cpp:29-72 | A list of statements fails as the first of them that fails in the scope before it |
| CfgOperatorLaw.NotLaw | src/cfgscript/evaluator.cpp:223-224 | `!` is true exactly on null, false, 0, 0.0, "", [] and {} |
| CfgOperatorLaw.ComplementLaw | src/cfgscript/evaluator.cpp:225-228 | `~` turns over each of the 64 bits, and wants an integer |
| CfgOperatorLaw.MinusLaw | src/cfgscript/evaluator.cpp:215-222 | `-` adds up to zero with an integer modulo 2^64, turns the sign of a float, infinities included, and wants a number |
| CfgOperatorLaw.IntegerLaw | src/cfgscript/evaluator.cpp:100-140 | Sum, difference and product of integers are those of arithmetic up to a multiple of 2^64 |
| CfgOperatorLaw.ConcatLaw | src/cfgscript/evaluator.cpp:79-89 | `+` next to a string joins two texts, left before right: strings as they are, integers in decimal, `true`, `false`, `null`, floats with six decimals, nothing for an array or object |
| CfgOperatorLaw.FloatLaw | src/cfgscript/evaluator.cpp:100-171 | `+ - * /` with a float give the exact result of the two doubles, rounded so that no double is nearer; at infinities and NaN what IEEE 754 says; dividing by zero is a StateViolation |
| CfgOperatorLaw.BitLaw | src/cfgscript/evaluator.cpp:284-293 | `&`, `|` and `^` act on each of the 64 bits by itself |
| CfgOperatorLaw.OnePlaceLaw | src/cfgscript/evaluator.cpp:266-283 | A shift by one doubles or halves down; by none it changes nothing |
| CfgOperatorLaw.RefusesExactly | src/cfgscript/evaluator.cpp:90-171 | For every operator and all operands, exactly when it refuses and with which code |
| CfgOperatorLaw.LessLaw | src/cfgscript/evaluator.cpp:34-49 | Two integers compare as integers, numbers with a float as doubles, strings byte by byte with the shorter first |
| CfgOperatorLaw.EqualIsSame | src/cfgscript/evaluator.cpp:51-77 | Values without floats are equal exactly if they are the same value |
| CfgEvaluator.DepthOnlyCutsOff | src/cfgscript/evaluator.cpp:175-331 | An evaluation that does not hit the depth check has the same value or error from every shallower depth |
| CfgEvaluatorLaw.IntegerRing | src/cfgscript/evaluator.cpp:100-140 | Sum, difference, product and negation form a commutative ring on 64-bit values, so overflow wraps consistently however operations are grouped |
| CfgEvaluatorLaw.DivisionLaw | src/cfgscript/evaluator.cpp:142-171 | Quotient and remainder give the dividend back exactly, with the remainder on the dividend's side of zero and smaller than the divisor, for all operands but INT64_MIN by -1 |
| CfgEvaluatorLaw.BitwiseLaw | src/cfgscript/evaluator.cpp:284-293 | The three bitwise operators add up with each other as bits do, and satisfy De Morgan with the complement |
| CfgEvaluatorLaw.ShiftLaw | src/cfgscript/evaluator.cpp:266-283 | Two shifts in one direction are one by the sum of their amounts, bits lost on the left and the sign kept on the right |
| CfgComparisonLaw.Trichotomy | src/cfgscript/evaluator.cpp:294-323 | Of two numbers or two strings exactly one of less, equal and greater holds, the four comparisons agree with it and with equality; anything else is BadType |
| CfgComparisonLaw.OrderChainsExactly | src/cfgscript/evaluator.cpp:34-47 | Less-or-equal is transitive on three values, NaN and infinities included, if and only if they are not two integers, the larger first, around the float both round to, nor two numbers, the larger first, around NaN |
| CfgComparisonLaw.StrictOrderChains | src/cfgscript/evaluator.cpp:34-47 | Strictly-less is transitive across integers, floats and strings, rounding and NaN included |
| CfgComparisonLaw.RoundAlikeBreaks | src/cfgscript/evaluator.cpp:34-47 | Two integers are out of order and yet some float other than NaN is at least the larger and at most the smaller, exactly when the two round to one double |
| CfgComparisonLaw.SmallChain | src/cfgscript/evaluator.cpp:34-47 | Among integers of at most 53 bits, floats and strings less-or-equal is transitive unless the middle one is NaN |
| CfgComparisonLaw.RoundingBreaksChains | src/cfgscript/evaluator.cpp:34-47 | 2^53 + 1, the float 2^53 and 2^53: neither less-or-equal nor equality chains |
| CfgComparisonLaw.NaNBreaksChains | src/cfgscript/evaluator.cpp:34-47 | 1, NaN and 0: neither less-or-equal nor equality chains |
| CfgComparisonLaw.EqualToItself | src/cfgscript/evaluator.cpp:49-78 | Every value equals itself |
| CfgComparisonLaw.EqualBothWays | src/cfgscript/evaluator.cpp:49-78 | Equality is symmetric through nested arrays and objects |
| CfgComparisonLaw.EqualityChainsExactly | src/cfgscript/evaluator.cpp:49-78 | Equality chains through nested arrays and objects if and only if nowhere inside two different integers stand around a float or two unequal numbers around NaN |
| CfgNaN.NaNFromText | src/cfgscript/evaluator.cpp:100-140 | The text `x = 1e308 * 10 - 1e308 * 10;` parses to the document in which x is NaN |
| CfgNaN.LargeLexed | src/cfgscript/lexer.cpp:224-263 | `1e308` before a blank is one float token: a finite double, ten times which rounds to infinity |
| CfgNaN.LexScientific | src/cfgscript/lexer.cpp:224-263 | Digits, an exponent mark and digits are one float token, the rounding of the number they denote |
| CfgFloatLaw.EvaluateRounded | src/cfgscript/evaluator.cpp:175-331 | Every float an expression over doubles evaluates to is a double, an infinity or NaN, and every object key in it comes from the expression or the scopes |
| Doubles.ToDoubleIsNearest | include/cfgscript/value.hpp:96-99 | Every integer converts to a double, no double is nearer to it, and where another is as near the last significant bit of the result is clear |
| Doubles.RoundIsNearest | src/cfgscript/evaluator.cpp:100-171 | Rounding gives a nearest double |
| Doubles.ConversionIsRounding | include/cfgscript/value.hpp:96-99 | Converting a 64-bit integer is the rounding that float literals and float results get |
| Doubles.RoundMonotone | src/cfgscript/evaluator.cpp:100-171 | Rounding a result never reverses an order, overflow to infinity included |
| Doubles.RoundIsRounded | src/cfgscript/evaluator.cpp:100-171 | A rounded result has 53 significant bits and an exponent in range |
| Doubles.ToDoubleMonotone | include/cfgscript/value.hpp:96-99 | Conversion never reverses the order of two integers |
| Doubles.SmallAreExact | include/cfgscript/value.hpp:96-99 | Integers of at most 53 bits are converted exactly |
| CfgEvaluator.TruncatedDiv | src/cfgscript/evaluator.cpp:142-171 | Division toward zero: the remainder takes the dividend's sign and is smaller than the divisor |
| CfgDocument.BuildNodes | src/cfgscript/document.cpp:29-72 | The loop over an environment object yields the specified nodes and leaves the specified bindings |
| CfgDocument.BuildNode | src/cfgscript/document.cpp:29-72 | A block is built in a fresh scope that vanishes with it; an assignment binds the last path component |
| CfgDocument.ParseText | src/cfgscript/document.cpp:171-179 | Text to document, the error of the first failing stage otherwise |
| CfgDocument.Environment.Define | include/cfgscript/environment.hpp:28-30 | Binds in the innermost scope and changes no other |
| CfgDocument.Environment.LookupName | include/cfgscript/environment.hpp:34-42 | The innermost binding in the chain of scopes |
| CfgLayout.OneLineExactly | src/cfgscript/serializer.cpp:55-139 | The text of a value holds a line feed exactly if some array or object inside has more members than the threshold, or a key holds one |
| CfgLayout.InlineLaw | src/cfgscript/serializer.cpp:59-112 | Up to the threshold elements stand in brackets with commas and blanks between them, members in braces with blanks |
| CfgLayout.ArrayLines | src/cfgscript/serializer.cpp:59-82 | Past the threshold the lines of an array are its bracket, one for each element, indented by (depth + 1) times the width and closed by a comma, and the other bracket at its own level |
| CfgLayout.ObjectLines | src/cfgscript/serializer.cpp:84-112 | The same for an object and its members, each closed by a semicolon |
| CfgLayout.ValueStarts | src/cfgscript/serializer.cpp:114-139 | No value starts with a blank, so those are all the blanks its line starts with |
| CfgLayout.StatementHead | src/cfgscript/serializer.cpp:151-182 | A statement is its head at its own level, and for a block with children the children one level deeper and the brace at its own |
| CfgLayout.BlockLines | src/cfgscript/serializer.cpp:151-182 | The lines of a block: its head, one for each child, one level deeper, and its brace |
| CfgLayout.DocumentLines | src/cfgscript/serializer.cpp:184-236 | The lines of a document: one for each statement that fits on one, not indented |
| CfgRenderer.EscapeInto | src/cfgscript/serializer.cpp:193-224 | The loop appends the canonical escape of every byte |
| CfgRenderer.RenderValue | src/cfgscript/serializer.cpp:114-139 | Appends the value's canonical text to what is already out |
| CfgRenderer.RenderArray | src/cfgscript/serializer.cpp:59-82 | Appends the array's text, on one line up to the threshold and one element a line beyond it |
| CfgRenderer.RenderObject | src/cfgscript/serializer.cpp:84-112 | Appends the object's text in the matching layout |
| CfgRenderer.RenderPath | src/cfgscript/serializer.cpp:141-146 | Appends the components with single dots between them |
| CfgRenderer.RenderNode | src/cfgscript/serializer.cpp:151-182 | Appends the statement's text, children indented one level deeper |
| CfgRenderer.Serialize | src/cfgscript/serializer.cpp:232-236 | The text the round-trip law is about |
| CfgPath.TokenizesExactly | src/cfgscript/query.cpp:40-83 | A path is taken if and only if it is names and bracketed indexes, a name first, with a dot between two names and one or none elsewhere, and as those steps, an index modulo 2^64 |
| CfgPath.WalksExactly | src/cfgscript/query.cpp:85-110 | A walk gets to a value exactly through places each of which leads on to the next: the element of that index, or the first member of that name |
| CfgQuery.Tokenize | src/cfgscript/query.cpp:40-81 | The steps of a path, or none where it is malformed |
| CfgQuery.WalkValue | src/cfgscript/query.cpp:85-108 | The value the steps lead to, first matching member at each name |
| CfgFlatten.FlattenInto | src/cfgscript/flatten.cpp:43-73 | Appends one line for each leaf of the value |
| CfgFlatten.PathReadsBack | src/cfgscript/query.cpp:40-81 | A printed path tokenizes to the steps it was printed from |
| CfgLeaves.LinesExactly | src/cfgscript/flatten.cpp:43-74 | A walk ends at a scalar, an empty array or an empty object if and only if there is a line whose path reads back as that walk, and the line has the canonical text of what is there |
| CfgLeaves.OnlySuchLines | src/cfgscript/flatten.cpp:43-74 | And every line is one of those |
| CfgFlatten.FlattenedPathsResolve | src/cfgscript/flatten.cpp:27-73 | Flattened lines have distinct paths, and each path tokenizes and walks to the leaf whose rendering the line holds |
| CfgFlatten.Diff | src/cfgscript/flatten.cpp:145-195 | The two scanning loops compute the specified difference |
| CfgFlatten.DiffAt | src/cfgscript/flatten.cpp:145-195 | For every path the difference lists exactly the change between the two last-write-wins maps |
| CfgDiffOrder.DiffOrdered | src/cfgscript/flatten.cpp:145-195 | A difference lists what is gone in the order of the old lines, then what is new or other in the order of the new ones, each path where it is first listed |
| CfgFlatten.DiffIsPatch | src/cfgscript/flatten.cpp:145-195 | Each path at most once; applied to the first map it gives the second; empty exactly when the maps are equal |
| FrameEncoding.EncodeFrame | src/streamcodec/encoder.cpp:37-65 | Appends header, optional CRC and clamped payload, HAS_CRC driven by the option alone |
| FrameEncoding.WriteHeader | src/streamcodec/encoder.cpp:22-33 | The nineteen header bytes in wire order |
| FragmentLaw.FragmentExactly | src/streamcodec/encoder.cpp:73-132 | Every field of every fragment by its number: offset, slice, sequence number, FIN on the last alone, FRAG exactly if there are more than one; and how many there are, for any size asked for |
| FrameEncoding.EncodeMessage | src/streamcodec/encoder.cpp:73-133 | Appends the fragments of the message in order and counts them, sequence numbers wrapping at 16 bits |
| StreamLaw.FragmentsCut | src/streamcodec/encoder.cpp:73-133 | The fragments cut the message: consecutive, complete, FIN on the last alone, none empty unless the message is |
| StreamLaw.AnyPermutation | src/streamcodec/reassembler.cpp:83-136 | The fragments of one message in any order: none but the last emits, and the last emits exactly the message |
| StreamLaw.HeaderReadsBack | src/streamcodec/frame_reader.cpp:54-121 | Every header field written is read back, for all frame types |
| StreamLaw.FrameRoundTrip | src/streamcodec/frame_reader.cpp:18-121 | A written frame reads back as itself with a good CRC, without entering the resync scan, and nothing behind it is consumed |
| StreamLaw.WireDecodes | src/streamcodec/decoder.cpp:40-108 | A buffer of DATA frames decodes to the result of feeding exactly those frames in order |
| StreamLaw.EveryCrcGood | src/streamcodec/decoder.cpp:40-108 | Every frame is seen and every CRC written is counted good |
| StreamLaw.OncePerKey | src/streamcodec/decoder.cpp:40-108 | At every point of an interleaving a message has come out once if all its fragments have arrived and not at all before |
| StreamLaw.InterleavedWire | src/streamcodec/decoder.cpp:40-108 | Any interleaving of the fragments of distinct messages decodes without error to each message exactly once, in the order their last fragments arrive, with all CRCs counted good |
| ResyncLaw.SearchStops | src/streamcodec/frame_reader.cpp:18-52 | The search stops at the first 0x53, 0xC7 less than 4096 bytes on; with none it ends the input if that runs out within the window, and is BadMagic otherwise |
| ResyncLaw.FirstOnTheSpot | src/streamcodec/frame_reader.cpp:18-31 | The first frame starts where the input starts, or fails with BadMagic |
| ResyncLaw.FrameExactly | src/streamcodec/frame_reader.cpp:54-121 | Every field of a frame by its bytes, what follows it, and for every input that holds none the error, in the order of the checks |
| ResyncLaw.WrittenSpelled | src/streamcodec/encoder.cpp:22-65 | The same of a frame that is written: each of its bytes is the one the format says |
| ResyncLaw.JunkLeavesNoTrace | src/streamcodec/frame_reader.cpp:33-43 | Fewer than 4096 bytes in which no sync word starts, in front of a frame, are read over |
| ResyncLaw.NoisyIsFed | src/streamcodec/decoder.cpp:40-108 | Frames of every kind, with such bytes between any two, decode to what handing the frames over one after the other gives |
| ResyncLaw.FedTallies | src/streamcodec/decoder.cpp:40-108 | Over frames handed over, every frame is counted, every CRC under its verdict, every RESET, and every CONTROL and ACK noted in order with its fields |
| FrameReading.FrameReader.AlignToSync | src/streamcodec/frame_reader.cpp:18-52 | The cursor moves to the next sync word within the window, or as the search specifies fails or drops a short tail |
| FrameReading.FrameReader.Next | src/streamcodec/frame_reader.cpp:54-121 | The frame at the aligned cursor, a CRC mismatch recorded rather than thrown, each error with its code |
| StreamDecoding.Decode | src/streamcodec/decoder.cpp:40-108 | On every buffer the frame loop gives the specified result or error, or stops at the frame whose message is indexed past the end of the store |
| StreamDecoding.Dispatch | src/streamcodec/decoder.cpp:40-108 | One frame moves store, index and result counters as specified, whether or not index and store agree |
| StreamDecoding.SettledStep | src/streamcodec/decoder.cpp:40-108 | While index and store agree a frame acts on them as on the map of partials, and only a RESET that leaves a survivor behind two dropped slots ends the agreement |
| StreamDecoding.UncrowdedStaysSettled | src/streamcodec/decoder.cpp:40-108 | Frames none of whose RESETs meets two messages of its stream in flight never leave the store and keep index and store in agreement |
| StreamDecoding.PastTheEnd | src/streamcodec/decoder.cpp:40-108 | Three first fragments, a RESET and a second fragment of the survivor: the last looks past the end of the store |
| Reassembly.InsertCovers | src/streamcodec/reassembler.cpp:19-40 | Adding a range adds exactly its bytes to the coverage |
| Reassembly.InsertCanonical | src/streamcodec/reassembler.cpp:19-40 | Ranges stay sorted, non-empty and separated by holes |
| Reassembly.CoverageDetermines | src/streamcodec/reassembler.cpp:19-40 | A canonical range list is determined by the bytes it covers |
| Reassembling.Reassembler.AddRange | src/streamcodec/reassembler.cpp:19-40 | Append, sort and merge leave the canonical list with the range added |
| Reassembling.Reassembler.SlotFor | src/streamcodec/reassembler.cpp:55-68 | The slot the index names, or a fresh one at the end of the store with its entry |
| Reassembling.Reassembler.RemoveSlot | src/streamcodec/reassembler.cpp:70-81 | Swap-and-pop; where index and store agree it removes exactly the message from the map they stand for |
| Reassembling.SwapAndPop | src/streamcodec/reassembler.cpp:70-81 | Moving the last partial into the hole keeps one entry per slot and every other message |
| Reassembling.Reassembler.AcceptData | src/streamcodec/reassembler.cpp:83-136 | Moves vector and index as specified whenever the lookup stays in the store; where they agree, the same message and the same pending partials as on a plain map |
| Reassembling.PlacedIsAccepted | src/streamcodec/reassembler.cpp:83-136 | Placing a frame through an agreeing index is accepting it on the map, and keeps the agreement |
| Reassembly.AbsorbSound | src/streamcodec/reassembler.cpp:83-136 | Placing a frame keeps ranges canonical and within a buffer as long as the high-water mark |
| ReassemblyLaw.AbsorbHolds | src/streamcodec/reassembler.cpp:83-136 | One more slice keeps coverage, bytes, FIN and flags in step with what has been seen |
| ReassemblyLaw.CompleteExactly | src/streamcodec/reassembler.cpp:42-53 | On slices of a message completion means FIN seen and nothing missing, and the buffer is then the message |
| ReassemblyLaw.FirstEmission | src/streamcodec/reassembler.cpp:83-136 | With overlaps, repeats, any order and other traffic, the first emission is at the first frame after which FIN is seen and every byte covered, and is exactly the message |
| ReassemblyLaw.AnyOrder | src/streamcodec/reassembler.cpp:83-136 | In any shuffle of a cut, among other traffic, the last piece to arrive emits the message and no other piece emits |
| CompletionLaw.EmitsExactlyWhen | src/streamcodec/reassembler.cpp:83-136 | Whatever frames of whatever kinds arrive, a DATA frame emits its message if and only if FIN has come and the bytes claimed by the frames since the message last completed or its stream was reset are an initial segment that reaches the announced end; what comes out has that length, and every byte is that of the last frame to claim it |
| CompletionLaw.DecoderEmitsExactlyWhen | src/streamcodec/decoder.cpp:40-108 | The same of the decoder's own store and index from their start, while no RESET has met two messages of its stream in flight: the frame adds to the result exactly that message, or none |
| CompletionLaw.LatestIsLast | src/streamcodec/reassembler.cpp:104-113 | The byte that counts is the one in the last frame that claims its place |
| CompletionLaw.CompleteExactlyWhen | src/streamcodec/reassembler.cpp:42-53 | Completion of a partial is that condition on the frames it was built from |
| CompletionLaw.AbsorbReflects | src/streamcodec/reassembler.cpp:83-136 | Coverage, bytes, high-water mark and announced end of a partial are what its frames say, for any frames |
| CompletionLaw.PartialFromFrames | src/streamcodec/reassembler.cpp:83-136 | Amid traffic of every kind the partial of a message is what its frames since the last completion or RESET make of it, and without such frames there is none |
| ReassemblyLaw.CompleteUnlessStray | src/streamcodec/reassembler.cpp:42-53 | On arbitrary traffic completion holds exactly when all bytes to the end are there and no byte lies behind a hole |
| ReassemblyLaw.StrayWithholds | src/streamcodec/reassembler.cpp:42-53 | Three fragments that cover the message and one byte past its end do not complete it |
| Reassembling.Reassembler.ResetStream | src/streamcodec/reassembler.cpp:138-185 | Drops exactly the stream's partials, closes up the store and slides the index by one, on any index; an agreeing index still agrees exactly when no survivor is behind two holes |
| Reassembling.SlideVerdict | src/streamcodec/reassembler.cpp:174-182 | The slide by one agrees with the store if and only if no survivor sits behind two dropped slots |
| Reassembling.CountedAgrees | src/streamcodec/reassembler.cpp:143-146 | The slide the comment aims at, by the number of slots dropped in front, always agrees |
| Reassembling.OneInFlightIsSafe | src/streamcodec/reassembler.cpp:138-185 | With at most one partial of the stream in flight a RESET is safe |
| Reassembling.BrokenByFrames | src/streamcodec/reassembler.cpp:55-185 | Three first fragments without FIN, two of one stream and then one of another, reach a state in which a RESET of the first stream leaves the entry of the survivor past the end of the store |
| DeliveryExact.OfferExactly | src/streamcodec/delivery.cpp:28-78 | One offer by ids alone: behind the cursor or held already it is dropped and nothing else happens; at the cursor it is released with the run held behind it; ahead it is held, and if that is one too many the run at the lowest id held goes out as one gap |
| DeliveryExact.GapsAreJumps | src/streamcodec/delivery.cpp:55-99 | Over any run of offers and flushes the gaps counted are the releases that do not follow the one before |
| Delivery.DeliveryQueue.Offer | src/streamcodec/delivery.cpp:28-78 | Moves one stream's order, the released messages and both counters as specified and leaves every other stream alone |
| Delivery.DeliveryQueue.DrainOrder | src/streamcodec/delivery.cpp:14-26 | Releases exactly the contiguous run at the cursor |
| Delivery.DeliveryQueue.FlushStream | src/streamcodec/delivery.cpp:80-99 | Releases everything held in ascending order and counts a gap at each jump; unknown streams are untouched |
| Delivery.DrainLaw | src/streamcodec/delivery.cpp:14-26 | Draining releases the ids from the cursor on, modulo 2^32, and loses nothing |
| Delivery.EnforceLaw | src/streamcodec/delivery.cpp:28-78 | The window loop ends within the window, releases nothing behind the cursor, loses nothing, and counts a gap unless it did nothing |
| Delivery.OfferLaw | src/streamcodec/delivery.cpp:28-78 | One offer keeps held ids ahead of the cursor and within the window, conserves messages and releases nothing behind the cursor, for all ids |
| Delivery.FlushLaw | src/streamcodec/delivery.cpp:80-99 | A flush empties the stream in ascending order, losing and dropping nothing |
| Delivery.CallLaw | src/streamcodec/delivery.cpp:28-99 | An offer or a flush keeps window and conservation and releases nothing behind the cursor; without a counted gap every release is at the cursor, and flushing an unstarted stream does nothing |
| Delivery.DeliveryLaw | src/streamcodec/delivery.cpp:14-99 | Over any run of offers and flushes, for all ids: the window is kept, every message is released, held or counted duplicate, every release is at or ahead of the cursor, which moves right behind it modulo 2^32, and without a counted gap every release is at the cursor |
| DeliveryOrdering.AscendsExactly | src/streamcodec/delivery.cpp:28-99 | Over any run released ids strictly ascend if and only if, whenever the cursor of the started stream is zero before a call, the calls from there on offer no id zero, offer no more distinct ids than the window holds and flush nothing held |
| DeliveryOrdering.QuietRun | src/streamcodec/delivery.cpp:28-99 | From a wrapped cursor a run of calls releases nothing exactly when the calls meet that condition, and then holds exactly what was offered |
| DeliveryOrdering.FindsLast | src/streamcodec/delivery.cpp:14-99 | The call that releases the last 32-bit id releases it last, leaves nothing held and the cursor at zero |
| DeliveryOrdering.GapFree | src/streamcodec/delivery.cpp:14-99 | Without a counted gap the ids released over a run are consecutive modulo 2^32, from the first one offered to the cursor |
| DeliveryOrdering.WrapsOutOfOrder | src/streamcodec/delivery.cpp:28-78 | The last 32-bit id and then id zero are released in this order |
| DeliveryOrdering.AscendsUnlessOffered | src/streamcodec/delivery.cpp:14-99 | A run in which the last 32-bit id is never offered releases ascending ids below the cursor |
| Delivery.StreamsIndependent | src/streamcodec/delivery.cpp:28-99 | A stream among many releases and holds what it would alone |
| Delivery.LastIdWraps | src/streamcodec/delivery.cpp:28-78 | The last 32-bit id wraps the cursor, so its repeat is held instead of dropped |
| RunLength.Compress | src/streamcodec/transform.cpp:46-85 | The index loop writes exactly the specified tokens |
| RunLength.Decompress | src/streamcodec/transform.cpp:86-118 | The decoding loop appends what the tokens stand for until one is malformed or the cap would be passed |
| RunLength.RunLengthAt | src/streamcodec/transform.cpp:18-25 | The longest run of equal bytes at a position, up to one token's worth |
| RunLength.RleRoundTrip | src/streamcodec/transform.cpp:46-118 | Decompression undoes compression whenever the cap allows, appending to what was there |
| RunLength.TokensExpand | src/streamcodec/transform.cpp:46-118 | When the cap does not allow it the complaint is CapExceeded and no other |
| RunLength.DecodesExactly | src/streamcodec/transform.cpp:86-118 | On arbitrary tokens the output never passes the cap, and success means exactly that all tokens are complete and fit |
| RunLength.ExactSize | src/streamcodec/transform.cpp:46-85 | The compressed size is n plus the literal tokens less what runs save |
| RunLengthBound.DocumentedBoundExactly | include/streamcodec/transform.hpp:41-44 | The documented size bound holds if and only if the stretches of single bytes between longer runs take no more tokens than those runs save and the bound allows, both counted on the lengths of the runs of the input alone |
| RunLengthBound.LiteralsAreStretches | src/streamcodec/transform.cpp:46-85 | The compressor writes one literal token for every 128 bytes begun of a stretch of single bytes |
| RunLengthBound.SavedIsSavedByAll | src/streamcodec/transform.cpp:46-85 | What runs save is a sum over the lengths of the maximal runs, each cut in 128s |
| RunLengthBound.NoPairsKeepBound | include/streamcodec/transform.hpp:41-44 | The documented bound holds for every input without a run of exactly two equal bytes |
| RunLength.DocumentedBoundFails | include/streamcodec/transform.hpp:41-44 | "abbcdd" compresses to 8 bytes where 7 are promised |
| RunLength.SizeBound | src/streamcodec/transform.cpp:46-85 | At most n + ceil(n/3) bytes on every input |
| RunLength.BoundIsReached | src/streamcodec/transform.cpp:46-85 | For every length some input takes all of that bound |
| BinpackTrimming.RecordReadsBackTrimmed | src/binpack/record_parser.cpp:38-148 | Any record decodes to its form with key-values cut to their first child, exactly its bytes consumed, if and only if no written key-value lacks a child and the height fits; too tall is DepthExceeded, and nothing else is ever returned |
| BinpackTrimming.ForestReadsBackTrimmed | src/binpack/record_parser.cpp:27-36 | A record stream decodes to its trimmed records under the same exact condition |
| BinpackTrimming.RecordReadsBackExactly | src/binpack/builder.cpp:52-142 | A record decodes to itself if and only if all its key-values have exactly one child and its height fits the budget |
| BinpackTrimming.MissingRefused | src/binpack/record_parser.cpp:81-148 | A record with a childless key-value anywhere in what is written is refused |
| BinpackTrimming.TrimKeepsBytes | src/binpack/builder.cpp:52-124 | Children after the first leave no trace in the bytes |
| BinpackBuilding.EncodePayloadInto | src/binpack/builder.cpp:52-124 | Appends the payload of each record kind to the shared writer |
| BinpackBuilding.EncodeRecordInto | src/binpack/builder.cpp:134-142 | Appends tag, flag, length prefix and payload |
| BinpackBuilding.PatchRow | src/binpack/builder.cpp:173-254 | Overwriting an entry's reserved slot changes its offset field and no other byte of the table |
| BinpackBuilding.PatchedTable | src/binpack/builder.cpp:173-254 | With every slot patched the table holds each body's true offset |
| BinpackBuilding.Builder.AddSection | src/binpack/builder.cpp:144-153 | A new last section without records, all else unchanged |
| BinpackBuilding.Builder.AddRecord | src/binpack/builder.cpp:155-163 | The record goes to the last section, or nowhere without one |
| BinpackBuilding.Builder.Build | src/binpack/builder.cpp:173-254 | Header, patched table, bodies and optional trailer come out as the format lays them out |
| BinpackParsing.RecordParser.ReadStream | src/binpack/record_parser.cpp:27-36 | The cursor loop returns the specified records or error |
| BinpackParsing.RecordParser.ReadRecord | src/binpack/record_parser.cpp:38-79 | One record and the cursor behind it, errors in the order the fields are met |
| BinpackParsing.RecordParser.ReadBody | src/binpack/record_parser.cpp:81-148 | A payload decoded within exactly its bytes |
| BinpackParsing.ReadHeader | src/binpack/parser.cpp:75-102 | The header or the first complaint about it, checksum strict or lenient |
| BinpackParsing.ReadTable | src/binpack/parser.cpp:104-153 | Every entry of the table in order |
| BinpackParsing.ReadSections | src/binpack/parser.cpp:155-199 | Every body in table order with its verdict, and the metadata pairs met |
| BinpackParsing.ReadTrailer | src/binpack/parser.cpp:201-216 | The trailer's verdict when the flags promise one |
| BinpackParsing.ParseFile | src/binpack/parser.cpp:66-224 | The whole parse with its folded verdict |
| BinpackFile.FileExactly | src/binpack/parser.cpp:66-224 | A file parses, strictly or not, if and only if its bytes say so: every field of header, table, sections, verdicts and trailer by its bytes at their places |
| BinpackGrammar.StreamExactly | src/binpack/record_parser.cpp:27-150 | A byte string parses as records if and only if it lays them out, canonically or not: true lengths and counts, tag, flag, payload of each kind, bytes nobody reads behind a scalar or an array, none behind a key-value, no deeper than the budget |
| BinpackGrammar.VarintExactly | src/common/byte_reader.cpp:87-100 | A number reads off the front of a string if and only if one to ten groups stand there, all but the last with the high bit, and is the low 64 bits of their sum |
| BinpackMetadata.MetadataExactly | src/binpack/parser.cpp:180-196 | The pairs of a container are the key and child of every key-value with a child at the top of a METADATA section, once each and in file order |
| BinpackLaw.HeaderReadsBack | src/binpack/parser.cpp:75-102 | A written header reads back, checksum good |
| BinpackLaw.TableReadsBack | src/binpack/parser.cpp:104-153 | A written table reads back entry for entry |
| BinpackLaw.SectionsReadBack | src/binpack/parser.cpp:155-199 | Sections laid end to end read back under the exact depth law |
| BinpackTrimming.ContainerReadsBackTrimmed | src/binpack/parser.cpp:66-224 | Any built container parses to its trimmed sections with all checksums good if and only if its version is 1, no written key-value lacks a child and the tallest tree fits the budget; another version is BadVersion, too tall DepthExceeded, and nothing else is ever returned |
| BinpackTrimming.ContainerReadsBackExactly | src/binpack/parser.cpp:66-224 | A built container parses to what it was built from if and only if its version is 1, all written key-values have one child and the tallest tree fits the budget |
| BinpackTrimming.OtherVersionRefused | src/binpack/parser.cpp:86-89 | A container built with another version is refused for that, whatever else it holds |
| BinpackLaw.BuiltIsSealed | src/binpack/builder.cpp:245-251 | Whatever is built with a trailer carries matching header and trailer checksums |
| BinpackLaw.BlockDetects | src/binpack/parser.cpp:55-62 | A block and its stored checksum cannot both survive a change in one of their bytes |
| BinpackLaw.OneByteNeverClean | src/binpack/parser.cpp:66-224 | A sealed file with one byte altered never parses with every checksum good |
| BinpackLaw.StrictIsClean | src/binpack/parser.cpp:55-62 | A strict parse that returns has every checksum good |
| BinpackLaw.AlteredContainerCaught | src/binpack/parser.cpp:66-224 | One altered byte in a built container with a trailer: strict parsing never returns a container, lenient parsing fails or reports a bad checksum |
| JournalLog.LogReadsBack | src/minidb/journal.cpp:115-188 | The bytes of any log, as the format lays its entries out, read back as its ops, whatever byte that is no op follows |
| JournalLog.KeyAfterLog | src/minidb/journal.cpp:84-207 | After the replay of those bytes each key holds the last write or delete on it that took effect, else its page seed |
| JournalLog.CutLogRefused | src/minidb/journal.cpp:115-188 | A log cut inside an entry is refused as a whole with ShortRead |
| JournalLog.CommittedWrite | include/minidb/model.hpp:50-57 | 1, a write, 5: the key holds the bytes written and one op is committed |
| Journal.ReplayIsAtomic | src/minidb/journal.cpp:84-207 | The store is the seed with exactly the committed and auto-committed ops applied in log order; both counters count what they name |
| Journal.EveryOpCounted | src/minidb/journal.cpp:84-207 | Every data op is applied, rolled back or discarded by a nested BEGIN, and only one of these |
| Journal.CountersAddUp | src/minidb/journal.cpp:84-207 | Committed, rolled-back and discarded ops add up to the data ops, in the counters' 32 bits and exactly when they fit |
| Journal.KeyAfterReplay | src/minidb/journal.cpp:84-207 | Each key holds its last effective write or delete, else its page seed |
| Journal.LastWins | src/minidb/journal.cpp:108-114 | After a list of ops a key holds what the last one on it left |
| Journal.Replayer.Take | src/minidb/journal.cpp:127-188 | One op moves store, stage and counters as the replay machine specifies |
| Journal.Replayer.CommitStaged | src/minidb/journal.cpp:127-188 | The staged ops reach the store in order and are counted |
| Journal.ReplayLog | src/minidb/journal.cpp:84-207 | The loop over the log's bytes replays its ops up to an unknown op byte; a cut-off entry is an error |
| Journal.SeedFromPages | src/minidb/journal.cpp:53-80 | The store holds the bytes of exactly the in-bounds, non-empty slots of data pages that exist in the file |
| PageLayout.PageExactly | src/minidb/pages.cpp:20-103 | Every field of a page and of each of its slots is the byte or the two bytes at its place; how many slots there are, and when the page counts as cut short |
| PageLayout.PagesExactly | src/minidb/pages.cpp:20-103 | Page i of a parsed file is that of the bytes from 32 + i times the page size on |
| PageLayout.PagesCounted | src/minidb/pages.cpp:20-103 | There are as many pages as declared, or as start in the file |
| PageLayout.SeedExactly | src/minidb/journal.cpp:53-80 | What a key is seeded with, by the bytes of the file: those the slot's offset and length name, if they lie in the page, are not empty and exist |
| Pages.ParsePages | src/minidb/pages.cpp:20-103 | Every page that starts in the file, with its clamped span and slot directory |
| Pages.TotalInFile | src/minidb/pages.cpp:20-103 | The pages read are those declared up to the first that starts past the end of the file, and all of them start within it |
| Pages.DeriveSpans | src/minidb/overflow.cpp:117-135 | Spans rebuilt from file size and page count |
| Pages.DerivedAreParsed | src/minidb/overflow.cpp:117-135 | Rebuilt spans equal those the page parse produced |
| Overflow.Reconstruct | src/minidb/overflow.cpp:36-107 | Ends on every page graph, visits no page twice, keeps both caps, and each status holds under its own condition with the bytes of the pages visited |
| Overflow.OutcomeDetermined | src/minidb/overflow.cpp:36-107 | Chain and caps allow exactly one outcome, so each status holds exactly under its condition |
| PageLayout.PayloadExactly | src/minidb/overflow.cpp:55-85 | The payload of a page is what stands between its eight header bytes and its free space |
| PageLayout.OverflowExactly | src/minidb/overflow.cpp:55-105 | In a parsed file payload and next page are told by the bytes of the page |
| Overflow.ReadPayload | src/minidb/overflow.cpp:36-107 | A page's payload region clamped to span and file |
| IndexPages.KeyCompare | src/minidb/btree.cpp:25-38 | Unsigned lexicographic order, shorter key first |
| Common.CompareDecides | src/minidb/btree.cpp:25-38 | Keys compare as their first bytes that differ, or else as their lengths |
| Common.CompareReverses | src/minidb/btree.cpp:25-42 | The order is antisymmetric and equal exactly on equal keys |
| Common.CompareChains | src/minidb/btree.cpp:25-42 | The order is transitive, strictly where either step is |
| IndexPages.StableSort | src/minidb/btree.cpp:84-135 | Sorted by key, the entries of every key in wire order |
| PageLayout.IndexPageReadsBack | src/minidb/btree.cpp:84-135 | Entries as the format lays them out are read in order, and where more were announced than decode the page counts as cut short |
| PageLayout.NoIndexPage | src/minidb/btree.cpp:84-100 | A page of another kind has no entries; one without a whole header counts as cut short |
| IndexPages.DecodeIndexPage | src/minidb/btree.cpp:84-135 | A clean prefix survives a garbled tail, is marked truncated exactly then, and is sorted stably |
| IndexPages.Lookup | src/minidb/btree.cpp:46-63 | Binary search finds the first entry of the key, or none if there is none |
| IndexPages.Range | src/minidb/btree.cpp:65-82 | Exactly the entries in the window despite the early break; none for a reversed window |
| IndexPages.LookupIsRangeHead | src/minidb/btree.cpp:46-82 | The entries of a key are the range scan over that key alone |
| IndexPages.LookupAgreesWithWire | src/minidb/btree.cpp:46-135 | On a decoded page a lookup finds the first entry with the key in wire order |
| Checksum.BuildTable | src/common/checksum.cpp:10-21 | Entry n is n after eight bit steps |
| Checksum.TableStep | src/common/checksum.cpp:34-41 | One table lookup equals eight steps of division by the reflected polynomial |
| Checksum.Crc32Update | src/common/checksum.cpp:34-41 | The running state is the remainder of section 8 of RFC 1952 |
| Checksum.ComputeCrc32 | src/common/checksum.cpp:47-49 | The one-shot checksum is the complemented remainder |
| ChecksumLaw.ShiftExactly | src/common/checksum.cpp:8-21 | One bit step moves every coefficient one power up and takes a coefficient of x^32 off by the generator x^32 + x^26 + x^23 + x^22 + x^16 + x^12 + x^11 + x^10 + x^8 + x^7 + x^5 + x^4 + x^2 + x + 1 |
| ChecksumLaw.ChecksumExactly | src/common/checksum.cpp:32-49 | The checksum is the remainder from all ones on with every bit turned over |
| ChecksumLaw.SealedRemainder | src/common/checksum.cpp:34-49 | A message with its checksum behind it leaves one and the same remainder, whatever it says |
| ChecksumLaw.Shift16Exactly | src/streamcodec/frame.cpp:20-36 | The same bit step for the header checksum and x^16 + x^12 + x^5 + 1 |
| ChecksumLaw.SealedHeader | src/streamcodec/frame.cpp:20-36 | A header with its checksum behind it leaves no remainder |
| Checksum.RemainderComposes | src/common/checksum.cpp:34-49 | Feeding two chunks is feeding them joined |
| Checksum.RemainderInjective | src/common/checksum.cpp:34-41 | Updates are injective in the state |
| Checksum.OneByteDetected | src/common/checksum.cpp:47-49 | Equal-length inputs that differ in one byte have different checksums |
| Checksum.ComputeCrc16 | src/streamcodec/frame.cpp:20-33 | The nested loops compute the 16-bit division, highest bit first |
| Checksum.Remainder16Injective | src/streamcodec/frame.cpp:20-33 | Header checksum updates are injective in the state |
| Checksum.OneByteDetected16 | src/streamcodec/frame.cpp:20-33 | A header with one byte altered never keeps its checksum |
| Utf8.Decode | src/common/utf8.cpp:7-65 | Length and value of the one scalar whose encoding starts the buffer, zero exactly when none does |
| Utf8.PrefixFree | src/common/utf8.cpp:7-65 | No scalar's encoding starts another's |
| Utf8.AppendEncoded | src/common/utf8.cpp:101-121 | Appends the encoding of a scalar and refuses exactly the others |
| Utf8.EncodeAllInjective | src/common/utf8.cpp:101-136 | Two scalar sequences with one encoding are equal |
| Utf8.ToCodepoints | src/common/utf8.cpp:123-136 | The scalars the bytes encode, refused exactly when they encode none |
| Utf8.CountCodepoints | src/common/utf8.cpp:67-99 | Valid exactly when the bytes are a concatenated encoding, and then the number of its scalars |
| Numbers.VarintRoundTrip | src/common/byte_reader.cpp:87-100 | Every 64-bit value reads back from at most ten bytes with exactly those consumed |
| Numbers.ZigZagOrder | src/common/byte_writer.cpp:50-54 | The shift-and-xor form is the interleaving 0, -1, 1, -2, ... |
| Numbers.ZigZagBijection | src/common/byte_reader.cpp:102-105 | Zig-zag and its inverse undo each other on all 64-bit values |
| Numbers.LeRoundTrip | src/common/byte_writer.cpp:8-23 | Little-endian fields read back |
| Numbers.BeRoundTrip | src/common/byte_writer.cpp:25-40 | Big-endian fields read back |
| Numbers.LeDigit | src/common/byte_writer.cpp:8-23 | Byte i of a little-endian field is digit i of the number to the base 256 |
| Numbers.BeDigit | src/common/byte_writer.cpp:25-40 | The same in a big-endian field, counted from its end |
| Numbers.FromLeBound | src/common/byte_reader.cpp:31-57 | A little-endian field fits its width and is the only encoding of its value |
| Numbers.FromBeBound | src/common/byte_reader.cpp:59-85 | A big-endian field fits its width and is the only encoding of its value |
| ByteReading.ByteReader.ReadLe | src/common/byte_reader.cpp:31-57 | The field's value with exactly its bytes consumed, or a short read with the cursor unmoved |
| ByteReading.ByteReader.ReadBe | src/common/byte_reader.cpp:59-85 | The same, highest byte first |
| ByteReading.ByteReader.ReadVarint | src/common/byte_reader.cpp:87-100 | The loop over shifted groups computes the value modulo 2^64; an eleventh byte is BadLength |
| ByteReading.ByteReader.ReadSvarint | src/common/byte_reader.cpp:102-105 | Zig-zag decoded varint |
| ByteReading.ByteReader.ReadBytes | src/common/byte_reader.cpp:107-112 | Exactly n bytes or a short read |
| ByteWriting.ByteWriter.PutVarint | src/common/byte_writer.cpp:42-48 | Appends the shortest seven-bit groups |
| ByteWriting.ByteWriter.PutLe | src/common/byte_writer.cpp:8-23 | Appends the field, lowest byte first |
| ByteWriting.ByteWriter.PutBe | src/common/byte_writer.cpp:25-40 | Appends the field, highest byte first |
| ByteWriting.ByteWriter.PatchU32le | src/common/byte_writer.cpp:74-79 | Overwrites four bytes in place and no others |
| BitReading.BitReader.ReadBits | src/common/bit_reader.cpp:16-40 | The byte fast path equals n single-bit reads, with the cursor n bits on; errors leave it in place |
| BitReading.BitReader.ReadBit | src/common/bit_reader.cpp:6-14 | The bit under the cursor, highest first |
| BitReading.BitReader.SkipBits | src/common/bit_reader.cpp:42-47 | Moves by exactly that many bits or not at all |
| BitReading.BitReader.Align | src/common/bit_reader.cpp:49-54 | The next byte boundary, fewer than eight bits on |
| BitReading.BitsCompose | src/common/bit_reader.cpp:16-40 | Reading a bits and then b bits is reading a + b |

## Left out

- Floating point in cfgscript: one zero and one NaN, so the text of a negative zero or of a NaN has no sign; an underflowing literal is read as its rounded value, and whether the C library makes `std::stod` report it is left out. No canonical text underflows: six decimals name zero or at least a millionth.
- Error messages, offsets, line and column numbers: only the error code is kept.
- `summarize`, `hexdump`, catalog text and the name helpers: no inverse and no invariant.
- The command line, fuzzing harnesses, build files and test framework.
- `FlowController`, per-stream sequence statistics, `Catalog`, `Cursor`, `RecordVisitor`, binpack `validate` and `query`, cfgscript `schema`, `DeliveryQueue::buffered` and `Builder::set_item_count`: each claim follows from one short body.
- Queries and flattening over whole documents (`walk_nodes`, `match_assignment_path`, `flatten_nodes`): the laws are about values; statement paths are not walked.
- minidb file header, record and string decoding: there is no encoder to pair them with.
- Adler-32 and the hashing helpers: nothing else in the model depends on them.
- Byte reader `seek`, `match`, `peek`, borrowed pointers, `reserve` hints, moves and allocation failure.
- StreamDecoding.Decode: stops at a read past the end of the store; what the source does there is undefined.
- Reassembling.Reassembler.Sorted: `std::sort` is modelled by insertion; the order is total on ranges, so the result is the same.
- IndexPages.StableSort: `std::stable_sort` is modelled by insertion; the specification leaves one result.
- CfgLexer.Lexer.Next: no range error for a float literal that underflows.
- CfgLexer.Lexer.LexNumber: no range error for a float literal that underflows.
- CfgEvaluator.DepthOnlyCutsOff: says nothing about which expressions reach the limit; parser and evaluator count depth differently on long operator chains, and neither bounds the other.
- Delivery.DeliveryLaw: the gap and duplicate counters are unbounded.
- CfgSettles.SettlesAtOnce: for documents whose text scans and whose floats are finite; a document with other names can be written as any text.
- CompletionLaw.DecoderEmitsExactlyWhen: while no RESET has met two messages of its stream in flight; past that the index may name any slot.
- BinpackTrimming.ContainerReadsBackTrimmed: for containers whose counts, lengths and offsets fit their fields; the builder truncates larger ones.
- BinpackTrimming.ContainerReadsBackExactly: for containers whose counts, lengths and offsets fit their fields; the builder truncates larger ones.
