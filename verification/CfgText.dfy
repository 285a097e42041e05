/** From bytes to statements. */
module CfgText {
  // Text parses to statements exactly when it was put together from lexemes whose tokens spell
  // those statements: the lexical and the syntactic grammar, composed.

  import opened CfgDocumentSpec
  import opened CfgGrammar
  import opened CfgLexSpec
  import opened CfgModel
  import opened CfgReadBack
  import opened CfgSource
  import opened CfgStatements
  import opened Common

  lemma {:induction false} LexEnds(s: bytes)
    ensures Ending(Lex(s)).End?
    decreases |s|
  {
    hide SkipTrivia, Scan;
    if Next(s).Ok? && Next(s).value.0 != Eof {
      LexEnds(Next(s).value.1);
    }
  }

  /** The text is those lexemes, and they spell those statements, within the budget. */
  ghost predicate IsProgram(text: bytes, parts: seq<Part>, tail: Tail, cs: seq<Cstmt>, statements: seq<Statement>) {
    && IsSource(text, parts, tail, SpellStatements(cs, End(None)))
    && FormedStatements(cs) && StatementsAst(cs) == statements && NeedStatements(cs, 1) <= MAX_DEPTH
  }

  /** Text parses to statements exactly when it was written as them. */
  lemma TextExactly(text: bytes, statements: seq<Statement>)
    ensures ParseStatements(text) == Ok(statements)
       <==> exists parts, tail, cs :: IsProgram(text, parts, tail, cs, statements)
  {
    hide Lex, ParseDocument, FormedStatements, SpellStatements, StatementsAst, NeedStatements, IsSource;
    var s := Lex(text);
    if ParseStatements(text) == Ok(statements) {
      ParsedToTheEnd(s);
      LexEnds(text);
      assert Ending(s) == End(None);
      DocumentExact(s, statements, End(None));
      var cs :| IsDocument(cs, s, statements, End(None));
      LexExactly(text, s);
      var parts, tail :| IsSource(text, parts, tail, s);
      assert IsProgram(text, parts, tail, cs, statements);
    }
    if exists parts, tail, cs :: IsProgram(text, parts, tail, cs, statements) {
      var parts, tail, cs :| IsProgram(text, parts, tail, cs, statements);
      LexExactly(text, SpellStatements(cs, End(None)));
      DocumentComplete(cs, End(None));
    }
  }
}
