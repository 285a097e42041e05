/** The expression descent. */
module CfgParserSpec {
  // parser.cpp as functions over the tokens still to come, and the proof that it computes exactly
  // the trees of the stratified grammar.

  import opened Common
  import opened CfgGrammar

  /** The parser holds one token of lookahead, so it never rests on a malformed token. */
  predicate Ready(s: Stream) {
    s.Tok? || s.fault.None?
  }

  function Peek(s: Stream): Token {
    if s.Tok? then s.head else Eof
  }

  /** What a production reads: a tree and the stream after it, or the code of the error. */
  datatype Parsed = Got(tree: Cst, rest: Stream) | Fail(code: ErrorCode) {
    predicate IsFailure() {
      Fail?
    }

    function PropagateFailure(): Parsed
      requires Fail?
    {
      this
    }

    function Extract(): Parsed
      requires Got?
    {
      this
    }
  }

  /** `take`: the current token as a leaf; it fails when the token after it is malformed. */
  function Take(s: Stream): (r: Parsed)
    requires s.Tok?
    ensures r.Got? ==> Ready(r.rest) && s == Tok(s.head, r.rest) && r.tree == Leaf(s.head)
  {
    if Ready(s.rest) then Got(Leaf(s.head), s.rest) else Fail(s.rest.fault.value)
  }

  function Expect(s: Stream, t: Token): (r: Parsed)
    requires t != Eof
    ensures r.Got? ==> Ready(r.rest) && s == Tok(t, r.rest)
  {
    if Peek(s) == t then Take(s) else Fail(BadType)
  }

  function ParseTernary(s: Stream, d: nat, limit: nat): (r: Parsed)
    ensures r.Got? ==> r.rest < s
    decreases s, 5
  {
    if d > limit then Fail(DepthExceeded) else
    var c :- ParseBinary(s, 1, d, limit);
    if Peek(c.rest) == Question then
      var question :- Take(c.rest);
      var a :- ParseTernary(question.rest, d + 1, limit);
      var colon :- Expect(a.rest, Colon);
      var b :- ParseTernary(colon.rest, d + 1, limit);
      Got(Tern(c.tree, a.tree, b.tree), b.rest)
    else c
  }

  function ParseBinary(s: Stream, minPrec: nat, d: nat, limit: nat): (r: Parsed)
    ensures r.Got? ==> r.rest < s
    decreases s, 4
  {
    if d > limit then Fail(DepthExceeded) else
    var left :- ParseUnary(s, d + 1, limit);
    BinaryLoop(left.tree, left.rest, minPrec, d, limit)
  }

  /** The climbing loop: what it still returns when `left` has been read so far. */
  function BinaryLoop(left: Cst, s: Stream, minPrec: nat, d: nat, limit: nat): (r: Parsed)
    ensures r.Got? ==> (r.rest == s || r.rest < s)
    decreases s, 4
  {
    var prec := BinaryPrecedence(Peek(s));
    if prec < minPrec then Got(left, s) else
    var op :- Take(s);
    var right :- ParseBinary(op.rest, prec + 1, d + 1, limit);
    BinaryLoop(Bin(Peek(s), left, right.tree), right.rest, minPrec, d, limit)
  }

  function ParseUnary(s: Stream, d: nat, limit: nat): (r: Parsed)
    ensures r.Got? ==> r.rest < s
    decreases s, 3
  {
    if d > limit then Fail(DepthExceeded)
    else if IsUnaryOp(Peek(s)) then
      var op :- Take(s);
      var x :- ParseUnary(op.rest, d + 1, limit);
      Got(Un(Peek(s), x.tree), x.rest)
    else ParsePrimary(s, d, limit)
  }

  function ParsePrimary(s: Stream, d: nat, limit: nat): (r: Parsed)
    ensures r.Got? ==> r.rest < s
    decreases s, 2
  {
    if d > limit then Fail(DepthExceeded)
    else if IsLeaf(Peek(s)) then Take(s)
    else if Peek(s) == LParen then
      var open :- Take(s);
      var x :- ParseTernary(open.rest, d + 1, limit);
      var close :- Expect(x.rest, RParen);
      Got(Paren(x.tree), close.rest)
    else if Peek(s) == LBracket then
      var open :- Take(s);
      if Peek(open.rest) == RBracket then
        var close :- Take(open.rest);
        Got(Arr([], false), close.rest)
      else
        var list :- ParseElems(open.rest, d + 1, limit);
        var close :- Expect(list.rest, RBracket);
        Got(list.tree, close.rest)
    else if Peek(s) == LBrace then
      var open :- Take(s);
      var list :- ParseItems(open.rest, d + 1, limit);
      var close :- Expect(list.rest, RBrace);
      Got(list.tree, close.rest)
    else Fail(BadType)
  }

  /** The array between its brackets: one or more elements, allowing one trailing comma. */
  function ParseElems(s: Stream, d: nat, limit: nat): (r: Parsed)
    ensures r.Got? ==> r.rest < s && r.tree.Arr?
    decreases s, 6
  {
    var x :- ParseTernary(s, d, limit);
    if Peek(x.rest) != Comma then Got(Arr([x.tree], false), x.rest) else
    var comma :- Take(x.rest);
    if Peek(comma.rest) == RBracket then Got(Arr([x.tree], true), comma.rest) else
    var tail :- ParseElems(comma.rest, d, limit);
    Got(Arr([x.tree] + tail.tree.elems, tail.tree.trailing), tail.rest)
  }

  /** The object between its braces: members and stray semicolons. */
  function ParseItems(s: Stream, d: nat, limit: nat): (r: Parsed)
    ensures r.Got? ==> (r.rest == s || r.rest < s) && r.tree.Obj?
    decreases s, 6
  {
    if Peek(s) == RBrace then Got(Obj([]), s)
    else if Peek(s) == Semicolon then
      var semicolon :- Take(s);
      var tail :- ParseItems(semicolon.rest, d, limit);
      Got(Obj([Stray] + tail.tree.items), tail.rest)
    else
      var v :- ParseMember(s, d, limit);
      var tail :- ParseItems(v.rest, d, limit);
      Got(Obj([Field(Peek(s).name, v.tree)] + tail.tree.items), tail.rest)
  }

  /** The value of one `key = expr ;` member. */
  function ParseMember(s: Stream, d: nat, limit: nat): (r: Parsed)
    ensures r.Got? ==> r.rest < s && Peek(s).Ident?
    decreases s, 5
  {
    if !Peek(s).Ident? then Fail(BadType) else
    var key :- Take(s);
    var assign :- Expect(key.rest, Assign);
    var v :- ParseTernary(assign.rest, d, limit);
    var semicolon :- Expect(v.rest, Semicolon);
    Got(v.tree, semicolon.rest)
  }

  // ---- soundness: whatever is returned is a grammar tree spelled by the tokens consumed

  /** `r` is a tree of the grammar at `minLevel` or tighter, and is what lies between s and the rest. */
  ghost predicate Read(s: Stream, r: Parsed, minLevel: int)
    requires r.Got?
  {
    Formed(r.tree) && Level(r.tree) >= minLevel && s == Spell(r.tree, r.rest) && Ready(r.rest)
  }

  /** How the parts of a binary node join, given that each was read where the last one ended. */
  lemma ReadBin(s: Stream, left: Parsed, right: Parsed, minPrec: int)
    requires left.Got? && right.Got? && left.rest.Tok? && right.rest < left.rest
    requires var p := BinaryPrecedence(left.rest.head);
             minPrec <= p <= Level(left.tree) && p >= 2
             && Read(s, left, minPrec) && Read(left.rest.rest, right, p + 1)
    ensures Read(s, Got(Bin(left.rest.head, left.tree, right.tree), right.rest), minPrec)
  {
    hide BinaryPrecedence;
  }

  lemma ReadTern(s: Stream, x: Parsed, a: Parsed, b: Parsed)
    requires x.Got? && x.rest.Tok? && x.rest.head == Question && Read(s, x, 1)
    requires a.Got? && a.rest.Tok? && a.rest.head == Colon && Read(x.rest.rest, a, 0)
    requires b.Got? && Read(a.rest.rest, b, 0)
    ensures Read(s, Got(Tern(x.tree, a.tree, b.tree), b.rest), 0)
  {
    hide BinaryPrecedence;
  }

  lemma {:induction false} TernarySound(s: Stream, d: nat, limit: nat)
    requires ParseTernary(s, d, limit).Got?
    ensures var r := ParseTernary(s, d, limit);
            Read(s, r, 0) && Peek(r.rest) != Question && BinaryPrecedence(Peek(r.rest)) == -1
    decreases s, 5
  {
    hide BinaryPrecedence, Formed, Spell, Level, ParseBinary;
    BinarySound(s, 1, d, limit);
    var c := ParseBinary(s, 1, d, limit);
    if Peek(c.rest) == Question {
      var s2 := c.rest.rest;
      TernarySound(s2, d + 1, limit);
      var a := ParseTernary(s2, d + 1, limit);
      var s4 := a.rest.rest;
      TernarySound(s4, d + 1, limit);
      ReadTern(s, c, a, ParseTernary(s4, d + 1, limit));
    }
  }

  lemma {:induction false} BinarySound(s: Stream, minPrec: nat, d: nat, limit: nat)
    requires 1 <= minPrec <= 12 && ParseBinary(s, minPrec, d, limit).Got?
    ensures var r := ParseBinary(s, minPrec, d, limit);
            Read(s, r, minPrec) && BinaryPrecedence(Peek(r.rest)) < minPrec
    decreases s, 4
  {
    hide BinaryPrecedence, Formed, Spell, ParseUnary, BinaryLoop;
    UnarySound(s, d + 1, limit);
    var left := ParseUnary(s, d + 1, limit);
    LoopSound(s, left, minPrec, d, limit);
  }

  /** The loop extends a tree it can already account for, and stops only at a looser operator. */
  lemma {:induction false} LoopSound(s: Stream, left: Parsed, minPrec: nat, d: nat, limit: nat)
    requires 1 <= minPrec <= 12 && left.Got?
    requires BinaryLoop(left.tree, left.rest, minPrec, d, limit).Got?
    requires Read(s, left, minPrec) && BinaryPrecedence(Peek(left.rest)) <= Level(left.tree)
    ensures var r := BinaryLoop(left.tree, left.rest, minPrec, d, limit);
            Read(s, r, minPrec) && BinaryPrecedence(Peek(r.rest)) < minPrec
    decreases left.rest, 4
  {
    hide BinaryPrecedence, Formed, Spell, ParseBinary;
    var prec := BinaryPrecedence(Peek(left.rest));
    if prec >= minPrec {
      var s2 := left.rest.rest;
      BinarySound(s2, prec + 1, d + 1, limit);
      var right := ParseBinary(s2, prec + 1, d + 1, limit);
      ReadBin(s, left, right, minPrec);
      LoopSound(s, Got(Bin(left.rest.head, left.tree, right.tree), right.rest), minPrec, d, limit);
    }
  }

  lemma {:induction false} UnarySound(s: Stream, d: nat, limit: nat)
    requires ParseUnary(s, d, limit).Got?
    ensures Read(s, ParseUnary(s, d, limit), 12)
    decreases s, 3
  {
    hide BinaryPrecedence, IsUnaryOp, ParsePrimary;
    if IsUnaryOp(Peek(s)) {
      UnarySound(s.rest, d + 1, limit);
    } else {
      PrimarySound(s, d, limit);
    }
  }

  lemma {:induction false} PrimarySound(s: Stream, d: nat, limit: nat)
    requires ParsePrimary(s, d, limit).Got?
    ensures Read(s, ParsePrimary(s, d, limit), 13)
    decreases s, 2
  {
    hide IsLeaf, ParseTernary;
    if IsLeaf(Peek(s)) {
    } else if Peek(s) == LParen {
      TernarySound(s.rest, d + 1, limit);
    } else if Peek(s) == LBracket {
      ArraySound(s, d, limit);
    } else if Peek(s) == LBrace {
      ObjectSound(s, d, limit);
    }
  }

  lemma {:induction false} ArraySound(s: Stream, d: nat, limit: nat)
    requires Peek(s) == LBracket && ParsePrimary(s, d, limit).Got?
    ensures Read(s, ParsePrimary(s, d, limit), 13)
    decreases s, 1
  {
    hide ParseElems;
    if Peek(s.rest) != RBracket {
      ElemsSound(s.rest, d + 1, limit);
    }
  }

  lemma {:induction false} ObjectSound(s: Stream, d: nat, limit: nat)
    requires Peek(s) == LBrace && ParsePrimary(s, d, limit).Got?
    ensures Read(s, ParsePrimary(s, d, limit), 13)
    decreases s, 1
  {
    hide ParseItems;
    ItemsSound(s.rest, d + 1, limit);
  }

  lemma {:induction false} ElemsSound(s: Stream, d: nat, limit: nat)
    requires ParseElems(s, d, limit).Got?
    ensures var r := ParseElems(s, d, limit);
            var es := r.tree.elems;
            && es != [] && FormedElems(es) && Ready(r.rest)
            && s == SpellElems(es, if r.tree.trailing then Tok(Comma, r.rest) else r.rest)
    decreases s, 6
  {
    TernarySound(s, d, limit);
    var x := ParseTernary(s, d, limit);
    if Peek(x.rest) == Comma {
      var s2 := Take(x.rest).rest;
      if Peek(s2) != RBracket {
        ElemsSound(s2, d, limit);
        var tail := ParseElems(s2, d, limit).tree.elems;
        assert ([x.tree] + tail)[1..] == tail;
      }
    }
  }

  lemma {:induction false} ItemsSound(s: Stream, d: nat, limit: nat)
    requires Ready(s) && ParseItems(s, d, limit).Got?
    ensures var r := ParseItems(s, d, limit);
            FormedItems(r.tree.items) && Ready(r.rest) && s == SpellItems(r.tree.items, r.rest)
    decreases s, 6
  {
    if Peek(s) == RBrace {
    } else if Peek(s) == Semicolon {
      var s1 := Take(s).rest;
      ItemsSound(s1, d, limit);
      var tail := ParseItems(s1, d, limit).tree.items;
      assert ([Stray] + tail)[1..] == tail;
    } else {
      MemberSound(s, d, limit);
      var v := ParseMember(s, d, limit);
      ItemsSound(v.rest, d, limit);
      var tail := ParseItems(v.rest, d, limit).tree.items;
      assert ([Field(Peek(s).name, v.tree)] + tail)[1..] == tail;
    }
  }

  lemma {:induction false} MemberSound(s: Stream, d: nat, limit: nat)
    requires ParseMember(s, d, limit).Got?
    ensures var r := ParseMember(s, d, limit);
            && Formed(r.tree) && Ready(r.rest)
            && s == Tok(Ident(Peek(s).name), Tok(Assign, Spell(r.tree, Tok(Semicolon, r.rest))))
    decreases s, 5
  {
    var s1 := Expect(Take(s).rest, Assign).rest;
    TernarySound(s1, d, limit);
  }

  // ---- completeness: every grammar tree is read back, whatever follows it

  lemma SpellStarts(c: Cst, k: Stream)
    requires Formed(c)
    ensures Spell(c, k).Tok? && Peek(Spell(c, k)) != RBracket
  {
  }

  ghost function Outcome(need: nat, limit: nat, otherwise: Parsed): Parsed {
    if need <= limit then otherwise else Fail(DepthExceeded)
  }

  /** An expression ends before a token that cannot continue one. */
  predicate Stops(k: Stream) {
    Ready(k) && Peek(k) != Question && BinaryPrecedence(Peek(k)) == -1
  }

  lemma {:induction false} TernaryComplete(c: Cst, k: Stream, d: nat, limit: nat)
    requires Formed(c) && Stops(k)
    ensures ParseTernary(Spell(c, k), d, limit) == Outcome(Need(c, d), limit, Got(c, k))
    decreases c, 5
  {
    hide ParseTernary, ParseBinary, BinaryLoop, BinaryPrecedence;
    if c.Tern? {
      var afterA := Tok(Colon, Spell(c.no, k));
      var afterX := Tok(Question, Spell(c.yes, afterA));
      BranchMarksAreNoOperators();
      BinaryComplete(c.cond, afterX, 1, d, limit);
      SpellStarts(c.yes, afterA);
      SpellStarts(c.no, k);
      TernaryComplete(c.yes, afterA, d + 1, limit);
      TernaryComplete(c.no, k, d + 1, limit);
      TernaryStep(Spell(c, k), c, afterX, afterA, k, d, limit);
    } else {
      BinaryComplete(c, k, 1, d, limit);
      NoTernary(Spell(c, k), c, k, d, limit);
    }
  }

  lemma BranchMarksAreNoOperators()
    ensures BinaryPrecedence(Question) == -1 && BinaryPrecedence(Colon) == -1
  {
  }

  /** `parse_ternary` on the three results it is put together from. */
  lemma TernaryStep(s: Stream, c: Cst, afterX: Stream, afterA: Stream, k: Stream, d: nat, limit: nat)
    requires c.Tern? && afterX.Tok? && afterX.head == Question && afterA.Tok? && afterA.head == Colon
    requires Ready(afterX.rest) && Ready(afterA.rest)
    requires ParseBinary(s, 1, d, limit)
          == Outcome(NeedBinary(c.cond, d), limit, BinaryLoop(c.cond, afterX, 1, d, limit))
    requires ParseTernary(afterX.rest, d + 1, limit) == Outcome(Need(c.yes, d + 1), limit, Got(c.yes, afterA))
    requires ParseTernary(afterA.rest, d + 1, limit) == Outcome(Need(c.no, d + 1), limit, Got(c.no, k))
    ensures ParseTernary(s, d, limit) == Outcome(Need(c, d), limit, Got(c, k))
  {
    hide ParseBinary, NeedBinary;
    assert BinaryLoop(c.cond, afterX, 1, d, limit) == Got(c.cond, afterX);
  }

  lemma NoTernary(s: Stream, c: Cst, k: Stream, d: nat, limit: nat)
    requires !c.Tern? && Stops(k)
    requires ParseBinary(s, 1, d, limit) == Outcome(NeedBinary(c, d), limit, BinaryLoop(c, k, 1, d, limit))
    ensures ParseTernary(s, d, limit) == Outcome(Need(c, d), limit, Got(c, k))
  {
    hide ParseBinary, NeedBinary, BinaryPrecedence;
    assert BinaryLoop(c, k, 1, d, limit) == Got(c, k);
  }

  /** Climbing reads the whole left spine at one depth and then stands in its loop with `c`. */
  lemma {:induction false} BinaryComplete(c: Cst, k: Stream, minPrec: nat, d: nat, limit: nat)
    requires Formed(c) && Ready(k) && 1 <= minPrec <= Level(c) && BinaryPrecedence(Peek(k)) <= Level(c)
    ensures ParseBinary(Spell(c, k), minPrec, d, limit)
         == Outcome(NeedBinary(c, d), limit, BinaryLoop(c, k, minPrec, d, limit))
    decreases c, 4
  {
    hide ParseBinary, BinaryLoop, BinaryPrecedence, NeedBinary, ParseUnary, NeedUnary;
    if c.Bin? {
      var p := BinaryPrecedence(c.op);
      var afterL := Tok(c.op, Spell(c.right, k));
      SpellStarts(c.right, k);
      BinaryComplete(c.left, afterL, minPrec, d, limit);
      BinaryComplete(c.right, k, p + 1, d + 1, limit);
      LoopStep(c, Spell(c.right, k), k, minPrec, d, limit);
    } else {
      UnaryComplete(c, k, d + 1, limit);
      BinaryStep(Spell(c, k), c, k, minPrec, d, limit);
    }
  }

  lemma LoopStep(c: Cst, s: Stream, k: Stream, minPrec: nat, d: nat, limit: nat)
    requires c.Bin? && Ready(s) && 1 <= minPrec <= BinaryPrecedence(c.op)
    requires BinaryPrecedence(Peek(k)) <= BinaryPrecedence(c.op)
    requires ParseBinary(s, BinaryPrecedence(c.op) + 1, d + 1, limit)
          == Outcome(NeedBinary(c.right, d + 1), limit,
                     BinaryLoop(c.right, k, BinaryPrecedence(c.op) + 1, d + 1, limit))
    ensures Outcome(NeedBinary(c.left, d), limit, BinaryLoop(c.left, Tok(c.op, s), minPrec, d, limit))
         == Outcome(NeedBinary(c, d), limit, BinaryLoop(c, k, minPrec, d, limit))
  {
    hide ParseBinary, NeedUnary, BinaryPrecedence;
    assert BinaryLoop(c.right, k, BinaryPrecedence(c.op) + 1, d + 1, limit) == Got(c.right, k);
  }

  lemma BinaryStep(s: Stream, c: Cst, k: Stream, minPrec: nat, d: nat, limit: nat)
    requires !c.Bin? && ParseUnary(s, d + 1, limit) == Outcome(NeedUnary(c, d + 1), limit, Got(c, k))
    ensures ParseBinary(s, minPrec, d, limit)
         == Outcome(NeedBinary(c, d), limit, BinaryLoop(c, k, minPrec, d, limit))
  {
    hide ParseUnary, NeedUnary, BinaryLoop;
  }

  lemma {:induction false} UnaryComplete(c: Cst, k: Stream, d: nat, limit: nat)
    requires Formed(c) && Ready(k) && Level(c) >= 12
    ensures ParseUnary(Spell(c, k), d, limit) == Outcome(NeedUnary(c, d), limit, Got(c, k))
    decreases c, 3
  {
    hide ParseUnary, ParsePrimary, BinaryPrecedence, NeedPrimary;
    if c.Un? {
      SpellStarts(c.arg, k);
      UnaryComplete(c.arg, k, d + 1, limit);
      UnaryStep(c.op, Spell(c.arg, k), c.arg, k, d, limit);
    } else {
      PrimaryComplete(c, k, d, limit);
      PrimaryStart(c, k);
      NoUnaryStep(Spell(c, k), d, limit);
    }
  }

  lemma UnaryStep(op: Token, s: Stream, x: Cst, k: Stream, d: nat, limit: nat)
    requires IsUnaryOp(op) && s.Tok?
    requires ParseUnary(s, d + 1, limit) == Outcome(NeedUnary(x, d + 1), limit, Got(x, k))
    ensures ParseUnary(Tok(op, s), d, limit) == Outcome(NeedUnary(x, d + 1), limit, Got(Un(op, x), k))
  {
    hide ParsePrimary, NeedUnary;
  }

  lemma NoUnaryStep(s: Stream, d: nat, limit: nat)
    requires !IsUnaryOp(Peek(s))
    ensures ParseUnary(s, d, limit) == ParsePrimary(s, d, limit)
  {
  }

  lemma {:induction false} PrimaryComplete(c: Cst, k: Stream, d: nat, limit: nat)
    requires Formed(c) && Ready(k) && Level(c) >= 13
    ensures ParsePrimary(Spell(c, k), d, limit) == Outcome(NeedPrimary(c, d), limit, Got(c, k))
    decreases c, 2
  {
    hide ParsePrimary, ParseTernary, ParseElems, ParseItems, BinaryPrecedence, NeedElems, NeedItems;
    match c
    case Leaf(_) => LeafStep(c, k, d, limit);
    case Paren(x) =>
      SpellStarts(x, Tok(RParen, k));
      ClosersAreNoOperators();
      TernaryComplete(x, Tok(RParen, k), d + 1, limit);
      ParenStep(Spell(x, Tok(RParen, k)), x, k, d, limit);
    case Arr(es, trailing) =>
      if es == [] {
        EmptyStep(k, d, limit);
      } else {
        ElemsComplete(es, trailing, Tok(RBracket, k), d, limit);
        ArrayStep(es, trailing, k, d, limit);
      }
    case Obj(items) =>
      ItemsComplete(items, Tok(RBrace, k), d, limit);
      ObjectStep(items, k, d, limit);
  }

  lemma PrimaryStart(c: Cst, k: Stream)
    requires Formed(c) && Level(c) >= 13
    ensures !IsUnaryOp(Peek(Spell(c, k)))
  {
  }

  lemma LeafStep(c: Cst, k: Stream, d: nat, limit: nat)
    requires c.Leaf? && Formed(c) && Ready(k)
    ensures ParsePrimary(Spell(c, k), d, limit) == Outcome(d, limit, Got(c, k))
  {
  }

  lemma ParenStep(s: Stream, x: Cst, k: Stream, d: nat, limit: nat)
    requires Ready(s) && Ready(k)
    requires ParseTernary(s, d + 1, limit) == Outcome(Need(x, d + 1), limit, Got(x, Tok(RParen, k)))
    ensures ParsePrimary(Tok(LParen, s), d, limit) == Outcome(Need(x, d + 1), limit, Got(Paren(x), k))
  {
    hide ParseTernary, Need;
  }

  lemma EmptyStep(k: Stream, d: nat, limit: nat)
    requires Ready(k)
    ensures ParsePrimary(Spell(Arr([], false), k), d, limit) == Outcome(NeedElems([], d), limit, Got(Arr([], false), k))
  {
  }

  lemma ObjectStep(items: seq<Item>, k: Stream, d: nat, limit: nat)
    requires Ready(k) && SpellItems(items, Tok(RBrace, k)).Tok?
    requires d <= limit ==>
               ParseItems(SpellItems(items, Tok(RBrace, k)), d + 1, limit)
               == Outcome(NeedItems(items, d), limit, Got(Obj(items), Tok(RBrace, k)))
    ensures ParsePrimary(Spell(Obj(items), k), d, limit) == Outcome(NeedItems(items, d), limit, Got(Obj(items), k))
  {
    hide ParseItems, NeedItems, SpellItems;
  }

  lemma ClosersAreNoOperators()
    ensures BinaryPrecedence(RParen) == -1 && BinaryPrecedence(Comma) == -1
    ensures BinaryPrecedence(RBracket) == -1 && BinaryPrecedence(Semicolon) == -1
  {
  }

  lemma ArrayStep(es: seq<Cst>, trailing: bool, k: Stream, d: nat, limit: nat)
    requires es != [] && Ready(k)
    requires Spell(Arr(es, trailing), k).rest.Tok? && Peek(Spell(Arr(es, trailing), k).rest) != RBracket
    requires d <= limit ==>
               ParseElems(Spell(Arr(es, trailing), k).rest, d + 1, limit)
               == Outcome(NeedElems(es, d), limit, Got(Arr(es, trailing), Tok(RBracket, k)))
    ensures ParsePrimary(Spell(Arr(es, trailing), k), d, limit)
         == Outcome(NeedElems(es, d), limit, Got(Arr(es, trailing), k))
  {
    hide ParseElems, NeedElems, SpellElems;
  }

  lemma {:induction false} ElemsComplete(es: seq<Cst>, trailing: bool, k: Stream, d: nat, limit: nat)
    requires es != [] && FormedElems(es) && Ready(k) && Peek(k) == RBracket
    ensures var s := SpellElems(es, if trailing then Tok(Comma, k) else k);
            && s.Tok? && Peek(s) != RBracket
            && (d <= limit ==>
                ParseElems(s, d + 1, limit) == Outcome(NeedElems(es, d), limit, Got(Arr(es, trailing), k)))
    decreases es, 0
  {
    hide ParseElems, ParseTernary, BinaryPrecedence, Need, Formed, Spell;
    ClosersAreNoOperators();
    var last := if trailing then Tok(Comma, k) else k;
    if |es| == 1 {
      SpellStarts(es[0], last);
      TernaryComplete(es[0], last, d + 1, limit);
      LastElement(Spell(es[0], last), es[0], trailing, k, d, limit);
      assert es == [es[0]];
    } else {
      var after := Tok(Comma, SpellElems(es[1..], last));
      SpellStarts(es[0], after);
      ElemsComplete(es[1..], trailing, k, d, limit);
      TernaryComplete(es[0], after, d + 1, limit);
      MoreElements(Spell(es[0], after), es, trailing, after.rest, k, d, limit);
    }
  }

  lemma LastElement(s: Stream, x: Cst, trailing: bool, k: Stream, d: nat, limit: nat)
    requires ParseTernary(s, d + 1, limit)
          == Outcome(Need(x, d + 1), limit, Got(x, if trailing then Tok(Comma, k) else k))
    requires Ready(k) && Peek(k) == RBracket
    ensures d <= limit ==>
            ParseElems(s, d + 1, limit) == Outcome(NeedElems([x], d), limit, Got(Arr([x], trailing), k))
  {
    hide ParseTernary, Need;
    assert NeedElems([x], d) == Max(Need(x, d + 1), d);
  }

  lemma MoreElements(s: Stream, es: seq<Cst>, trailing: bool, s2: Stream, k: Stream, d: nat, limit: nat)
    requires |es| > 1 && s2.Tok? && Peek(s2) != RBracket
    requires ParseTernary(s, d + 1, limit) == Outcome(Need(es[0], d + 1), limit, Got(es[0], Tok(Comma, s2)))
    requires d <= limit ==>
             ParseElems(s2, d + 1, limit) == Outcome(NeedElems(es[1..], d), limit, Got(Arr(es[1..], trailing), k))
    ensures d <= limit ==>
            ParseElems(s, d + 1, limit) == Outcome(NeedElems(es, d), limit, Got(Arr(es, trailing), k))
  {
    hide ParseTernary, Need;
    assert es == [es[0]] + es[1..];
  }

  lemma {:induction false} ItemsComplete(items: seq<Item>, k: Stream, d: nat, limit: nat)
    requires FormedItems(items) && Ready(k) && Peek(k) == RBrace
    ensures SpellItems(items, k).Tok?
    ensures d <= limit ==>
            ParseItems(SpellItems(items, k), d + 1, limit) == Outcome(NeedItems(items, d), limit, Got(Obj(items), k))
    decreases items, 0
  {
    if items != [] {
      ItemsComplete(items[1..], k, d, limit);
      assert items == [items[0]] + items[1..];
      if items[0].Field? {
        MemberComplete(items[0].key, items[0].val, SpellItems(items[1..], k), d, limit);
      }
      hide ParseMember, Formed, Spell, Need;
    }
  }

  lemma {:induction false} MemberComplete(key: bytes, v: Cst, k: Stream, d: nat, limit: nat)
    requires Formed(v) && Ready(k)
    ensures ParseMember(Tok(Ident(key), Tok(Assign, Spell(v, Tok(Semicolon, k)))), d + 1, limit)
         == Outcome(Need(v, d + 1), limit, Got(v, k))
    decreases v, 6
  {
    var after := Tok(Semicolon, k);
    SpellStarts(v, after);
    TernaryComplete(v, after, d + 1, limit);
    hide ParseTernary, Formed, Spell, Need;
  }

  // ---- main results

  /**
    * The descent answers a tree exactly when the input is that tree of the stratified
    * grammar followed by a token that cannot continue it, and the depth budget covers it.
    */
  lemma ExpressionExact(s: Stream, d: nat, limit: nat, c: Cst, rest: Stream)
    ensures ParseTernary(s, d, limit) == Got(c, rest)
       <==> Formed(c) && s == Spell(c, rest) && Stops(rest) && Need(c, d) <= limit
  {
    hide ParseTernary, Formed, Spell, Need, BinaryPrecedence;
    if ParseTernary(s, d, limit) == Got(c, rest) {
      TernarySound(s, d, limit);
      TernaryComplete(c, rest, d, limit);
    } else if Formed(c) && s == Spell(c, rest) && Stops(rest) {
      TernaryComplete(c, rest, d, limit);
    }
  }

  /** The same for one climbing call: operators bind at `minPrec` or tighter, as many as there are. */
  lemma ClimbingExact(s: Stream, minPrec: nat, d: nat, limit: nat, c: Cst, rest: Stream)
    requires 1 <= minPrec <= 12
    ensures ParseBinary(s, minPrec, d, limit) == Got(c, rest)
       <==> && Formed(c) && Level(c) >= minPrec && s == Spell(c, rest) && Ready(rest)
            && BinaryPrecedence(Peek(rest)) < minPrec && NeedBinary(c, d) <= limit
  {
    hide ParseBinary, Formed, Spell, NeedBinary, BinaryPrecedence;
    if ParseBinary(s, minPrec, d, limit) == Got(c, rest) {
      BinarySound(s, minPrec, d, limit);
      BinaryComplete(c, rest, minPrec, d, limit);
    } else if Formed(c) && Level(c) >= minPrec && s == Spell(c, rest) && Ready(rest)
           && BinaryPrecedence(Peek(rest)) < minPrec {
      BinaryComplete(c, rest, minPrec, d, limit);
    }
  }

  /** The grammar is unambiguous: one token run spells one tree, and where it ends is fixed. */
  lemma GrammarUnambiguous(c1: Cst, k1: Stream, c2: Cst, k2: Stream)
    requires Formed(c1) && Stops(k1) && Formed(c2) && Stops(k2)
    requires Spell(c1, k1) == Spell(c2, k2)
    ensures c1 == c2 && k1 == k2
  {
    hide ParseTernary, Formed, Spell, Need, Stops;
    var limit := Max(Need(c1, 0), Need(c2, 0));
    TernaryComplete(c1, k1, 0, limit);
    TernaryComplete(c2, k2, 0, limit);
  }

  /** Between the members of an object stray semicolons are read over: `{ ; }` is an empty object. */
  lemma StraySemicolonAccepted(k: Stream)
    requires Stops(k)
    ensures ParseTernary(Tok(LBrace, Tok(Semicolon, Tok(RBrace, k))), 1, 64) == Got(Obj([Stray]), k)
    ensures Ast(Obj([Stray])) == EObject([])
  {
    var c := Obj([Stray]);
    assert [Stray][1..] == [];
    assert Need(c, 1) == NeedPrimary(c, 2) == 2;
    assert Spell(c, k) == Tok(LBrace, Tok(Semicolon, Tok(RBrace, k)));
    hide ParseTernary;
    TernaryComplete(c, k, 1, 64);
  }
}
