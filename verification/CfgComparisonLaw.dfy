module CfgComparisonLaw {
  // Of two comparable values exactly one of less, equal and greater holds, and `<` is transitive.
  // Next to a float an integer is rounded, and NaN compares as equal to every number, so `<=` and
  // `==` chain except across two integers that round alike and across NaN.

  import opened Common
  import opened CfgEvaluator
  import opened CfgGrammar
  import opened CfgModel
  import Doubles

  // ---- order

  predicate Comparable(l: Value, r: Value) {
    (IsNumber(l) && IsNumber(r)) || (l.VStr? && r.VStr?)
  }

  predicate Holds(op: Token, l: Value, r: Value) {
    Apply(op, l, r) == Ok(VBool(true))
  }

  /** The sign the four comparisons and equality are read off. */
  function Order(l: Value, r: Value): int
    requires Comparable(l, r)
  {
    if IsNumber(l) then CompareNumbers(l, r) else CompareBytes(l.s, r.s)
  }

  lemma OrderDecides(l: Value, r: Value)
    requires Comparable(l, r)
    ensures (Holds(Lt, l, r) <==> Order(l, r) < 0) && (Holds(Le, l, r) <==> Order(l, r) <= 0)
    ensures (Holds(Gt, l, r) <==> Order(l, r) > 0) && (Holds(Ge, l, r) <==> Order(l, r) >= 0)
  {
    hide CompareBytes, ValuesEqual, AsDouble, Doubles.Less;
  }

  lemma OrderEquals(l: Value, r: Value)
    requires Comparable(l, r)
    ensures Holds(EqEq, l, r) <==> Order(l, r) == 0
    ensures Order(l, r) == -Order(r, l)
  {
    if l.VStr? {
      CompareReverses(l.s, r.s);
    }
    hide CompareBytes, Compare, AsDouble;
  }

  /** Exactly one of less, equal and greater holds of comparable values; others do not compare. */
  lemma Trichotomy(l: Value, r: Value)
    ensures Comparable(l, r) ==>
              && (Holds(Lt, l, r) <==> !Holds(Ge, l, r)) && (Holds(Gt, l, r) <==> !Holds(Le, l, r))
              && (Holds(EqEq, l, r) <==> !Holds(Lt, l, r) && !Holds(Gt, l, r))
              && !(Holds(Lt, l, r) && Holds(Gt, l, r)) && (Holds(Lt, l, r) <==> Holds(Gt, r, l))
    ensures !Comparable(l, r) ==>
              Apply(Lt, l, r) == Apply(Le, l, r) == Apply(Gt, l, r) == Apply(Ge, l, r) == Err(BadType)
    ensures Holds(Ne, l, r) <==> !Holds(EqEq, l, r)
  {
    NotEqual(l, r);
    if Comparable(l, r) {
      OrderDecides(l, r);
      OrderDecides(r, l);
      OrderEquals(l, r);
      hide Holds, Order, Apply;
    } else {
      Incomparable(l, r);
      hide Holds, Apply;
    }
  }

  lemma Incomparable(l: Value, r: Value)
    requires !Comparable(l, r)
    ensures Apply(Lt, l, r) == Apply(Le, l, r) == Apply(Gt, l, r) == Apply(Ge, l, r) == Err(BadType)
  {
    hide CompareBytes, ValuesEqual, CompareNumbers;
  }

  lemma NotEqual(l: Value, r: Value)
    ensures Holds(Ne, l, r) <==> !Holds(EqEq, l, r)
  {
    hide ValuesEqual;
  }

  // ---- chains of comparisons

  /** Two different integers, the larger first, that both become the float between them. */
  predicate Straddles(a: Value, b: Value, c: Value) {
    && a.VInt? && b.VFloat? && c.VInt? && a.i > c.i
    && AsDouble(a) == b.f && AsDouble(c) == b.f
  }

  /** NaN between two numbers, the larger first. */
  predicate StraddlesNaN(a: Value, b: Value, c: Value) {
    IsNumber(a) && b == VFloat(Doubles.NaN) && IsNumber(c) && CompareNumbers(a, c) > 0
  }

  predicate IsNaN(v: Value) {
    v == VFloat(Doubles.NaN)
  }

  /** Where a number other than NaN stands: infinities on the outside. */
  function Position(v: Value): (int, real)
    requires IsNumber(v) && !IsNaN(v)
  {
    match AsDouble(v)
    case Finite(r) => (0, r)
    case Infinity(negative) => (if negative then -1 else 1, 0.0)
  }

  predicate InFront(p: (int, real), q: (int, real)) {
    p.0 < q.0 || (p.0 == q.0 && p.1 < q.1)
  }

  lemma LessIsInFront(a: Value, b: Value)
    requires IsNumber(a) && IsNumber(b)
    ensures Doubles.Less(AsDouble(a), AsDouble(b)) <==> !IsNaN(a) && !IsNaN(b) && InFront(Position(a), Position(b))
  {
    hide Doubles.ToDouble;
  }

  /** Conversion keeps the order of integers; with NaN everything compares as equal. */
  lemma NumbersInOrder(a: Value, b: Value)
    requires IsNumber(a) && IsNumber(b)
    ensures IsNaN(a) || IsNaN(b) ==> CompareNumbers(a, b) == 0
    ensures !IsNaN(a) && !IsNaN(b) && CompareNumbers(a, b) <= 0 ==> !InFront(Position(b), Position(a))
    ensures !IsNaN(a) && !IsNaN(b) && InFront(Position(a), Position(b)) ==> CompareNumbers(a, b) < 0
  {
    hide Doubles.ToDouble;
    LessIsInFront(a, b);
    LessIsInFront(b, a);
    if a.VInt? && b.VInt? {
      if a.i <= b.i {
        Doubles.ToDoubleMonotone(a.i, b.i);
      } else {
        Doubles.ToDoubleMonotone(b.i, a.i);
      }
    }
  }

  /** `<=` chains for all values but two families: around a float two integers both become, and around NaN. */
  lemma OrderChainsExactly(a: Value, b: Value, c: Value)
    ensures (Holds(Le, a, b) && Holds(Le, b, c) ==> Holds(Le, a, c))
       <==> !Straddles(a, b, c) && !StraddlesNaN(a, b, c)
  {
    if IsNumber(a) && IsNumber(b) && IsNumber(c) {
      OrderDecides(a, b);
      OrderDecides(b, c);
      OrderDecides(a, c);
      hide Holds;
      NumbersChain(a, b, c);
    } else if a.VStr? && b.VStr? && c.VStr? {
      StringsChain(a, b, c);
    } else {
      NotAllComparable(a, b, c);
    }
  }

  lemma NumbersChain(a: Value, b: Value, c: Value)
    requires IsNumber(a) && IsNumber(b) && IsNumber(c)
    ensures (CompareNumbers(a, b) <= 0 && CompareNumbers(b, c) <= 0 ==> CompareNumbers(a, c) <= 0)
       <==> !Straddles(a, b, c) && !StraddlesNaN(a, b, c)
    ensures CompareNumbers(a, b) < 0 && CompareNumbers(b, c) < 0 ==> CompareNumbers(a, c) < 0
  {
    NumbersInOrder(a, b);
    NumbersInOrder(b, c);
    NumbersInOrder(a, c);
    NumbersInOrder(c, a);
    hide Doubles.ToDouble;
  }

  lemma StringsChain(a: Value, b: Value, c: Value)
    requires a.VStr? && b.VStr? && c.VStr?
    ensures Holds(Le, a, b) && Holds(Le, b, c) ==> Holds(Le, a, c)
    ensures Holds(Lt, a, b) && Holds(Lt, b, c) ==> Holds(Lt, a, c)
  {
    OrderDecides(a, b);
    OrderDecides(b, c);
    OrderDecides(a, c);
    hide Holds;
    if CompareBytes(a.s, b.s) <= 0 && CompareBytes(b.s, c.s) <= 0 {
      CompareChains(a.s, b.s, c.s);
    }
  }

  lemma NotAllComparable(a: Value, b: Value, c: Value)
    requires !(IsNumber(a) && IsNumber(b) && IsNumber(c)) && !(a.VStr? && b.VStr? && c.VStr?)
    ensures !(Holds(Le, a, b) && Holds(Le, b, c)) && !(Holds(Lt, a, b) && Holds(Lt, b, c))
  {
    hide CompareBytes, CompareNumbers, ValuesEqual;
  }

  /** `<` chains for all values: what rounding merges it does not call less. */
  lemma StrictOrderChains(a: Value, b: Value, c: Value)
    requires Holds(Lt, a, b) && Holds(Lt, b, c)
    ensures Holds(Lt, a, c)
  {
    if IsNumber(a) && IsNumber(b) && IsNumber(c) {
      OrderDecides(a, b);
      OrderDecides(b, c);
      OrderDecides(a, c);
      hide Holds;
      NumbersChain(a, b, c);
    } else if a.VStr? && b.VStr? && c.VStr? {
      StringsChain(a, b, c);
    } else {
      NotAllComparable(a, b, c);
    }
  }

  /** The larger of two integers is at most some float, not NaN, that is at most the smaller iff both round alike. */
  lemma RoundAlikeBreaks(x: i64, y: i64)
    ensures x > y && Doubles.ToDouble(x) == Doubles.ToDouble(y)
       <==> exists f: Doubles.Double :: Between(x, f, y)
  {
    if x > y && Doubles.ToDouble(x) == Doubles.ToDouble(y) {
      var f := AsDouble(VInt(x));
      OrderChainsExactly(VInt(x), VFloat(f), VInt(y));
      assert Between(x, f, y);
    }
    if f :| Between(x, f, y) {
      OrderChainsExactly(VInt(x), VFloat(f), VInt(y));
    }
    hide Doubles.ToDouble;
  }

  predicate Between(x: i64, f: Doubles.Double, y: i64) {
    f != Doubles.NaN && Holds(Le, VInt(x), VFloat(f)) && Holds(Le, VFloat(f), VInt(y)) && !Holds(Le, VInt(x), VInt(y))
  }

  /** An integer a caller can compare with floats safely: at most 53 bits. */
  predicate Small(v: Value) {
    v.VInt? ==> -(Doubles.EXACT as int) <= v.i <= Doubles.EXACT
  }

  /** Among small integers, floats other than NaN and strings `<=` always chains. */
  lemma SmallChain(a: Value, b: Value, c: Value)
    requires Small(a) && !IsNaN(b) && Small(c) && Holds(Le, a, b) && Holds(Le, b, c)
    ensures Holds(Le, a, c)
  {
    hide Holds, Doubles.ToDouble;
    OrderChainsExactly(a, b, c);
    if a.VInt? && c.VInt? {
      Doubles.SmallAreExact(a.i);
      Doubles.SmallAreExact(c.i);
    }
  }

  /** 2^53 + 1, 2^53 as a float, 2^53: neither `<=` nor `==` chains. */
  lemma RoundingBreaksChains()
    ensures var a, b, c := VInt(Doubles.EXACT + 1), VFloat(Doubles.Finite(Doubles.EXACT as real)), VInt(Doubles.EXACT);
            && Holds(Le, a, b) && Holds(Le, b, c) && !Holds(Le, a, c)
            && Holds(EqEq, a, b) && Holds(EqEq, b, c) && !Holds(EqEq, a, c)
  {
    JustPastExact();
    hide Doubles.ToDouble;
    Doubles.SmallAreExact(Doubles.EXACT);
    BreaksChains(VInt(Doubles.EXACT + 1), VFloat(Doubles.Finite(Doubles.EXACT as real)), VInt(Doubles.EXACT));
  }

  /** 1, NaN, 0: neither chains, small as the numbers are. */
  lemma NaNBreaksChains()
    ensures var a, b, c := VInt(1), VFloat(Doubles.NaN), VInt(0);
            && Holds(Le, a, b) && Holds(Le, b, c) && !Holds(Le, a, c)
            && Holds(EqEq, a, b) && Holds(EqEq, b, c) && !Holds(EqEq, a, c)
  {
    hide Doubles.ToDouble;
    BreaksChains(VInt(1), VFloat(Doubles.NaN), VInt(0));
  }

  lemma BreaksChains(a: Value, b: Value, c: Value)
    requires IsNumber(a) && IsNumber(b) && IsNumber(c)
    requires CompareNumbers(a, b) == 0 && CompareNumbers(b, c) == 0 && CompareNumbers(a, c) > 0
    ensures Holds(Le, a, b) && Holds(Le, b, c) && !Holds(Le, a, c)
    ensures Holds(EqEq, a, b) && Holds(EqEq, b, c) && !Holds(EqEq, a, c)
  {
    OrderDecides(a, b);
    OrderDecides(b, c);
    OrderDecides(a, c);
    OrderEquals(a, b);
    OrderEquals(b, c);
    OrderEquals(a, c);
    hide Holds, CompareNumbers;
  }

  lemma JustPastExact()
    ensures Doubles.ToDouble(Doubles.EXACT + 1) == Doubles.EXACT
  {
    var n := Doubles.EXACT + 1;
    assert Doubles.Spacing(Doubles.EXACT / 2) == 1 && Doubles.Spacing(n) == 2;
    assert n / 2 == Doubles.EXACT / 2 && Doubles.EXACT / 2 % 2 == 0;
    assert Doubles.Quotient(n as real) == Doubles.EXACT / 2;
  }

  // ---- equality

  lemma {:induction false} EqualToItself(v: Value)
    ensures ValuesEqual(v, v)
    decreases v, 1
  {
    match v
    case VArray(items) => ItemsEqualThemselves(items);
    case VObject(members) => MembersEqualThemselves(members);
    case _ =>
  }

  lemma {:induction false} ItemsEqualThemselves(items: seq<Value>)
    ensures ItemsEqual(items, items)
    decreases items, 0
  {
    if items != [] {
      EqualToItself(items[0]);
      ItemsEqualThemselves(items[1..]);
    }
  }

  lemma {:induction false} MembersEqualThemselves(members: seq<Member>)
    ensures MembersEqual(members, members)
    decreases members, 0
  {
    if members != [] {
      EqualToItself(members[0].val);
      MembersEqualThemselves(members[1..]);
    }
  }

  /** Equality is symmetric on all values. */
  lemma {:induction false} EqualBothWays(a: Value, b: Value)
    ensures ValuesEqual(a, b) == ValuesEqual(b, a)
    decreases a, 1
  {
    match (a, b)
    case (VArray(x), VArray(y)) => ItemsBothWays(x, y);
    case (VObject(x), VObject(y)) => MembersBothWays(x, y);
    case (_, _) =>
  }

  lemma {:induction false} ItemsBothWays(a: seq<Value>, b: seq<Value>)
    ensures ItemsEqual(a, b) == ItemsEqual(b, a)
    decreases a, 0
  {
    if a != [] && b != [] {
      EqualBothWays(a[0], b[0]);
      ItemsBothWays(a[1..], b[1..]);
    }
  }

  lemma {:induction false} MembersBothWays(a: seq<Member>, b: seq<Member>)
    ensures MembersEqual(a, b) == MembersEqual(b, a)
    decreases a, 0
  {
    if a != [] && b != [] {
      EqualBothWays(a[0].val, b[0].val);
      MembersBothWays(a[1..], b[1..]);
    }
  }

  /** Somewhere in three values of one shape two different numbers stand around NaN or around a float both become. */
  predicate Blurs(a: Value, b: Value, c: Value)
    decreases a, 1
  {
    if IsNumber(a) && IsNumber(c) && IsNaN(b) then CompareNumbers(a, c) != 0
    else
      match (a, b, c)
      case (VInt(x), VFloat(_), VInt(z)) => x != z
      case (VArray(x), VArray(y), VArray(z)) => ItemsBlur(x, y, z)
      case (VObject(x), VObject(y), VObject(z)) => MembersBlur(x, y, z)
      case (_, _, _) => false
  }

  predicate ItemsBlur(a: seq<Value>, b: seq<Value>, c: seq<Value>)
    decreases a, 0
  {
    a != [] && b != [] && c != [] && (Blurs(a[0], b[0], c[0]) || ItemsBlur(a[1..], b[1..], c[1..]))
  }

  predicate MembersBlur(a: seq<Member>, b: seq<Member>, c: seq<Member>)
    decreases a, 0
  {
    a != [] && b != [] && c != []
    && (Blurs(a[0].val, b[0].val, c[0].val) || MembersBlur(a[1..], b[1..], c[1..]))
  }

  /** Equality chains through nested arrays and objects exactly where no float blurs two numbers. */
  lemma {:induction false} EqualityChainsExactly(a: Value, b: Value, c: Value)
    requires ValuesEqual(a, b) && ValuesEqual(b, c)
    ensures ValuesEqual(a, c) <==> !Blurs(a, b, c)
    decreases a, 1
  {
    hide Doubles.ToDouble;
    match a
    case VArray(items) => ItemsChain(items, b.items, c.items);
    case VObject(members) => MembersChain(members, b.members, c.members);
    case _ =>
  }

  lemma {:induction false} ItemsChain(a: seq<Value>, b: seq<Value>, c: seq<Value>)
    requires ItemsEqual(a, b) && ItemsEqual(b, c)
    ensures ItemsEqual(a, c) <==> !ItemsBlur(a, b, c)
    decreases a, 0
  {
    if a != [] {
      EqualityChainsExactly(a[0], b[0], c[0]);
      ItemsChain(a[1..], b[1..], c[1..]);
    }
  }

  lemma {:induction false} MembersChain(a: seq<Member>, b: seq<Member>, c: seq<Member>)
    requires MembersEqual(a, b) && MembersEqual(b, c)
    ensures MembersEqual(a, c) <==> !MembersBlur(a, b, c)
    decreases a, 0
  {
    if a != [] {
      EqualityChainsExactly(a[0].val, b[0].val, c[0].val);
      MembersChain(a[1..], b[1..], c[1..]);
    }
  }
}
