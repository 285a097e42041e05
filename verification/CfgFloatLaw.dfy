/** Laws of float values. */
module CfgFloatLaw {
  // Every float that an expression over doubles yields is a double, an infinity or NaN, and every
  // object key in it comes from the expression or the scopes.

  import Bits
  import opened CfgEvaluator
  import opened CfgGrammar
  import opened CfgLexSpec
  import opened CfgModel
  import opened Common
  import Doubles

  // ---- floats stay doubles

  /** Every float in the value is a double and every object key a `key`. */
  ghost predicate Rounded(v: Value, key: bytes -> bool)
    decreases v, 1
  {
    match v
    case VFloat(f) => Doubles.IsRounded(f)
    case VArray(items) => AllRounded(items, key)
    case VObject(members) => MembersRounded(members, key)
    case _ => true
  }

  ghost predicate AllRounded(items: seq<Value>, key: bytes -> bool)
    decreases items, 0
  {
    items == [] || (Rounded(items[0], key) && AllRounded(items[1..], key))
  }

  ghost predicate MembersRounded(members: seq<Member>, key: bytes -> bool)
    decreases members, 0
  {
    members == [] || (key(members[0].key) && Rounded(members[0].val, key) && MembersRounded(members[1..], key))
  }

  /** Every float literal in the expression is a double and every object key a `key`. */
  ghost predicate RoundedExpr(e: Expr, key: bytes -> bool)
    decreases e, 1
  {
    match e
    case EFloat(f) => Doubles.IsRounded(f)
    case EArray(elements) => RoundedExprs(elements, key)
    case EObject(fields) => RoundedFields(fields, key)
    case EUnary(_, x) => RoundedExpr(x, key)
    case ETernary(c, a, b) => RoundedExpr(c, key) && RoundedExpr(a, key) && RoundedExpr(b, key)
    case EBinary(_, x, y) => RoundedExpr(x, key) && RoundedExpr(y, key)
    case _ => true
  }

  ghost predicate RoundedExprs(es: seq<Expr>, key: bytes -> bool)
    decreases es, 0
  {
    es == [] || (RoundedExpr(es[0], key) && RoundedExprs(es[1..], key))
  }

  ghost predicate RoundedFields(fs: seq<FieldExpr>, key: bytes -> bool)
    decreases fs, 0
  {
    fs == [] || (key(fs[0].key) && RoundedExpr(fs[0].val, key) && RoundedFields(fs[1..], key))
  }

  ghost predicate RoundedScopes(env: Scopes, key: bytes -> bool) {
    env == [] || ((forall name | name in env[0] :: Rounded(env[0][name], key)) && RoundedScopes(env[1..], key))
  }

  lemma {:induction false} LookupRounded(env: Scopes, key: bytes -> bool, name: bytes)
    requires RoundedScopes(env, key)
    ensures Lookup(env, name).Some? ==> Rounded(Lookup(env, name).value, key)
  {
    if env != [] {
      LookupRounded(env[1..], key, name);
    }
  }

  /** Next to a float an integer is a double too. */
  lemma OperandRounded(v: Value, key: bytes -> bool)
    requires IsNumber(v) && Rounded(v, key)
    ensures Doubles.IsRounded(AsDouble(v))
  {
    hide Doubles.IsRounded, Doubles.ToDouble, Doubles.Round;
    if v.VInt? {
      Doubles.ConversionIsRounding(v.i);
      Doubles.RoundIsRounded(v.i as real);
    }
  }

  lemma ApplyRounded(op: Token, l: Value, r: Value, key: bytes -> bool)
    requires Rounded(l, key) && Rounded(r, key)
    ensures Apply(op, l, r).Ok? ==> Rounded(Apply(op, l, r).value, key)
  {
    hide Doubles.IsRounded, Doubles.ToDouble, Doubles.Plus, Doubles.Minus, Doubles.Times, Doubles.Over, AsDouble,
         ConcatText, TruncatedDiv, Bitwise, Shift, Compare, ValuesEqual;
    ShiftsRounded(op, l, r);
    if IsNumber(l) && IsNumber(r) {
      OperandRounded(l, key);
      OperandRounded(r, key);
      Doubles.ArithmeticIsRounded(AsDouble(l), AsDouble(r));
    }
  }

  lemma ShiftsRounded(op: Token, l: Value, r: Value)
    ensures op == Shl || op == Shr ==> Shift(op, l, r).Ok? ==> Shift(op, l, r).value.VInt?
    ensures op == Lt || op == Le || op == Gt || op == Ge ==> Compare(op, l, r).Ok? ==> Compare(op, l, r).value.VBool?
  {
    hide Bits.Pow2, CompareNumbers, CompareBytes;
  }

  lemma ApplyUnaryRounded(op: Token, v: Value, key: bytes -> bool)
    requires Rounded(v, key)
    ensures ApplyUnary(op, v).Ok? ==> Rounded(ApplyUnary(op, v).value, key)
  {
    hide Doubles.IsRounded, Doubles.Negate, Truthy;
    if v.VFloat? {
      Doubles.NegatedIsRounded(v.f);
    }
  }

  /** Whatever an expression over doubles evaluates to, its floats are doubles and its object keys are keys. */
  lemma {:induction false} EvaluateRounded(e: Expr, env: Scopes, key: bytes -> bool, depth: nat)
    requires RoundedExpr(e, key) && RoundedScopes(env, key)
    ensures Evaluate(e, env, depth).Ok? ==> Rounded(Evaluate(e, env, depth).value, key)
    decreases e, 1
  {
    hide Doubles.IsRounded, Apply, ApplyUnary, Truthy, Lookup, RoundedScopes, EvaluateAll, EvaluateFields;
    match e
    case EIdent(name) => LookupRounded(env, key, name);
    case EArray(elements) => EvaluateAllRounded(elements, env, key, depth + 1);
    case EObject(fields) => EvaluateFieldsRounded(fields, env, key, depth + 1);
    case EUnary(op, x) =>
      EvaluateRounded(x, env, key, depth + 1);
      var v := Evaluate(x, env, depth + 1);
      if v.Ok? {
        ApplyUnaryRounded(op, v.value, key);
      }
    case ETernary(c, a, b) =>
      EvaluateRounded(a, env, key, depth + 1);
      EvaluateRounded(b, env, key, depth + 1);
    case EBinary(op, x, y) =>
      EvaluateRounded(x, env, key, depth + 1);
      EvaluateRounded(y, env, key, depth + 1);
      var l, r := Evaluate(x, env, depth + 1), Evaluate(y, env, depth + 1);
      if l.Ok? && r.Ok? {
        ApplyRounded(op, l.value, r.value, key);
      }
    case _ =>
  }

  lemma {:induction false} EvaluateAllRounded(es: seq<Expr>, env: Scopes, key: bytes -> bool, depth: nat)
    requires RoundedExprs(es, key) && RoundedScopes(env, key)
    ensures EvaluateAll(es, env, depth).Ok? ==> AllRounded(EvaluateAll(es, env, depth).value, key)
    decreases es, 0
  {
    hide Evaluate, Rounded, RoundedExpr, RoundedScopes;
    if es != [] {
      EvaluateRounded(es[0], env, key, depth);
      EvaluateAllRounded(es[1..], env, key, depth);
      var v, rest := Evaluate(es[0], env, depth), EvaluateAll(es[1..], env, depth);
      if v.Ok? && rest.Ok? {
        assert ([v.value] + rest.value)[1..] == rest.value;
      }
    }
  }

  lemma {:induction false} EvaluateFieldsRounded(fs: seq<FieldExpr>, env: Scopes, key: bytes -> bool, depth: nat)
    requires RoundedFields(fs, key) && RoundedScopes(env, key)
    ensures EvaluateFields(fs, env, depth).Ok? ==> MembersRounded(EvaluateFields(fs, env, depth).value, key)
    decreases fs, 0
  {
    hide Evaluate, Rounded, RoundedExpr, RoundedScopes;
    if fs != [] {
      EvaluateRounded(fs[0].val, env, key, depth);
      EvaluateFieldsRounded(fs[1..], env, key, depth);
      var v, rest := Evaluate(fs[0].val, env, depth), EvaluateFields(fs[1..], env, depth);
      if v.Ok? && rest.Ok? {
        assert ([Member(fs[0].key, v.value)] + rest.value)[1..] == rest.value;
      }
    }
  }
}
