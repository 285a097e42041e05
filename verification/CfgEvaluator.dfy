/**
  * evaluator.cpp: folding an expression tree into a value. Integers are 64-bit and wrap; next
  * to a float they are rounded to doubles.
  */
module CfgEvaluator {
  import opened Common
  import opened CfgGrammar
  import opened CfgModel
  import opened CfgLexSpec
  import opened CfgSerializer
  import Bits
  import Doubles

  type Table = map<bytes, Value>

  /** The scopes a name is looked up in, innermost first. */
  type Scopes = seq<Table>

  function Lookup(env: Scopes, name: bytes): Option<Value> {
    if env == [] then None
    else if name in env[0] then Some(env[0][name])
    else Lookup(env[1..], name)
  }

  predicate Truthy(v: Value) {
    match v
    case VNull => false
    case VBool(b) => b
    case VInt(i) => i != 0
    case VFloat(f) => f != Doubles.Finite(0.0)
    case VStr(s) => s != []
    case VArray(items) => items != []
    case VObject(members) => members != []
  }

  predicate IsNumber(v: Value) {
    v.VInt? || v.VFloat?
  }

  /** `as_double`: an integer is rounded to the nearest double on the way. */
  function AsDouble(v: Value): Doubles.Double
    requires IsNumber(v)
  {
    if v.VInt? then Doubles.Finite(Doubles.ToDouble(v.i) as real) else v.f
  }

  /** Two integers compare exactly; next to a float both sides are doubles, and NaN is on no side. */
  function CompareNumbers(a: Value, b: Value): int
    requires IsNumber(a) && IsNumber(b)
  {
    if a.VInt? && b.VInt? then (if a.i < b.i then -1 else if a.i > b.i then 1 else 0)
    else if Doubles.Less(AsDouble(a), AsDouble(b)) then -1
    else if Doubles.Less(AsDouble(b), AsDouble(a)) then 1
    else 0
  }

  predicate ValuesEqual(a: Value, b: Value)
    decreases a, 1
  {
    if IsNumber(a) && IsNumber(b) then CompareNumbers(a, b) == 0
    else
      match (a, b)
      case (VNull, VNull) => true
      case (VBool(x), VBool(y)) => x == y
      case (VStr(x), VStr(y)) => x == y
      case (VArray(x), VArray(y)) => ItemsEqual(x, y)
      case (VObject(x), VObject(y)) => MembersEqual(x, y)
      case (_, _) => false
  }

  predicate ItemsEqual(a: seq<Value>, b: seq<Value>)
    decreases a, 0
  {
    if a == [] || b == [] then a == b
    else ValuesEqual(a[0], b[0]) && ItemsEqual(a[1..], b[1..])
  }

  predicate MembersEqual(a: seq<Member>, b: seq<Member>)
    decreases a, 0
  {
    if a == [] || b == [] then a == b
    else a[0].key == b[0].key && ValuesEqual(a[0].val, b[0].val) && MembersEqual(a[1..], b[1..])
  }

  function ConcatText(v: Value): bytes {
    match v
    case VStr(s) => s
    case VInt(i) => IntText(i)
    case VFloat(f) => FloatText(f)
    case VBool(b) => if b then TRUE_WORD else FALSE_WORD
    case VNull => NULL_WORD
    case _ => []
  }

  function Arithmetic(op: Token, l: Value, r: Value): Result<Value>
    requires op == Plus || op == Minus || op == Star
  {
    if op == Plus && (l.VStr? || r.VStr?) then Ok(VStr(ConcatText(l) + ConcatText(r)))
    else if !IsNumber(l) || !IsNumber(r) then Err(BadType)
    else if l.VInt? && r.VInt? then
      Ok(VInt(Wrap64(if op == Plus then l.i + r.i else if op == Minus then l.i - r.i else l.i * r.i)))
    else
      var x, y := AsDouble(l), AsDouble(r);
      Ok(VFloat(if op == Plus then Doubles.Plus(x, y) else if op == Minus then Doubles.Minus(x, y)
                else Doubles.Times(x, y)))
  }

  /** C++ integer division truncates toward zero. */
  function TruncatedDiv(x: int, y: int): (q: int)
    requires y != 0
    ensures var r := x - q * y; (x >= 0 ==> 0 <= r) && (x <= 0 ==> r <= 0) && Abs(r) < Abs(y)
  {
    if x >= 0 then x / y else -((-x) / y)
  }

  function Abs(x: int): nat {
    if x < 0 then -x else x
  }

  function DivMod(op: Token, l: Value, r: Value): Result<Value>
    requires op == Slash || op == Percent
  {
    if !IsNumber(l) || !IsNumber(r) then Err(BadType)
    else if l.VFloat? || r.VFloat? then
      if AsDouble(r) == Doubles.Finite(0.0) then Err(StateViolation)
      else if op == Slash then Ok(VFloat(Doubles.Over(AsDouble(l), AsDouble(r))))
      else Err(BadType)
    else if r.i == 0 then Err(StateViolation)
    else
      var q := TruncatedDiv(l.i, r.i);
      Ok(VInt(Wrap64(if op == Slash then q else l.i - q * r.i)))
  }

  /** The bits of a signed value. */
  function Pattern(x: i64): u64 {
    x % TWO64
  }

  function Bitwise(op: Token, x: i64, y: i64): i64
    requires op == Amp || op == Caret || op == Pipe
  {
    var p, q := Pattern(x), Pattern(y);
    Wrap64(if op == Amp then Bits.And(p, q) else if op == Caret then Bits.Xor(p, q) else Bits.Or(p, q))
  }

  function Shift(op: Token, l: Value, r: Value): Result<Value>
    requires op == Shl || op == Shr
  {
    if !l.VInt? || !r.VInt? then Err(BadType)
    else if r.i < 0 || r.i > 63 then Err(StateViolation)
    else if op == Shl then Ok(VInt(Wrap64(l.i * Bits.Pow2(r.i))))
    else Ok(VInt(Wrap64(l.i / Bits.Pow2(r.i))))
  }

  function Compare(op: Token, l: Value, r: Value): Result<Value>
    requires op == Lt || op == Le || op == Gt || op == Ge
  {
    if !((IsNumber(l) && IsNumber(r)) || (l.VStr? && r.VStr?)) then Err(BadType)
    else
      var cmp := if IsNumber(l) then CompareNumbers(l, r) else CompareBytes(l.s, r.s);
      Ok(VBool(if op == Lt then cmp < 0 else if op == Le then cmp <= 0 else if op == Gt then cmp > 0 else cmp >= 0))
  }

  /** A binary operator applied to two evaluated operands. */
  function Apply(op: Token, l: Value, r: Value): Result<Value> {
    match op
    case Plus | Minus | Star => Arithmetic(op, l, r)
    case Slash | Percent => DivMod(op, l, r)
    case Shl | Shr => Shift(op, l, r)
    case Amp | Caret | Pipe => if l.VInt? && r.VInt? then Ok(VInt(Bitwise(op, l.i, r.i))) else Err(BadType)
    case EqEq => Ok(VBool(ValuesEqual(l, r)))
    case Ne => Ok(VBool(!ValuesEqual(l, r)))
    case Lt | Le | Gt | Ge => Compare(op, l, r)
    case _ => Err(BadType)
  }

  function ApplyUnary(op: Token, v: Value): Result<Value> {
    match op
    case Minus =>
      if v.VInt? then Ok(VInt(Wrap64(0 - v.i)))
      else if v.VFloat? then Ok(VFloat(Doubles.Negate(v.f)))
      else Err(BadType)
    case Bang => Ok(VBool(!Truthy(v)))
    case Tilde => if v.VInt? then Ok(VInt(-1 - v.i)) else Err(BadType)
    case _ => Err(BadType)
  }

  function Evaluate(e: Expr, env: Scopes, depth: nat): Result<Value>
    decreases e, 1
  {
    if depth > MAX_DEPTH then Err(DepthExceeded) else
    match e
    case ENull => Ok(VNull)
    case EBool(b) => Ok(VBool(b))
    case EInt(i) => Ok(VInt(i))
    case EFloat(f) => Ok(VFloat(f))
    case EStr(s) => Ok(VStr(s))
    case EIdent(name) =>
      var found := Lookup(env, name);
      if found.Some? then Ok(found.value) else Err(StateViolation)
    case EArray(elements) =>
      var items :- EvaluateAll(elements, env, depth + 1);
      Ok(VArray(items))
    case EObject(fields) =>
      var members :- EvaluateFields(fields, env, depth + 1);
      Ok(VObject(members))
    case EUnary(op, x) =>
      var v :- Evaluate(x, env, depth + 1);
      ApplyUnary(op, v)
    case ETernary(c, a, b) =>
      var v :- Evaluate(c, env, depth + 1);
      if Truthy(v) then Evaluate(a, env, depth + 1) else Evaluate(b, env, depth + 1)
    case EBinary(op, x, y) =>
      var l :- Evaluate(x, env, depth + 1);
      if op == AndAnd && !Truthy(l) then Ok(VBool(false))
      else if op == OrOr && Truthy(l) then Ok(VBool(true))
      else
        var r :- Evaluate(y, env, depth + 1);
        if op == AndAnd || op == OrOr then Ok(VBool(Truthy(r))) else Apply(op, l, r)
  }

  function EvaluateAll(es: seq<Expr>, env: Scopes, depth: nat): Result<seq<Value>>
    decreases es, 0
  {
    if es == [] then Ok([]) else
    var v :- Evaluate(es[0], env, depth);
    var rest :- EvaluateAll(es[1..], env, depth);
    Ok([v] + rest)
  }

  function EvaluateFields(fs: seq<FieldExpr>, env: Scopes, depth: nat): Result<seq<Member>>
    decreases fs, 0
  {
    if fs == [] then Ok([]) else
    var v :- Evaluate(fs[0].val, env, depth);
    var rest :- EvaluateFields(fs[1..], env, depth);
    Ok([Member(fs[0].key, v)] + rest)
  }

  /**
    * The depth check does nothing but cut off: an evaluation that does not run into it has the
    * same outcome, value or error, from every shallower starting depth.
    */
  lemma {:induction false} DepthOnlyCutsOff(e: Expr, env: Scopes, shallow: nat, deep: nat)
    requires shallow <= deep && Evaluate(e, env, deep) != Err(DepthExceeded)
    ensures Evaluate(e, env, shallow) == Evaluate(e, env, deep)
    decreases e, 1
  {
    hide Apply, ApplyUnary, Truthy, Lookup, EvaluateAll, EvaluateFields;
    match e
    case EArray(elements) => CutsOffAll(elements, env, shallow + 1, deep + 1);
    case EObject(fields) => CutsOffFields(fields, env, shallow + 1, deep + 1);
    case EUnary(_, x) => DepthOnlyCutsOff(x, env, shallow + 1, deep + 1);
    case ETernary(c, a, b) =>
      DepthOnlyCutsOff(c, env, shallow + 1, deep + 1);
      var v := Evaluate(c, env, deep + 1);
      if v.Ok? {
        DepthOnlyCutsOff(if Truthy(v.value) then a else b, env, shallow + 1, deep + 1);
      }
    case EBinary(op, x, y) => CutsOffBinary(op, x, y, env, shallow, deep);
    case _ =>
  }

  lemma {:induction false} CutsOffBinary(op: Token, x: Expr, y: Expr, env: Scopes, shallow: nat, deep: nat)
    requires shallow <= deep && Evaluate(EBinary(op, x, y), env, deep) != Err(DepthExceeded)
    ensures Evaluate(EBinary(op, x, y), env, shallow) == Evaluate(EBinary(op, x, y), env, deep)
    decreases EBinary(op, x, y), 0
  {
    hide Apply, ApplyUnary, Truthy, Lookup, EvaluateAll, EvaluateFields;
    DepthOnlyCutsOff(x, env, shallow + 1, deep + 1);
    var l := Evaluate(x, env, deep + 1);
    if l.Ok? && !(op == AndAnd && !Truthy(l.value)) && !(op == OrOr && Truthy(l.value)) {
      DepthOnlyCutsOff(y, env, shallow + 1, deep + 1);
    }
  }

  lemma {:induction false} CutsOffAll(es: seq<Expr>, env: Scopes, shallow: nat, deep: nat)
    requires shallow <= deep && EvaluateAll(es, env, deep) != Err(DepthExceeded)
    ensures EvaluateAll(es, env, shallow) == EvaluateAll(es, env, deep)
    decreases es, 0
  {
    hide Evaluate;
    if es != [] {
      DepthOnlyCutsOff(es[0], env, shallow, deep);
      if Evaluate(es[0], env, deep).Ok? {
        CutsOffAll(es[1..], env, shallow, deep);
      }
    }
  }

  lemma {:induction false} CutsOffFields(fs: seq<FieldExpr>, env: Scopes, shallow: nat, deep: nat)
    requires shallow <= deep && EvaluateFields(fs, env, deep) != Err(DepthExceeded)
    ensures EvaluateFields(fs, env, shallow) == EvaluateFields(fs, env, deep)
    decreases fs, 0
  {
    hide Evaluate;
    if fs != [] {
      DepthOnlyCutsOff(fs[0].val, env, shallow, deep);
      if Evaluate(fs[0].val, env, deep).Ok? {
        CutsOffFields(fs[1..], env, shallow, deep);
      }
    }
  }
}
