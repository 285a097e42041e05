/** What source means. */
module CfgMeaning {
  // Evaluation on the trees of the grammar: which branch a ternary takes, what a short circuit
  // leaves out, in which order operands fail, where a name is bound, and what a statement sees.

  import opened CfgDocumentSpec
  import opened CfgEvaluator
  import opened CfgGrammar
  import opened CfgModel
  import opened CfgOperatorLaw
  import opened Common
  import Doubles

  /** What a tree evaluates to. */
  function Meaning(c: Cst, env: Scopes, d: nat): Result<Value> {
    Evaluate(Ast(c), env, d)
  }

  // ---- conditions

  /** A ternary is its second branch if the condition is null, false, a zero or empty, else its first. */
  lemma TernaryLaw(c: Cst, a: Cst, b: Cst, env: Scopes, d: nat, v: Value)
    requires Meaning(c, env, d + 1) == Ok(v)
    ensures Meaning(Tern(c, a, b), env, d)
         == if CountsAsFalse(v) then Meaning(b, env, d + 1) else Meaning(a, env, d + 1)
  {
    TruthyExactly(v);
    hide Truthy, CountsAsFalse;
  }

  /** With a left side that counts as false `&&` is false whatever the right side is; else the right side decides. */
  lemma AndLaw(l: Cst, r: Cst, env: Scopes, d: nat, v: Value)
    requires Meaning(l, env, d + 1) == Ok(v)
    ensures CountsAsFalse(v) ==> Meaning(Bin(AndAnd, l, r), env, d) == Ok(VBool(false))
    ensures !CountsAsFalse(v) ==> Meaning(Bin(AndAnd, l, r), env, d) == AsTruth(Meaning(r, env, d + 1))
  {
    TruthyExactly(v);
    if Meaning(r, env, d + 1).Ok? {
      TruthyExactly(Meaning(r, env, d + 1).value);
    }
    hide Truthy, CountsAsFalse, Apply;
  }

  /** With a left side that does not, `||` is true whatever the right side is; else the right side decides. */
  lemma OrLaw(l: Cst, r: Cst, env: Scopes, d: nat, v: Value)
    requires Meaning(l, env, d + 1) == Ok(v)
    ensures !CountsAsFalse(v) ==> Meaning(Bin(OrOr, l, r), env, d) == Ok(VBool(true))
    ensures CountsAsFalse(v) ==> Meaning(Bin(OrOr, l, r), env, d) == AsTruth(Meaning(r, env, d + 1))
  {
    TruthyExactly(v);
    if Meaning(r, env, d + 1).Ok? {
      TruthyExactly(Meaning(r, env, d + 1).value);
    }
    hide Truthy, CountsAsFalse, Apply;
  }

  /** A value as a truth value; an error stays. */
  function AsTruth(r: Result<Value>): Result<Value> {
    match r
    case Ok(v) => Ok(VBool(!CountsAsFalse(v)))
    case Err(code) => Err(code)
  }

  // ---- operands

  /** Every other operator takes both operands: the left one fails first, then the right one. */
  lemma BinaryLaw(op: Token, l: Cst, r: Cst, env: Scopes, d: nat)
    requires d <= 64 && op != AndAnd && op != OrOr
    ensures var x, y := Meaning(l, env, d + 1), Meaning(r, env, d + 1);
            Meaning(Bin(op, l, r), env, d)
            == if x.Err? then x else if y.Err? then y else Apply(op, x.value, y.value)
  {
    hide Apply, Truthy;
  }

  /** The condition of a ternary, the left side of a logical operator and an operand pass their errors on. */
  lemma ErrorsPass(c: Cst, a: Cst, b: Cst, op: Token, env: Scopes, d: nat, code: ErrorCode)
    requires d <= 64 && Meaning(c, env, d + 1) == Err(code)
    ensures Meaning(Tern(c, a, b), env, d) == Err(code)
    ensures Meaning(Bin(op, c, a), env, d) == Err(code)
    ensures Meaning(Un(op, c), env, d) == Err(code)
  {
    hide Apply, ApplyUnary, Truthy;
  }

  lemma UnaryLaw(op: Token, x: Cst, env: Scopes, d: nat, v: Value)
    requires Meaning(x, env, d + 1) == Ok(v)
    ensures Meaning(Un(op, x), env, d) == ApplyUnary(op, v)
  {
    hide ApplyUnary;
  }

  /** Parentheses cost nothing, and past the sixty-fourth level nothing is evaluated. */
  lemma LevelLaw(x: Cst, env: Scopes, d: nat)
    ensures Meaning(Paren(x), env, d) == Meaning(x, env, d)
    ensures d > 64 ==> Meaning(x, env, d) == Err(DepthExceeded)
  {
  }

  /** Literals are their values; a name is what it is bound to, and must be. */
  lemma LeafLaw(env: Scopes, d: nat, i: i64, f: Doubles.Double, s: bytes, name: bytes)
    requires d <= 64
    ensures Meaning(Leaf(Null), env, d) == Ok(VNull)
    ensures Meaning(Leaf(True), env, d) == Ok(VBool(true)) && Meaning(Leaf(False), env, d) == Ok(VBool(false))
    ensures Meaning(Leaf(IntLit(i)), env, d) == Ok(VInt(i)) && Meaning(Leaf(FloatLit(f)), env, d) == Ok(VFloat(f))
    ensures Meaning(Leaf(StringLit(s)), env, d) == Ok(VStr(s))
    ensures Meaning(Leaf(Ident(name)), env, d)
         == if Lookup(env, name).Some? then Ok(Lookup(env, name).value) else Err(StateViolation)
  {
    hide Lookup;
  }

  // ---- arrays and objects

  /** The values of a list of trees, or the error of the first that fails. */
  ghost predicate AllMean(out: Result<seq<Value>>, cs: seq<Cst>, env: Scopes, d: nat) {
    match out
    case Ok(vs) => |vs| == |cs| && forall i | 0 <= i < |cs| :: Meaning(cs[i], env, d) == Ok(vs[i])
    case Err(code) => exists i: nat :: FailsFirst(cs, i, env, d, code)
  }

  ghost predicate FailsFirst(cs: seq<Cst>, i: nat, env: Scopes, d: nat, code: ErrorCode) {
    && i < |cs| && Meaning(cs[i], env, d) == Err(code)
    && forall j | 0 <= j < i :: Meaning(cs[j], env, d).Ok?
  }

  lemma {:induction false} ElementsMean(cs: seq<Cst>, env: Scopes, d: nat)
    ensures AllMean(EvaluateAll(AstElems(cs), env, d), cs, env, d)
    decreases |cs|
  {
    hide Meaning;
    if cs != [] {
      ElementsMean(cs[1..], env, d);
      ConsElements(cs, env, d);
      var rest := EvaluateAll(AstElems(cs[1..]), env, d);
      ConsMeans(cs, rest, env, d);
    }
  }

  lemma ConsElements(cs: seq<Cst>, env: Scopes, d: nat)
    requires cs != []
    ensures var first, rest := Meaning(cs[0], env, d), EvaluateAll(AstElems(cs[1..]), env, d);
            EvaluateAll(AstElems(cs), env, d)
            == if first.Err? then Err(first.code) else if rest.Err? then rest else Ok([first.value] + rest.value)
  {
    hide Evaluate, Ast;
    assert AstElems(cs)[1..] == AstElems(cs[1..]);
  }

  lemma ConsMeans(cs: seq<Cst>, rest: Result<seq<Value>>, env: Scopes, d: nat)
    requires cs != [] && AllMean(rest, cs[1..], env, d)
    ensures var first := Meaning(cs[0], env, d);
            AllMean(if first.Err? then Err(first.code) else if rest.Err? then rest else Ok([first.value] + rest.value),
                    cs, env, d)
  {
    hide Meaning;
    var first := Meaning(cs[0], env, d);
    if first.Err? {
      assert FailsFirst(cs, 0, env, d, first.code);
    } else if rest.Err? {
      var i: nat :| FailsFirst(cs[1..], i, env, d, rest.code);
      forall j | 0 <= j < i + 1 ensures Meaning(cs[j], env, d).Ok? {
        assert j > 0 ==> cs[j] == cs[1..][j - 1];
      }
      assert FailsFirst(cs, i + 1, env, d, rest.code);
    } else {
      forall i | 0 <= i < |cs| ensures Meaning(cs[i], env, d) == Ok(([first.value] + rest.value)[i]) {
        assert i > 0 ==> cs[i] == cs[1..][i - 1];
      }
    }
  }

  /** An array holds the values of its elements in order, or fails as the first that fails. */
  lemma ArrayLaw(es: seq<Cst>, trailing: bool, env: Scopes, d: nat)
    requires d <= 64
    ensures var out := Meaning(Arr(es, trailing), env, d);
            && (out.Ok? ==> out.value.VArray? && AllMean(Ok(out.value.items), es, env, d + 1))
            && (out.Err? ==> AllMean(Err(out.code), es, env, d + 1))
  {
    ElementsMean(es, env, d + 1);
    hide AllMean, EvaluateAll;
  }

  /** The members among the items of an object; stray semicolons are none. */
  function Fields(items: seq<Item>): seq<Item> {
    if items == [] then [] else (if items[0].Field? then [items[0]] else []) + Fields(items[1..])
  }

  function Keys(fields: seq<Item>): (keys: seq<bytes>)
    requires forall i | 0 <= i < |fields| :: fields[i].Field?
    ensures |keys| == |fields| && forall i | 0 <= i < |fields| :: keys[i] == fields[i].key
  {
    seq(|fields|, i requires 0 <= i < |fields| => fields[i].key)
  }

  function Trees(fields: seq<Item>): (cs: seq<Cst>)
    requires forall i | 0 <= i < |fields| :: fields[i].Field?
    ensures |cs| == |fields| && forall i | 0 <= i < |fields| :: cs[i] == fields[i].val
  {
    seq(|fields|, i requires 0 <= i < |fields| => fields[i].val)
  }

  lemma {:induction false} OnlyFields(items: seq<Item>)
    ensures forall i | 0 <= i < |Fields(items)| :: Fields(items)[i].Field?
  {
    if items != [] {
      OnlyFields(items[1..]);
    }
  }

  function Values(members: seq<Member>): (vs: seq<Value>)
    ensures |vs| == |members| && forall i | 0 <= i < |members| :: vs[i] == members[i].val
  {
    seq(|members|, i requires 0 <= i < |members| => members[i].val)
  }

  function ValuesIn(out: Result<seq<Member>>): Result<seq<Value>> {
    if out.Ok? then Ok(Values(out.value)) else Err(out.code)
  }

  /** The keys of the fields, one for each member. */
  predicate KeysOf(members: seq<Member>, fields: seq<Item>)
    requires forall i | 0 <= i < |fields| :: fields[i].Field?
  {
    |members| == |fields| && forall i | 0 <= i < |members| :: members[i].key == fields[i].key
  }

  ghost predicate MembersMean(out: Result<seq<Member>>, items: seq<Item>, env: Scopes, d: nat)
    requires forall i | 0 <= i < |Fields(items)| :: Fields(items)[i].Field?
  {
    AllMean(ValuesIn(out), Trees(Fields(items)), env, d) && (out.Ok? ==> KeysOf(out.value, Fields(items)))
  }

  lemma {:induction false} FieldsMean(items: seq<Item>, env: Scopes, d: nat)
    ensures forall i | 0 <= i < |Fields(items)| :: Fields(items)[i].Field?
    ensures MembersMean(EvaluateFields(AstItems(items), env, d), items, env, d)
    decreases |items|
  {
    OnlyFields(items);
    if items != [] {
      FieldsMean(items[1..], env, d);
      hide AllMean, EvaluateFields, AstItems;
      if items[0].Field? {
        ConsField(items, env, d);
      } else {
        StrayStep(items, env, d);
      }
    } else {
      assert Trees([]) == [] && ValuesIn(Ok([])) == Ok([]);
    }
  }

  lemma StrayStep(items: seq<Item>, env: Scopes, d: nat)
    requires items != [] && !items[0].Field?
    ensures EvaluateFields(AstItems(items), env, d) == EvaluateFields(AstItems(items[1..]), env, d)
    ensures Fields(items) == Fields(items[1..])
  {
    hide EvaluateFields;
  }

  lemma FieldStep(items: seq<Item>, env: Scopes, d: nat)
    requires items != [] && items[0].Field?
    ensures var first, rest := Meaning(items[0].val, env, d), EvaluateFields(AstItems(items[1..]), env, d);
            EvaluateFields(AstItems(items), env, d)
            == if first.Err? then Err(first.code)
               else if rest.Err? then rest
               else Ok([Member(items[0].key, first.value)] + rest.value)
  {
    hide Evaluate, Ast;
    assert AstItems(items)[1..] == AstItems(items[1..]);
  }

  lemma ConsField(items: seq<Item>, env: Scopes, d: nat)
    requires items != [] && items[0].Field?
    requires forall i | 0 <= i < |Fields(items[1..])| :: Fields(items[1..])[i].Field?
    requires MembersMean(EvaluateFields(AstItems(items[1..]), env, d), items[1..], env, d)
    ensures forall i | 0 <= i < |Fields(items)| :: Fields(items)[i].Field?
    ensures MembersMean(EvaluateFields(AstItems(items), env, d), items, env, d)
  {
    OnlyFields(items);
    var fields, later := Fields(items), Fields(items[1..]);
    assert fields == [items[0]] + later;
    FieldStep(items, env, d);
    hide AllMean, Meaning, EvaluateFields, AstItems, Fields, KeysOf;
    assert Trees(fields)[0] == items[0].val && Trees(fields)[1..] == Trees(later);
    var first, rest := Meaning(items[0].val, env, d), EvaluateFields(AstItems(items[1..]), env, d);
    hide Trees;
    ConsMeans(Trees(fields), ValuesIn(rest), env, d);
    if first.Ok? && rest.Ok? {
      ConsMember(Member(items[0].key, first.value), rest.value, items[0], later);
    }
  }

  lemma ConsMember(m: Member, members: seq<Member>, item: Item, later: seq<Item>)
    requires item.Field? && m.key == item.key && forall i | 0 <= i < |later| :: later[i].Field?
    ensures Values([m] + members) == [m.val] + Values(members)
    ensures KeysOf(members, later) ==> KeysOf([m] + members, [item] + later)
  {
  }

  /** An object holds its members' values under their keys, in order, or fails as the first that fails. */
  lemma ObjectLaw(items: seq<Item>, env: Scopes, d: nat)
    requires d <= 64
    ensures forall i | 0 <= i < |Fields(items)| :: Fields(items)[i].Field?
    ensures var out := Meaning(Obj(items), env, d);
            && (out.Ok? ==> out.value.VObject? && MembersMean(Ok(out.value.members), items, env, d + 1))
            && (out.Err? ==> MembersMean(Err(out.code), items, env, d + 1))
  {
    FieldsMean(items, env, d + 1);
    hide AllMean, EvaluateFields;
  }

  // ---- names

  /** A name is what the innermost scope that has it says. */
  lemma {:induction false} LookupLaw(env: Scopes, name: bytes)
    ensures Lookup(env, name) == None <==> forall i | 0 <= i < |env| :: name !in env[i]
    ensures forall i | 0 <= i < |env| && name in env[i] && (forall j | 0 <= j < i :: name !in env[j]) ::
              Lookup(env, name) == Some(env[i][name])
  {
    if env != [] {
      LookupLaw(env[1..], name);
      forall i | 0 <= i < |env| && name in env[i] && (forall j | 0 <= j < i :: name !in env[j])
        ensures Lookup(env, name) == Some(env[i][name])
      {
        if i > 0 {
          assert name !in env[0] && env[1..][i - 1] == env[i];
          assert forall j | 0 <= j < i - 1 :: env[1..][j] == env[j + 1];
        }
      }
      assert forall i | 0 < i < |env| :: env[i] == env[1..][i - 1];
    }
  }

  // ---- statements

  /** What a name stands for behind some statements: their last assignment to it, else what is around them. */
  function Visible(nodes: seq<Node>, env: Scopes, name: bytes): Option<Value> {
    if nodes == [] then Lookup(env, name)
    else
      var last := nodes[|nodes| - 1];
      if last.Assignment? && last.path != [] && last.path[|last.path| - 1] == name then Some(last.value)
      else Visible(nodes[..|nodes| - 1], env, name)
  }

  ghost predicate Sees(scope: Scopes, nodes: seq<Node>, env: Scopes) {
    scope != [] && forall name :: Lookup(scope, name) == Visible(nodes, env, name)
  }

  /** A statement and the node it becomes in a scope. */
  ghost predicate Becomes(st: Statement, node: Node, scope: Scopes)
    requires scope != []
  {
    match st
    case AssignStmt(path, e) => node.Assignment? && node.path == path && Evaluate(e, scope, 1) == Ok(node.value)
    case BlockStmt(name, tag, children) =>
      && node.Block? && node.name == name && node.tag == tag
      && var inner := BuildNodes(children, [map[]] + scope);
         inner.Ok? && inner.value.0 == node.children
    case IncludeStmt(file) => node == IncludeNode(file)
  }

  lemma StatementBecomes(st: Statement, scope: Scopes)
    requires scope != [] && BuildNode(st, scope).Ok?
    ensures Becomes(st, BuildNode(st, scope).value.0, scope)
  {
    hide Evaluate, BuildNodes;
  }

  lemma OneMore(nodes: seq<Node>, st: Statement, scope: Scopes, env: Scopes)
    requires Sees(scope, nodes, env) && BuildNode(st, scope).Ok?
    ensures var (node, next) := BuildNode(st, scope).value; Sees(next, nodes + [node], env)
  {
    hide Evaluate, BuildNodes;
    var (node, next) := BuildNode(st, scope).value;
    var all := nodes + [node];
    assert all[..|all| - 1] == nodes && all[|all| - 1] == node;
    forall name ensures Lookup(next, name) == Visible(all, env, name) {
      if st.AssignStmt? && st.path != [] {
        DefineLooksUp(scope, st.path[|st.path| - 1], node.value, name);
      }
    }
  }

  lemma DefineLooksUp(scope: Scopes, key: bytes, v: Value, name: bytes)
    requires scope != []
    ensures Lookup(Define(scope, key, v), name) == if name == key then Some(v) else Lookup(scope, name)
  {
  }

  /** Statements one after the other: each becomes its node in a scope that sees those before it. */
  lemma {:induction false} InOrder(done: seq<Node>, sts: seq<Statement>, scope: Scopes, env: Scopes, i: nat)
    returns (at: Scopes)
    requires Sees(scope, done, env) && BuildNodes(sts, scope).Ok? && i < |sts|
    ensures var nodes := BuildNodes(sts, scope).value.0;
            |nodes| == |sts| && Sees(at, done + nodes[..i], env) && Becomes(sts[i], nodes[i], at)
    decreases |sts|
  {
    hide BuildNode, Becomes, Sees;
    ScopeThere(done, scope, env);
    StatementBecomes(sts[0], scope);
    OneMore(done, sts[0], scope, env);
    var nodes := BuildNodes(sts, scope).value.0;
    var (node, next) := BuildNode(sts[0], scope).value;
    var rest := BuildNodes(sts[1..], next);
    assert nodes == [node] + rest.value.0;
    SameLength(sts[1..], next);
    if i == 0 {
      at := scope;
      assert done + nodes[..0] == done;
    } else {
      at := InOrder(done + [node], sts[1..], next, env, i - 1);
      assert done + nodes[..i] == done + [node] + rest.value.0[..i - 1];
    }
  }

  lemma ScopeThere(nodes: seq<Node>, scope: Scopes, env: Scopes)
    requires Sees(scope, nodes, env)
    ensures scope != []
  {
  }

  lemma {:induction false} SameLength(sts: seq<Statement>, scope: Scopes)
    requires scope != [] && BuildNodes(sts, scope).Ok?
    ensures |BuildNodes(sts, scope).value.0| == |sts|
    decreases |sts|
  {
    hide BuildNode;
    if sts != [] {
      SameLength(sts[1..], BuildNode(sts[0], scope).value.1);
    }
  }

  /**
    * Statement `i` of a list sees, under every name, the last assignment to it before, by the last
    * component of its path, or else what is around the list; what blocks before it bind it does
    * not see.
    */
  lemma StatementsSee(sts: seq<Statement>, env: Scopes, i: nat) returns (scope: Scopes)
    requires env != [] && BuildNodes(sts, env).Ok? && i < |sts|
    ensures var nodes := BuildNodes(sts, env).value.0;
            |nodes| == |sts| && Sees(scope, nodes[..i], env) && Becomes(sts[i], nodes[i], scope)
  {
    hide Becomes, BuildNodes;
    assert Sees(env, [], env);
    scope := InOrder([], sts, env, env, i);
    var nodes := BuildNodes(sts, env).value.0;
    assert [] + nodes[..i] == nodes[..i];
  }

  /** A block starts out seeing what is around it. */
  lemma BlockSees(scope: Scopes, name: bytes)
    ensures Lookup([map[]] + scope, name) == Lookup(scope, name)
  {
    assert ([map[]] + scope)[1..] == scope;
  }

  /** A list fails as the first of its statements that fails. */
  lemma {:induction false} FirstFailure(done: seq<Node>, sts: seq<Statement>, scope: Scopes, env: Scopes)
    returns (i: nat, nodes: seq<Node>, at: Scopes)
    requires Sees(scope, done, env) && BuildNodes(sts, scope).Err?
    ensures i < |sts| && |nodes| == |done| + i && Sees(at, nodes, env)
    ensures BuildNode(sts[i], at) == Err(BuildNodes(sts, scope).code)
    decreases |sts|
  {
    hide BuildNode, Sees;
    ScopeThere(done, scope, env);
    var first := BuildNode(sts[0], scope);
    if first.Err? {
      i, nodes, at := 0, done, scope;
    } else {
      OneMore(done, sts[0], scope, env);
      i, nodes, at := FirstFailure(done + [first.value.0], sts[1..], first.value.1, env);
      i := i + 1;
    }
    ScopeThere(nodes, at, env);
  }
}
