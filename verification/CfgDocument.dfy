/**
  * document.cpp: evaluating a statement list in a chain of scopes, and the text-to-document
  * driver. The scopes are objects linked to the scope around them, proved to behave as a
  * sequence of tables.
  */
module CfgDocument {
  import opened Common
  import opened CfgModel
  import opened CfgEvaluator
  import opened CfgParser
  import Spec = CfgDocumentSpec

  /** One scope of names, chained to the scope around it. */
  class Environment {
    const parent: Environment?
    var table: Table
    ghost const chain: set<Environment>  // this scope and every scope around it

    ghost predicate Valid()
      reads this, chain
      decreases chain
    {
      && this in chain
      && if parent == null then chain == {this}
         else
           && parent in parent.chain && this !in parent.chain
           && chain == {this} + parent.chain
           && parent.Valid()
    }

    /** The tables a lookup walks, innermost first. */
    function Scopes(): (s: Scopes)
      requires Valid()
      reads this, chain
      ensures s != [] && s[0] == table
      decreases chain
    {
      if parent == null then [table] else [table] + parent.Scopes()
    }

    constructor (parent: Environment?)
      requires parent != null ==> parent.Valid()
      ensures Valid() && fresh(this)
      ensures Scopes() == [map[]] + if parent == null then [] else parent.Scopes()
    {
      this.parent := parent;
      table := map[];
      chain := {this} + if parent == null then {} else parent.chain;
    }

    method Define(name: bytes, v: Value)
      requires Valid()
      modifies this
      ensures Valid() && Scopes() == Spec.Define(old(Scopes()), name, v)
    {
      table := table[name := v];
    }

    /** The innermost binding of a name in this scope or one around it. */
    method LookupName(name: bytes) returns (found: Option<Value>)
      requires Valid()
      ensures found == Lookup(Scopes(), name)
    {
      var env: Environment? := this;
      while env != null
        invariant env != null ==> env.Valid() && Lookup(env.Scopes(), name) == Lookup(Scopes(), name)
        invariant env == null ==> Lookup(Scopes(), name) == None
        decreases if env == null then {} else env.chain
      {
        if name in env.table {
          return Some(env.table[name]);
        }
        assert env.parent != null ==> env.Scopes()[1..] == env.parent.Scopes();
        env := env.parent;
      }
      found := None;
    }
  }

  method BuildNodes(statements: seq<Statement>, env: Environment) returns (r: Result<seq<Node>>)
    requires env.Valid()
    modifies env
    ensures env.Valid()
    ensures match Spec.BuildNodes(statements, old(env.Scopes()))
            case Ok((nodes, scopes)) => r == Ok(nodes) && env.Scopes() == scopes
            case Err(code) => r == Err(code)
    decreases statements
  {
    var out: seq<Node> := [];
    var i := 0;
    assert statements[0..] == statements;
    ghost var start := env.Scopes();
    ghost var whole := Spec.BuildNodes(statements, start);
    assert whole.Ok? ==> [] + whole.value.0 == whole.value.0;
    while i < |statements|
      invariant 0 <= i <= |statements| && env.Valid()
      invariant whole == AfterNodes(out, statements[i..], env.Scopes())
    {
      NodesStep(out, statements[i..], env.Scopes());
      assert statements[i..][1..] == statements[i + 1..];
      var node :- BuildNode(statements[i], env);
      out := out + [node];
      i := i + 1;
    }
    assert statements[i..] == [];
    assert out + [] == out;
    r := Ok(out);
  }

  /** One turn of the loop: the node of one statement. */
  method BuildNode(st: Statement, env: Environment) returns (r: Result<Node>)
    requires env.Valid()
    modifies env
    ensures env.Valid()
    ensures match Spec.BuildNode(st, old(env.Scopes()))
            case Ok((node, scopes)) => r == Ok(node) && env.Scopes() == scopes
            case Err(code) => r == Err(code)
    decreases st
  {
    hide Evaluate, Spec.BuildNodes, Spec.Define;
    match st {
      case AssignStmt(path, e) =>
        var value :- Evaluate(e, env.Scopes(), 1);
        if path != [] {
          env.Define(path[|path| - 1], value);
        }
        r := Ok(Assignment(path, value));
      case BlockStmt(name, tag, children) =>
        var child := new Environment(env);
        var nodes :- BuildNodes(children, child);
        r := Ok(Block(name, tag, nodes));
      case IncludeStmt(file) =>
        r := Ok(IncludeNode(file));
    }
  }

  ghost function AfterNodes(done: seq<Node>, statements: seq<Statement>, env: Scopes): Result<(seq<Node>, Scopes)>
    requires env != []
  {
    var (nodes, env1) :- Spec.BuildNodes(statements, env);
    Ok((done + nodes, env1))
  }

  lemma NodesStep(done: seq<Node>, statements: seq<Statement>, env: Scopes)
    requires statements != [] && env != []
    ensures match Spec.BuildNode(statements[0], env)
            case Err(code) => AfterNodes(done, statements, env) == Err(code)
            case Ok((node, env1)) =>
              AfterNodes(done, statements, env) == AfterNodes(done + [node], statements[1..], env1)
  {
    assert forall node: Node, nodes: seq<Node> :: done + ([node] + nodes) == (done + [node]) + nodes;
  }

  /** `parse`: the document a text denotes, or the code of the first error. */
  method ParseText(data: bytes) returns (r: Result<Document>)
    ensures r == Spec.Parse(data)
  {
    var parser :- Parser.Open(data);
    var statements :- parser.ParseDocument();
    var root := new Environment(null);
    r := BuildNodes(statements, root);
  }
}
