/** The evaluated cfgscript document: values, statements, and the parsed form before evaluation. */
module CfgModel {
  import opened Common
  import Doubles
  import opened CfgGrammar

  datatype Value =
    | VNull
    | VBool(b: bool)
    | VInt(i: i64)
    | VFloat(f: Doubles.Double)
    | VStr(s: bytes)
    | VArray(items: seq<Value>)
    | VObject(members: seq<Member>)

  datatype Member = Member(key: bytes, val: Value)

  datatype Node =
    | Assignment(path: seq<bytes>, value: Value)
    | Block(name: bytes, tag: Option<bytes>, children: seq<Node>)
    | IncludeNode(file: bytes)

  type Document = seq<Node>

  /** A statement as the parser hands it to the document driver. */
  datatype Statement =
    | AssignStmt(path: seq<bytes>, expr: Expr)
    | BlockStmt(name: bytes, tag: Option<bytes>, children: seq<Statement>)
    | IncludeStmt(file: bytes)

  datatype SerializeOptions = SerializeOptions(indentWidth: int, inlineThreshold: nat)

  /** kMaxDepth: the recursion budget parser and evaluator share. */
  const MAX_DEPTH: nat := 64
}
