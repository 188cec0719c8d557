/** The part of Python's abstract syntax tree that the translator reads: the node kinds
    whose conversion is modelled, plus `Other` for any kind that has no visitor in the
    converter or in the transformers.  Fields keep Python's names where Dafny allows it
    (`returns` is `returnType` here, and a function's `args` is `params`); the `ctx` of
    names and attributes, line numbers, decorator lists, and the `vararg`, `kwonlyargs`,
    `kw_defaults` and `kwarg` fields of a parameter list are not represented.  A module is only
    ever the root of a tree, so it is a type of its own. */
module PyAst {
  import opened Wrappers

  datatype Operator =
    | Add | Sub | Mult | MatMult | Div | Mod | Pow
    | LShift | RShift | BitOr | BitXor | BitAnd | FloorDiv

  datatype CmpOperator = Eq | NotEq | Lt | LtE | Gt | GtE | Is | IsNot | In | NotIn

  datatype Module = Module(body: seq<Node>)

  datatype Node =
    // statements
    | FunctionDef(name: string, params: Node, body: seq<Node>, returnType: Option<Node>)
    | ClassDef(name: string, bases: seq<Node>, keywords: seq<Node>, body: seq<Node>)
    | Return(returnValue: Option<Node>)
    | Assign(targets: seq<Node>, value: Node)
    | AugAssign(target: Node, op: Operator, value: Node)
    | Print(values: seq<Node>, nl: bool)
    | For(target: Node, iter: Node, body: seq<Node>, orelse: seq<Node>)
    | If(test: Node, body: seq<Node>, orelse: seq<Node>)
    | Expr(value: Node)
    // expressions
    | BinOp(left: Node, op: Operator, right: Node)
    | Compare(left: Node, ops: seq<CmpOperator>, comparators: seq<Node>)
    | Call(func: Node, args: seq<Node>, keywords: seq<Node>)
    | Num(n: int)
    | Str(s: string)
    | Attribute(value: Node, attr: string)
    | Name(id: string)
    | Tuple(elts: seq<Node>)
    | Keyword(arg: string, value: Node)
    // a function's parameter list (`arguments`) and one parameter (`arg`)
    | Arguments(args: seq<Node>, defaults: seq<Node>)
    | Arg(arg: string, annotation: Option<Node>)
    // a node kind with no visitor of its own, with its child nodes in field order
    | Other(kind: string, children: seq<Node>)
}
