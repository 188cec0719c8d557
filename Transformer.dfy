/** The four `ast.NodeTransformer` passes that rewrite a Python tree before conversion:
    Python 2 `print` statements become calls, tuples become `tuple(...)` calls, `**`
    becomes `math.pow` and `//` becomes `int(... / ...)`.

    `NodeTransformer.visit(node)` calls the pass's own `visit_<Kind>` when it defines
    one and otherwise `generic_visit`, which visits every child and rebuilds the node
    from the results.  The passes' own visitors never visit the children of the node
    they are given; `Walk(p, n, false)` is that behaviour.  `Walk(p, n, true)` is the
    corrected behaviour in which each own visitor first rebuilds its node's children
    (as `generic_visit` would) and then rewrites the rebuilt node. */
module Transformer {
  import opened Wrappers
  import opened PyAst

  datatype Pass = PrintTransformer | TupleTransformer | PowTransformer | FloorDivTransformer

  /** The passes, in the order the converter applies them. */
  const Transformers: seq<Pass> :=
    [PrintTransformer, TupleTransformer, PowTransformer, FloorDivTransformer]

  /** `math.pow(args...)` */
  function MathPow(args: seq<Node>): Node {
    Call(Attribute(Name("math"), "pow"), args, [])
  }

  /** `int(e)` */
  function IntCall(e: Node): Node {
    Call(Name("int"), [e], [])
  }

  /** The keywords of the `print(...)` call that replaces a Python 2 `print`. */
  function PrintKeywords(nl: bool): seq<Node> {
    if nl then [] else [Keyword("end", Str(""))]
  }

  /** The node kinds for which pass `p` defines its own `visit_<Kind>`. */
  predicate Handles(p: Pass, n: Node) {
    match p
    case PrintTransformer => n.Print?
    case TupleTransformer => n.Tuple?
    case PowTransformer => n.BinOp? || n.AugAssign?
    case FloorDivTransformer => n.BinOp? || n.AugAssign?
  }

  /** The body of pass `p`'s own visitor applied to `n`: a node built from `n`'s fields,
      or `n` itself; the children are used as they are. */
  function Rewrite(p: Pass, n: Node): (r: Node)
    ensures !Handles(p, n) ==> r == n
  {
    match n
    case Print(values, nl) =>
      if p == PrintTransformer then Expr(Call(Name("print"), values, PrintKeywords(nl))) else n
    case Tuple(elts) =>
      if p == TupleTransformer then Call(Name("tuple"), elts, []) else n
    case BinOp(l, op, r) =>
      if p == PowTransformer && op == Pow then MathPow([l, r])
      else if p == FloorDivTransformer && op == FloorDiv then IntCall(BinOp(l, Div, r))
      else n
    case AugAssign(t, op, v) =>
      if p == PowTransformer && op == Pow then Assign([t], MathPow([t, v]))
      else if p == FloorDivTransformer && op == FloorDiv then Assign([t], IntCall(BinOp(t, Div, v)))
      else n
    case _ => n
  }

  /** `p.visit(n)`; with `descend` the own visitors rebuild the children first. */
  function Walk(p: Pass, n: Node, descend: bool): Node
    decreases n, 1
  {
    if descend then Rewrite(p, Rebuild(p, n, true))
    else if Handles(p, n) then Rewrite(p, n)
    else Rebuild(p, n, false)
  }

  /** `generic_visit(n)`: the same node with every child visited. */
  function Rebuild(p: Pass, n: Node, descend: bool): (r: Node)
    ensures r.BinOp? == n.BinOp? && r.AugAssign? == n.AugAssign?
    ensures (r.BinOp? || r.AugAssign?) ==> r.op == n.op
    decreases n, 0
  {
    match n
    case FunctionDef(name, params, body, returnType) =>
      FunctionDef(name, Walk(p, params, descend), WalkAll(p, body, descend), WalkOpt(p, returnType, descend))
    case ClassDef(name, bases, keywords, body) =>
      ClassDef(name, WalkAll(p, bases, descend), WalkAll(p, keywords, descend), WalkAll(p, body, descend))
    case Return(v) => Return(WalkOpt(p, v, descend))
    case Assign(targets, v) => Assign(WalkAll(p, targets, descend), Walk(p, v, descend))
    case AugAssign(t, op, v) => AugAssign(Walk(p, t, descend), op, Walk(p, v, descend))
    case Print(values, nl) => Print(WalkAll(p, values, descend), nl)
    case For(t, it, body, orelse) =>
      For(Walk(p, t, descend), Walk(p, it, descend), WalkAll(p, body, descend), WalkAll(p, orelse, descend))
    case If(test, body, orelse) =>
      If(Walk(p, test, descend), WalkAll(p, body, descend), WalkAll(p, orelse, descend))
    case Expr(v) => Expr(Walk(p, v, descend))
    case BinOp(l, op, r) => BinOp(Walk(p, l, descend), op, Walk(p, r, descend))
    case Compare(l, ops, cs) => Compare(Walk(p, l, descend), ops, WalkAll(p, cs, descend))
    case Call(f, args, keywords) => Call(Walk(p, f, descend), WalkAll(p, args, descend), WalkAll(p, keywords, descend))
    case Num(_) => n
    case Str(_) => n
    case Attribute(v, attr) => Attribute(Walk(p, v, descend), attr)
    case Name(_) => n
    case Tuple(elts) => Tuple(WalkAll(p, elts, descend))
    case Keyword(arg, v) => Keyword(arg, Walk(p, v, descend))
    case Arguments(args, defaults) => Arguments(WalkAll(p, args, descend), WalkAll(p, defaults, descend))
    case Arg(arg, annotation) => Arg(arg, WalkOpt(p, annotation, descend))
    case Other(kind, cs) => Other(kind, WalkAll(p, cs, descend))
  }

  /** A list field: every element visited, in order. */
  function WalkAll(p: Pass, ns: seq<Node>, descend: bool): (r: seq<Node>)
    ensures |r| == |ns|
    decreases ns
  {
    if |ns| == 0 then [] else [Walk(p, ns[0], descend)] + WalkAll(p, ns[1..], descend)
  }

  /** An optional field: visited when present. */
  function WalkOpt(p: Pass, o: Option<Node>, descend: bool): (r: Option<Node>)
    ensures r.Some? <==> o.Some?
    decreases o
  {
    match o
    case None => None
    case Some(x) => Some(Walk(p, x, descend))
  }

  /** `p.visit(module)`: a module has no visitor of its own, so its statements are visited. */
  function WalkModule(p: Pass, m: Module, descend: bool): (r: Module)
    ensures |r.body| == |m.body|
  {
    Module(WalkAll(p, m.body, descend))
  }

  /** `for transformer in transformers: node = transformer.visit(node)` */
  function RunPasses(ps: seq<Pass>, m: Module, descend: bool): (r: Module)
    ensures |r.body| == |m.body|
    decreases |ps|
  {
    if |ps| == 0 then m else RunPasses(ps[1..], WalkModule(ps[0], m, descend), descend)
  }

  // ---------------------------------------------------------------------------
  // What each own visitor does (as written)

  /** A Python 2 `print` becomes an expression statement calling `print` with the same
      values, with the keyword `end=""` exactly when the statement suppressed the newline. */
  lemma PrintBecomesCall(values: seq<Node>, nl: bool)
    ensures Walk(PrintTransformer, Print(values, nl), false).Expr?
    ensures Walk(PrintTransformer, Print(values, nl), false).value.func == Name("print")
    ensures Walk(PrintTransformer, Print(values, nl), false).value.args == values
    ensures Walk(PrintTransformer, Print(values, nl), false).value.keywords == [] <==> nl
    ensures !nl ==> Walk(PrintTransformer, Print(values, nl), false).value.keywords == [Keyword("end", Str(""))]
  {
  }

  /** A tuple becomes a call of `tuple` on the same elements in the same order. */
  lemma TupleBecomesCall(elts: seq<Node>)
    ensures Walk(TupleTransformer, Tuple(elts), false) == Call(Name("tuple"), elts, [])
  {
  }

  /** `l ** r` becomes `math.pow(l, r)` and `t **= v` becomes `t = math.pow(t, v)`. */
  lemma PowBecomesMathPow(l: Node, r: Node, t: Node, v: Node)
    ensures Walk(PowTransformer, BinOp(l, Pow, r), false) == Call(Attribute(Name("math"), "pow"), [l, r], [])
    ensures Walk(PowTransformer, AugAssign(t, Pow, v), false) == Assign([t], Call(Attribute(Name("math"), "pow"), [t, v], []))
  {
  }

  /** `l // r` becomes `int(l / r)` and `t //= v` becomes `t = int(t / v)`. */
  lemma FloorDivBecomesIntDiv(l: Node, r: Node, t: Node, v: Node)
    ensures Walk(FloorDivTransformer, BinOp(l, FloorDiv, r), false) == Call(Name("int"), [BinOp(l, Div, r)], [])
    ensures Walk(FloorDivTransformer, AugAssign(t, FloorDiv, v), false) == Assign([t], Call(Name("int"), [BinOp(t, Div, v)], []))
  {
  }

  /** The Pow and FloorDiv passes return any other binary operation or augmented
      assignment as it is, without visiting its operands. */
  lemma OtherOperatorsUntouched(p: Pass, l: Node, op: Operator, r: Node)
    requires p == PowTransformer || p == FloorDivTransformer
    requires op != Pow && op != FloorDiv
    ensures Walk(p, BinOp(l, op, r), false) == BinOp(l, op, r)
    ensures Walk(p, AugAssign(l, op, r), false) == AugAssign(l, op, r)
  {
  }

  /** Running the pass list is the four passes one after another, in list order. */
  lemma {:induction false} PassesInOrder(n: Module, descend: bool)
    ensures RunPasses(Transformers, n, descend)
         == WalkModule(FloorDivTransformer, WalkModule(PowTransformer, WalkModule(TupleTransformer,
              WalkModule(PrintTransformer, n, descend), descend), descend), descend)
  {
    var n1 := WalkModule(PrintTransformer, n, descend);
    var n2 := WalkModule(TupleTransformer, n1, descend);
    var n3 := WalkModule(PowTransformer, n2, descend);
    var n4 := WalkModule(FloorDivTransformer, n3, descend);
    assert Transformers[1..] == [TupleTransformer, PowTransformer, FloorDivTransformer];
    assert Transformers[1..][1..] == [PowTransformer, FloorDivTransformer];
    assert Transformers[1..][1..][1..] == [FloorDivTransformer];
    calc {
      RunPasses(Transformers, n, descend);
      RunPasses([TupleTransformer, PowTransformer, FloorDivTransformer], n1, descend);
      RunPasses([PowTransformer, FloorDivTransformer], n2, descend);
      RunPasses([FloorDivTransformer], n3, descend);
      RunPasses([], n4, descend);
    }
  }

  // ---------------------------------------------------------------------------
  // Which operators remain

  /** `n` itself is a binary operation or augmented assignment with operator `op`. */
  predicate UsesAtTop(n: Node, op: Operator) {
    (n.BinOp? && n.op == op) || (n.AugAssign? && n.op == op)
  }

  /** No binary operation or augmented assignment anywhere in `n` uses `op`. */
  predicate OpFree(n: Node, op: Operator)
    decreases n, 1
  {
    !UsesAtTop(n, op) && ChildrenOpFree(n, op)
  }

  /** Every child of `n` is `OpFree`. */
  predicate ChildrenOpFree(n: Node, op: Operator)
    decreases n, 0
  {
    match n
    case FunctionDef(_, params, body, returnType) => OpFree(params, op) && AllOpFree(body, op) && OptOpFree(returnType, op)
    case ClassDef(_, bases, keywords, body) => AllOpFree(bases, op) && AllOpFree(keywords, op) && AllOpFree(body, op)
    case Return(v) => OptOpFree(v, op)
    case Assign(targets, v) => AllOpFree(targets, op) && OpFree(v, op)
    case AugAssign(t, _, v) => OpFree(t, op) && OpFree(v, op)
    case Print(values, _) => AllOpFree(values, op)
    case For(t, it, body, orelse) => OpFree(t, op) && OpFree(it, op) && AllOpFree(body, op) && AllOpFree(orelse, op)
    case If(test, body, orelse) => OpFree(test, op) && AllOpFree(body, op) && AllOpFree(orelse, op)
    case Expr(v) => OpFree(v, op)
    case BinOp(l, _, r) => OpFree(l, op) && OpFree(r, op)
    case Compare(l, _, cs) => OpFree(l, op) && AllOpFree(cs, op)
    case Call(f, args, keywords) => OpFree(f, op) && AllOpFree(args, op) && AllOpFree(keywords, op)
    case Num(_) => true
    case Str(_) => true
    case Attribute(v, _) => OpFree(v, op)
    case Name(_) => true
    case Tuple(elts) => AllOpFree(elts, op)
    case Keyword(_, v) => OpFree(v, op)
    case Arguments(args, defaults) => AllOpFree(args, op) && AllOpFree(defaults, op)
    case Arg(_, annotation) => OptOpFree(annotation, op)
    case Other(_, cs) => AllOpFree(cs, op)
  }

  predicate AllOpFree(ns: seq<Node>, op: Operator)
    decreases ns
  {
    forall i | 0 <= i < |ns| :: OpFree(ns[i], op)
  }

  predicate OptOpFree(o: Option<Node>, op: Operator)
    decreases o
  {
    match o
    case None => true
    case Some(x) => OpFree(x, op)
  }

  /** `p` with `descend` is the pass that removes `op`. */
  predicate Removes(p: Pass, op: Operator, descend: bool) {
    descend && ((p == PowTransformer && op == Pow) || (p == FloorDivTransformer && op == FloorDiv))
  }


  /** The nodes the passes build around their operands. */
  lemma NamedCallOpFree(f: string, args: seq<Node>, op: Operator)
    requires AllOpFree(args, op)
    ensures OpFree(Call(Name(f), args, []), op)
  {
    assert OpFree(Name(f), op);
  }

  lemma AttributeCallOpFree(v: string, attr: string, args: seq<Node>, op: Operator)
    requires AllOpFree(args, op)
    ensures OpFree(Call(Attribute(Name(v), attr), args, []), op)
  {
    assert OpFree(Name(v), op);
    assert OpFree(Attribute(Name(v), attr), op);
  }

  lemma PrintKeywordsOpFree(nl: bool, op: Operator)
    ensures AllOpFree(PrintKeywords(nl), op)
  {
    if !nl {
      KeywordStrOpFree("end", "", op);
    }
  }

  lemma KeywordStrOpFree(arg: string, s: string, op: Operator)
    ensures AllOpFree([Keyword(arg, Str(s))], op)
  {
    assert OpFree(Str(s), op);
    assert OpFree(Keyword(arg, Str(s)), op);
  }

  lemma PairOpFree(a: Node, b: Node, op: Operator)
    requires OpFree(a, op) && OpFree(b, op)
    ensures AllOpFree([a, b], op)
  {
  }

  /** Rewriting one node keeps an operator other than `/` absent (no pass introduces
      one), and the pass that removes `op` leaves no `op` at the top. */
  lemma RewriteOpFree(p: Pass, n: Node, op: Operator)
    requires ChildrenOpFree(n, op)
    requires (!UsesAtTop(n, op) && op != Div) || Removes(p, op, true)
    ensures OpFree(Rewrite(p, n), op)
  {
    match n
    case Print(values, nl) => RewritePrintOpFree(p, values, nl, op);
    case Tuple(elts) => NamedCallOpFree("tuple", elts, op);
    case BinOp(l, o, r) => RewriteBinOpOpFree(p, l, o, r, op);
    case AugAssign(t, o, v) => RewriteAugAssignOpFree(p, t, o, v, op);
    case _ =>
  }

  lemma RewritePrintOpFree(p: Pass, values: seq<Node>, nl: bool, op: Operator)
    requires AllOpFree(values, op)
    ensures OpFree(Rewrite(p, Print(values, nl)), op)
  {
    if p == PrintTransformer {
      PrintKeywordsOpFree(nl, op);
      PrintCallOpFree("print", values, PrintKeywords(nl), op);
    }
  }

  lemma PrintCallOpFree(f: string, values: seq<Node>, keywords: seq<Node>, op: Operator)
    requires AllOpFree(values, op) && AllOpFree(keywords, op)
    ensures OpFree(Expr(Call(Name(f), values, keywords)), op)
  {
    assert OpFree(Name(f), op);
    assert OpFree(Call(Name(f), values, keywords), op);
  }

  lemma RewriteBinOpOpFree(p: Pass, l: Node, o: Operator, r: Node, op: Operator)
    requires OpFree(l, op) && OpFree(r, op)
    requires (o != op && op != Div) || Removes(p, op, true)
    ensures OpFree(Rewrite(p, BinOp(l, o, r)), op)
  {
    if p == PowTransformer && o == Pow {
      PairOpFree(l, r, op);
      AttributeCallOpFree("math", "pow", [l, r], op);
    } else if p == FloorDivTransformer && o == FloorDiv {
      NamedCallOpFree("int", [BinOp(l, Div, r)], op);
    }
  }

  lemma RewriteAugAssignOpFree(p: Pass, t: Node, o: Operator, v: Node, op: Operator)
    requires OpFree(t, op) && OpFree(v, op)
    requires (o != op && op != Div) || Removes(p, op, true)
    ensures OpFree(Rewrite(p, AugAssign(t, o, v)), op)
  {
    if p == PowTransformer && o == Pow {
      PowAssignOpFree(t, v, op);
    } else if p == FloorDivTransformer && o == FloorDiv {
      IntDivAssignOpFree(t, v, op);
    }
  }

  /** `t = math.pow(t, v)` */
  lemma PowAssignOpFree(t: Node, v: Node, op: Operator)
    requires OpFree(t, op) && OpFree(v, op)
    ensures OpFree(Assign([t], MathPow([t, v])), op)
  {
    PairOpFree(t, v, op);
    AttributeCallOpFree("math", "pow", [t, v], op);
    AssignOpFree(t, MathPow([t, v]), op);
  }

  /** `t = int(t / v)`, free of every operator but `/`. */
  lemma IntDivAssignOpFree(t: Node, v: Node, op: Operator)
    requires OpFree(t, op) && OpFree(v, op) && op != Div
    ensures OpFree(Assign([t], IntCall(BinOp(t, Div, v))), op)
  {
    NamedCallOpFree("int", [BinOp(t, Div, v)], op);
    AssignOpFree(t, IntCall(BinOp(t, Div, v)), op);
  }

  lemma AssignOpFree(t: Node, v: Node, op: Operator)
    requires OpFree(t, op) && OpFree(v, op)
    ensures OpFree(Assign([t], v), op)
  {
    assert AllOpFree([t], op);
  }

  /** Rebuilding keeps the node kind and its operator. */
  lemma RebuildKeepsTop(p: Pass, n: Node, op: Operator, descend: bool)
    ensures UsesAtTop(Rebuild(p, n, descend), op) == UsesAtTop(n, op)
  {
  }

  /** Visiting keeps an operator other than `/` absent, in both modes; the corrected
      Pow and FloorDiv passes leave no `**` and no `//` respectively, whatever the input. */
  lemma {:induction false} WalkOpFree(p: Pass, n: Node, op: Operator, descend: bool)
    requires (OpFree(n, op) && op != Div) || Removes(p, op, descend)
    ensures OpFree(Walk(p, n, descend), op)
    decreases n, 2
  {
    if descend {
      RebuildOpFree(p, n, op, descend);
      RewriteOpFree(p, Rebuild(p, n, true), op);
    } else if Handles(p, n) {
      RewriteOpFree(p, n, op);
    } else {
      RebuildOpFree(p, n, op, descend);
    }
  }

  lemma {:induction false} RebuildOpFree(p: Pass, n: Node, op: Operator, descend: bool)
    requires (OpFree(n, op) && op != Div) || Removes(p, op, descend)
    ensures ChildrenOpFree(Rebuild(p, n, descend), op)
    ensures UsesAtTop(Rebuild(p, n, descend), op) == UsesAtTop(n, op)
    decreases n, 1
  {
    RebuildKeepsTop(p, n, op, descend);
    match n
    case FunctionDef(_, params, body, returnType) => RebuildFunctionDefOpFree(p, n, op, descend);
    case ClassDef(_, bases, keywords, body) => RebuildClassDefOpFree(p, n, op, descend);
    case Return(v) => RebuildReturnOpFree(p, n, op, descend);
    case Assign(targets, v) => RebuildAssignOpFree(p, n, op, descend);
    case AugAssign(t, _, v) => RebuildAugAssignOpFree(p, n, op, descend);
    case Print(values, _) => RebuildPrintOpFree(p, n, op, descend);
    case For(t, it, body, orelse) => RebuildForOpFree(p, n, op, descend);
    case If(test, body, orelse) => RebuildIfOpFree(p, n, op, descend);
    case Expr(v) => RebuildExprOpFree(p, n, op, descend);
    case BinOp(l, _, r) => RebuildBinOpOpFree(p, n, op, descend);
    case Compare(l, _, cs) => RebuildCompareOpFree(p, n, op, descend);
    case Call(f, args, keywords) => RebuildCallOpFree(p, n, op, descend);
    case Num(_) =>
    case Str(_) =>
    case Attribute(v, _) => RebuildAttributeOpFree(p, n, op, descend);
    case Name(_) =>
    case Tuple(elts) => RebuildTupleOpFree(p, n, op, descend);
    case Keyword(_, v) => RebuildKeywordOpFree(p, n, op, descend);
    case Arguments(args, defaults) => RebuildArgumentsOpFree(p, n, op, descend);
    case Arg(_, annotation) => RebuildArgOpFree(p, n, op, descend);
    case Other(_, cs) => RebuildOtherOpFree(p, n, op, descend);
  }

  lemma {:induction false} RebuildFunctionDefOpFree(p: Pass, n: Node, op: Operator, descend: bool)
    requires n.FunctionDef?
    requires (OpFree(n, op) && op != Div) || Removes(p, op, descend)
    ensures ChildrenOpFree(Rebuild(p, n, descend), op)
    decreases n, 0
  {
    WalkOpFree(p, n.params, op, descend);
    WalkAllOpFree(p, n.body, op, descend);
    WalkOptOpFree(p, n.returnType, op, descend);
  }

  lemma {:induction false} RebuildClassDefOpFree(p: Pass, n: Node, op: Operator, descend: bool)
    requires n.ClassDef?
    requires (OpFree(n, op) && op != Div) || Removes(p, op, descend)
    ensures ChildrenOpFree(Rebuild(p, n, descend), op)
    decreases n, 0
  {
    WalkAllOpFree(p, n.bases, op, descend);
    WalkAllOpFree(p, n.keywords, op, descend);
    WalkAllOpFree(p, n.body, op, descend);
  }

  lemma {:induction false} RebuildReturnOpFree(p: Pass, n: Node, op: Operator, descend: bool)
    requires n.Return?
    requires (OpFree(n, op) && op != Div) || Removes(p, op, descend)
    ensures ChildrenOpFree(Rebuild(p, n, descend), op)
    decreases n, 0
  {
    WalkOptOpFree(p, n.returnValue, op, descend);
  }

  lemma {:induction false} RebuildAssignOpFree(p: Pass, n: Node, op: Operator, descend: bool)
    requires n.Assign?
    requires (OpFree(n, op) && op != Div) || Removes(p, op, descend)
    ensures ChildrenOpFree(Rebuild(p, n, descend), op)
    decreases n, 0
  {
    WalkAllOpFree(p, n.targets, op, descend);
    WalkOpFree(p, n.value, op, descend);
  }

  lemma {:induction false} RebuildAugAssignOpFree(p: Pass, n: Node, op: Operator, descend: bool)
    requires n.AugAssign?
    requires (OpFree(n, op) && op != Div) || Removes(p, op, descend)
    ensures ChildrenOpFree(Rebuild(p, n, descend), op)
    decreases n, 0
  {
    WalkOpFree(p, n.target, op, descend);
    WalkOpFree(p, n.value, op, descend);
  }

  lemma {:induction false} RebuildPrintOpFree(p: Pass, n: Node, op: Operator, descend: bool)
    requires n.Print?
    requires (OpFree(n, op) && op != Div) || Removes(p, op, descend)
    ensures ChildrenOpFree(Rebuild(p, n, descend), op)
    decreases n, 0
  {
    WalkAllOpFree(p, n.values, op, descend);
  }

  lemma {:induction false} RebuildForOpFree(p: Pass, n: Node, op: Operator, descend: bool)
    requires n.For?
    requires (OpFree(n, op) && op != Div) || Removes(p, op, descend)
    ensures ChildrenOpFree(Rebuild(p, n, descend), op)
    decreases n, 0
  {
    WalkOpFree(p, n.target, op, descend);
    WalkOpFree(p, n.iter, op, descend);
    WalkAllOpFree(p, n.body, op, descend);
    WalkAllOpFree(p, n.orelse, op, descend);
  }

  lemma {:induction false} RebuildIfOpFree(p: Pass, n: Node, op: Operator, descend: bool)
    requires n.If?
    requires (OpFree(n, op) && op != Div) || Removes(p, op, descend)
    ensures ChildrenOpFree(Rebuild(p, n, descend), op)
    decreases n, 0
  {
    WalkOpFree(p, n.test, op, descend);
    WalkAllOpFree(p, n.body, op, descend);
    WalkAllOpFree(p, n.orelse, op, descend);
  }

  lemma {:induction false} RebuildExprOpFree(p: Pass, n: Node, op: Operator, descend: bool)
    requires n.Expr?
    requires (OpFree(n, op) && op != Div) || Removes(p, op, descend)
    ensures ChildrenOpFree(Rebuild(p, n, descend), op)
    decreases n, 0
  {
    WalkOpFree(p, n.value, op, descend);
  }

  lemma {:induction false} RebuildBinOpOpFree(p: Pass, n: Node, op: Operator, descend: bool)
    requires n.BinOp?
    requires (OpFree(n, op) && op != Div) || Removes(p, op, descend)
    ensures ChildrenOpFree(Rebuild(p, n, descend), op)
    decreases n, 0
  {
    WalkOpFree(p, n.left, op, descend);
    WalkOpFree(p, n.right, op, descend);
  }

  lemma {:induction false} RebuildCompareOpFree(p: Pass, n: Node, op: Operator, descend: bool)
    requires n.Compare?
    requires (OpFree(n, op) && op != Div) || Removes(p, op, descend)
    ensures ChildrenOpFree(Rebuild(p, n, descend), op)
    decreases n, 0
  {
    WalkOpFree(p, n.left, op, descend);
    WalkAllOpFree(p, n.comparators, op, descend);
  }

  lemma {:induction false} RebuildCallOpFree(p: Pass, n: Node, op: Operator, descend: bool)
    requires n.Call?
    requires (OpFree(n, op) && op != Div) || Removes(p, op, descend)
    ensures ChildrenOpFree(Rebuild(p, n, descend), op)
    decreases n, 0
  {
    WalkOpFree(p, n.func, op, descend);
    WalkAllOpFree(p, n.args, op, descend);
    WalkAllOpFree(p, n.keywords, op, descend);
  }

  lemma {:induction false} RebuildAttributeOpFree(p: Pass, n: Node, op: Operator, descend: bool)
    requires n.Attribute?
    requires (OpFree(n, op) && op != Div) || Removes(p, op, descend)
    ensures ChildrenOpFree(Rebuild(p, n, descend), op)
    decreases n, 0
  {
    WalkOpFree(p, n.value, op, descend);
  }

  lemma {:induction false} RebuildTupleOpFree(p: Pass, n: Node, op: Operator, descend: bool)
    requires n.Tuple?
    requires (OpFree(n, op) && op != Div) || Removes(p, op, descend)
    ensures ChildrenOpFree(Rebuild(p, n, descend), op)
    decreases n, 0
  {
    WalkAllOpFree(p, n.elts, op, descend);
  }

  lemma {:induction false} RebuildKeywordOpFree(p: Pass, n: Node, op: Operator, descend: bool)
    requires n.Keyword?
    requires (OpFree(n, op) && op != Div) || Removes(p, op, descend)
    ensures ChildrenOpFree(Rebuild(p, n, descend), op)
    decreases n, 0
  {
    WalkOpFree(p, n.value, op, descend);
  }

  lemma {:induction false} RebuildArgumentsOpFree(p: Pass, n: Node, op: Operator, descend: bool)
    requires n.Arguments?
    requires (OpFree(n, op) && op != Div) || Removes(p, op, descend)
    ensures ChildrenOpFree(Rebuild(p, n, descend), op)
    decreases n, 0
  {
    WalkAllOpFree(p, n.args, op, descend);
    WalkAllOpFree(p, n.defaults, op, descend);
  }

  lemma {:induction false} RebuildArgOpFree(p: Pass, n: Node, op: Operator, descend: bool)
    requires n.Arg?
    requires (OpFree(n, op) && op != Div) || Removes(p, op, descend)
    ensures ChildrenOpFree(Rebuild(p, n, descend), op)
    decreases n, 0
  {
    WalkOptOpFree(p, n.annotation, op, descend);
  }

  lemma {:induction false} RebuildOtherOpFree(p: Pass, n: Node, op: Operator, descend: bool)
    requires n.Other?
    requires (OpFree(n, op) && op != Div) || Removes(p, op, descend)
    ensures ChildrenOpFree(Rebuild(p, n, descend), op)
    decreases n, 0
  {
    WalkAllOpFree(p, n.children, op, descend);
  }

  lemma {:induction false} WalkAllOpFree(p: Pass, ns: seq<Node>, op: Operator, descend: bool)
    requires (AllOpFree(ns, op) && op != Div) || Removes(p, op, descend)
    ensures AllOpFree(WalkAll(p, ns, descend), op)
    decreases ns
  {
    if |ns| > 0 {
      WalkOpFree(p, ns[0], op, descend);
      WalkAllOpFree(p, ns[1..], op, descend);
    }
  }

  lemma {:induction false} WalkOptOpFree(p: Pass, o: Option<Node>, op: Operator, descend: bool)
    requires (OptOpFree(o, op) && op != Div) || Removes(p, op, descend)
    ensures OptOpFree(WalkOpt(p, o, descend), op)
    decreases o
  {
    match o
    case None =>
    case Some(x) => WalkOpFree(p, x, op, descend);
  }

  /** With the corrected passes, the statements handed to the converter contain no `**`
      and no `//`, whatever the input. */
  lemma CorrectedPassesLeaveNoPowOrFloorDiv(m: Module)
    ensures AllOpFree(RunPasses(Transformers, m, true).body, Pow)
    ensures AllOpFree(RunPasses(Transformers, m, true).body, FloorDiv)
  {
    PassesInOrder(m, true);
    var m2 := WalkModule(TupleTransformer, WalkModule(PrintTransformer, m, true), true);
    var m3 := WalkModule(PowTransformer, m2, true);
    WalkAllOpFree(PowTransformer, m2.body, Pow, true);
    WalkAllOpFree(FloorDivTransformer, m3.body, Pow, true);
    WalkAllOpFree(FloorDivTransformer, m3.body, FloorDiv, true);
  }

  /** As written, a `**` below another binary operator survives all four passes: the
      module `x + y ** k` comes out unchanged. */
  lemma NestedPowSurvives(x: string, y: string, k: int)
    ensures RunPasses(Transformers, Module([Expr(BinOp(Name(x), Add, BinOp(Name(y), Pow, Num(k))))]), false)
         == Module([Expr(BinOp(Name(x), Add, BinOp(Name(y), Pow, Num(k))))])
    ensures !AllOpFree(RunPasses(Transformers, Module([Expr(BinOp(Name(x), Add, BinOp(Name(y), Pow, Num(k))))]), false).body, Pow)
  {
    var e := BinOp(Name(x), Add, BinOp(Name(y), Pow, Num(k)));
    var m := Module([Expr(e)]);
    PassesInOrder(m, false);
    ModuleOfExprUnchanged(PrintTransformer, x, y, k);
    ModuleOfExprUnchanged(TupleTransformer, x, y, k);
    ModuleOfExprUnchanged(PowTransformer, x, y, k);
    ModuleOfExprUnchanged(FloorDivTransformer, x, y, k);
    assert RunPasses(Transformers, m, false) == m;
    assert !OpFree(BinOp(Name(y), Pow, Num(k)), Pow);
    assert !OpFree(e, Pow);
    assert !OpFree(Expr(e), Pow);
    assert m.body[0] == Expr(e);
  }

  lemma ModuleOfExprUnchanged(p: Pass, x: string, y: string, k: int)
    ensures WalkModule(p, Module([Expr(BinOp(Name(x), Add, BinOp(Name(y), Pow, Num(k))))]), false)
         == Module([Expr(BinOp(Name(x), Add, BinOp(Name(y), Pow, Num(k))))])
  {
    var inner := BinOp(Name(y), Pow, Num(k));
    var e := BinOp(Name(x), Add, inner);
    if p == PrintTransformer || p == TupleTransformer {
      WalkLeaves(p, x, y, k);
      assert Walk(p, inner, false) == inner;
    }
    assert Walk(p, e, false) == e;
    assert Walk(p, Expr(e), false) == Expr(e);
    assert WalkAll(p, [Expr(e)], false) == [Walk(p, Expr(e), false)] + WalkAll(p, [], false);
  }

  lemma WalkLeaves(p: Pass, x: string, y: string, k: int)
    ensures Walk(p, Name(x), false) == Name(x)
    ensures Walk(p, Name(y), false) == Name(y)
    ensures Walk(p, Num(k), false) == Num(k)
  {
    assert !Handles(p, Name(x)) && !Handles(p, Name(y)) && !Handles(p, Num(k));
  }

  // ---------------------------------------------------------------------------
  // One pass over small statements

  /** A pass leaves names and numbers as they are. */
  lemma WalkLeaf(p: Pass, n: Node, descend: bool)
    requires n.Name? || n.Num? || n.Str?
    ensures Walk(p, n, descend) == n
  {
  }

  /** A pass visits a one-statement module's statement. */
  lemma WalkSingleStatement(p: Pass, s: Node, descend: bool)
    ensures WalkModule(p, Module([s]), descend) == Module([Walk(p, s, descend)])
  {
    assert WalkAll(p, [s], descend) == [Walk(p, s, descend)] + WalkAll(p, [], descend);
  }

  /** No pass has a visitor for expression statements, calls or attributes: they are
      rebuilt from their visited children. */
  lemma WalkExpr(p: Pass, v: Node, descend: bool)
    ensures Walk(p, Expr(v), descend) == Expr(Walk(p, v, descend))
  {
  }

  lemma WalkCall(p: Pass, f: Node, args: seq<Node>, keywords: seq<Node>, descend: bool)
    ensures Walk(p, Call(f, args, keywords), descend)
         == Call(Walk(p, f, descend), WalkAll(p, args, descend), WalkAll(p, keywords, descend))
  {
  }

  lemma WalkAttribute(p: Pass, v: Node, attr: string, descend: bool)
    ensures Walk(p, Attribute(v, attr), descend) == Attribute(Walk(p, v, descend), attr)
  {
  }

  lemma WalkPair(p: Pass, a: Node, b: Node, descend: bool)
    ensures WalkAll(p, [a, b], descend) == [Walk(p, a, descend), Walk(p, b, descend)]
  {
    assert [a, b][1..] == [b];
    assert WalkAll(p, [b], descend) == [Walk(p, b, descend)] + WalkAll(p, [], descend);
  }

  lemma WalkSingle(p: Pass, a: Node, descend: bool)
    ensures WalkAll(p, [a], descend) == [Walk(p, a, descend)]
  {
    assert WalkAll(p, [a], descend) == [Walk(p, a, descend)] + WalkAll(p, [], descend);
  }

  /** A binary operation whose operands the pass leaves alone is rewritten by the pass's
      own visitor, in both modes. */
  lemma WalkBinOp(p: Pass, l: Node, o: Operator, r: Node, descend: bool)
    requires Walk(p, l, descend) == l && Walk(p, r, descend) == r
    ensures Walk(p, BinOp(l, o, r), descend) == Rewrite(p, BinOp(l, o, r))
  {
  }

  /** With `descend`, a binary operation's operands are visited before the pass's own
      visitor sees the rebuilt node. */
  lemma WalkBinOpDescending(p: Pass, l: Node, o: Operator, r: Node)
    ensures Walk(p, BinOp(l, o, r), true) == Rewrite(p, BinOp(Walk(p, l, true), o, Walk(p, r, true)))
  {
  }
}
