/** `Converter`, the `NodeVisitor` that turns a Python tree into C++ nodes.

    `Visit(hs, n)` is `Converter.visit(n)` for a converter built with hooks `hs`: the
    node's own `visit_<Kind>` (`Dispatch`), or `generic_visit` for a kind with no visitor,
    which visits the children only for their errors and yields nothing; `UnsupportedNode(n)`
    when nothing was yielded; otherwise the first matching hook applied to the result.
    An exception the Python code raises is a `Failure` carrying its class, and the first
    one raised, in the order the visitor runs, is the one reported. */
module Converter {
  import opened Wrappers
  import opened PyAst
  import C = Cpp
  import Hook
  import Transformer
  import Docstring

  /** The exceptions the visitors raise. */
  datatype ConvError =
    | AssertionError   // a `**` or `//` reached `visit_BinOp` or `visit_AugAssign`
    | KeyError         // an operator missing from `OPERATOR_MAP` or `CMPOP_MAP`
    | AttributeError   // `visit(None)`: `generic_visit` asks `None` for its fields

  /** `OPERATOR_MAP`: `**` and `//` are left to the transformers, `@` is absent. */
  const OperatorMap: map<Operator, string> :=
    map[Add := "+", Sub := "-", Mult := "*", Div := "/", Mod := "%",
        LShift := "<<", RShift := ">>", BitOr := "|", BitXor := "^", BitAnd := "&"]

  /** `CMPOP_MAP`: `is`, `is not`, `in` and `not in` are absent. */
  const CmpOpMap: map<CmpOperator, string> :=
    map[Eq := "==", NotEq := "!=", Lt := "<", LtE := "<=", Gt := ">", GtE := ">="]

  /** `ast.get_docstring(node)` before `inspect.cleandoc`: the string of a leading
      expression statement that is a string literal. */
  function DocstringOf(body: seq<Node>): (r: Option<string>)
    ensures r.Some? ==> |body| >= 1
  {
    if |body| >= 1 && body[0].Expr? && body[0].value.Str? then Some(body[0].value.s) else None
  }

  /** `s.split('\n')`: the lines of `s` without their newlines. */
  function Lines(s: string): (ls: seq<string>)
    ensures |ls| >= 1
    decreases |s|
  {
    var n := Docstring.LineRun(s, 0);
    if n == |s| then [s] else [s[..n]] + Lines(s[n + 1..])
  }

  /** Whether `inspect.cleandoc` leaves nothing of the lines of a docstring.  It strips the
      leading white space of the first line, dedents the later lines only when one of them
      has a character that is not white space, and then drops empty lines at both ends; so
      nothing is left exactly when the first line is white space and every later line is
      empty. */
  predicate CleansToEmpty(ls: seq<string>)
    requires |ls| >= 1
  {
    (forall j | 0 <= j < |ls[0]| :: Docstring.IsSpace(ls[0][j]))
    && forall k | 1 <= k < |ls| :: ls[k] == ""
  }

  /** `if docstring:` on the docstring as `ast.get_docstring` cleans it. */
  predicate HasDocText(doc: Option<string>) {
    doc.Some? && !CleansToEmpty(Lines(doc.value))
  }

  /** One `CMPOP_MAP[x.__class__]` per comparison operator, in order. */
  function MapCmpOps(ops: seq<CmpOperator>): (r: Result<seq<string>, ConvError>)
    ensures r.Success? <==> forall i | 0 <= i < |ops| :: ops[i] in CmpOpMap
    ensures r.Success? ==> |r.value| == |ops| && forall i | 0 <= i < |ops| :: r.value[i] == CmpOpMap[ops[i]]
    ensures r.Failure? ==> r.error == KeyError
    decreases |ops|
  {
    if |ops| == 0 then Success([])
    else if ops[0] !in CmpOpMap then Failure(KeyError)
    else
      var rest :- MapCmpOps(ops[1..]);
      Success([CmpOpMap[ops[0]]] + rest)
  }

  /** `Converter.visit(n)` */
  function Visit(hs: seq<Hook.Hook>, n: Node): (r: Result<C.CppNode, ConvError>)
    ensures r.Success? ==> (r.value.UnsupportedNode? <==> n.Print? || n.Other?)
    ensures r.Success? && r.value.UnsupportedNode? ==> r.value.node == n
    ensures r.Success? && n.Call? ==> r.value.Call?
    decreases n, 2
  {
    var ret :- Dispatch(hs, n);
    match ret
    case None => Success(C.UnsupportedNode(n))
    case Some(c) =>
      match Hook.FirstMatch(hs, n)
      case Some(h) => Success(Hook.Apply(h, c))
      case None => Success(c)
  }

  /** `[self.visit(x) for x in ns]` */
  function VisitAll(hs: seq<Hook.Hook>, ns: seq<Node>): (r: Result<seq<C.CppNode>, ConvError>)
    ensures r.Success? <==> forall i | 0 <= i < |ns| :: Visit(hs, ns[i]).Success?
    ensures r.Success? ==> |r.value| == |ns| && forall i | 0 <= i < |ns| :: Visit(hs, ns[i]).value == r.value[i]
    decreases ns
  {
    if |ns| == 0 then Success([])
    else
      var x :- Visit(hs, ns[0]);
      var xs :- VisitAll(hs, ns[1..]);
      Success([x] + xs)
  }

  /** `self.visit(x)` of a field that may be `None`: `visit(None)` fails. */
  function VisitField(hs: seq<Hook.Hook>, o: Option<Node>): (r: Result<C.CppNode, ConvError>)
    ensures o.None? ==> r == Failure(AttributeError)
    decreases o
  {
    match o
    case None => Failure(AttributeError)
    case Some(x) => Visit(hs, x)
  }

  /** `self.visit(node.value) if node.value else None` */
  function VisitOptional(hs: seq<Hook.Hook>, o: Option<Node>): (r: Result<Option<C.CppNode>, ConvError>)
    ensures o.None? ==> r == Success(None)
    decreases o
  {
    match o
    case None => Success(None)
    case Some(x) =>
      var v :- Visit(hs, x);
      Success(Some(v))
  }

  /** The converted body with the docstring statement dropped when there is one. */
  function DropDocstring(body: seq<C.CppNode>, doc: Option<string>): (r: seq<C.CppNode>)
    requires doc.Some? ==> |body| >= 1
    ensures var d := if HasDocText(doc) then 1 else 0;
      |r| == |body| - d && forall i | 0 <= i < |r| :: r[i] == body[i + d]
  {
    if HasDocText(doc) then body[1..] else body
  }

  /** The node's own `visit_<Kind>`, or `generic_visit` (`None`) for a kind without one. */
  function Dispatch(hs: seq<Hook.Hook>, n: Node): (r: Result<Option<C.CppNode>, ConvError>)
    ensures r.Success? ==> (r.value.None? <==> n.Print? || n.Other?)
    ensures r.Success? && n.Call? ==> r.value.value.Call?
    ensures r.Success? && r.value.Some? ==> !r.value.value.UnsupportedNode?
    decreases n, 1
  {
    match n
    case FunctionDef(name, params, body, returnType) =>
      var ps :- Visit(hs, params);
      var b :- VisitAll(hs, body);
      var doc := DocstringOf(body);
      var ret :- VisitField(hs, returnType);
      Success(Some(C.FunctionDef(name, ps, DropDocstring(b, doc), doc, ret)))
    case ClassDef(name, bases, keywords, body) =>
      var bs :- VisitAll(hs, bases);
      var ks :- VisitAll(hs, keywords);
      var b :- VisitAll(hs, body);
      var doc := DocstringOf(body);
      Success(Some(C.ClassDef(name, bs, ks, DropDocstring(b, doc), doc)))
    case Return(v) =>
      var value :- VisitOptional(hs, v);
      Success(Some(C.Return(value)))
    case Assign(targets, v) =>
      var ts :- VisitAll(hs, targets);
      var value :- Visit(hs, v);
      Success(Some(C.Assign(ts, value)))
    case AugAssign(t, op, v) =>
      if op == Pow || op == FloorDiv then Failure(AssertionError)
      else
        var target :- Visit(hs, t);
        if op !in OperatorMap then Failure(KeyError)
        else
          var value :- Visit(hs, v);
          Success(Some(C.AugAssign(target, OperatorMap[op], value)))
    case Print(values, _) =>
      var _ :- VisitAll(hs, values);
      Success(None)
    case For(t, it, body, orelse) =>
      var target :- Visit(hs, t);
      var iter :- Visit(hs, it);
      var b :- VisitAll(hs, body);
      var e :- VisitAll(hs, orelse);
      Success(Some(C.For(target, iter, b, e)))
    case If(test, body, orelse) =>
      var cond :- Visit(hs, test);
      var b :- VisitAll(hs, body);
      var e :- VisitAll(hs, orelse);
      Success(Some(C.If(cond, b, e)))
    case Expr(v) =>
      var value :- Visit(hs, v);
      Success(Some(C.Expr(value)))
    case BinOp(l, op, rt) =>
      if op == Pow || op == FloorDiv then Failure(AssertionError)
      else
        var left :- Visit(hs, l);
        if op !in OperatorMap then Failure(KeyError)
        else
          var right :- Visit(hs, rt);
          Success(Some(C.BinOp(left, OperatorMap[op], right)))
    case Compare(l, ops, cs) =>
      var left :- Visit(hs, l);
      var os :- MapCmpOps(ops);
      var comparators :- VisitAll(hs, cs);
      Success(Some(C.Compare(left, os, comparators)))
    case Call(f, args, keywords) =>
      var func :- Visit(hs, f);
      var as_ :- VisitAll(hs, args);
      var ks :- VisitAll(hs, keywords);
      Success(Some(C.Call(func, as_, ks)))
    case Num(k) => Success(Some(C.Num(k)))
    case Str(s) => Success(Some(C.Str(s)))
    case Attribute(v, attr) =>
      var value :- Visit(hs, v);
      Success(Some(C.Attribute(value, attr)))
    case Name(id) => Success(Some(C.Name(id)))
    case Tuple(elts) =>
      var es :- VisitAll(hs, elts);
      Success(Some(C.Tuple(es)))
    case Keyword(arg, v) =>
      var value :- Visit(hs, v);
      Success(Some(C.Keyword(arg, value)))
    case Arguments(args, defaults) =>
      var as_ :- VisitAll(hs, args);
      var ds :- VisitAll(hs, defaults);
      Success(Some(C.Arguments(as_, ds)))
    case Arg(arg, annotation) =>
      var a :- VisitField(hs, annotation);
      Success(Some(C.Arg(arg, a)))
    case Other(_, cs) =>
      var _ :- VisitAll(hs, cs);
      Success(None)
  }

  /** `visit_Module`: apply every transformer in list order, then convert each statement. */
  function ConvertModule(ts: seq<Transformer.Pass>, hs: seq<Hook.Hook>, m: Module, descend: bool)
    : (r: Result<C.CppNode, ConvError>)
    ensures r.Success? ==> r.value.Module? && |r.value.body| == |m.body|
  {
    var t := Transformer.RunPasses(ts, m, descend);
    var body :- VisitAll(hs, t.body);
    Success(C.Module(body))
  }

  /** `visit_Module` as the loop it is: `node` is reassigned by each transformer in turn. */
  method VisitModule(ts: seq<Transformer.Pass>, hs: seq<Hook.Hook>, m: Module, descend: bool)
    returns (r: Result<C.CppNode, ConvError>)
    ensures r == ConvertModule(ts, hs, m, descend)
  {
    var node := m;
    for i := 0 to |ts|
      invariant Transformer.RunPasses(ts[i..], node, descend) == Transformer.RunPasses(ts, m, descend)
    {
      assert ts[i..][1..] == ts[i + 1..];
      node := Transformer.WalkModule(ts[i], node, descend);
    }
    assert ts[|ts|..] == [];
    var body :- VisitAll(hs, node.body);
    return Success(C.Module(body));
  }

  // ---------------------------------------------------------------------------
  // The operator tables

  /** `OPERATOR_MAP` covers every binary operator except `**`, `//` and `@`. */
  lemma OperatorMapDomain(o: Operator)
    ensures o in OperatorMap <==> o != Pow && o != FloorDiv && o != MatMult
  {
  }

  /** No two binary operators share a C++ spelling. */
  lemma OperatorMapInjective(a: Operator, b: Operator)
    requires a in OperatorMap && b in OperatorMap && OperatorMap[a] == OperatorMap[b]
    ensures a == b
  {
  }

  /** `CMPOP_MAP` covers the six ordering comparisons and none of `is`, `is not`, `in`,
      `not in`. */
  lemma CmpOpMapDomain(o: CmpOperator)
    ensures o in CmpOpMap <==> o != Is && o != IsNot && o != In && o != NotIn
  {
  }

  /** No two comparison operators share a C++ spelling. */
  lemma CmpOpMapInjective(a: CmpOperator, b: CmpOperator)
    requires a in CmpOpMap && b in CmpOpMap && CmpOpMap[a] == CmpOpMap[b]
    ensures a == b
  {
  }

  // ---------------------------------------------------------------------------
  // What `visit` returns, kind by kind

  /** `visit` yields `UnsupportedNode(n)` exactly for the kinds without a visitor, once
      their children have been visited without error. */
  lemma VisitUnsupported(hs: seq<Hook.Hook>, n: Node)
    requires n.Print? || n.Other?
    ensures Visit(hs, n).Success? <==> VisitAll(hs, if n.Print? then n.values else n.children).Success?
    ensures Visit(hs, n).Success? ==> Visit(hs, n).value == C.UnsupportedNode(n)
  {
  }

  lemma VisitSupported(hs: seq<Hook.Hook>, n: Node)
    requires !n.Print? && !n.Other?
    requires Visit(hs, n).Success?
    ensures !Visit(hs, n).value.UnsupportedNode?
  {
  }

  /** Names, numbers and strings become the C++ node of the same kind and content; with no
      hook for them. */
  lemma VisitLeaf(hs: seq<Hook.Hook>, n: Node)
    requires n.Name? || n.Num? || n.Str?
    ensures Visit(hs, n) == Success(if n.Name? then C.Name(n.id) else if n.Num? then C.Num(n.n) else C.Str(n.s))
  {
    NoHookForNonCall(hs, n);
  }

  /** An expression statement wraps the converted expression. */
  lemma VisitExpr(hs: seq<Hook.Hook>, v: Node)
    ensures Visit(hs, Expr(v)).Success? <==> Visit(hs, v).Success?
    ensures Visit(hs, Expr(v)).Success? ==> Visit(hs, Expr(v)).value == C.Expr(Visit(hs, v).value)
    ensures Visit(hs, v).Failure? ==> Visit(hs, Expr(v)) == Failure(Visit(hs, v).error)
  {
    NoHookForNonCall(hs, Expr(v));
  }

  /** An attribute keeps its name and wraps the converted value. */
  lemma VisitAttribute(hs: seq<Hook.Hook>, v: Node, attr: string)
    ensures Visit(hs, Attribute(v, attr)).Success? <==> Visit(hs, v).Success?
    ensures Visit(hs, Attribute(v, attr)).Success? ==>
      Visit(hs, Attribute(v, attr)).value == C.Attribute(Visit(hs, v).value, attr)
  {
    NoHookForNonCall(hs, Attribute(v, attr));
  }

  /** A binary operation: `**` and `//` fail the assertion before anything is visited;
      then the left operand, the operator lookup and the right operand, in that order. */
  lemma VisitBinOp(hs: seq<Hook.Hook>, l: Node, o: Operator, r: Node)
    ensures o == Pow || o == FloorDiv ==> Visit(hs, BinOp(l, o, r)) == Failure(AssertionError)
    ensures o != Pow && o != FloorDiv && Visit(hs, l).Failure? ==> Visit(hs, BinOp(l, o, r)) == Failure(Visit(hs, l).error)
    ensures o == MatMult && Visit(hs, l).Success? ==> Visit(hs, BinOp(l, o, r)) == Failure(KeyError)
    ensures Visit(hs, BinOp(l, o, r)).Success? <==> o in OperatorMap && Visit(hs, l).Success? && Visit(hs, r).Success?
    ensures o in OperatorMap && Visit(hs, l).Success? && Visit(hs, r).Failure? ==>
      Visit(hs, BinOp(l, o, r)) == Failure(Visit(hs, r).error)
    ensures Visit(hs, BinOp(l, o, r)).Success? ==>
      Visit(hs, BinOp(l, o, r)).value == C.BinOp(Visit(hs, l).value, OperatorMap[o], Visit(hs, r).value)
  {
    BinOpStep(hs, l, o, r);
  }

  lemma BinOpStep(hs: seq<Hook.Hook>, l: Node, o: Operator, r: Node)
    ensures Visit(hs, BinOp(l, o, r))
         == if o == Pow || o == FloorDiv then Failure(AssertionError)
            else if Visit(hs, l).Failure? then Failure(Visit(hs, l).error)
            else if o !in OperatorMap then Failure(KeyError)
            else if Visit(hs, r).Failure? then Failure(Visit(hs, r).error)
            else Success(C.BinOp(Visit(hs, l).value, OperatorMap[o], Visit(hs, r).value))
  {
    NoHookForNonCall(hs, BinOp(l, o, r));
    if o != Pow && o != FloorDiv && Visit(hs, l).Success? && o in OperatorMap {
      assert Dispatch(hs, BinOp(l, o, r)) == if Visit(hs, r).Failure? then Failure(Visit(hs, r).error)
        else Success(Some(C.BinOp(Visit(hs, l).value, OperatorMap[o], Visit(hs, r).value)));
    }
  }

  /** An augmented assignment: the same checks as a binary operation, on target and value. */
  lemma VisitAugAssign(hs: seq<Hook.Hook>, t: Node, o: Operator, v: Node)
    ensures o == Pow || o == FloorDiv ==> Visit(hs, AugAssign(t, o, v)) == Failure(AssertionError)
    ensures o != Pow && o != FloorDiv && Visit(hs, t).Failure? ==> Visit(hs, AugAssign(t, o, v)) == Failure(Visit(hs, t).error)
    ensures o == MatMult && Visit(hs, t).Success? ==> Visit(hs, AugAssign(t, o, v)) == Failure(KeyError)
    ensures Visit(hs, AugAssign(t, o, v)).Success? <==> o in OperatorMap && Visit(hs, t).Success? && Visit(hs, v).Success?
    ensures Visit(hs, AugAssign(t, o, v)).Success? ==>
      Visit(hs, AugAssign(t, o, v)).value == C.AugAssign(Visit(hs, t).value, OperatorMap[o], Visit(hs, v).value)
  {
    AugAssignStep(hs, t, o, v);
  }

  lemma AugAssignStep(hs: seq<Hook.Hook>, t: Node, o: Operator, v: Node)
    ensures Visit(hs, AugAssign(t, o, v))
         == if o == Pow || o == FloorDiv then Failure(AssertionError)
            else if Visit(hs, t).Failure? then Failure(Visit(hs, t).error)
            else if o !in OperatorMap then Failure(KeyError)
            else if Visit(hs, v).Failure? then Failure(Visit(hs, v).error)
            else Success(C.AugAssign(Visit(hs, t).value, OperatorMap[o], Visit(hs, v).value))
  {
    NoHookForNonCall(hs, AugAssign(t, o, v));
  }

  lemma NoHookForNonCall(hs: seq<Hook.Hook>, n: Node)
    requires !n.Call?
    ensures Hook.FirstMatch(hs, n).None?
  {
  }

  /** A comparison keeps its operators and comparators, one for one and in order; an
      operator missing from `CMPOP_MAP` is a `KeyError` once the left side is visited. */
  lemma VisitCompare(hs: seq<Hook.Hook>, l: Node, ops: seq<CmpOperator>, cs: seq<Node>)
    ensures Visit(hs, Compare(l, ops, cs)).Success? <==>
      Visit(hs, l).Success? && (forall i | 0 <= i < |ops| :: ops[i] in CmpOpMap) && VisitAll(hs, cs).Success?
    ensures Visit(hs, l).Success? && (exists i | 0 <= i < |ops| :: ops[i] !in CmpOpMap) ==>
      Visit(hs, Compare(l, ops, cs)) == Failure(KeyError)
    ensures Visit(hs, Compare(l, ops, cs)).Success? ==>
      var c := Visit(hs, Compare(l, ops, cs)).value;
      c.Compare? && c.left == Visit(hs, l).value
      && |c.ops| == |ops| && (forall i | 0 <= i < |ops| :: c.ops[i] == CmpOpMap[ops[i]])
      && |c.comparators| == |cs| && (forall i | 0 <= i < |cs| :: c.comparators[i] == Visit(hs, cs[i]).value)
  {
    NoHookForNonCall(hs, Compare(l, ops, cs));
  }

  /** A call keeps its arguments and keywords, one for one and in order; with the
      converter's hooks, a call of `math.pow` calls `std::pow` and a call of `tuple` calls
      `std::make_tuple`, and any other call keeps its converted function. */
  lemma VisitCall(f: Node, args: seq<Node>, keywords: seq<Node>)
    ensures Visit(Hook.Hooks, Call(f, args, keywords)).Success? <==>
      Visit(Hook.Hooks, f).Success? && VisitAll(Hook.Hooks, args).Success? && VisitAll(Hook.Hooks, keywords).Success?
    ensures Visit(Hook.Hooks, Call(f, args, keywords)).Success? ==>
      var c := Visit(Hook.Hooks, Call(f, args, keywords)).value;
      c.Call?
      && |c.args| == |args| && (forall i | 0 <= i < |args| :: c.args[i] == Visit(Hook.Hooks, args[i]).value)
      && |c.keywords| == |keywords| && (forall i | 0 <= i < |keywords| :: c.keywords[i] == Visit(Hook.Hooks, keywords[i]).value)
      && c.func == (if f == Attribute(Name("math"), "pow") then C.CppScope(C.Name("std"), "pow")
                    else if f == Name("tuple") then C.CppScope(C.Name("std"), "make_tuple")
                    else Visit(Hook.Hooks, f).value)
  {
    CallStep(f, args, keywords);
  }

  lemma CallStep(f: Node, args: seq<Node>, keywords: seq<Node>)
    ensures Visit(Hook.Hooks, Call(f, args, keywords))
         == if Visit(Hook.Hooks, f).Failure? then Failure(Visit(Hook.Hooks, f).error)
            else if VisitAll(Hook.Hooks, args).Failure? then Failure(VisitAll(Hook.Hooks, args).error)
            else if VisitAll(Hook.Hooks, keywords).Failure? then Failure(VisitAll(Hook.Hooks, keywords).error)
            else Success(C.Call(if f == Attribute(Name("math"), "pow") then C.CppScope(C.Name("std"), "pow")
                                else if f == Name("tuple") then C.CppScope(C.Name("std"), "make_tuple")
                                else Visit(Hook.Hooks, f).value,
                                VisitAll(Hook.Hooks, args).value, VisitAll(Hook.Hooks, keywords).value))
  {
    var n := Call(f, args, keywords);
    Hook.HookChoice(n);
    Hook.MathPowMatchesExactly(n);
    Hook.TupleMatchesExactly(n);
  }

  /** A loop keeps its target, iterable, body and `else` body, statement for statement, in
      order. */
  lemma VisitFor(hs: seq<Hook.Hook>, t: Node, it: Node, body: seq<Node>, orelse: seq<Node>)
    ensures Visit(hs, For(t, it, body, orelse)).Success? <==>
      Visit(hs, t).Success? && Visit(hs, it).Success? && VisitAll(hs, body).Success? && VisitAll(hs, orelse).Success?
    ensures Visit(hs, For(t, it, body, orelse)).Success? ==>
      var c := Visit(hs, For(t, it, body, orelse)).value;
      c.For? && c.target == Visit(hs, t).value && c.iter == Visit(hs, it).value
      && |c.body| == |body| && (forall i | 0 <= i < |body| :: c.body[i] == Visit(hs, body[i]).value)
      && |c.orelse| == |orelse| && (forall i | 0 <= i < |orelse| :: c.orelse[i] == Visit(hs, orelse[i]).value)
  {
    NoHookForNonCall(hs, For(t, it, body, orelse));
  }

  /** A conditional keeps its test, body and `else` body, statement for statement, in order. */
  lemma VisitIf(hs: seq<Hook.Hook>, test: Node, body: seq<Node>, orelse: seq<Node>)
    ensures Visit(hs, If(test, body, orelse)).Success? <==>
      Visit(hs, test).Success? && VisitAll(hs, body).Success? && VisitAll(hs, orelse).Success?
    ensures Visit(hs, If(test, body, orelse)).Success? ==>
      var c := Visit(hs, If(test, body, orelse)).value;
      c.If? && c.test == Visit(hs, test).value
      && |c.body| == |body| && (forall i | 0 <= i < |body| :: c.body[i] == Visit(hs, body[i]).value)
      && |c.orelse| == |orelse| && (forall i | 0 <= i < |orelse| :: c.orelse[i] == Visit(hs, orelse[i]).value)
  {
    NoHookForNonCall(hs, If(test, body, orelse));
  }

  /** A function converts its parameter list first, then its body; it keeps its docstring
      and drops exactly the first converted statement when the docstring has text; a
      function without a return annotation visits `None` and fails once its parameters
      and body have been converted. */
  lemma VisitFunctionDef(hs: seq<Hook.Hook>, name: string, params: Node, body: seq<Node>, returnType: Option<Node>)
    ensures Visit(hs, params).Failure? ==>
      Visit(hs, FunctionDef(name, params, body, returnType)) == Failure(Visit(hs, params).error)
    ensures returnType.None? && Visit(hs, params).Success? && VisitAll(hs, body).Success? ==>
      Visit(hs, FunctionDef(name, params, body, returnType)) == Failure(AttributeError)
    ensures Visit(hs, FunctionDef(name, params, body, returnType)).Success? <==>
      Visit(hs, params).Success? && VisitAll(hs, body).Success? && returnType.Some? && Visit(hs, returnType.value).Success?
    ensures Visit(hs, FunctionDef(name, params, body, returnType)).Success? ==>
      var c := Visit(hs, FunctionDef(name, params, body, returnType)).value;
      var d := if HasDocText(DocstringOf(body)) then 1 else 0;
      c.FunctionDef? && c.name == name && c.params == Visit(hs, params).value && c.docstring == DocstringOf(body)
      && c.returnType == Visit(hs, returnType.value).value
      && |c.body| == |body| - d && (forall i | 0 <= i < |c.body| :: c.body[i] == Visit(hs, body[i + d]).value)
  {
    var n := FunctionDef(name, params, body, returnType);
    NoHookForNonCall(hs, n);
    if Visit(hs, params).Success? && VisitAll(hs, body).Success? {
      DropDocstringKeepsRest(hs, body);
      if returnType.Some? && Visit(hs, returnType.value).Success? {
        var b := DropDocstring(VisitAll(hs, body).value, DocstringOf(body));
        assert Dispatch(hs, n) == Success(Some(C.FunctionDef(name, Visit(hs, params).value, b, DocstringOf(body), Visit(hs, returnType.value).value)));
      } else {
        assert VisitField(hs, returnType).Failure?;
      }
    }
  }

  /** A parameter list converts its parameters and then its defaults, in order. */
  lemma VisitArguments(hs: seq<Hook.Hook>, args: seq<Node>, defaults: seq<Node>)
    ensures Visit(hs, Arguments(args, defaults)).Success? <==>
      VisitAll(hs, args).Success? && VisitAll(hs, defaults).Success?
    ensures VisitAll(hs, args).Failure? ==>
      Visit(hs, Arguments(args, defaults)) == Failure(VisitAll(hs, args).error)
    ensures Visit(hs, Arguments(args, defaults)).Success? ==>
      var c := Visit(hs, Arguments(args, defaults)).value;
      c.Arguments? && c.args == VisitAll(hs, args).value && c.defaults == VisitAll(hs, defaults).value
  {
    NoHookForNonCall(hs, Arguments(args, defaults));
  }

  /** A parameter keeps its name and converts its annotation; one without an annotation
      visits `None` and fails. */
  lemma VisitArg(hs: seq<Hook.Hook>, arg: string, annotation: Option<Node>)
    ensures annotation.None? ==> Visit(hs, Arg(arg, annotation)) == Failure(AttributeError)
    ensures Visit(hs, Arg(arg, annotation)).Success? <==>
      annotation.Some? && Visit(hs, annotation.value).Success?
    ensures Visit(hs, Arg(arg, annotation)).Success? ==>
      Visit(hs, Arg(arg, annotation)).value == C.Arg(arg, Visit(hs, annotation.value).value)
  {
    NoHookForNonCall(hs, Arg(arg, annotation));
    if annotation.Some? {
      assert VisitField(hs, annotation) == Visit(hs, annotation.value);
    }
  }

  /** A function whose first unannotated parameter comes after only annotated, convertible
      ones fails with `AttributeError` before its body is looked at. */
  lemma UnannotatedParameterFails(hs: seq<Hook.Hook>, name: string, args: seq<Node>, defaults: seq<Node>,
                                  body: seq<Node>, returnType: Option<Node>, k: nat)
    requires k < |args| && args[k].Arg? && args[k].annotation.None?
    requires forall j | 0 <= j < k :: Visit(hs, args[j]).Success?
    ensures Visit(hs, FunctionDef(name, Arguments(args, defaults), body, returnType)) == Failure(AttributeError)
  {
    VisitArg(hs, args[k].arg, None);
    assert args[k] == Arg(args[k].arg, None);
    var k' := VisitAllFirstFailure(hs, args);
    assert k' == k;
    VisitArguments(hs, args, defaults);
    VisitFunctionDef(hs, name, Arguments(args, defaults), body, returnType);
  }

  lemma DropDocstringKeepsRest(hs: seq<Hook.Hook>, body: seq<Node>)
    requires VisitAll(hs, body).Success?
    ensures var b := DropDocstring(VisitAll(hs, body).value, DocstringOf(body));
      var d := if HasDocText(DocstringOf(body)) then 1 else 0;
      |b| == |body| - d && forall i | 0 <= i < |b| :: b[i] == Visit(hs, body[i + d]).value
  {
    var all := VisitAll(hs, body).value;
    if HasDocText(DocstringOf(body)) {
      var b := all[1..];
      assert DropDocstring(all, DocstringOf(body)) == b;
      forall i | 0 <= i < |b|
        ensures b[i] == Visit(hs, body[i + 1]).value
      {
        assert b[i] == all[i + 1];
      }
    } else {
      assert DropDocstring(all, DocstringOf(body)) == all;
    }
  }

  /** A class keeps its bases and keywords, keeps its docstring and drops exactly the
      first converted statement when the docstring has text. */
  lemma VisitClassDef(hs: seq<Hook.Hook>, name: string, bases: seq<Node>, keywords: seq<Node>, body: seq<Node>)
    ensures Visit(hs, ClassDef(name, bases, keywords, body)).Success? <==>
      VisitAll(hs, bases).Success? && VisitAll(hs, keywords).Success? && VisitAll(hs, body).Success?
    ensures Visit(hs, ClassDef(name, bases, keywords, body)).Success? ==>
      var c := Visit(hs, ClassDef(name, bases, keywords, body)).value;
      var d := if HasDocText(DocstringOf(body)) then 1 else 0;
      c.ClassDef? && c.name == name && c.docstring == DocstringOf(body)
      && |c.bases| == |bases| && (forall i | 0 <= i < |bases| :: c.bases[i] == Visit(hs, bases[i]).value)
      && |c.keywords| == |keywords| && (forall i | 0 <= i < |keywords| :: c.keywords[i] == Visit(hs, keywords[i]).value)
      && |c.body| == |body| - d && (forall i | 0 <= i < |c.body| :: c.body[i] == Visit(hs, body[i + d]).value)
  {
    NoHookForNonCall(hs, ClassDef(name, bases, keywords, body));
    if VisitAll(hs, body).Success? {
      DropDocstringKeepsRest(hs, body);
    }
  }

  /** Splitting on newlines and joining with newlines gives the string back. */
  lemma {:induction false} JoinLines(s: string)
    ensures C.Join(Lines(s), "\n") == s
    decreases |s|
  {
    var n := Docstring.LineRun(s, 0);
    if n < |s| {
      var t := s[n + 1..];
      JoinLines(t);
      C.JoinCons(s[..n], Lines(t), "\n");
      assert s == s[..n] + "\n" + t;
    }
  }

  /** The lines of `t` are all empty exactly when `t` is made of newlines only. */
  lemma {:induction false} LinesAllEmpty(t: string)
    ensures (forall k | 0 <= k < |Lines(t)| :: Lines(t)[k] == "") <==> forall j | 0 <= j < |t| :: t[j] == '\n'
    decreases |t|
  {
    var m := Docstring.LineRun(t, 0);
    if m == |t| {
      assert Lines(t) == [t];
      if |t| > 0 {
        assert t[0] != '\n' && Lines(t)[0] != "";
      }
    } else {
      var u := t[m + 1..];
      LinesAllEmpty(u);
      assert Lines(t) == [t[..m]] + Lines(u);
      assert forall k | 0 <= k < |Lines(u)| :: Lines(u)[k] == Lines(t)[k + 1];
      assert forall j | 0 <= j < |u| :: u[j] == t[m + 1 + j];
      if forall j | 0 <= j < |t| :: t[j] == '\n' {
        assert m == 0;
      }
      if forall k | 0 <= k < |Lines(t)| :: Lines(t)[k] == "" {
        assert Lines(t)[0] == t[..m] == "";
        forall j | 0 <= j < |t| ensures t[j] == '\n' {
          if j > m {
            assert t[j] == u[j - m - 1];
          }
        }
      }
    }
  }

  /** The docstring has text after cleaning exactly when it has a character that is not
      white space, or a newline followed somewhere later by a character that is not a
      newline. */
  lemma HasDocTextChars(s: string)
    ensures HasDocText(Some(s)) <==>
      (exists i | 0 <= i < |s| :: !Docstring.IsSpace(s[i]))
      || (exists i, j | 0 <= i < j < |s| :: s[j] != '\n' && s[i] == '\n')
  {
    var n := Docstring.LineRun(s, 0);
    if n < |s| {
      CleansToEmptySplit(s, n);
      CharsSplit(s, n);
    } else {
      OneLineCleansToEmpty(s);
      assert forall i | 0 <= i < |s| :: s[i] != '\n';
      assert !exists i, j | 0 <= i < j < |s| :: s[j] != '\n' && s[i] == '\n';
    }
  }

  lemma OneLineCleansToEmpty(s: string)
    requires Docstring.LineRun(s, 0) == |s|
    ensures CleansToEmpty(Lines(s)) <==> forall j | 0 <= j < |s| :: Docstring.IsSpace(s[j])
  {
    var ls := Lines(s);
    assert ls == [s];
    assert |ls| == 1 && ls[0] == s;
  }

  /** With a newline at `n` and none before it: cleaning leaves nothing exactly when the
      first line is white space and only newlines follow it. */
  lemma CleansToEmptySplit(s: string, n: nat)
    requires n == Docstring.LineRun(s, 0) && n < |s|
    ensures CleansToEmpty(Lines(s)) <==>
      (forall i | 0 <= i < n :: Docstring.IsSpace(s[i])) && forall i | n < i < |s| :: s[i] == '\n'
  {
    var t := s[n + 1..];
    var ls := Lines(s);
    assert ls == [s[..n]] + Lines(t);
    assert ls[0] == s[..n];
    LaterLinesShift(ls, Lines(t), s[..n]);
    LinesAllEmpty(t);
    NewlinesShift(s, n, t);
  }

  lemma LaterLinesShift(ls: seq<string>, rest: seq<string>, first: string)
    requires ls == [first] + rest
    ensures (forall k | 1 <= k < |ls| :: ls[k] == "") <==> forall k | 0 <= k < |rest| :: rest[k] == ""
  {
    assert forall k | 0 <= k < |rest| :: rest[k] == ls[k + 1];
  }

  lemma NewlinesShift(s: string, n: nat, t: string)
    requires n < |s| && t == s[n + 1..]
    ensures (forall j | 0 <= j < |t| :: t[j] == '\n') <==> forall i | n < i < |s| :: s[i] == '\n'
  {
    assert forall i | n < i < |s| :: s[i] == t[i - n - 1];
  }

  lemma CharsSplit(s: string, n: nat)
    requires n == Docstring.LineRun(s, 0) && n < |s|
    ensures ((exists i | 0 <= i < |s| :: !Docstring.IsSpace(s[i]))
             || (exists i, j | 0 <= i < j < |s| :: s[j] != '\n' && s[i] == '\n'))
      <==> !((forall i | 0 <= i < n :: Docstring.IsSpace(s[i])) && forall i | n < i < |s| :: s[i] == '\n')
  {
    if (forall i | 0 <= i < n :: Docstring.IsSpace(s[i])) && forall i | n < i < |s| :: s[i] == '\n' {
      assert forall i | 0 <= i < |s| :: Docstring.IsSpace(s[i]);
      forall i, j | 0 <= i < j < |s| && s[i] == '\n' ensures s[j] == '\n' {
        assert i >= n;
      }
    } else if forall i | 0 <= i < n :: Docstring.IsSpace(s[i]) {
      var j :| n < j < |s| && s[j] != '\n';
      assert s[n] == '\n';
    }
  }

  /** A one-line docstring of white space only cleans to nothing: the body keeps it. */
  lemma BlankLineDocstringKept(s: string)
    requires forall i | 0 <= i < |s| :: Docstring.IsSpace(s[i]) && s[i] != '\n'
    ensures !HasDocText(Some(s))
  {
    Docstring.LineRunExact(s, 0, |s|);
  }

  /** A docstring of a newline and four spaces keeps its indented second line through
      cleaning, which is not empty: the docstring statement is dropped. */
  lemma IndentedBlankDocstringDropped()
    ensures HasDocText(Some("\n    "))
  {
    var s := "\n    ";
    Docstring.LineRunExact(s, 0, 0);
    Docstring.LineRunExact(s[1..], 0, 4);
    assert Lines(s)[1] == "    ";
  }

  /** The first failure of a list is the failure of its first failing element. */
  lemma {:induction false} VisitAllFirstFailure(hs: seq<Hook.Hook>, ns: seq<Node>) returns (k: nat)
    requires VisitAll(hs, ns).Failure?
    ensures k < |ns| && Visit(hs, ns[k]).Failure? && VisitAll(hs, ns).error == Visit(hs, ns[k]).error
    ensures forall j | 0 <= j < k :: Visit(hs, ns[j]).Success?
    decreases ns
  {
    if Visit(hs, ns[0]).Failure? {
      k := 0;
    } else {
      var k' := VisitAllFirstFailure(hs, ns[1..]);
      k := k' + 1;
      assert ns[1..][k'] == ns[k];
      forall j | 0 <= j < k ensures Visit(hs, ns[j]).Success? {
        if j > 0 {
          assert ns[j] == ns[1..][j - 1];
        }
      }
    }
  }
}
