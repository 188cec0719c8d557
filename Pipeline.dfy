/** The whole translation of a module: the four passes, the converter with its default
    hooks, and `build()` of each converted statement.  `descend` selects the passes as
    written (`false`) or the corrected passes that also rewrite nested operators (`true`). */
module Pipeline {
  import opened Wrappers
  import opened PyAst
  import C = Cpp
  import T = Transformer
  import H = Hook
  import Converter

  /** `Converter().visit(module)`, then the text of each statement. */
  function Translate(m: Module, descend: bool): (r: Result<Option<seq<string>>, Converter.ConvError>)
    ensures r.Success? <==> Converter.ConvertModule(T.Transformers, H.Hooks, m, descend).Success?
    ensures r.Success? && r.value.Some? ==> |r.value.value| == |m.body|
  {
    var c :- Converter.ConvertModule(T.Transformers, H.Hooks, m, descend);
    Success(C.BuildAll(c.body))
  }

  /** A one-statement module whose statement comes out of the passes as `s`. */
  lemma {:induction false} TranslateSingle(m: Module, descend: bool, s: Node)
    requires T.RunPasses(T.Transformers, m, descend) == Module([s])
    ensures Translate(m, descend)
         == (match Converter.Visit(H.Hooks, s)
             case Success(c) => Success(C.BuildAll([c]))
             case Failure(e) => Failure(e))
  {
    var v := Converter.VisitAll(H.Hooks, [s]);
    if Converter.Visit(H.Hooks, s).Success? {
      assert v.Success? && v.value == [Converter.Visit(H.Hooks, s).value];
    } else {
      assert v == Failure(Converter.Visit(H.Hooks, s).error);
    }
  }

  lemma BuildSingle(c: C.CppNode)
    ensures C.BuildAll([c]) == (match C.Build(c) case Some(t) => Some([t]) case None => None)
  {
    assert [c][1..] == [];
    if C.Build(c).Some? {
      assert [C.Build(c).value] + [] == [C.Build(c).value];
    }
  }

  // ---------------------------------------------------------------------------
  // The passes on one expression statement

  /** `x ** k` becomes `math.pow(x, k)` and nothing more happens to it. */
  lemma {:induction false} PowPasses(x: string, k: int, descend: bool)
    ensures T.RunPasses(T.Transformers, Module([Expr(BinOp(Name(x), Pow, Num(k)))]), descend)
         == Module([Expr(T.MathPow([Name(x), Num(k)]))])
  {
    var e := BinOp(Name(x), Pow, Num(k));
    var m := Module([Expr(e)]);
    T.PassesInOrder(m, descend);
    UnrewrittenBinOp(T.PrintTransformer, Name(x), Pow, Num(k), descend);
    UnrewrittenBinOp(T.TupleTransformer, Name(x), Pow, Num(k), descend);
    RewrittenBinOp(T.PowTransformer, Name(x), Pow, Num(k), descend);
    CallUntouched(T.FloorDivTransformer, Attribute(Name("math"), "pow"), Name(x), Num(k), descend);
  }

  /** `x // k` becomes `int(x / k)` and nothing more happens to it. */
  lemma {:induction false} FloorDivPasses(x: string, k: int, descend: bool)
    ensures T.RunPasses(T.Transformers, Module([Expr(BinOp(Name(x), FloorDiv, Num(k)))]), descend)
         == Module([Expr(T.IntCall(BinOp(Name(x), Div, Num(k))))])
  {
    var e := BinOp(Name(x), FloorDiv, Num(k));
    var m := Module([Expr(e)]);
    T.PassesInOrder(m, descend);
    UnrewrittenBinOp(T.PrintTransformer, Name(x), FloorDiv, Num(k), descend);
    UnrewrittenBinOp(T.TupleTransformer, Name(x), FloorDiv, Num(k), descend);
    UnrewrittenBinOp(T.PowTransformer, Name(x), FloorDiv, Num(k), descend);
    RewrittenBinOp(T.FloorDivTransformer, Name(x), FloorDiv, Num(k), descend);
  }

  /** `x <op> k` for any other operator comes out of the passes unchanged. */
  lemma {:induction false} OtherOpPasses(x: string, o: Operator, k: int, descend: bool)
    requires o != Pow && o != FloorDiv
    ensures T.RunPasses(T.Transformers, Module([Expr(BinOp(Name(x), o, Num(k)))]), descend)
         == Module([Expr(BinOp(Name(x), o, Num(k)))])
  {
    var m := Module([Expr(BinOp(Name(x), o, Num(k)))]);
    T.PassesInOrder(m, descend);
    UnrewrittenBinOp(T.PrintTransformer, Name(x), o, Num(k), descend);
    UnrewrittenBinOp(T.TupleTransformer, Name(x), o, Num(k), descend);
    UnrewrittenBinOp(T.PowTransformer, Name(x), o, Num(k), descend);
    UnrewrittenBinOp(T.FloorDivTransformer, Name(x), o, Num(k), descend);
  }

  /** The tuple `(a, b)` becomes `tuple(a, b)` and nothing more happens to it. */
  lemma {:induction false} TuplePasses(a: string, b: string, descend: bool)
    ensures T.RunPasses(T.Transformers, Module([Expr(Tuple([Name(a), Name(b)]))]), descend)
         == Module([Expr(Call(Name("tuple"), [Name(a), Name(b)], []))])
  {
    var m := Module([Expr(Tuple([Name(a), Name(b)]))]);
    T.PassesInOrder(m, descend);
    var m1 := T.WalkModule(T.PrintTransformer, m, descend);
    T.WalkSingleStatement(T.PrintTransformer, Expr(Tuple([Name(a), Name(b)])), descend);
    T.WalkExpr(T.PrintTransformer, Tuple([Name(a), Name(b)]), descend);
    T.WalkPair(T.PrintTransformer, Name(a), Name(b), descend);
    T.WalkLeaf(T.PrintTransformer, Name(a), descend);
    T.WalkLeaf(T.PrintTransformer, Name(b), descend);
    assert m1 == m;
    T.WalkSingleStatement(T.TupleTransformer, Expr(Tuple([Name(a), Name(b)])), descend);
    T.WalkExpr(T.TupleTransformer, Tuple([Name(a), Name(b)]), descend);
    T.WalkPair(T.TupleTransformer, Name(a), Name(b), descend);
    T.WalkLeaf(T.TupleTransformer, Name(a), descend);
    T.WalkLeaf(T.TupleTransformer, Name(b), descend);
    CallUntouched(T.PowTransformer, Name("tuple"), Name(a), Name(b), descend);
    CallUntouched(T.FloorDivTransformer, Name("tuple"), Name(a), Name(b), descend);
  }

  /** A pass that does not rewrite `l op r` leaves the statement `l op r` as it is. */
  lemma UnrewrittenBinOp(p: T.Pass, l: Node, o: Operator, r: Node, descend: bool)
    requires l.Name? && (r.Name? || r.Num?)
    requires T.Rewrite(p, BinOp(l, o, r)) == BinOp(l, o, r)
    ensures T.WalkModule(p, Module([Expr(BinOp(l, o, r))]), descend) == Module([Expr(BinOp(l, o, r))])
  {
    T.WalkSingleStatement(p, Expr(BinOp(l, o, r)), descend);
    T.WalkExpr(p, BinOp(l, o, r), descend);
    T.WalkLeaf(p, l, descend);
    T.WalkLeaf(p, r, descend);
    T.WalkBinOp(p, l, o, r, descend);
  }

  /** The pass that rewrites `l op r` replaces the statement's expression, in both modes. */
  lemma RewrittenBinOp(p: T.Pass, l: Node, o: Operator, r: Node, descend: bool)
    requires l.Name? && (r.Name? || r.Num?)
    ensures T.WalkModule(p, Module([Expr(BinOp(l, o, r))]), descend) == Module([Expr(T.Rewrite(p, BinOp(l, o, r)))])
  {
    T.WalkSingleStatement(p, Expr(BinOp(l, o, r)), descend);
    T.WalkExpr(p, BinOp(l, o, r), descend);
    T.WalkLeaf(p, l, descend);
    T.WalkLeaf(p, r, descend);
    T.WalkBinOp(p, l, o, r, descend);
  }

  /** A pass leaves a call statement `f(a, b)` on names and numbers as it is. */
  lemma CallUntouched(p: T.Pass, f: Node, a: Node, b: Node, descend: bool)
    requires f.Name? || (f.Attribute? && f.value.Name?)
    requires a.Name? && (b.Name? || b.Num?)
    ensures T.WalkModule(p, Module([Expr(Call(f, [a, b], []))]), descend) == Module([Expr(Call(f, [a, b], []))])
  {
    T.WalkSingleStatement(p, Expr(Call(f, [a, b], [])), descend);
    T.WalkExpr(p, Call(f, [a, b], []), descend);
    T.WalkCall(p, f, [a, b], [], descend);
    if f.Attribute? {
      T.WalkAttribute(p, f.value, f.attr, descend);
      T.WalkLeaf(p, f.value, descend);
    } else {
      T.WalkLeaf(p, f, descend);
    }
    T.WalkPair(p, a, b, descend);
    T.WalkLeaf(p, a, descend);
    T.WalkLeaf(p, b, descend);
    assert T.WalkAll(p, [], descend) == [];
  }

  // ---------------------------------------------------------------------------
  // Conversion and text

  /** The C++ node of a name or number. */
  function Leaf(n: Node): C.CppNode
    requires n.Name? || n.Num?
  {
    if n.Name? then C.Name(n.id) else C.Num(n.n)
  }

  /** The two converted arguments of a call, and no keywords. */
  lemma ConvertPair(a: Node, b: Node)
    requires a.Name? && (b.Name? || b.Num?)
    ensures Converter.VisitAll(H.Hooks, [a, b]) == Success([Leaf(a), Leaf(b)])
    ensures Converter.VisitAll(H.Hooks, []) == Success([])
  {
    Converter.VisitLeaf(H.Hooks, a);
    Converter.VisitLeaf(H.Hooks, b);
    var v := Converter.VisitAll(H.Hooks, [a, b]);
    assert v.Success?;
    assert v.value == [Leaf(a), Leaf(b)];
  }

  /** `math.pow(a, b)` converts to `std::pow(a, b)`. */
  lemma {:induction false} ConvertMathPow(a: Node, b: Node)
    requires a.Name? && (b.Name? || b.Num?)
    ensures Converter.Visit(H.Hooks, T.MathPow([a, b]))
         == Success(C.Call(C.CppScope(C.Name("std"), "pow"), [Leaf(a), Leaf(b)], []))
  {
    var f := Attribute(Name("math"), "pow");
    Converter.CallStep(f, [a, b], []);
    Converter.VisitAttribute(H.Hooks, Name("math"), "pow");
    Converter.VisitLeaf(H.Hooks, Name("math"));
    ConvertPair(a, b);
  }

  /** `tuple(a, b)` converts to `std::make_tuple(a, b)`. */
  lemma {:induction false} ConvertTupleCall(a: Node, b: Node)
    requires a.Name? && (b.Name? || b.Num?)
    ensures Converter.Visit(H.Hooks, Call(Name("tuple"), [a, b], []))
         == Success(C.Call(C.CppScope(C.Name("std"), "make_tuple"), [Leaf(a), Leaf(b)], []))
  {
    Converter.CallStep(Name("tuple"), [a, b], []);
    Converter.VisitLeaf(H.Hooks, Name("tuple"));
    ConvertPair(a, b);
  }

  /** `int(x / k)` converts to a call of `int` on `x / k`; no hook matches it. */
  lemma {:induction false} ConvertIntCall(x: string, k: int)
    ensures Converter.Visit(H.Hooks, T.IntCall(BinOp(Name(x), Div, Num(k))))
         == Success(C.Call(C.Name("int"), [C.BinOp(C.Name(x), "/", C.Num(k))], []))
  {
    var e := BinOp(Name(x), Div, Num(k));
    Converter.CallStep(Name("int"), [e], []);
    Converter.VisitLeaf(H.Hooks, Name("int"));
    ConvertDivision(x, k);
    var v := Converter.VisitAll(H.Hooks, [e]);
    assert v.Success? && v.value == [C.BinOp(C.Name(x), "/", C.Num(k))];
    assert Converter.VisitAll(H.Hooks, []) == Success([]);
  }

  /** `x / k` converts to `x / k`. */
  lemma ConvertDivision(x: string, k: int)
    ensures Converter.Visit(H.Hooks, BinOp(Name(x), Div, Num(k))) == Success(C.BinOp(C.Name(x), "/", C.Num(k)))
  {
    Converter.VisitBinOp(H.Hooks, Name(x), Div, Num(k));
    Converter.VisitLeaf(H.Hooks, Name(x));
    Converter.VisitLeaf(H.Hooks, Num(k));
  }

  /** A one-statement module whose statement comes out of the passes as `s`, converts to
      `c` and builds to `t` translates to the single line `t`. */
  lemma TranslateText(m: Module, descend: bool, s: Node, c: C.CppNode, t: string)
    requires T.RunPasses(T.Transformers, m, descend) == Module([s])
    requires Converter.Visit(H.Hooks, s) == Success(c)
    requires C.Build(c) == Some(t)
    ensures Translate(m, descend) == Success(Some([t]))
  {
    TranslateSingle(m, descend, s);
    BuildSingle(c);
  }

  /** The text of the call `g(u, v)`. */
  lemma PairCallText(g: C.CppNode, u: C.CppNode, v: C.CppNode, G: string, U: string, V: string)
    requires C.Build(g) == Some(G) && C.Build(u) == Some(U) && C.Build(v) == Some(V)
    ensures C.Build(C.Call(g, [u, v], [])) == Some(G + "(" + (U + ", " + V) + ")")
  {
    C.CallText(g, [u, v], []);
    var all := C.BuildAll([u, v]);
    assert all.value == [U, V];
    assert C.Join([U, V], ", ") == U + ", " + V by {
      assert [U, V][..1] == [U];
    }
  }

  /** The text of the call `g(u)`. */
  lemma SingleCallText(g: C.CppNode, u: C.CppNode, G: string, U: string)
    requires C.Build(g) == Some(G) && C.Build(u) == Some(U)
    ensures C.Build(C.Call(g, [u], [])) == Some(G + "(" + U + ")")
  {
    C.CallText(g, [u], []);
  }

  /** The text of a statement is its expression's text and `;`. */
  lemma StatementText(c: C.CppNode, t: string)
    requires C.Build(c) == Some(t)
    ensures C.Build(C.Expr(c)) == Some(t + ";")
  {
  }

  /** The text of `std::f`. */
  lemma ScopeText(f: string)
    ensures C.Build(C.CppScope(C.Name("std"), f)) == Some("std" + "::" + f)
  {
  }

  /** `x ** k` translates to `std::pow(x, k);`, as written and corrected alike. */
  lemma {:induction false} PowTranslates(x: string, k: int, descend: bool)
    ensures Translate(Module([Expr(BinOp(Name(x), Pow, Num(k)))]), descend)
         == Success(Some(["std" + "::" + "pow" + "(" + (x + ", " + C.IntToDecimal(k)) + ")" + ";"]))
  {
    var m := Module([Expr(BinOp(Name(x), Pow, Num(k)))]);
    var K := C.IntToDecimal(k);
    var g := C.CppScope(C.Name("std"), "pow");
    var call := C.Call(g, [C.Name(x), C.Num(k)], []);
    PowPasses(x, k, descend);
    ConvertMathPow(Name(x), Num(k));
    Converter.VisitExpr(H.Hooks, T.MathPow([Name(x), Num(k)]));
    ScopeText("pow");
    PairCallText(g, C.Name(x), C.Num(k), "std" + "::" + "pow", x, K);
    StatementText(call, "std" + "::" + "pow" + "(" + (x + ", " + K) + ")");
    TranslateText(m, descend, Expr(T.MathPow([Name(x), Num(k)])), C.Expr(call),
                  "std" + "::" + "pow" + "(" + (x + ", " + K) + ")" + ";");
  }

  /** `x // k` translates to `int(x / k);`, as written and corrected alike. */
  lemma {:induction false} FloorDivTranslates(x: string, k: int, descend: bool)
    ensures Translate(Module([Expr(BinOp(Name(x), FloorDiv, Num(k)))]), descend)
         == Success(Some(["int" + "(" + (x + " " + "/" + " " + C.IntToDecimal(k)) + ")" + ";"]))
  {
    var m := Module([Expr(BinOp(Name(x), FloorDiv, Num(k)))]);
    var e := BinOp(Name(x), Div, Num(k));
    var K := C.IntToDecimal(k);
    var be := C.BinOp(C.Name(x), "/", C.Num(k));
    var call := C.Call(C.Name("int"), [be], []);
    FloorDivPasses(x, k, descend);
    ConvertIntCall(x, k);
    Converter.VisitExpr(H.Hooks, T.IntCall(e));
    assert C.Build(be) == Some(x + " " + "/" + " " + K);
    SingleCallText(C.Name("int"), be, "int", x + " " + "/" + " " + K);
    StatementText(call, "int" + "(" + (x + " " + "/" + " " + K) + ")");
    TranslateText(m, descend, Expr(T.IntCall(e)), C.Expr(call),
                  "int" + "(" + (x + " " + "/" + " " + K) + ")" + ";");
  }

  /** `x <op> k` for an operator in `OPERATOR_MAP` translates to `x <op'> k;` with the
      operator's C++ spelling, as written and corrected alike. */
  lemma {:induction false} OtherOpTranslates(x: string, o: Operator, k: int, descend: bool)
    requires o in Converter.OperatorMap
    ensures Translate(Module([Expr(BinOp(Name(x), o, Num(k)))]), descend)
         == Success(Some([x + " " + Converter.OperatorMap[o] + " " + C.IntToDecimal(k) + ";"]))
  {
    var e := BinOp(Name(x), o, Num(k));
    var m := Module([Expr(e)]);
    var K := C.IntToDecimal(k);
    var os := Converter.OperatorMap[o];
    var be := C.BinOp(C.Name(x), os, C.Num(k));
    OtherOpPasses(x, o, k, descend);
    ConvertOtherOp(x, o, k);
    BinOpText(x, os, k, K);
    StatementText(be, x + " " + os + " " + K);
    TranslateText(m, descend, Expr(e), C.Expr(be), x + " " + os + " " + K + ";");
  }

  /** The text of `x <op> k`. */
  lemma BinOpText(x: string, os: string, k: int, K: string)
    requires K == C.IntToDecimal(k)
    ensures C.Build(C.BinOp(C.Name(x), os, C.Num(k))) == Some(x + " " + os + " " + K)
  {
  }

  /** The statement `x <op> k` converts to the C++ statement with the operator's
      C++ spelling. */
  lemma ConvertOtherOp(x: string, o: Operator, k: int)
    requires o in Converter.OperatorMap
    ensures Converter.Visit(H.Hooks, Expr(BinOp(Name(x), o, Num(k))))
         == Success(C.Expr(C.BinOp(C.Name(x), Converter.OperatorMap[o], C.Num(k))))
  {
    Converter.OperatorMapDomain(o);
    Converter.VisitBinOp(H.Hooks, Name(x), o, Num(k));
    Converter.VisitLeaf(H.Hooks, Name(x));
    Converter.VisitLeaf(H.Hooks, Num(k));
    Converter.VisitExpr(H.Hooks, BinOp(Name(x), o, Num(k)));
  }

  /** The tuple `(a, b)` translates to `std::make_tuple(a, b);`, as written and corrected
      alike. */
  lemma {:induction false} TupleTranslates(a: string, b: string, descend: bool)
    ensures Translate(Module([Expr(Tuple([Name(a), Name(b)]))]), descend)
         == Success(Some(["std" + "::" + "make_tuple" + "(" + (a + ", " + b) + ")" + ";"]))
  {
    var m := Module([Expr(Tuple([Name(a), Name(b)]))]);
    var n := Call(Name("tuple"), [Name(a), Name(b)], []);
    var g := C.CppScope(C.Name("std"), "make_tuple");
    var call := C.Call(g, [C.Name(a), C.Name(b)], []);
    TuplePasses(a, b, descend);
    ConvertTupleCall(Name(a), Name(b));
    Converter.VisitExpr(H.Hooks, n);
    ScopeText("make_tuple");
    PairCallText(g, C.Name(a), C.Name(b), "std" + "::" + "make_tuple", a, b);
    StatementText(call, "std" + "::" + "make_tuple" + "(" + (a + ", " + b) + ")");
    TranslateText(m, descend, Expr(n), C.Expr(call),
                  "std" + "::" + "make_tuple" + "(" + (a + ", " + b) + ")" + ";");
  }

  // ---------------------------------------------------------------------------
  // A `**` below another operator

  /** The module `x + y ** k`. */
  function NestedPow(x: string, y: string, k: int): Module {
    Module([Expr(BinOp(Name(x), Add, BinOp(Name(y), Pow, Num(k))))])
  }

  /** The module `x + math.pow(y, k)`. */
  function NestedMathPow(x: string, y: string, k: int): Module {
    Module([Expr(BinOp(Name(x), Add, T.MathPow([Name(y), Num(k)])))])
  }

  /** The corrected print and tuple passes leave `x + y ** k` alone. */
  lemma NestedPowUntouched(p: T.Pass, x: string, y: string, k: int)
    requires p == T.PrintTransformer || p == T.TupleTransformer
    ensures T.WalkModule(p, NestedPow(x, y, k), true) == NestedPow(x, y, k)
  {
    var inner := BinOp(Name(y), Pow, Num(k));
    var e := BinOp(Name(x), Add, inner);
    T.WalkLeaf(p, Name(x), true);
    T.WalkLeaf(p, Name(y), true);
    T.WalkLeaf(p, Num(k), true);
    T.WalkBinOp(p, Name(y), Pow, Num(k), true);
    T.WalkBinOp(p, Name(x), Add, inner, true);
    T.WalkExpr(p, e, true);
    T.WalkSingleStatement(p, Expr(e), true);
  }

  /** The corrected `**` pass rewrites the operand `y ** k`. */
  lemma NestedPowRewritten(x: string, y: string, k: int)
    ensures T.WalkModule(T.PowTransformer, NestedPow(x, y, k), true) == NestedMathPow(x, y, k)
  {
    var p := T.PowTransformer;
    var e := BinOp(Name(x), Add, BinOp(Name(y), Pow, Num(k)));
    NestedPowOperandRewritten(x, y, k);
    T.WalkExpr(p, e, true);
    T.WalkSingleStatement(p, Expr(e), true);
  }

  /** Inside the statement: `x + y ** k` becomes `x + math.pow(y, k)`. */
  lemma NestedPowOperandRewritten(x: string, y: string, k: int)
    ensures T.Walk(T.PowTransformer, BinOp(Name(x), Add, BinOp(Name(y), Pow, Num(k))), true)
         == BinOp(Name(x), Add, T.MathPow([Name(y), Num(k)]))
  {
    var p := T.PowTransformer;
    var inner := BinOp(Name(y), Pow, Num(k));
    T.WalkLeaf(p, Name(x), true);
    T.WalkLeaf(p, Name(y), true);
    T.WalkLeaf(p, Num(k), true);
    T.WalkBinOp(p, Name(y), Pow, Num(k), true);
    T.WalkBinOpDescending(p, Name(x), Add, inner);
  }

  /** A pass leaves the call `math.pow(a, b)` on names and numbers as it is. */
  lemma MathPowUntouched(p: T.Pass, a: Node, b: Node, descend: bool)
    requires a.Name? && (b.Name? || b.Num?)
    ensures T.Walk(p, T.MathPow([a, b]), descend) == T.MathPow([a, b])
  {
    T.WalkCall(p, Attribute(Name("math"), "pow"), [a, b], [], descend);
    T.WalkAttribute(p, Name("math"), "pow", descend);
    T.WalkLeaf(p, Name("math"), descend);
    T.WalkPair(p, a, b, descend);
    T.WalkLeaf(p, a, descend);
    T.WalkLeaf(p, b, descend);
    assert T.WalkAll(p, [], descend) == [];
  }

  /** The corrected `//` pass leaves `x + math.pow(y, k)` alone. */
  lemma NestedMathPowUntouched(x: string, y: string, k: int)
    ensures T.WalkModule(T.FloorDivTransformer, NestedMathPow(x, y, k), true) == NestedMathPow(x, y, k)
  {
    var p := T.FloorDivTransformer;
    var pow := T.MathPow([Name(y), Num(k)]);
    var e := BinOp(Name(x), Add, pow);
    MathPowUntouched(p, Name(y), Num(k), true);
    T.WalkLeaf(p, Name(x), true);
    T.WalkBinOp(p, Name(x), Add, pow, true);
    T.WalkExpr(p, e, true);
    T.WalkSingleStatement(p, Expr(e), true);
  }

  /** The corrected passes rewrite the nested `y ** k` of `x + y ** k`. */
  lemma {:induction false} NestedPowPasses(x: string, y: string, k: int)
    ensures T.RunPasses(T.Transformers, NestedPow(x, y, k), true) == NestedMathPow(x, y, k)
  {
    T.PassesInOrder(NestedPow(x, y, k), true);
    NestedPowUntouched(T.PrintTransformer, x, y, k);
    NestedPowUntouched(T.TupleTransformer, x, y, k);
    NestedPowRewritten(x, y, k);
    NestedMathPowUntouched(x, y, k);
  }

  /** `x + math.pow(y, k)` converts to `x + std::pow(y, k)`. */
  lemma ConvertNestedMathPow(x: string, y: string, k: int)
    ensures Converter.Visit(H.Hooks, NestedMathPow(x, y, k).body[0])
         == Success(C.Expr(C.BinOp(C.Name(x), "+", C.Call(C.CppScope(C.Name("std"), "pow"), [C.Name(y), C.Num(k)], []))))
  {
    var pow := T.MathPow([Name(y), Num(k)]);
    ConvertMathPow(Name(y), Num(k));
    Converter.OperatorMapDomain(Add);
    Converter.VisitLeaf(H.Hooks, Name(x));
    Converter.VisitBinOp(H.Hooks, Name(x), Add, pow);
    Converter.VisitExpr(H.Hooks, BinOp(Name(x), Add, pow));
  }

  /** As written, `x + y ** k` reaches the converter with its `**` in place, and the
      converter's assertion fails. */
  lemma {:induction false} NestedPowFailsAsWritten(x: string, y: string, k: int)
    ensures Translate(NestedPow(x, y, k), false) == Failure(Converter.AssertionError)
  {
    var inner := BinOp(Name(y), Pow, Num(k));
    var e := BinOp(Name(x), Add, inner);
    T.NestedPowSurvives(x, y, k);
    Converter.OperatorMapDomain(Add);
    Converter.VisitLeaf(H.Hooks, Name(x));
    Converter.VisitBinOp(H.Hooks, Name(y), Pow, Num(k));
    Converter.VisitBinOp(H.Hooks, Name(x), Add, inner);
    Converter.VisitExpr(H.Hooks, e);
    TranslateSingle(Module([Expr(e)]), false, Expr(e));
  }

  /** With the corrected passes, `x + y ** k` translates to `x + std::pow(y, k);`. */
  lemma {:induction false} NestedPowTranslatesCorrected(x: string, y: string, k: int)
    ensures Translate(NestedPow(x, y, k), true)
         == Success(Some([x + " " + "+" + " " + ("std" + "::" + "pow" + "(" + (y + ", " + C.IntToDecimal(k)) + ")") + ";"]))
  {
    var K := C.IntToDecimal(k);
    var g := C.CppScope(C.Name("std"), "pow");
    var call := C.Call(g, [C.Name(y), C.Num(k)], []);
    var be := C.BinOp(C.Name(x), "+", call);
    var P := "std" + "::" + "pow" + "(" + (y + ", " + K) + ")";
    NestedPowPasses(x, y, k);
    ConvertNestedMathPow(x, y, k);
    ScopeText("pow");
    PairCallText(g, C.Name(y), C.Num(k), "std" + "::" + "pow", y, K);
    assert C.Build(be) == Some(x + " " + "+" + " " + P);
    StatementText(be, x + " " + "+" + " " + P);
    TranslateText(NestedPow(x, y, k), true, NestedMathPow(x, y, k).body[0], C.Expr(be), x + " " + "+" + " " + P + ";");
  }
}
