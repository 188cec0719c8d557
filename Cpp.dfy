/** The C++ side of the translator: the nodes the converter builds, and the text that
    `build()` produces for the kinds that define it (statement `Expr`, `BinOp`, `Call`,
    `Num`, `Attribute`, `CppScope` and `Name`).  Every other kind has no `build`, which
    `Build` reports as `None`.  `Num` holds integers only. */
module Cpp {
  import opened Wrappers
  import PyAst

  datatype CppNode =
    // module
    | Module(body: seq<CppNode>)
    // statements
    | FunctionDef(name: string, params: CppNode, body: seq<CppNode>, docstring: Option<string>, returnType: CppNode)
    | ClassDef(name: string, bases: seq<CppNode>, keywords: seq<CppNode>, body: seq<CppNode>,
               docstring: Option<string>)
    | Return(returnValue: Option<CppNode>)
    | Assign(targets: seq<CppNode>, value: CppNode)
    | AugAssign(target: CppNode, op: string, value: CppNode)
    | For(target: CppNode, iter: CppNode, body: seq<CppNode>, orelse: seq<CppNode>)
    | If(test: CppNode, body: seq<CppNode>, orelse: seq<CppNode>)
    | Expr(stmt: CppNode)
    // expressions
    | BinOp(left: CppNode, op: string, right: CppNode)
    | Compare(left: CppNode, ops: seq<string>, comparators: seq<CppNode>)
    | Call(func: CppNode, args: seq<CppNode>, keywords: seq<CppNode>)
    | Num(n: int)
    | Str(s: string)
    | Attribute(value: CppNode, attr: string)
    | CppScope(value: CppNode, attr: string)
    | Name(id: string)
    | Tuple(elts: seq<CppNode>)
    | Keyword(name: string, value: CppNode)
    | Arguments(args: seq<CppNode>, defaults: seq<CppNode>)
    | Arg(arg: string, annotation: CppNode)
    // a Python node the converter has no visitor for, kept as it was
    | UnsupportedNode(node: PyAst.Node)

  // ---------------------------------------------------------------------------
  // Decimal text of an integer, as `"{}".format(n)` writes it

  predicate IsDigit(c: char) {
    '0' <= c <= '9'
  }

  function DigitChar(d: int): (c: char)
    requires 0 <= d < 10
    ensures IsDigit(c) && c as int - '0' as int == d
  {
    ('0' as int + d) as char
  }

  function DigitValue(c: char): int
    requires IsDigit(c)
  {
    c as int - '0' as int
  }

  /** The digits of `n`, most significant first, without leading zeros. */
  function NatToDecimal(n: nat): (r: string)
    ensures |r| >= 1
    ensures forall i | 0 <= i < |r| :: IsDigit(r[i])
    ensures r[0] == '0' ==> n == 0 && r == "0"
    decreases n
  {
    if n < 10 then [DigitChar(n)] else NatToDecimal(n / 10) + [DigitChar(n % 10)]
  }

  /** The digits of `|n|`, after a `-` when `n` is negative. */
  function IntToDecimal(n: int): (r: string)
    ensures |r| >= 1
    ensures (r[0] == '-') <==> n < 0
  {
    if n < 0 then "-" + NatToDecimal(-n) else NatToDecimal(n)
  }

  predicate AllDigits(s: string) {
    forall i | 0 <= i < |s| :: IsDigit(s[i])
  }

  /** The value of a run of decimal digits. */
  function ParseNat(s: string): nat
    requires |s| >= 1 && AllDigits(s)
    decreases |s|
  {
    if |s| == 1 then DigitValue(s[0]) else ParseNat(s[..|s| - 1]) * 10 + DigitValue(s[|s| - 1])
  }

  /** The value of an optional `-` followed by decimal digits. */
  function ParseInt(s: string): int
    requires |s| >= 1
    requires if s[0] == '-' then |s| >= 2 && AllDigits(s[1..]) else AllDigits(s)
  {
    if s[0] == '-' then -(ParseNat(s[1..]) as int) else ParseNat(s)
  }

  lemma {:induction false} NatDecimalRoundTrip(n: nat)
    ensures ParseNat(NatToDecimal(n)) == n
    decreases n
  {
    if n >= 10 {
      var s := NatToDecimal(n);
      assert s[..|s| - 1] == NatToDecimal(n / 10);
      NatDecimalRoundTrip(n / 10);
    }
  }

  /** Reading back the text of `Num(n)` gives `n`: no two integers print alike. */
  lemma DecimalRoundTrip(n: int)
    ensures ParseInt(IntToDecimal(n)) == n
  {
    if n < 0 {
      assert IntToDecimal(n)[1..] == NatToDecimal(-n);
      NatDecimalRoundTrip(-n);
    } else {
      NatDecimalRoundTrip(n);
    }
  }

  lemma DecimalInjective(m: int, n: int)
    requires IntToDecimal(m) == IntToDecimal(n)
    ensures m == n
  {
    DecimalRoundTrip(m);
    DecimalRoundTrip(n);
  }

  // ---------------------------------------------------------------------------
  // build()

  /** `sep.join(parts)` */
  function Join(parts: seq<string>, sep: string): string
    decreases |parts|
  {
    if |parts| == 0 then ""
    else if |parts| == 1 then parts[0]
    else Join(parts[..|parts| - 1], sep) + sep + parts[|parts| - 1]
  }

  /** `n.build()`, or `None` for a kind that has no `build`. */
  function Build(n: CppNode): Option<string>
    decreases n, 1
  {
    match n
    case Expr(stmt) =>
      (match Build(stmt)
       case Some(s) => Some(s + ";")
       case None => None)
    case BinOp(left, op, right) =>
      (match (Build(left), Build(right))
       case (Some(l), Some(r)) => Some(l + " " + op + " " + r)
       case _ => None)
    case Call(func, args, _) =>
      (match (Build(func), BuildAll(args))
       case (Some(f), Some(as_)) => Some(f + "(" + Join(as_, ", ") + ")")
       case _ => None)
    case Num(k) => Some(IntToDecimal(k))
    case Attribute(value, attr) =>
      (match Build(value)
       case Some(v) => Some(v + "." + attr)
       case None => None)
    case CppScope(value, attr) =>
      (match Build(value)
       case Some(v) => Some(v + "::" + attr)
       case None => None)
    case Name(id) => Some(id)
    case _ => None
  }

  /** `[x.build() for x in ns]` */
  function BuildAll(ns: seq<CppNode>): (r: Option<seq<string>>)
    ensures r.Some? <==> forall i | 0 <= i < |ns| :: Build(ns[i]).Some?
    ensures r.Some? ==> |r.value| == |ns| && forall i | 0 <= i < |ns| :: r.value[i] == Build(ns[i]).value
    decreases ns
  {
    if |ns| == 0 then Some([])
    else
      match (Build(ns[0]), BuildAll(ns[1..]))
      case (Some(x), Some(xs)) => Some([x] + xs)
      case _ => None
  }

  // ---------------------------------------------------------------------------
  // Properties of the generated text

  /** Only the seven kinds that define `build` produce text. */
  lemma BuildOnlyDefinedKinds(n: CppNode)
    requires Build(n).Some?
    ensures n.Expr? || n.BinOp? || n.Call? || n.Num? || n.Attribute? || n.CppScope? || n.Name?
  {
  }

  /** A statement's text is its expression's text followed by `;`, and nothing else. */
  lemma ExprEndsInSemicolon(stmt: CppNode)
    requires Build(Expr(stmt)).Some?
    ensures Build(stmt).Some?
    ensures Build(Expr(stmt)).value == Build(stmt).value + ";"
    ensures Build(Expr(stmt)).value[|Build(Expr(stmt)).value| - 1] == ';'
  {
  }

  /** No parentheses are ever added: grouping to the left and grouping to the right give
      the same text. */
  lemma {:induction false} BinOpAddsNoParentheses(a: CppNode, o1: string, b: CppNode, o2: string, c: CppNode)
    requires Build(a).Some? && Build(b).Some? && Build(c).Some?
    ensures Build(BinOp(BinOp(a, o1, b), o2, c)).Some?
    ensures Build(BinOp(BinOp(a, o1, b), o2, c)) == Build(BinOp(a, o1, BinOp(b, o2, c)))
  {
    var x, y, z := Build(a).value, Build(b).value, Build(c).value;
    assert Build(BinOp(a, o1, b)) == Some(x + " " + o1 + " " + y);
    assert Build(BinOp(b, o2, c)) == Some(y + " " + o2 + " " + z);
    assert (x + " " + o1 + " " + y) + " " + o2 + " " + z == x + " " + o1 + " " + (y + " " + o2 + " " + z);
  }

  /** A call's keywords never reach the text. */
  lemma CallIgnoresKeywords(f: CppNode, args: seq<CppNode>, k1: seq<CppNode>, k2: seq<CppNode>)
    ensures Build(Call(f, args, k1)) == Build(Call(f, args, k2))
  {
  }

  /** Joining with a separator: one part is itself, and each further part adds the
      separator and the part at the end. */
  lemma JoinSnoc(parts: seq<string>, last: string, sep: string)
    requires |parts| >= 1
    ensures Join(parts + [last], sep) == Join(parts, sep) + sep + last
  {
    assert (parts + [last])[..|parts|] == parts;
  }

  /** Joining a first part before at least one more adds the part and the separator at
      the front. */
  lemma {:induction false} JoinCons(first: string, rest: seq<string>, sep: string)
    requires |rest| >= 1
    ensures Join([first] + rest, sep) == first + sep + Join(rest, sep)
    decreases |rest|
  {
    var ps := [first] + rest;
    var last := rest[|rest| - 1];
    if |rest| > 1 {
      var init := rest[..|rest| - 1];
      assert ps[..|ps| - 1] == [first] + init && ps[|ps| - 1] == last;
      JoinCons(first, init, sep);
      assert Join(ps, sep) == Join([first] + init, sep) + sep + last;
      assert Join(rest, sep) == Join(init, sep) + sep + last;
    } else {
      assert ps[..|ps| - 1] == [first] && ps[|ps| - 1] == last;
      assert Join(rest, sep) == last;
    }
  }

  /** The argument list of a call with arguments `a1, ..., ak` is `f(a1, ..., ak)`; with no
      arguments it is `f()`. */
  lemma CallText(f: CppNode, args: seq<CppNode>, keywords: seq<CppNode>)
    requires Build(f).Some?
    requires forall i | 0 <= i < |args| :: Build(args[i]).Some?
    ensures Build(Call(f, args, keywords)).Some?
    ensures Build(Call(f, args, keywords)).value
         == Build(f).value + "(" + Join(BuildAll(args).value, ", ") + ")"
    ensures |args| == 0 ==> Build(Call(f, args, keywords)).value == Build(f).value + "()"
    ensures |args| == 1 ==> Build(Call(f, args, keywords)).value == Build(f).value + "(" + Build(args[0]).value + ")"
  {
  }

  /** `value.attr` and `value::attr` share the value's text and the attribute's text and
      differ only in the separator, so the two never coincide. */
  lemma AttributeAndScopeDiffer(value: CppNode, v: string, attr: string)
    requires Build(value) == Some(v)
    ensures Build(Attribute(value, attr)) == Some(v + "." + attr)
    ensures Build(CppScope(value, attr)) == Some(v + "::" + attr)
    ensures Build(Attribute(value, attr)) != Build(CppScope(value, attr))
  {
    assert |v + "." + attr| == |v| + 1 + |attr|;
    assert |v + "::" + attr| == |v| + 2 + |attr|;
  }
}
