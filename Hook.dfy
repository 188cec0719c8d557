/** The call hooks the converter consults after visiting a node: `math.pow(...)` becomes
    `std::pow(...)` and `tuple(...)` becomes `std::make_tuple(...)`.  A hook's `match`
    looks at the Python node; its `apply` replaces the function of the C++ call built for
    that node and keeps the rest of the call. */
module Hook {
  import opened Wrappers
  import opened PyAst
  import C = Cpp

  datatype Hook = MathPowHook | TupleHook

  /** The hooks, in the order the converter tries them. */
  const Hooks: seq<Hook> := [MathPowHook, TupleHook]

  /** `hook.match(node)`, one field test after another as the hook writes it. */
  predicate Match(h: Hook, node: Node) {
    match h
    case MathPowHook =>
      node.Call? && node.func.Attribute? && node.func.value.Name?
      && node.func.value.id == "math" && node.func.attr == "pow"
    case TupleHook =>
      node.Call? && node.func.Name? && node.func.id == "tuple"
  }

  /** The name, inside namespace `std`, that hook `h` calls instead. */
  function Target(h: Hook): string {
    match h
    case MathPowHook => "pow"
    case TupleHook => "make_tuple"
  }

  /** `hook.apply(node, ret)`: `ret.func = CppScope(Name("std"), <target>)`. */
  function Apply(h: Hook, ret: C.CppNode): (r: C.CppNode)
    requires ret.Call?
    ensures r.Call? && r.func == C.CppScope(C.Name("std"), Target(h))
    ensures r.args == ret.args && r.keywords == ret.keywords
  {
    ret.(func := C.CppScope(C.Name("std"), Target(h)))
  }

  /** The first hook of `hs` that matches `node`. */
  function FirstMatch(hs: seq<Hook>, node: Node): (r: Option<Hook>)
    ensures r.Some? ==> Match(r.value, node) && node.Call?
    decreases |hs|
  {
    if |hs| == 0 then None
    else if Match(hs[0], node) then Some(hs[0])
    else FirstMatch(hs[1..], node)
  }

  // ---------------------------------------------------------------------------
  // Properties

  /** `MathPowHook` matches exactly the calls of `math.pow`. */
  lemma MathPowMatchesExactly(node: Node)
    ensures Match(MathPowHook, node) <==> node.Call? && node.func == Attribute(Name("math"), "pow")
  {
  }

  /** `TupleHook` matches exactly the calls of `tuple`. */
  lemma TupleMatchesExactly(node: Node)
    ensures Match(TupleHook, node) <==> node.Call? && node.func == Name("tuple")
  {
  }

  /** No hook matches a node that is not a call. */
  lemma OnlyCallsMatch(h: Hook, node: Node)
    requires !node.Call?
    ensures !Match(h, node)
  {
  }

  /** No node matches both hooks: one needs an attribute as the function, the other a name. */
  lemma HooksExclusive(node: Node)
    ensures !(Match(MathPowHook, node) && Match(TupleHook, node))
  {
  }

  /** `FirstMatch` finds the earliest matching hook, and finds none exactly when no hook
      matches. */
  lemma {:induction false} FirstMatchIsFirst(hs: seq<Hook>, node: Node)
    ensures FirstMatch(hs, node).None? <==> forall i | 0 <= i < |hs| :: !Match(hs[i], node)
    ensures FirstMatch(hs, node).Some? ==>
      exists i | 0 <= i < |hs| :: hs[i] == FirstMatch(hs, node).value && Match(hs[i], node)
        && forall j | 0 <= j < i :: !Match(hs[j], node)
    decreases |hs|
  {
    if |hs| > 0 && !Match(hs[0], node) {
      FirstMatchIsFirst(hs[1..], node);
      if FirstMatch(hs, node).Some? {
        var i :| 0 <= i < |hs[1..]| && hs[1..][i] == FirstMatch(hs, node).value && Match(hs[1..][i], node)
          && forall j | 0 <= j < i :: !Match(hs[1..][j], node);
        assert hs[i + 1] == FirstMatch(hs, node).value && Match(hs[i + 1], node);
        assert forall j | 0 <= j < i + 1 :: !Match(hs[j], node) by {
          forall j | 0 <= j < i + 1 ensures !Match(hs[j], node) {
            if j > 0 {
              assert hs[j] == hs[1..][j - 1];
            }
          }
        }
      }
    } else if |hs| > 0 {
      assert hs[0] == FirstMatch(hs, node).value;
    }
  }

  /** With the two hooks, the matching hook is the one whose `match` holds. */
  lemma HookChoice(node: Node)
    ensures FirstMatch(Hooks, node) == if Match(MathPowHook, node) then Some(MathPowHook)
                                     else if Match(TupleHook, node) then Some(TupleHook)
                                     else None
  {
    assert Hooks[1..] == [TupleHook];
    assert Hooks[1..][1..] == [];
  }

  /** The hook loop of `Converter.visit`: return the first matching hook's `apply`, and
      `ret` unchanged when none matches. */
  method RunHooks(hooks: seq<Hook>, node: Node, ret: C.CppNode) returns (r: C.CppNode)
    requires node.Call? ==> ret.Call?
    ensures FirstMatch(hooks, node).Some? ==> r == Apply(FirstMatch(hooks, node).value, ret)
    ensures FirstMatch(hooks, node).None? ==> r == ret
  {
    var i := 0;
    while i < |hooks|
      invariant 0 <= i <= |hooks|
      invariant FirstMatch(hooks, node) == FirstMatch(hooks[i..], node)
    {
      if Match(hooks[i], node) {
        return Apply(hooks[i], ret);
      }
      assert hooks[i..][1..] == hooks[i + 1..];
      i := i + 1;
    }
    return ret;
  }
}
