# py2cpp core, modelled in Dafny

py2cpp translates Python source into C++ text. This project models its core in four parts.

1. **Passes.** `py2cpp/transformer.py` holds four `ast.NodeTransformer` passes. They turn a Python 2 `print` into a call, a tuple into `tuple(...)`, `**` into `math.pow(...)` and `//` into `int(... / ...)`.
2. **Converter.** `py2cpp/converter.py` holds the `Converter` visitor. It maps each Python node to a C++ node and fails on the operators its tables lack. After each visit it tries the call hooks of `py2cpp/hook.py`, which map `math.pow` to `std::pow` and `tuple` to `std::make_tuple`.
3. **Text.** `py2cpp/cpp.py` holds the `build()` methods that print the C++ nodes as text.
4. **Other code.** This is the docstring reader of `py2cpp/docstring.py`, and the sample edit-distance routine `samples/dp.py`.

Modules, one file each:

- `Wrappers`: `Option` and `Result`.
- `PyAst`: the Python tree.
- `Transformer`: the passes.
- `Cpp`: the C++ nodes and `build()`.
- `Hook`: the call hooks.
- `Converter`: `Converter.visit`.
- `Pipeline`: end-to-end translation of small modules, including the cases in `py2cpp/tests/test_converter.py`.
- `Docstring`: `get_params`, `get_rtype` and `parse_type_of`. Their three regular expressions are written out by hand as matchers.
- `DocstringExamples`: the cases of `py2cpp/tests/test_docstring.py`, proved on the model.
- `EditDistance`: `samples/dp.py` as written, and the corrected routine.

How the code is represented:

- A Python exception is a `Failure` carrying its class: `AssertionError`, `KeyError`, `AttributeError` or `IndexError`.
- The passes are modelled in two modes.
  - As written (`descend == false`), a pass's own `visit_BinOp`, `visit_AugAssign`, `visit_Tuple` or `visit_Print` never visits the node's children.
  - Corrected (`descend == true`), the children are rebuilt first.
- `samples/dp.py` mutates a list of two rows. Its model is a method over an `array2<int>` with a loop for each of its loops. It is proved equal to `DpOutcome`, a function that states what the routine returns or raises.
- `BinOp.build` puts no parentheses around its operands. So the converted trees of `(x + 1) * 2` and `x + 1 * 2` print the same text, `x + 1 * 2` (Cpp.BinOpAddsNoParentheses). The model keeps this behaviour.

## Model

| member | source | states |
|---|---|---|
| EditDistance.D | samples/dp.py:21-29 | the edit-distance recurrence the inner loop computes: row and column 0 count insertions, and each other cell is the cheapest of a deletion, an insertion and a substitution costing `cost` on a mismatch |
| EditDistance.Levenshtein | samples/dp.py:21-29 | the intended result: the recurrence evaluated at the two full lengths |
| EditDistance.Min | samples/dp.py:26-29 | the result is one of the two arguments and at most both |
| EditDistance.MinStr | samples/dp.py:2 | the result is one of the inputs and no longer than either |
| EditDistance.MaxStr | samples/dp.py:3 | the result is one of the inputs and no shorter than either |
| EditDistance.RowSelection | samples/dp.py:2-3 | `a` is the shorter only when strictly shorter and the longer only when strictly longer; at equal lengths `b` plays both roles |
| EditDistance.DCell | samples/dp.py:26-29 | one step of the inner loop computes exactly the recurrence's cell from its three neighbours |
| EditDistance.DpOutcome | samples/dp.py:1-30 | the routine returns, rather than raising IndexError, exactly when the inputs have equal lengths or one of them is empty |
| EditDistance.InitialStates | samples/dp.py:7-15 | two fresh rows of `min_size + 1` cells; row 0 is `0, 1, …, min_size`, row 1 is all zeros |
| EditDistance.Dp | samples/dp.py:1-30 | the routine's result, or the IndexError it raises, is `DpOutcome(a, b, cost)` |
| EditDistance.DNonNegative | samples/dp.py:26-29 | with a non-negative cost every cell of the recurrence is non-negative |
| EditDistance.DDiagonalZero | samples/dp.py:26-29 | a sequence against itself has zero along the diagonal |
| EditDistance.DpEmptyGivesZero | samples/dp.py:21-30 | when either input is empty the routine returns 0 |
| EditDistance.DpReturnsZero | samples/dp.py:2-30 | whenever the routine returns and the cost is non-negative, it returns 0 |
| EditDistance.DTranspose | samples/dp.py:26-29 | the table of x against y is the transpose of the table of y against x |
| EditDistance.TransposeStep | samples/dp.py:26-29 | one inductive step of the transpose property |
| EditDistance.DAtMostLengths | samples/dp.py:26-29 | no cell exceeds the sum of its prefix lengths |
| EditDistance.LevenshteinSymmetric | samples/dp.py:1 | the intended distance is symmetric |
| EditDistance.LevenshteinEmpty | samples/dp.py:9-11 | the distance from the empty sequence is the other length |
| EditDistance.LevenshteinSelf | samples/dp.py:1 | with a non-negative cost, a sequence is at distance 0 from itself |
| EditDistance.LevenshteinBounds | samples/dp.py:1 | the distance lies between 0 and the sum of the lengths |
| EditDistance.EditDistance | samples/dp.py:1-30 | the corrected two-row routine returns the Levenshtein distance for all inputs |
| EditDistance.DpRaisesOnUnequalLengths | samples/dp.py:25-28 | lengths 1 and 2 raise IndexError, although the distance is 1 |
| EditDistance.DpIgnoresLongerWhenShorterEmpty | samples/dp.py:21-30 | `[]` against `[7]` returns 0, although the distance is 1 |
| EditDistance.DpIgnoresFirstOnEqualLengths | samples/dp.py:2-3 | `[1]` against `[2]` returns 0, although the distance is 1 |
| Hook.Match | py2cpp/hook.py:25-47 | `match`: `MathPowHook` accepts a call of `math.pow`, `TupleHook` a call of the name `tuple` |
| Hook.Target | py2cpp/hook.py:35-51 | the name inside `std` each hook calls: `pow` and `make_tuple` |
| Hook.Apply | py2cpp/hook.py:35-51 | the result is the same call with its function replaced by `std::<target>`; arguments and keywords are kept |
| Hook.FirstMatch | py2cpp/converter.py:66-68 | a hook that is found matches the node, and the node is a call |
| Hook.MathPowMatchesExactly | py2cpp/hook.py:25-33 | `MathPowHook` matches if and only if the node is a call whose function is `math.pow` |
| Hook.TupleMatchesExactly | py2cpp/hook.py:41-47 | `TupleHook` matches if and only if the node is a call whose function is the name `tuple` |
| Hook.OnlyCallsMatch | py2cpp/hook.py:26-43 | no hook matches a node that is not a call |
| Hook.HooksExclusive | py2cpp/hook.py:24-51 | no node matches both hooks |
| Hook.FirstMatchIsFirst | py2cpp/converter.py:66-68 | none is found exactly when no hook matches; a found hook matches and no earlier hook does |
| Hook.HookChoice | py2cpp/hook.py:54-57 | with the default hook list, the chosen hook is the one whose `match` holds |
| Hook.RunHooks | py2cpp/converter.py:66-69 | the loop returns the first matching hook's `apply`, or the visited node unchanged |
| Cpp.Build | py2cpp/cpp.py:22-100 | `build()` of each class that defines one; `None` for every other kind, whose `build` raises |
| Cpp.Join | py2cpp/cpp.py:50-62 | `sep.join(parts)`; Cpp.JoinSnoc and Converter.JoinLines state what it does |
| Cpp.NatToDecimal | py2cpp/cpp.py:71-72 | at least one digit, all digits, no leading zero |
| Cpp.IntToDecimal | py2cpp/cpp.py:71-72 | non-empty; starts with `-` exactly for negative numbers |
| Cpp.NatDecimalRoundTrip | py2cpp/cpp.py:71-72 | reading back the digits of `n` gives `n` |
| Cpp.DecimalRoundTrip | py2cpp/cpp.py:71-72 | reading back the text of `Num(n)` gives `n` |
| Cpp.DecimalInjective | py2cpp/cpp.py:71-72 | two integers with the same text are equal |
| Cpp.BuildAll | py2cpp/cpp.py:62 | defined exactly when every element builds; then the texts, one per element, in order |
| Cpp.BuildOnlyDefinedKinds | py2cpp/cpp.py:22-100 | only Expr, BinOp, Call, Num, Attribute, CppScope and Name have text |
| Cpp.ExprEndsInSemicolon | py2cpp/cpp.py:33-34 | a statement's text is its expression's text followed by `;` |
| Cpp.BinOpAddsNoParentheses | py2cpp/cpp.py:49-50 | left and right grouping of two binary operations print the same text |
| Cpp.CallIgnoresKeywords | py2cpp/cpp.py:61-63 | a call's keywords never reach its text |
| Cpp.JoinCons | py2cpp/cpp.py:62 | joining a first part before at least one more puts the part and the separator at the front |
| Cpp.JoinSnoc | py2cpp/cpp.py:62 | joining one more part adds the separator and the part at the end |
| Cpp.CallText | py2cpp/cpp.py:61-63 | a call prints as `f(a1, ..., ak)`; with no arguments, `f()`; with one, `f(a)` |
| Cpp.AttributeAndScopeDiffer | py2cpp/cpp.py:81-100 | `value.attr` and `value::attr`, which never coincide |
| Converter.DocstringOf | py2cpp/converter.py:89-105 | a docstring is found only in a non-empty body |
| Converter.MapCmpOps | py2cpp/converter.py:40-208 | succeeds exactly when every operator is in `CMPOP_MAP`; then the spellings one for one, in order; otherwise KeyError |
| Converter.VisitAll | py2cpp/converter.py:79-88 | succeeds exactly when every element does; then the converted elements one for one, in order |
| Converter.VisitField | py2cpp/converter.py:93 | visiting an absent field raises AttributeError |
| Converter.VisitOptional | py2cpp/converter.py:115-118 | an absent value gives `None` without failing |
| Converter.CleansToEmpty | py2cpp/converter.py:89-90 | `inspect.cleandoc` leaves nothing exactly when the first line is white space and every later line is empty |
| Converter.HasDocText | py2cpp/converter.py:89-91 | `if docstring:` on the cleaned docstring: a docstring is present and does not clean to nothing |
| Converter.Visit | py2cpp/converter.py:62-69 | `UnsupportedNode(node)` exactly for the kinds without a visitor, holding the node itself; a call stays a call after its hook |
| Converter.Dispatch | py2cpp/converter.py:62-65 | the own visitor yields nothing exactly for the kinds without one; a call yields a call; never an `UnsupportedNode` |
| Converter.ConvertModule | py2cpp/converter.py:75-79 | a successful conversion is a module |
| Converter.VisitModule | py2cpp/converter.py:75-79 | the transformer loop followed by the statement conversion equals `ConvertModule` |
| Converter.OperatorMapDomain | py2cpp/converter.py:18-31 | `OPERATOR_MAP` covers every binary operator except `**`, `//` and `@` |
| Converter.OperatorMapInjective | py2cpp/converter.py:18-31 | no two binary operators share a spelling |
| Converter.CmpOpMapDomain | py2cpp/converter.py:40-51 | `CMPOP_MAP` covers the six orderings and none of `is`, `is not`, `in`, `not in` |
| Converter.CmpOpMapInjective | py2cpp/converter.py:40-51 | no two comparison operators share a spelling |
| Converter.VisitUnsupported | py2cpp/converter.py:62-65 | a kind without a visitor gives `UnsupportedNode(node)` once its children convert, and fails with their failure otherwise |
| Converter.VisitSupported | py2cpp/converter.py:62-69 | a kind with a visitor never gives `UnsupportedNode` |
| Converter.VisitLeaf | py2cpp/converter.py:222-244 | names, numbers and strings become the C++ node of the same kind and content |
| Converter.VisitExpr | py2cpp/converter.py:163-164 | an expression statement converts exactly when its value does, and wraps it |
| Converter.VisitAttribute | py2cpp/converter.py:234-236 | an attribute converts exactly when its value does, and keeps its name |
| Converter.VisitBinOp | py2cpp/converter.py:183-188 | `**` and `//` fail the assertion; a left failure comes first; `@` is KeyError; success exactly for mapped operators with both operands converted, with the mapped spelling |
| Converter.BinOpStep | py2cpp/converter.py:183-188 | the conversion of a binary operation, case by case in the order the visitor runs |
| Converter.VisitAugAssign | py2cpp/converter.py:126-131 | the same checks as for a binary operation, on target and value |
| Converter.AugAssignStep | py2cpp/converter.py:126-131 | the conversion of an augmented assignment, case by case |
| Converter.NoHookForNonCall | py2cpp/converter.py:66-68 | no hook is applied to a node that is not a call |
| Converter.VisitCompare | py2cpp/converter.py:206-210 | succeeds exactly when left, operators and comparators convert; an unmapped operator is KeyError; the operators and comparators are kept one for one |
| Converter.VisitCall | py2cpp/converter.py:212-220 | arguments and keywords are kept one for one; `math.pow` calls `std::pow`, `tuple` calls `std::make_tuple`, other calls keep their converted function |
| Converter.CallStep | py2cpp/converter.py:212-220 | the conversion of a call, case by case |
| Converter.VisitFor | py2cpp/converter.py:133-138 | target, iterable, body and else body are kept, statement for statement |
| Converter.VisitIf | py2cpp/converter.py:146-150 | test, body and else body are kept, statement for statement |
| Converter.VisitFunctionDef | py2cpp/converter.py:85-97 | the parameter list is converted first, and its failure is the function's failure; the parameters and the docstring are kept, and the first statement is dropped exactly when the cleaned docstring is non-empty; a missing return annotation raises AttributeError once parameters and body have converted |
| Converter.VisitArguments | py2cpp/converter.py:257-264 | a parameter list converts exactly when its parameters and its defaults do; they are kept one for one and in order, and a parameter's failure comes first |
| Converter.VisitArg | py2cpp/converter.py:266-276 | a parameter keeps its name and converts exactly when its annotation does; a parameter without an annotation raises AttributeError |
| Converter.UnannotatedParameterFails | py2cpp/converter.py:266-271 | a function whose first failing parameter has no annotation raises AttributeError whatever its body and return annotation |
| Converter.DropDocstring | py2cpp/converter.py:89-91 | exactly the first converted statement is removed when the cleaned docstring is non-empty; the rest is kept in order |
| Converter.Lines | py2cpp/converter.py:89 | `str.split('\n')` as `inspect.cleandoc` uses it: at least one line |
| Converter.JoinLines | py2cpp/converter.py:89 | joining the lines with newlines gives the docstring back |
| Converter.LinesAllEmpty | py2cpp/converter.py:89-90 | every line is empty exactly when the text is newlines only |
| Converter.HasDocTextChars | py2cpp/converter.py:89-107 | `if docstring:` holds exactly when the raw docstring has a character that is not white space, or a newline followed later by a character that is not a newline |
| Converter.CleansToEmptySplit | py2cpp/converter.py:89-90 | with the first newline at `n`, cleaning leaves nothing exactly when the first line is white space and only newlines follow |
| Converter.CharsSplit | py2cpp/converter.py:89-90 | the same condition, stated over the characters of the docstring |
| Converter.DropDocstringKeepsRest | py2cpp/converter.py:88-91 | after dropping, the body is the remaining converted statements in order |
| Converter.VisitClassDef | py2cpp/converter.py:99-112 | bases and keywords are kept; the docstring is kept and dropped from the body as for functions |
| Converter.BlankLineDocstringKept | py2cpp/converter.py:89-107 | a one-line docstring of white space only cleans to nothing, so the body keeps its first statement |
| Converter.IndentedBlankDocstringDropped | py2cpp/converter.py:89-91 | the docstring `"\n    "` keeps its indented second line through cleaning, so its statement is dropped |
| Converter.VisitAllFirstFailure | py2cpp/converter.py:79 | a list fails with the failure of its first failing element, and every earlier element succeeds |
| Transformer.Handles | py2cpp/transformer.py:6-60 | the kinds a pass has its own visitor for: `Print`, `Tuple`, and `BinOp` and `AugAssign` for both operator passes |
| Transformer.Rewrite | py2cpp/transformer.py:8-60 | an own visitor's body; a node of a kind the pass does not handle is returned as it is |
| Transformer.Walk | py2cpp/transformer.py:6-60 | `p.visit(n)`: the own visitor for a handled kind, `generic_visit` otherwise; or, corrected, the children first and then the own visitor |
| Transformer.WalkModule | py2cpp/transformer.py:6-60 | one pass over a module keeps its number of statements |
| Transformer.RunPasses | py2cpp/converter.py:77-78 | running the passes in turn keeps the module's number of statements |
| Transformer.Rebuild | py2cpp/transformer.py:6-60 | `generic_visit` keeps the node kind and its operator |
| Transformer.WalkAll | py2cpp/transformer.py:6-60 | a list field keeps its length |
| Transformer.WalkOpt | py2cpp/transformer.py:6-60 | an optional field stays present or absent |
| Transformer.PrintBecomesCall | py2cpp/transformer.py:8-17 | `print` becomes a statement calling `print` on the same values, with `end=""` exactly when the newline was suppressed |
| Transformer.TupleBecomesCall | py2cpp/transformer.py:21-25 | a tuple becomes `tuple(...)` on the same elements |
| Transformer.PowBecomesMathPow | py2cpp/transformer.py:29-43 | `l ** r` becomes `math.pow(l, r)` and `t **= v` becomes `t = math.pow(t, v)` |
| Transformer.FloorDivBecomesIntDiv | py2cpp/transformer.py:47-60 | `l // r` becomes `int(l / r)` and `t //= v` becomes `t = int(t / v)` |
| Transformer.OtherOperatorsUntouched | py2cpp/transformer.py:30-57 | the two operator passes return any other operator as it is |
| Transformer.PassesInOrder | py2cpp/transformer.py:63-68 | the pass list is the four passes in list order |
| Transformer.RewriteOpFree | py2cpp/transformer.py:8-60 | no own visitor introduces an operator other than `/` |
| Transformer.RebuildKeepsTop | py2cpp/transformer.py:6-60 | `generic_visit` keeps whether the node itself uses an operator |
| Transformer.WalkOpFree | py2cpp/transformer.py:6-60 | a pass never introduces an absent operator other than `/`; the corrected `**` and `//` passes remove theirs from any tree |
| Transformer.RebuildOpFree | py2cpp/transformer.py:6-60 | the same, for the children rebuilt by `generic_visit` |
| Transformer.WalkAllOpFree | py2cpp/transformer.py:6-60 | the same, for a list field |
| Transformer.WalkOptOpFree | py2cpp/transformer.py:6-60 | the same, for an optional field |
| Transformer.CorrectedPassesLeaveNoPowOrFloorDiv | py2cpp/transformer.py:37-60 | after the corrected passes, no `**` and no `//` remain anywhere |
| Transformer.NestedPowSurvives | py2cpp/transformer.py:37-43 | as written, `x + y ** k` leaves the passes unchanged, with its `**` in place |
| Transformer.WalkLeaf | py2cpp/transformer.py:6-60 | names, numbers and strings pass through every pass unchanged |
| Transformer.WalkSingleStatement | py2cpp/transformer.py:6-60 | a pass visits a one-statement module's statement |
| Transformer.WalkExpr | py2cpp/transformer.py:6-60 | an expression statement is rebuilt around its visited value |
| Transformer.WalkCall | py2cpp/transformer.py:6-60 | a call is rebuilt from its visited parts |
| Transformer.WalkAttribute | py2cpp/transformer.py:6-60 | an attribute is rebuilt around its visited value |
| Transformer.WalkBinOp | py2cpp/transformer.py:37-60 | with untouched operands, a binary operation is rewritten by the pass's own visitor |
| Transformer.WalkBinOpDescending | py2cpp/transformer.py:37-60 | in the corrected mode the operands are visited before the rewrite |
| Pipeline.Translate | py2cpp/converter.py:75-79 | succeeds exactly when the conversion does, and then gives one text per statement |
| Pipeline.TranslateSingle | py2cpp/converter.py:75-79 | a one-statement module translates to the text of its converted statement, or fails with its failure |
| Pipeline.BuildSingle | py2cpp/cpp.py:33-100 | the text of a one-element list |
| Pipeline.PowPasses | py2cpp/transformer.py:37-43 | the passes turn `x ** k` into `math.pow(x, k)` |
| Pipeline.FloorDivPasses | py2cpp/transformer.py:55-60 | the passes turn `x // k` into `int(x / k)` |
| Pipeline.OtherOpPasses | py2cpp/transformer.py:37-60 | the passes leave `x <op> k` alone for every other operator |
| Pipeline.TuplePasses | py2cpp/transformer.py:21-25 | the passes turn `(a, b)` into `tuple(a, b)` |
| Pipeline.ConvertMathPow | py2cpp/hook.py:25-37 | `math.pow(a, b)` converts to `std::pow(a, b)` |
| Pipeline.ConvertTupleCall | py2cpp/hook.py:41-51 | `tuple(a, b)` converts to `std::make_tuple(a, b)` |
| Pipeline.ConvertIntCall | py2cpp/converter.py:212-220 | `int(x / k)` converts to a call of `int` on `x / k`, and no hook applies |
| Pipeline.PowTranslates | py2cpp/tests/test_converter.py:55-57 | `x ** k` translates to `std::pow(x, k);` |
| Pipeline.FloorDivTranslates | py2cpp/tests/test_converter.py:59-61 | `x // k` translates to `int(x / k);` |
| Pipeline.OtherOpTranslates | py2cpp/tests/test_converter.py:15-53 | `x <op> k` for a mapped operator translates to `x <spelling> k;` |
| Pipeline.ConvertOtherOp | py2cpp/converter.py:183-188 | the statement `x <op> k` converts with the operator's spelling |
| Pipeline.TupleTranslates | py2cpp/converter.py:66-68 | `(a, b)` translates to `std::make_tuple(a, b);` |
| Pipeline.NestedPowPasses | py2cpp/transformer.py:37-43 | the corrected passes turn `x + y ** k` into `x + math.pow(y, k)` |
| Pipeline.ConvertNestedMathPow | py2cpp/converter.py:183-188 | `x + math.pow(y, k)` converts to `x + std::pow(y, k)` |
| Pipeline.NestedPowFailsAsWritten | py2cpp/converter.py:184 | as written, `x + y ** k` fails the converter's assertion |
| Pipeline.NestedPowTranslatesCorrected | py2cpp/transformer.py:37-43 | with the corrected passes, `x + y ** k` translates to `x + std::pow(y, k);` |
| Docstring.IsWordChar | py2cpp/docstring.py:5-7 | `\w`: an ASCII letter, digit or `_` |
| Docstring.IsSpace | py2cpp/docstring.py:15-26 | the characters `str.isspace()` accepts |
| Docstring.Scan | py2cpp/docstring.py:12 | the `finditer` scan over precomputed attempts; Docstring.ScanSound, ScanOrdered and ScanComplete state what it finds |
| Docstring.FindParams | py2cpp/docstring.py:5-12 | `PARAM_RE.finditer(s)`; Docstring.FindParamsSound, FindParamsOrdered and FindParamsComplete state what it finds |
| Docstring.WordRun | py2cpp/docstring.py:5 | the longest run of `\w` characters from `i` |
| Docstring.LineRun | py2cpp/docstring.py:5-6 | the longest run of non-newline characters from `i` (what `.*` matches) |
| Docstring.WordRunExact | py2cpp/docstring.py:5 | a maximal run of word characters is the one `WordRun` finds |
| Docstring.LineRunExact | py2cpp/docstring.py:5-6 | a maximal run up to a newline is the one `LineRun` finds |
| Docstring.Strip | py2cpp/docstring.py:15-26 | the result has no white space at either end, and stripped text is left as it is |
| Docstring.StripRemovesOnlySpace | py2cpp/docstring.py:15-26 | the result is a contiguous slice of the input |
| Docstring.StripWord | py2cpp/docstring.py:15-16 | stripping a word leaves it unchanged |
| Docstring.SpaceWord | py2cpp/docstring.py:5 | `" \w+"` at `q`: a space and a maximal word |
| Docstring.WithDoc | py2cpp/docstring.py:5 | the optional doc group is present exactly when a space follows the colon, and then runs to the end of the line |
| Docstring.MatchParamAt | py2cpp/docstring.py:5 | a match starts at `p` and spans at least one character |
| Docstring.MatchParamAtShape | py2cpp/docstring.py:5 | a match has the group shapes the pattern allows and spans exactly the text rebuilt from its groups |
| Docstring.MatchParamText | py2cpp/docstring.py:5 | matching the text rebuilt from a well-formed match gives that match back |
| Docstring.Attempts | py2cpp/docstring.py:12 | the match attempt at every position |
| Docstring.ScanSound | py2cpp/docstring.py:12 | every match the scan reports is the match at its start |
| Docstring.ScanOrdered | py2cpp/docstring.py:12 | reported matches are in order and do not overlap |
| Docstring.ScanComplete | py2cpp/docstring.py:12 | every position where a match starts lies inside a reported match |
| Docstring.FindParamsSound | py2cpp/docstring.py:12 | every match `finditer` reports is `PARAM_RE.match` at its start |
| Docstring.FindParamsWellFormed | py2cpp/docstring.py:5-12 | every reported match has the shape the pattern allows |
| Docstring.FindParamsOrdered | py2cpp/docstring.py:12 | reported matches are in order and do not overlap |
| Docstring.FindParamsComplete | py2cpp/docstring.py:12 | no match start is skipped by the scan |
| Docstring.NoParamTagNoMatches | py2cpp/docstring.py:5-12 | a docstring without `:param` has no entries |
| Docstring.GetParams | py2cpp/docstring.py:10-19 | one entry per match, in order: the type as matched (`None` when absent), the parameter name, and the doc stripped (`None` when absent or empty) |
| Docstring.StripGroups | py2cpp/docstring.py:15-16 | stripping leaves the word groups unchanged |
| Docstring.FindRType | py2cpp/docstring.py:23 | the first position of `:rtype: `, or none when it never occurs |
| Docstring.RestOfLine | py2cpp/docstring.py:6 | the rest of the line, without its newline |
| Docstring.RestOfLineExtend | py2cpp/docstring.py:6 | a line that ends in `s` reads the same in any extension of `s` |
| Docstring.GetRType | py2cpp/docstring.py:22-26 | `None` exactly when `:rtype: ` never occurs |
| Docstring.FindRTypeFirst | py2cpp/docstring.py:23 | the search finds the first occurrence |
| Docstring.GetRTypeFirst | py2cpp/docstring.py:22-26 | the result is the stripped rest of the line after the first `:rtype: ` |
| Docstring.GetRTypeIgnoresLaterText | py2cpp/docstring.py:23-26 | text after that line never changes the result |
| Docstring.TypeOfMatch | py2cpp/docstring.py:7-30 | the groups are a word and a non-empty one-line tail around ` of `, optionally followed by a final newline |
| Docstring.OfSplit | py2cpp/docstring.py:7 | cutting at ` of ` and at the end of the line rebuilds the string |
| Docstring.TypeOfMatchShape | py2cpp/docstring.py:7 | every string of that shape matches, with those groups |
| Docstring.ParseTypeOf | py2cpp/docstring.py:29-34 | a non-matching string is returned as it is; a pair's head is a word |
| Docstring.RenderShape | py2cpp/docstring.py:29-34 | the text of a well-formed type is one non-empty stripped line |
| Docstring.ParseRender | py2cpp/docstring.py:29-34 | parsing the text of a well-formed type gives the type back |
| DocstringExamples.TypedBranchAt | py2cpp/docstring.py:5 | the typed branch of the matcher at `p`, from the facts that select it |
| DocstringExamples.SpaceWordAt | py2cpp/docstring.py:5 | a space and a word up to a non-word character |
| DocstringExamples.DocAt | py2cpp/docstring.py:5 | a doc tail runs to the end of its line |
| DocstringExamples.TypedEntryAt | py2cpp/docstring.py:5 | a typed entry at `p` matches with the groups its separators delimit |
| DocstringExamples.NoMatchAtNewline | py2cpp/docstring.py:5 | no match starts at a newline |
| DocstringExamples.ScanMissThenMatch | py2cpp/docstring.py:12 | a failed attempt and then a match: the match is reported and the scan resumes at its end |
| DocstringExamples.ScanOneMatch | py2cpp/docstring.py:12 | one match between failures: that match alone |
| DocstringExamples.ScanTwoMatches | py2cpp/docstring.py:12 | two matches between failures: both, in order |
| DocstringExamples.GetParamsOneEntry | py2cpp/tests/test_docstring.py:15-25 | the one-entry docstring gives type `type`, name `name`, doc `doc` |
| DocstringExamples.GetParamsTwoEntries | py2cpp/tests/test_docstring.py:27-43 | the two-entry docstring gives both entries, in order |
| DocstringExamples.GetParamsNoEntry | py2cpp/tests/test_docstring.py:9-13 | a docstring with only `:rtype:` gives no entries |
| DocstringExamples.GetRTypeNone | py2cpp/tests/test_docstring.py:47-51 | a docstring with only a parameter has no return type |
| DocstringExamples.RTypeOnSecondLine | py2cpp/docstring.py:22-26 | a `:rtype: ` right after the opening newline gives the rest of its line |
| DocstringExamples.GetRTypeOne | py2cpp/tests/test_docstring.py:53-57 | `:rtype: int` gives `int` |
| DocstringExamples.GetRTypeTwo | py2cpp/tests/test_docstring.py:59-64 | of two `:rtype:` lines the first counts |
| DocstringExamples.GetRTypeOf | py2cpp/tests/test_docstring.py:66-70 | `:rtype: list of str` gives `list of str` |
| DocstringExamples.ParseTypeOfName | py2cpp/tests/test_docstring.py:74-76 | `list` stays `list` |
| DocstringExamples.ParseTypeOfOnce | py2cpp/tests/test_docstring.py:78-80 | `list of str` gives `("list", "str")` |
| DocstringExamples.ParseTypeOfNested | py2cpp/tests/test_docstring.py:82-84 | `list of map of (str, str)` gives `("list", ("map", "(str, str)"))` |

## Left out

- Parsing Python source (`ast.parse`), reading and writing files, and the command-line front ends are not modelled. A tree is given as a `PyAst.Module` value.
- Regular-expression engine: only the three patterns of `py2cpp/docstring.py` are modelled, each by its own matcher. `\w` is restricted to ASCII letters, digits and `_`. White space for `strip()` is the characters `str.isspace()` accepts.
- `inspect.cleandoc` inside `ast.get_docstring`: only whether its result is empty is modelled (`Converter.CleansToEmpty` on `Converter.Lines`). Tab expansion is left out because it never changes whether a line is empty. The converted node keeps the raw docstring text, not the cleaned one.
- The converter visitors whose C++ classes `py2cpp/cpp.py` does not define: While, Raise, Pass, Break, Continue, BoolOp, UnaryOp, Lambda, IfExp, NameConstant, Subscript and Index. These node kinds are `PyAst.Other`, and the model converts them to `UnsupportedNode` once their children convert.
- Module, FunctionDef, ClassDef, Return, Assign, AugAssign, For, If, Compare, Str, Tuple, keyword, arguments, arg and UnsupportedNode have no class and no `build()` in `py2cpp/cpp.py`. They map into the model's own `Cpp.CppNode`, and `Cpp.Build` gives no text for them.
- Missing C++ classes: `py2cpp/cpp.py` defines only `Expr`, `BinOp`, `Call`, `Num`, `Attribute`, `Name` and `CppScope` (lines 32-100). So the source raises AttributeError wherever the converter builds any other class: `cpp.UnsupportedNode` (`py2cpp/converter.py:65`), `cpp.Module` (`py2cpp/converter.py:79`), and the classes of the list above. The model uses stand-in classes in their place, so it states what the converter does once those classes exist. `cpp.Module` is looked up before the module's first statement is visited. So in the source every module fails with AttributeError, and the other failures the model reports are met only when a statement is visited directly. This includes the AssertionError at `py2cpp/converter.py:184`.
- Parameter lists: `visit_arguments` copies `vararg` and `kwarg` unvisited and records each result in `self.arguments`. Neither the two fields nor the record is modelled, and no modelled code reads the record. `kwonlyargs` and `kw_defaults` are not modelled either, because the converter never visits them.
- Python 2 branches (`six.PY2`: `starargs`, `kwargs`, the old `Raise` fields, `keyword.name`) are not modelled; the Python 3 tree is.
- Python 2 `print` is modelled as a node kind of its own, because the PrintTransformer rewrites it.
- `Num` carries integers only. Floating-point and complex literals are not modelled.
- `ctx`, line numbers and decorator lists are not represented, because no modelled code reads them.
- Hook.Apply: the source assigns `ret.func` in place. The model returns an updated value. The call node is freshly built by the same visit, so no other reference can observe the difference.

## Findings

| source | as written | input that shows it | evidently intended | confidence | as-written member | corrected member |
|---|---|---|---|---|---|---|
| samples/dp.py:2-30 | The shorter sequence sizes the rows, but the inner loop runs over the longer length and indexes past the end of a row. Equal lengths make `b` play both roles, and an empty shorter sequence returns 0. EditDistance.DpIgnoresFirstOnEqualLengths and EditDistance.DpIgnoresLongerWhenShorterEmpty show the other two cases. | `dp([1], [1, 2])` raises IndexError; `dp([1], [2])` and `dp([], [7])` return 0 | the edit distance of `a` and `b`, which is 1 in all three cases | not executed | EditDistance.DpRaisesOnUnequalLengths | EditDistance.EditDistance |
| py2cpp/transformer.py:37-60 | `visit_BinOp` and `visit_AugAssign` return without visiting the node's operands, so a `**` or `//` below another operator is never rewritten. The converter's assertion then fails (py2cpp/converter.py:184) when the statement is visited. A whole module fails earlier, because `cpp.Module` does not exist. Transformer.NestedPowSurvives shows the `**` surviving, and Transformer.CorrectedPassesLeaveNoPowOrFloorDiv proves the corrected passes leave none. | `x + y ** 2` | every `**` and `//` rewritten, so that `x + y ** 2` translates to `x + std::pow(y, 2);` | not executed | Pipeline.NestedPowFailsAsWritten | Pipeline.NestedPowTranslatesCorrected |
