/** The docstring field readers of py2cpp/docstring.py. The three regular
    expressions are matched by hand: `PARAM_RE` by MatchParamAt and its
    left-to-right scan FindParams, `RTYPE_RE` by GetRType, `TYPE_OF_RE` by
    TypeOfMatch. */
module Docstring {
  import opened Wrappers

  // ---------------------------------------------------------------------------
  // Character classes, literals and runs

  /** Regex `\w`, restricted to ASCII. */
  predicate IsWordChar(c: char)
  {
    ('a' <= c <= 'z') || ('A' <= c <= 'Z') || ('0' <= c <= '9') || c == '_'
  }

  /** The characters Python's `str.strip()` removes (those for which `str.isspace()` holds). */
  predicate IsSpace(c: char)
  {
    ('\t' <= c <= '\r') || ('\U{1C}' <= c <= ' ') || c == '\U{85}' || c == '\U{A0}'
    || c == '\U{1680}' || ('\U{2000}' <= c <= '\U{200A}') || c == '\U{2028}' || c == '\U{2029}'
    || c == '\U{202F}' || c == '\U{205F}' || c == '\U{3000}'
  }

  predicate IsWord(s: string)
  {
    |s| > 0 && forall k :: 0 <= k < |s| ==> IsWordChar(s[k])
  }

  predicate NoNewline(s: string)
  {
    forall k :: 0 <= k < |s| ==> s[k] != '\n'
  }

  /** Neither end is whitespace: what `str.strip()` leaves. */
  predicate IsStripped(s: string)
  {
    s == [] || (!IsSpace(s[0]) && !IsSpace(s[|s| - 1]))
  }

  predicate CharAt(s: string, i: nat, c: char)
  {
    i < |s| && s[i] == c
  }

  /** The literal ":param" occurs at `i`. */
  predicate ParamTagAt(s: string, i: nat)
  {
    i + 6 <= |s| && s[i] == ':' && s[i + 1] == 'p' && s[i + 2] == 'a' && s[i + 3] == 'r'
    && s[i + 4] == 'a' && s[i + 5] == 'm'
  }

  /** The literal ":rtype: " occurs at `i`. */
  predicate RTypeTagAt(s: string, i: nat)
  {
    i + 8 <= |s| && s[i] == ':' && s[i + 1] == 'r' && s[i + 2] == 't' && s[i + 3] == 'y'
    && s[i + 4] == 'p' && s[i + 5] == 'e' && s[i + 6] == ':' && s[i + 7] == ' '
  }

  /** The literal " of " occurs at `i`. */
  predicate OfAt(s: string, i: nat)
  {
    i + 4 <= |s| && s[i] == ' ' && s[i + 1] == 'o' && s[i + 2] == 'f' && s[i + 3] == ' '
  }

  /** The length of the longest run of `\w` characters that starts at `i`. */
  function WordRun(s: string, i: nat): (n: nat)
    requires i <= |s|
    ensures i + n <= |s|
    ensures forall k :: i <= k < i + n ==> IsWordChar(s[k])
    ensures i + n == |s| || !IsWordChar(s[i + n])
    decreases |s| - i
  {
    if i < |s| && IsWordChar(s[i]) then 1 + WordRun(s, i + 1) else 0
  }

  /** The length of the longest run of characters other than a newline that
      starts at `i`: what the regex `.*` consumes there. */
  function LineRun(s: string, i: nat): (n: nat)
    requires i <= |s|
    ensures i + n <= |s|
    ensures forall k :: i <= k < i + n ==> s[k] != '\n'
    ensures i + n == |s| || s[i + n] == '\n'
    decreases |s| - i
  {
    if i < |s| && s[i] != '\n' then 1 + LineRun(s, i + 1) else 0
  }

  /** A maximal run is determined by its two ends. */
  lemma {:induction false} WordRunExact(s: string, i: nat, n: nat)
    requires i + n <= |s|
    requires forall k :: i <= k < i + n ==> IsWordChar(s[k])
    requires i + n == |s| || !IsWordChar(s[i + n])
    ensures WordRun(s, i) == n
    decreases n
  {
    if n > 0 {
      WordRunExact(s, i + 1, n - 1);
    }
  }

  lemma {:induction false} LineRunExact(s: string, i: nat, n: nat)
    requires i + n <= |s|
    requires forall k :: i <= k < i + n ==> s[k] != '\n'
    requires i + n == |s| || s[i + n] == '\n'
    ensures LineRun(s, i) == n
    decreases n
  {
    if n > 0 {
      LineRunExact(s, i + 1, n - 1);
    }
  }

  // ---------------------------------------------------------------------------
  // str.strip()

  /** The number of whitespace characters from `i` on. */
  function LeadingSpace(s: string, i: nat): (n: nat)
    requires i <= |s|
    ensures i + n <= |s|
    ensures forall k :: i <= k < i + n ==> IsSpace(s[k])
    ensures i + n == |s| || !IsSpace(s[i + n])
    decreases |s| - i
  {
    if i < |s| && IsSpace(s[i]) then 1 + LeadingSpace(s, i + 1) else 0
  }

  /** The number of whitespace characters that end `s[i..j]`. */
  function TrailingSpace(s: string, i: nat, j: nat): (n: nat)
    requires i <= j <= |s|
    ensures n <= j - i
    ensures forall k :: j - n <= k < j ==> IsSpace(s[k])
    ensures n == j - i || !IsSpace(s[j - n - 1])
    decreases j - i
  {
    if i < j && IsSpace(s[j - 1]) then 1 + TrailingSpace(s, i, j - 1) else 0
  }

  /** Python's `str.strip()`: `s` without its leading and trailing whitespace. */
  function Strip(s: string): (r: string)
    ensures IsStripped(r)
    ensures IsStripped(s) ==> r == s
  {
    var i := LeadingSpace(s, 0);
    var j := |s| - TrailingSpace(s, i, |s|);
    assert i < j ==> !IsSpace(s[i]);
    s[i..j]
  }

  /** Stripping removes whitespace from the two ends and nothing else. */
  lemma StripRemovesOnlySpace(s: string)
    ensures exists i, j :: 0 <= i <= j <= |s| && Strip(s) == s[i..j]
              && (forall k :: 0 <= k < i ==> IsSpace(s[k])) && (forall k :: j <= k < |s| ==> IsSpace(s[k]))
  {
    var i := LeadingSpace(s, 0);
    var j := |s| - TrailingSpace(s, i, |s|);
    assert Strip(s) == s[i..j];
  }

  /** A word has no whitespace at either end, so stripping keeps it. */
  lemma StripWord(s: string)
    requires IsWord(s)
    ensures Strip(s) == s
  {
    assert IsWordChar(s[0]) && IsWordChar(s[|s| - 1]);
  }

  // ---------------------------------------------------------------------------
  // PARAM_RE  ":param(?: (?P<type>\w+))? (?P<param>\w+):(?: (?P<doc>.*))?"

  /** One match of `PARAM_RE`: the span `[start, end)` and the three groups as
      matched (an absent optional group is None). */
  datatype ParamMatch = ParamMatch(start: nat, end: nat, typ: Option<string>, param: string, doc: Option<string>)

  function TypePart(typ: Option<string>): string
  {
    if typ.Some? then " " + typ.value else ""
  }

  function DocPart(doc: Option<string>): string
  {
    if doc.Some? then " " + doc.value else ""
  }

  /** The text a match spans, rebuilt from its groups. */
  function ParamText(m: ParamMatch): string
  {
    ":param" + TypePart(m.typ) + " " + m.param + ":" + DocPart(m.doc)
  }

  /** The groups have the shapes the pattern allows. */
  predicate WellFormedMatch(m: ParamMatch)
  {
    IsWord(m.param) && (m.typ.Some? ==> IsWord(m.typ.value)) && (m.doc.Some? ==> NoNewline(m.doc.value))
  }

  /** `" \w+"` at `q`: the index just past the word, when there is one. */
  function SpaceWord(s: string, q: nat): (r: Option<nat>)
    requires q <= |s|
    ensures r.Some? ==> q + 1 < r.value <= |s| && s[q] == ' ' && IsWord(s[q + 1..r.value])
    ensures r.Some? ==> r.value == |s| || !IsWordChar(s[r.value])
  {
    if CharAt(s, q, ' ') then
      var n := WordRun(s, q + 1);
      if n > 0 then Some(q + 1 + n) else None
    else None
  }

  /** The optional `(?: (?P<doc>.*))?` tail after the colon at `k - 1`; greedy, so
      it is taken whenever a space follows, and runs to the end of the line. */
  function WithDoc(s: string, p: nat, typ: Option<string>, param: string, k: nat): (m: ParamMatch)
    requires p < k <= |s|
    ensures m.start == p && k <= m.end <= |s| && m.typ == typ && m.param == param
    ensures m.doc.None? <==> !CharAt(s, k, ' ')
    ensures m.doc.None? ==> m.end == k
    ensures m.doc.Some? ==> m.end == k + 1 + |m.doc.value| && m.doc.value == s[k + 1..m.end]
    ensures m.doc.Some? ==> NoNewline(m.doc.value) && (m.end == |s| || s[m.end] == '\n')
  {
    if CharAt(s, k, ' ') then
      var n := LineRun(s, k + 1);
      ParamMatch(p, k + 1 + n, typ, param, Some(s[k + 1..k + 1 + n]))
    else ParamMatch(p, k, typ, param, None)
  }

  /** `PARAM_RE.match(s, p)`: the match that starts at `p`, if any. The optional
      type group is tried first, as the regex engine does. */
  function MatchParamAt(s: string, p: nat): (r: Option<ParamMatch>)
    requires p <= |s|
    ensures r.Some? ==> r.value.start == p && p < r.value.end <= |s|
  {
    if !ParamTagAt(s, p) then None
    else
      var q := p + 6;
      match SpaceWord(s, q)
      case None => None
      case Some(e1) =>
        var typed := SpaceWord(s, e1);
        if typed.Some? && CharAt(s, typed.value, ':') then
          Some(WithDoc(s, p, Some(s[q + 1..e1]), s[e1 + 1..typed.value], typed.value + 1))
        else if CharAt(s, e1, ':') then
          Some(WithDoc(s, p, None, s[q + 1..e1], e1 + 1))
        else None
  }

  /** The pieces of a matched span, put together, are the text of the match. */
  lemma MatchedText(s: string, p: nat, pe: nat, c: nat, m: ParamMatch)
    requires p + 6 <= pe < c < m.end <= |s|
    requires ParamTagAt(s, p) && s[p + 6..pe] == TypePart(m.typ)
    requires s[pe] == ' ' && s[pe + 1..c] == m.param && s[c] == ':'
    requires s[c + 1..m.end] == DocPart(m.doc)
    ensures s[p..m.end] == ParamText(m)
  {
    assert s[p..p + 6] == ":param";
    assert s[pe..c] == [s[pe]] + s[pe + 1..c];
    assert s[p..m.end] == s[p..p + 6] + s[p + 6..pe] + s[pe..c] + s[c..c + 1] + s[c + 1..m.end];
  }

  /** The doc tail as matched at `k` spells DocPart. */
  lemma WithDocText(s: string, p: nat, typ: Option<string>, param: string, k: nat)
    requires p < k <= |s|
    ensures var m := WithDoc(s, p, typ, param, k); s[k..m.end] == DocPart(m.doc)
  {
    var m := WithDoc(s, p, typ, param, k);
    if m.doc.Some? {
      assert s[k..m.end] == [s[k]] + s[k + 1..m.end];
    }
  }

  /** A match has the shape the pattern allows, spans exactly the text its
      groups spell, and each of its greedy parts stops only where it has to. */
  lemma MatchParamAtShape(s: string, p: nat)
    requires p <= |s|
    ensures var r := MatchParamAt(s, p);
      && (r.Some? ==> WellFormedMatch(r.value) && s[p..r.value.end] == ParamText(r.value))
      && (r.Some? && r.value.doc.Some? ==> r.value.end == |s| || s[r.value.end] == '\n')
      && (r.Some? && r.value.doc.None? ==> !CharAt(s, r.value.end, ' '))
  {
    if ParamTagAt(s, p) && SpaceWord(s, p + 6).Some? {
      var e1 := SpaceWord(s, p + 6).value;
      var typed := SpaceWord(s, e1);
      if typed.Some? && CharAt(s, typed.value, ':') {
        var e2 := typed.value;
        assert MatchParamAt(s, p) == Some(WithDoc(s, p, Some(s[p + 7..e1]), s[e1 + 1..e2], e2 + 1));
        TypedShape(s, p, e1, e2);
      } else if CharAt(s, e1, ':') {
        assert MatchParamAt(s, p) == Some(WithDoc(s, p, None, s[p + 7..e1], e1 + 1));
        UntypedShape(s, p, e1);
      } else {
        assert MatchParamAt(s, p) == None;
      }
    } else {
      assert MatchParamAt(s, p) == None;
    }
  }

  lemma UntypedShape(s: string, p: nat, e1: nat)
    requires ParamTagAt(s, p) && SpaceWord(s, p + 6) == Some(e1) && CharAt(s, e1, ':')
    ensures var m := WithDoc(s, p, None, s[p + 7..e1], e1 + 1);
      WellFormedMatch(m) && s[p..m.end] == ParamText(m)
      && (m.doc.Some? ==> m.end == |s| || s[m.end] == '\n')
      && (m.doc.None? ==> !CharAt(s, m.end, ' '))
  {
    var m := WithDoc(s, p, None, s[p + 7..e1], e1 + 1);
    WithDocText(s, p, None, s[p + 7..e1], e1 + 1);
    MatchedText(s, p, p + 6, e1, m);
  }

  lemma TypedShape(s: string, p: nat, e1: nat, e2: nat)
    requires ParamTagAt(s, p) && SpaceWord(s, p + 6) == Some(e1) && SpaceWord(s, e1) == Some(e2)
    requires CharAt(s, e2, ':')
    ensures var m := WithDoc(s, p, Some(s[p + 7..e1]), s[e1 + 1..e2], e2 + 1);
      WellFormedMatch(m) && s[p..m.end] == ParamText(m)
      && (m.doc.Some? ==> m.end == |s| || s[m.end] == '\n')
      && (m.doc.None? ==> !CharAt(s, m.end, ' '))
  {
    var q := p + 6;
    var m := WithDoc(s, p, Some(s[q + 1..e1]), s[e1 + 1..e2], e2 + 1);
    WithDocText(s, p, Some(s[q + 1..e1]), s[e1 + 1..e2], e2 + 1);
    assert s[q..e1] == [s[q]] + s[q + 1..e1];
    MatchedText(s, p, e1, e2, m);
  }

  /** Rebuilding a match's text and matching it again gives the same groups:
      the matcher accepts every text the pattern describes, provided what
      follows does not extend the greedy doc group. */
  lemma MatchParamText(m: ParamMatch, rest: string)
    requires WellFormedMatch(m)
    requires m.doc.Some? ==> rest == [] || rest[0] == '\n'
    requires m.doc.None? ==> rest == [] || rest[0] != ' '
    ensures MatchParamAt(ParamText(m) + rest, 0)
      == Some(ParamMatch(0, |ParamText(m)|, m.typ, m.param, m.doc))
  {
    var head := ":param" + TypePart(m.typ) + " " + m.param;
    var s := ParamText(m) + rest;
    var k := 8 + |TypePart(m.typ)| + |m.param|;
    ParamTextSplit(m, rest);
    HeadMatch(s, m.typ, m.param, ":" + DocPart(m.doc) + rest, k);
    DocRoundTrip(s, head + ":", k, m.typ, m.param, m.doc, rest);
  }

  /** On a well-formed head, the matcher takes the branch its type group selects,
      and its doc tail starts just past the colon. */
  lemma HeadMatch(s: string, typ: Option<string>, param: string, tail: string, k: nat)
    requires IsWord(param) && (typ.Some? ==> IsWord(typ.value)) && tail != [] && tail[0] == ':'
    requires s == ":param" + TypePart(typ) + " " + param + tail
    requires k == 8 + |TypePart(typ)| + |param|
    ensures MatchParamAt(s, 0) == Some(WithDoc(s, 0, typ, param, k))
  {
    if typ.Some? {
      TypedMatch(s, typ.value, param, tail, k);
    } else {
      UntypedMatch(s, param, tail, k);
    }
  }

  /** On a typed head, the matcher takes its typed branch with these groups. */
  lemma TypedMatch(s: string, t: string, param: string, tail: string, k: nat)
    requires IsWord(t) && IsWord(param) && tail != [] && tail[0] == ':'
    requires s == ":param" + TypePart(Some(t)) + " " + param + tail
    requires k == 9 + |t| + |param|
    ensures MatchParamAt(s, 0) == Some(WithDoc(s, 0, Some(t), param, k))
  {
    TypedHead(s, t, param, tail);
    TypedBranch(s, 7 + |t|, 8 + |t| + |param|, t, param, k);
  }

  /** The matcher's typed branch, from the facts that select it. */
  lemma TypedBranch(s: string, e1: nat, c: nat, t: string, param: string, k: nat)
    requires ParamTagAt(s, 0) && SpaceWord(s, 6) == Some(e1) && SpaceWord(s, e1) == Some(c)
    requires CharAt(s, c, ':') && s[7..e1] == t && s[e1 + 1..c] == param && k == c + 1
    ensures MatchParamAt(s, 0) == Some(WithDoc(s, 0, Some(t), param, k))
  {
  }

  /** On an untyped head, the matcher takes its untyped branch. */
  lemma UntypedMatch(s: string, param: string, tail: string, k: nat)
    requires IsWord(param) && tail != [] && tail[0] == ':'
    requires s == ":param" + TypePart(None) + " " + param + tail
    requires k == 8 + |param|
    ensures MatchParamAt(s, 0) == Some(WithDoc(s, 0, None, param, k))
  {
    UntypedHead(s, param, tail);
    UntypedBranch(s, 7 + |param|, param, k);
  }

  /** The matcher's untyped branch, from the facts that select it. */
  lemma UntypedBranch(s: string, c: nat, param: string, k: nat)
    requires ParamTagAt(s, 0) && SpaceWord(s, 6) == Some(c) && SpaceWord(s, c) == None
    requires CharAt(s, c, ':') && s[7..c] == param && k == c + 1
    ensures MatchParamAt(s, 0) == Some(WithDoc(s, 0, None, param, k))
  {
  }

  /** The text of a match followed by more text, regrouped around the colon. */
  lemma ParamTextSplit(m: ParamMatch, rest: string)
    ensures var head := ":param" + TypePart(m.typ) + " " + m.param;
      && ParamText(m) + rest == head + (":" + DocPart(m.doc) + rest)
      && ParamText(m) + rest == (head + ":") + DocPart(m.doc) + rest
      && |ParamText(m)| == |head| + 1 + |DocPart(m.doc)|
      && |head| + 1 == 8 + |TypePart(m.typ)| + |m.param|
  {
  }

  /** The head of a typed match reads back as the two words it was built from. */
  lemma TypedHead(s: string, t: string, param: string, tail: string)
    requires IsWord(t) && IsWord(param) && tail != [] && tail[0] == ':'
    requires s == ":param" + TypePart(Some(t)) + " " + param + tail
    ensures var e1 := 7 + |t|;
      var c := e1 + 1 + |param|;
      && ParamTagAt(s, 0) && SpaceWord(s, 6) == Some(e1) && SpaceWord(s, e1) == Some(c)
      && CharAt(s, c, ':') && s[7..e1] == t && s[e1 + 1..c] == param
  {
    TypedHeadTag(t, param, tail);
    TypedHeadType(t, param, tail);
    TypedHeadParam(t, param, tail);
  }

  lemma TypedHeadTag(t: string, param: string, tail: string)
    requires tail != [] && tail[0] == ':'
    ensures var s := ":param" + TypePart(Some(t)) + " " + param + tail;
      ParamTagAt(s, 0) && CharAt(s, 8 + |t| + |param|, ':')
  {
    var s := ":param" + TypePart(Some(t)) + " " + param + tail;
    ParamTagOf(TypePart(Some(t)) + " " + param + tail);
    assert s == ":param" + (TypePart(Some(t)) + " " + param + tail);
    assert s[8 + |t| + |param|] == tail[0];
  }

  lemma TypedHeadType(t: string, param: string, tail: string)
    requires IsWord(t)
    ensures var s := ":param" + TypePart(Some(t)) + " " + param + tail;
      SpaceWord(s, 6) == Some(7 + |t|) && s[7..7 + |t|] == t
  {
    var s := ":param" + TypePart(Some(t)) + " " + param + tail;
    assert s == ":param" + " " + t + (" " + param + tail);
    WordAfterSpace(":param", t, " " + param + tail);
  }

  lemma TypedHeadParam(t: string, param: string, tail: string)
    requires IsWord(param) && tail != [] && tail[0] == ':'
    ensures var s := ":param" + TypePart(Some(t)) + " " + param + tail;
      SpaceWord(s, 7 + |t|) == Some(8 + |t| + |param|) && s[8 + |t|..8 + |t| + |param|] == param
  {
    var s := ":param" + TypePart(Some(t)) + " " + param + tail;
    assert s == (":param" + " " + t) + " " + param + tail;
    WordAfterSpace(":param" + " " + t, param, tail);
  }

  lemma ParamTagOf(x: string)
    ensures ParamTagAt(":param" + x, 0)
  {
  }

  /** A space and a word, followed by something that cannot extend the word,
      read back as that word. */
  lemma WordAfterSpace(pre: string, w: string, post: string)
    requires IsWord(w) && (post == [] || !IsWordChar(post[0]))
    ensures var s := pre + " " + w + post;
      SpaceWord(s, |pre|) == Some(|pre| + 1 + |w|) && s[|pre| + 1..|pre| + 1 + |w|] == w
      && s[..|pre|] == pre
  {
    var s := pre + " " + w + post;
    var q := |pre|;
    assert s[q] == ' ';
    assert forall k :: q + 1 <= k < q + 1 + |w| ==> s[k] == w[k - q - 1];
    WordRunExact(s, q + 1, |w|);
    assert s[q + 1..q + 1 + |w|] == w;
    assert s[..q] == pre;
  }

  /** The head of an untyped match reads back as its one word. */
  lemma UntypedHead(s: string, param: string, tail: string)
    requires IsWord(param) && tail != [] && tail[0] == ':'
    requires s == ":param" + TypePart(None) + " " + param + tail
    ensures var c := 7 + |param|;
      && ParamTagAt(s, 0) && SpaceWord(s, 6) == Some(c) && SpaceWord(s, c) == None
      && CharAt(s, c, ':') && s[7..c] == param
  {
    ParamTagOf(TypePart(None) + " " + param + tail);
    assert s == ":param" + (TypePart(None) + " " + param + tail);
    var c := 7 + |param|;
    assert s[6] == ' ' && s[c] == ':';
    assert forall k :: 7 <= k < c ==> s[k] == param[k - 7];
    WordRunExact(s, 7, |param|);
    assert s[7..c] == param;
  }

  /** The doc tail of a rebuilt match reads back as it was written. */
  lemma DocRoundTrip(s: string, pre: string, k: nat, typ: Option<string>, param: string, doc: Option<string>, rest: string)
    requires pre != [] && s == pre + DocPart(doc) + rest && k == |pre|
    requires doc.Some? ==> NoNewline(doc.value) && (rest == [] || rest[0] == '\n')
    requires doc.None? ==> rest == [] || rest[0] != ' '
    ensures WithDoc(s, 0, typ, param, k) == ParamMatch(0, k + |DocPart(doc)|, typ, param, doc)
  {
    if doc.Some? {
      assert s == pre + " " + doc.value + rest;
      DocLine(s, pre, doc.value, rest);
    }
  }

  /** A doc tail `" " + d` followed by the end of the line is taken whole. */
  lemma DocLine(s: string, pre: string, d: string, rest: string)
    requires s == pre + " " + d + rest
    requires NoNewline(d) && (rest == [] || rest[0] == '\n')
    ensures |pre| + 1 + |d| <= |s| && s[|pre|] == ' ' && LineRun(s, |pre| + 1) == |d|
    ensures s[|pre| + 1..|pre| + 1 + |d|] == d
  {
    var k := |pre|;
    var u := pre + " " + d;
    assert s[k] == ' ';
    forall j | k + 1 <= j < k + 1 + |d|
      ensures s[j] == d[j - k - 1] && s[j] != '\n'
    {
      assert s[j] == u[j];
      assert u[j] == d[j - k - 1];
    }
    LineRunExact(s, k + 1, |d|);
    assert s[k + 1..k + 1 + |d|] == d;
  }

  /** What a left-to-right scan needs of a table of match attempts, one per
      position: an attempt at `i` that succeeds starts at `i` and ends after it,
      within the text. */
  predicate ValidAttempts(t: seq<Option<ParamMatch>>)
  {
    forall i | 0 <= i < |t| :: t[i].Some? ==> t[i].value.start == i && i < t[i].value.end <= |t|
  }

  /** `PARAM_RE.match(s, i)` at every position `i` of `s`. */
  function Attempts(s: string): (t: seq<Option<ParamMatch>>)
    ensures |t| == |s| && ValidAttempts(t)
    ensures forall i | 0 <= i < |s| :: t[i] == MatchParamAt(s, i)
  {
    seq(|s|, i requires 0 <= i < |s| => MatchParamAt(s, i))
  }

  /** The scan of `finditer` over a table of attempts from position `p`: a
      successful attempt is reported and the scan resumes where it ended;
      otherwise the scan moves one position on. */
  function Scan(t: seq<Option<ParamMatch>>, p: nat): seq<ParamMatch>
    requires ValidAttempts(t) && p <= |t|
    decreases |t| - p
  {
    if p == |t| then []
    else match t[p]
      case Some(m) => [m] + Scan(t, m.end)
      case None => Scan(t, p + 1)
  }

  /** `PARAM_RE.finditer(s)` from index `p`: every match, left to right, each
      search resuming where the previous match ended. */
  function FindParams(s: string, p: nat): (ms: seq<ParamMatch>)
    requires p <= |s|
  {
    Scan(Attempts(s), p)
  }

  lemma {:induction false} ScanSound(t: seq<Option<ParamMatch>>, p: nat)
    requires ValidAttempts(t) && p <= |t|
    ensures forall k | 0 <= k < |Scan(t, p)| ::
              p <= Scan(t, p)[k].start < |t| && t[Scan(t, p)[k].start] == Some(Scan(t, p)[k])
    decreases |t| - p
  {
    if p < |t| {
      var ms := Scan(t, p);
      if t[p].Some? {
        var rest := Scan(t, t[p].value.end);
        assert ms == [t[p].value] + rest;
        ScanSound(t, t[p].value.end);
        forall k | 0 <= k < |ms|
          ensures p <= ms[k].start < |t| && t[ms[k].start] == Some(ms[k])
        {
          if k > 0 {
            assert ms[k] == rest[k - 1];
          }
        }
      } else {
        ScanSound(t, p + 1);
      }
    }
  }

  lemma {:induction false} ScanOrdered(t: seq<Option<ParamMatch>>, p: nat)
    requires ValidAttempts(t) && p <= |t|
    ensures forall k | 0 < k < |Scan(t, p)| :: Scan(t, p)[k - 1].end <= Scan(t, p)[k].start
    decreases |t| - p
  {
    if p < |t| {
      var ms := Scan(t, p);
      if t[p].Some? {
        var m := t[p].value;
        var rest := Scan(t, m.end);
        assert ms == [m] + rest;
        ScanOrdered(t, m.end);
        ScanSound(t, m.end);
        forall k | 0 < k < |ms|
          ensures ms[k - 1].end <= ms[k].start
        {
          assert ms[k] == rest[k - 1];
          if k > 1 {
            assert ms[k - 1] == rest[k - 2];
          }
        }
      } else {
        ScanOrdered(t, p + 1);
      }
    }
  }

  lemma {:induction false} ScanComplete(t: seq<Option<ParamMatch>>, p: nat, q: nat) returns (k: nat)
    requires ValidAttempts(t) && p <= q < |t| && t[q].Some?
    ensures k < |Scan(t, p)| && Scan(t, p)[k].start <= q < Scan(t, p)[k].end
    decreases |t| - p
  {
    var ms := Scan(t, p);
    if t[p].Some? {
      var m := t[p].value;
      var rest := Scan(t, m.end);
      assert ms == [m] + rest;
      if q < m.end {
        k := 0;
      } else {
        var j := ScanComplete(t, m.end, q);
        k := j + 1;
        assert ms[k] == rest[j];
      }
    } else {
      k := ScanComplete(t, p + 1, q);
    }
  }

  lemma {:induction false} ScanNoAttempts(t: seq<Option<ParamMatch>>, p: nat)
    requires ValidAttempts(t) && p <= |t|
    requires forall q | p <= q < |t| :: t[q].None?
    ensures Scan(t, p) == []
    decreases |t| - p
  {
    if p < |t| {
      ScanNoAttempts(t, p + 1);
    }
  }

  /** Every match the scan reports is a real match at its start, at or after `p`. */
  lemma FindParamsSound(s: string, p: nat)
    requires p <= |s|
    ensures forall k | 0 <= k < |FindParams(s, p)| ::
              && p <= FindParams(s, p)[k].start < |s|
              && MatchParamAt(s, FindParams(s, p)[k].start) == Some(FindParams(s, p)[k])
  {
    ScanSound(Attempts(s), p);
  }

  lemma FindParamsWellFormed(s: string, p: nat)
    requires p <= |s|
    ensures forall k | 0 <= k < |FindParams(s, p)| :: WellFormedMatch(FindParams(s, p)[k])
  {
    FindParamsSound(s, p);
    forall k | 0 <= k < |FindParams(s, p)|
      ensures WellFormedMatch(FindParams(s, p)[k])
    {
      MatchParamAtShape(s, FindParams(s, p)[k].start);
    }
  }

  /** The reported matches are in order and do not overlap. */
  lemma FindParamsOrdered(s: string, p: nat)
    requires p <= |s|
    ensures forall k | 0 < k < |FindParams(s, p)| :: FindParams(s, p)[k - 1].end <= FindParams(s, p)[k].start
  {
    ScanOrdered(Attempts(s), p);
  }

  /** The scan passes over no position where a match starts: each such position
      lies inside a reported match. */
  lemma FindParamsComplete(s: string, p: nat, q: nat) returns (k: nat)
    requires p <= q < |s| && MatchParamAt(s, q).Some?
    ensures k < |FindParams(s, p)| && FindParams(s, p)[k].start <= q < FindParams(s, p)[k].end
  {
    k := ScanComplete(Attempts(s), p, q);
  }

  /** A docstring in which ":param" never occurs has no entries. */
  lemma NoParamTagNoMatches(s: string, p: nat)
    requires p <= |s|
    requires forall q | p <= q < |s| :: !ParamTagAt(s, q)
    ensures FindParams(s, p) == []
  {
    ScanNoAttempts(Attempts(s), p);
  }

  /** One entry of `get_params`: the dictionary with keys "type", "param" and "doc". */
  datatype ParamEntry = ParamEntry(typ: Option<string>, param: Option<string>, doc: Option<string>)

  /** `get_params`: one entry per match, in order. A group is stripped when it
      is present and non-empty and is None otherwise, so the type and the
      parameter name come out as matched and an empty doc becomes None. */
  method GetParams(docstring: string) returns (result: seq<ParamEntry>)
    ensures var ms := FindParams(docstring, 0);
      && |result| == |ms|
      && forall k :: 0 <= k < |ms| ==>
           && result[k].typ == ms[k].typ
           && result[k].param == Some(ms[k].param)
           && result[k].doc == (if ms[k].doc.Some? && ms[k].doc.value != "" then Some(Strip(ms[k].doc.value)) else None)
  {
    result := [];
    var matches := FindParams(docstring, 0);
    FindParamsWellFormed(docstring, 0);
    for i := 0 to |matches|
      invariant |result| == i
      invariant forall k :: 0 <= k < i ==>
        && result[k].typ == matches[k].typ
        && result[k].param == Some(matches[k].param)
        && result[k].doc == (if matches[k].doc.Some? && matches[k].doc.value != "" then Some(Strip(matches[k].doc.value)) else None)
    {
      var typ, param, doc := matches[i].typ, matches[i].param, matches[i].doc;
      StripGroups(matches[i]);
      result := result + [ParamEntry(
        if typ.Some? && typ.value != "" then Some(Strip(typ.value)) else None,
        if param != "" then Some(Strip(param)) else None,
        if doc.Some? && doc.value != "" then Some(Strip(doc.value)) else None)];
    }
  }

  /** Stripping leaves the word groups of a match as they are. */
  lemma StripGroups(m: ParamMatch)
    requires WellFormedMatch(m)
    ensures (if m.typ.Some? && m.typ.value != "" then Some(Strip(m.typ.value)) else None) == m.typ
    ensures (if m.param != "" then Some(Strip(m.param)) else None) == Some(m.param)
  {
    if m.typ.Some? {
      StripWord(m.typ.value);
    }
    StripWord(m.param);
  }

  // ---------------------------------------------------------------------------
  // RTYPE_RE  ":rtype: (?P<rtype>.*)"

  /** The first index at or after `p` where ":rtype: " occurs, if any. */
  function FindRType(s: string, p: nat): (r: Option<nat>)
    requires p <= |s|
    ensures r.Some? ==> p <= r.value && RTypeTagAt(s, r.value)
    ensures r.Some? ==> forall q :: p <= q < r.value ==> !RTypeTagAt(s, q)
    ensures r.None? ==> forall q :: p <= q < |s| ==> !RTypeTagAt(s, q)
    decreases |s| - p
  {
    if p == |s| then None
    else if RTypeTagAt(s, p) then Some(p)
    else FindRType(s, p + 1)
  }

  /** What `.*` matches at `i`: the rest of the line, without its newline. */
  function RestOfLine(s: string, i: nat): (line: string)
    requires i <= |s|
    ensures NoNewline(line) && i + |line| <= |s| && s[i..i + |line|] == line
    ensures i + |line| == |s| || s[i + |line|] == '\n'
  {
    s[i..i + LineRun(s, i)]
  }

  /** A line that ends inside `s` reads the same in any extension of `s`. */
  lemma RestOfLineExtend(s: string, t: string, i: nat)
    requires i <= |s| && '\n' in s[i..]
    ensures RestOfLine(s + t, i) == RestOfLine(s, i)
  {
    var n := LineRun(s, i);
    assert i + n < |s|;
    LineRunExact(s + t, i, n);
    assert (s + t)[i..i + n] == s[i..i + n];
  }

  /** `get_rtype`: the stripped rest of the line after the first ":rtype: ", or
      None when there is none. */
  function GetRType(docstring: string): (r: Option<string>)
    ensures r.None? <==> forall q :: 0 <= q < |docstring| ==> !RTypeTagAt(docstring, q)
  {
    match FindRType(docstring, 0)
    case None => None
    case Some(k) => Some(Strip(RestOfLine(docstring, k + 8)))
  }

  /** The search finds the first occurrence. */
  lemma FindRTypeFirst(s: string, k: nat)
    requires RTypeTagAt(s, k)
    requires forall q :: 0 <= q < k ==> !RTypeTagAt(s, q)
    ensures FindRType(s, 0) == Some(k)
  {
    var r := FindRType(s, 0);
    assert r.Some? && r.value == k;
  }

  /** The first occurrence decides the result. */
  lemma GetRTypeFirst(s: string, k: nat)
    requires RTypeTagAt(s, k)
    requires forall q :: 0 <= q < k ==> !RTypeTagAt(s, q)
    ensures GetRType(s) == Some(Strip(RestOfLine(s, k + 8)))
  {
    FindRTypeFirst(s, k);
  }

  /** Text after the line of the first ":rtype: " never changes the result. */
  lemma GetRTypeIgnoresLaterText(s: string, t: string)
    requires FindRType(s, 0).Some?
    requires '\n' in s[FindRType(s, 0).value + 8..]
    ensures GetRType(s + t) == GetRType(s)
  {
    var k := FindRType(s, 0).value;
    var u := s + t;
    assert RTypeTagAt(u, k);
    forall q | 0 <= q < k
      ensures !RTypeTagAt(u, q)
    {
      assert !RTypeTagAt(s, q);
    }
    GetRTypeFirst(u, k);
    RestOfLineExtend(s, t, k + 8);
  }

  // ---------------------------------------------------------------------------
  // TYPE_OF_RE  "^(?P<type1>\w+?) of (?P<type2>.+)$"

  /** A parsed type: a plain name, or `head of tail`. */
  datatype TypeExpr = Leaf(name: string) | Of(head: string, tail: TypeExpr)

  /** `TYPE_OF_RE.match(s)`: the two groups, if `s` matches. The lazy word run can
      only end where the word does; `.+` stops at the first newline, and `$`
      holds there only at the end of `s` or before a final newline. */
  function TypeOfMatch(s: string): (r: Option<(string, string)>)
    ensures r.Some? ==> IsWord(r.value.0) && r.value.1 != [] && NoNewline(r.value.1)
    ensures r.Some? ==> s == r.value.0 + " of " + r.value.1 || s == r.value.0 + " of " + r.value.1 + "\n"
  {
    var w := WordRun(s, 0);
    if w == 0 || !OfAt(s, w) then None
    else
      var n := LineRun(s, w + 4);
      if n == 0 || w + 4 + n < |s| - 1 then None
      else
        OfSplit(s, w, n);
        Some((s[..w], s[w + 4..w + 4 + n]))
  }

  /** A string cut at ` of ` and at the end of its first line, when that line
      ends the string or only a newline follows. */
  lemma OfSplit(s: string, w: nat, n: nat)
    requires OfAt(s, w) && w + 4 + n <= |s| && w + 4 + n >= |s| - 1
    requires w + 4 + n == |s| || s[w + 4 + n] == '\n'
    ensures s == s[..w] + " of " + s[w + 4..w + 4 + n] || s == s[..w] + " of " + s[w + 4..w + 4 + n] + "\n"
  {
    assert s[w..w + 4] == " of ";
    assert w + 4 + n < |s| ==> s[w + 4 + n..] == "\n";
    assert s == s[..w] + s[w..w + 4] + s[w + 4..w + 4 + n] + s[w + 4 + n..];
  }

  /** Every string of the shape the pattern describes matches it, with these groups. */
  lemma TypeOfMatchShape(h: string, t: string, finalNewline: bool)
    requires IsWord(h) && t != [] && NoNewline(t)
    ensures TypeOfMatch(h + " of " + t + (if finalNewline then "\n" else "")) == Some((h, t))
  {
    var s := h + " of " + t + (if finalNewline then "\n" else "");
    WordRunExact(s, 0, |h|);
    assert OfAt(s, |h|);
    LineRunExact(s, |h| + 4, |t|);
    assert s[..|h|] == h && s[|h| + 4..|h| + 4 + |t|] == t;
  }

  /** `parse_type_of`: `s` itself when it does not match, otherwise the head and
      the parse of the stripped tail. */
  function ParseTypeOf(s: string): (r: TypeExpr)
    ensures TypeOfMatch(s).None? ==> r == Leaf(s)
    ensures r.Of? ==> IsWord(r.head)
    decreases |s|
  {
    match TypeOfMatch(s)
    case None => Leaf(s)
    case Some((type1, type2)) =>
      StripWord(type1);
      Of(Strip(type1), ParseTypeOf(Strip(type2)))
  }

  /** The text a type denotes. */
  function Render(e: TypeExpr): string
  {
    match e
    case Leaf(name) => name
    case Of(head, tail) => head + " of " + Render(tail)
  }

  /** Heads are words; the innermost name is non-empty, one line, already
      stripped, and is not itself of the form `word of rest`. */
  predicate WellFormedType(e: TypeExpr)
  {
    match e
    case Leaf(name) => name != [] && NoNewline(name) && IsStripped(name) && TypeOfMatch(name).None?
    case Of(head, tail) => IsWord(head) && WellFormedType(tail)
  }

  lemma {:induction false} RenderShape(e: TypeExpr)
    requires WellFormedType(e)
    ensures Render(e) != [] && NoNewline(Render(e)) && IsStripped(Render(e))
  {
    match e
    case Leaf(_) =>
    case Of(head, tail) =>
      RenderShape(tail);
      var r := Render(e);
      assert r == head + " of " + Render(tail);
      assert r[0] == head[0] && r[|r| - 1] == Render(tail)[|Render(tail)| - 1];
      assert IsWordChar(head[0]);
      forall k | 0 <= k < |r| ensures r[k] != '\n' {
        if k < |head| {
          assert r[k] == head[k] && IsWordChar(head[k]);
        } else if k >= |head| + 4 {
          assert r[k] == Render(tail)[k - |head| - 4];
        }
      }
  }

  /** Parsing the text of a well-formed type gives the type back. */
  lemma {:induction false} ParseRender(e: TypeExpr)
    requires WellFormedType(e)
    ensures ParseTypeOf(Render(e)) == e
  {
    match e
    case Leaf(_) =>
    case Of(head, tail) =>
      RenderShape(tail);
      TypeOfMatchShape(head, Render(tail), false);
      assert Render(e) == head + " of " + Render(tail) + "";
      StripWord(head);
      ParseRender(tail);
  }
}
