/** The documented examples of py2cpp/tests/test_docstring.py, worked through
    the matcher character by character. */
module DocstringExamples {
  import opened Wrappers
  import opened Docstring

  /** The matcher's typed branch at `p`, from the facts that select it. */
  lemma TypedBranchAt(s: string, p: nat, e1: nat, c: nat)
    requires ParamTagAt(s, p) && SpaceWord(s, p + 6) == Some(e1) && SpaceWord(s, e1) == Some(c)
    requires CharAt(s, c, ':')
    ensures MatchParamAt(s, p) == Some(WithDoc(s, p, Some(s[p + 7..e1]), s[e1 + 1..c], c + 1))
  {
  }

  /** A word after a space, up to a character that is not a word character. */
  lemma SpaceWordAt(s: string, q: nat, e: nat)
    requires q + 1 < e < |s| && s[q] == ' ' && !IsWordChar(s[e])
    requires forall k :: q + 1 <= k < e ==> IsWordChar(s[k])
    ensures SpaceWord(s, q) == Some(e)
  {
    WordRunExact(s, q + 1, e - q - 1);
  }

  /** A doc tail after a space, up to the end of the line. */
  lemma DocAt(s: string, p: nat, typ: Option<string>, param: string, k: nat, e: nat)
    requires p < k < e <= |s| && s[k] == ' '
    requires forall j :: k + 1 <= j < e ==> s[j] != '\n'
    requires e == |s| || s[e] == '\n'
    ensures WithDoc(s, p, typ, param, k) == ParamMatch(p, e, typ, param, Some(s[k + 1..e]))
  {
    LineRunExact(s, k + 1, e - k - 1);
  }

  /** A typed entry laid out at `p`, described by where its separators fall. */
  lemma TypedEntryAt(s: string, p: nat, e1: nat, c: nat, e: nat)
    requires p + 7 < e1 && e1 + 1 < c && c + 1 < e <= |s|
    requires ParamTagAt(s, p) && s[p + 6] == ' ' && s[e1] == ' ' && s[c] == ':' && s[c + 1] == ' '
    requires forall k :: p + 7 <= k < e1 ==> IsWordChar(s[k])
    requires forall k :: e1 + 1 <= k < c ==> IsWordChar(s[k])
    requires forall k :: c + 2 <= k < e ==> s[k] != '\n'
    requires e == |s| || s[e] == '\n'
    ensures MatchParamAt(s, p) == Some(ParamMatch(p, e, Some(s[p + 7..e1]), s[e1 + 1..c], Some(s[c + 2..e])))
  {
    SpaceWordAt(s, p + 6, e1);
    SpaceWordAt(s, e1, c);
    TypedBranchAt(s, p, e1, c);
    DocAt(s, p, Some(s[p + 7..e1]), s[e1 + 1..c], c + 1, e);
  }

  /** A newline never starts a match. */
  lemma NoMatchAtNewline(s: string, q: nat)
    requires q < |s| && s[q] == '\n'
    ensures MatchParamAt(s, q).None?
  {
  }

  /** A failed attempt followed by a successful one: the match is reported and the
      scan resumes at its end. */
  lemma ScanMissThenMatch(t: seq<Option<ParamMatch>>, p: nat, m: ParamMatch)
    requires ValidAttempts(t) && p + 1 < |t| && t[p] == None && t[p + 1] == Some(m)
    ensures Scan(t, p) == [m] + Scan(t, m.end)
  {
  }

  /** A table whose one success, at 1, is flanked by failures: that match alone. */
  lemma ScanOneMatch(t: seq<Option<ParamMatch>>, m: ParamMatch)
    requires ValidAttempts(t) && 1 < |t| && t[0] == None && t[1] == Some(m)
    requires |t| == m.end + 1 && t[m.end] == None
    ensures Scan(t, 0) == [m]
  {
    ScanMissThenMatch(t, 0, m);
  }

  /** Failures at 0, between two successes and after the second: both matches, in order. */
  lemma ScanTwoMatches(t: seq<Option<ParamMatch>>, m1: ParamMatch, m2: ParamMatch)
    requires ValidAttempts(t) && 1 < |t| && t[0] == None && t[1] == Some(m1)
    requires m1.end + 1 < |t| && t[m1.end] == None && t[m1.end + 1] == Some(m2)
    requires |t| == m2.end + 1 && t[m2.end] == None
    ensures Scan(t, 0) == [m1, m2]
  {
    ScanMissThenMatch(t, 0, m1);
    ScanMissThenMatch(t, m1.end, m2);
    assert Scan(t, m1.end) == [m2];
  }

  // ---------------------------------------------------------------------------
  // test_get_params1

  lemma OneEntrySeparators(s: string)
    requires s == "\n:param type name: doc\n"
    ensures |s| == 23 && s[7] == ' ' && s[12] == ' ' && s[17] == ':' && s[18] == ' '
    ensures s[0] == '\n' && s[22] == '\n'
  {
  }

  lemma OneEntryTag(s: string)
    requires s == "\n:param type name: doc\n"
    ensures ParamTagAt(s, 1)
  {
  }

  lemma OneEntryRuns(s: string)
    requires s == "\n:param type name: doc\n"
    ensures forall k :: 8 <= k < 12 ==> IsWordChar(s[k])
    ensures forall k :: 13 <= k < 17 ==> IsWordChar(s[k])
    ensures forall k :: 19 <= k < 22 ==> s[k] != '\n'
  {
  }

  lemma OneEntryGroups(s: string)
    requires s == "\n:param type name: doc\n"
    ensures s[8..12] == "type" && s[13..17] == "name" && s[19..22] == "doc"
  {
  }

  /** `get_params` on the one-entry docstring: its one entry. */
  lemma GetParamsOneEntry()
    ensures FindParams("\n:param type name: doc\n", 0)
         == [ParamMatch(1, 22, Some("type"), "name", Some("doc"))]
  {
    var s := "\n:param type name: doc\n";
    OneEntrySeparators(s);
    OneEntryTag(s);
    OneEntryRuns(s);
    OneEntryGroups(s);
    TypedEntryAt(s, 1, 12, 17, 22);
    NoMatchAtNewline(s, 0);
    NoMatchAtNewline(s, 22);
    ScanOneMatch(Attempts(s), ParamMatch(1, 22, Some("type"), "name", Some("doc")));
  }

  // ---------------------------------------------------------------------------
  // test_get_params2

  lemma TwoEntriesSeparators(s: string)
    requires s == "\n:param type name1: doc1\n" + ":param type name2: doc2\n"
    ensures |s| == 49 && s[0] == '\n' && s[24] == '\n' && s[48] == '\n'
    ensures s[7] == ' ' && s[12] == ' ' && s[18] == ':' && s[19] == ' '
    ensures s[31] == ' ' && s[36] == ' ' && s[42] == ':' && s[43] == ' '
  {
  }

  lemma TwoEntriesTags(s: string)
    requires s == "\n:param type name1: doc1\n" + ":param type name2: doc2\n"
    ensures ParamTagAt(s, 1) && ParamTagAt(s, 25)
  {
  }

  lemma TwoEntriesRuns(s: string)
    requires s == "\n:param type name1: doc1\n" + ":param type name2: doc2\n"
    ensures forall k :: 8 <= k < 12 ==> IsWordChar(s[k])
    ensures forall k :: 13 <= k < 18 ==> IsWordChar(s[k])
    ensures forall k :: 20 <= k < 24 ==> s[k] != '\n'
    ensures forall k :: 32 <= k < 36 ==> IsWordChar(s[k])
    ensures forall k :: 37 <= k < 42 ==> IsWordChar(s[k])
    ensures forall k :: 44 <= k < 48 ==> s[k] != '\n'
  {
  }

  lemma FirstEntryGroups(s: string)
    requires s == "\n:param type name1: doc1\n" + ":param type name2: doc2\n"
    ensures s[8..12] == "type" && s[13..18] == "name1" && s[20..24] == "doc1"
  {
  }

  lemma SecondEntryGroups(s: string)
    requires s == "\n:param type name1: doc1\n" + ":param type name2: doc2\n"
    ensures s[32..36] == "type" && s[37..42] == "name2" && s[44..48] == "doc2"
  {
  }

  /** `get_params` on the two-entry docstring: both entries, in order. */
  lemma GetParamsTwoEntries()
    ensures FindParams("\n:param type name1: doc1\n" + ":param type name2: doc2\n", 0)
         == [ParamMatch(1, 24, Some("type"), "name1", Some("doc1")),
             ParamMatch(25, 48, Some("type"), "name2", Some("doc2"))]
  {
    var s := "\n:param type name1: doc1\n" + ":param type name2: doc2\n";
    TwoEntriesSeparators(s);
    TwoEntriesTags(s);
    TwoEntriesRuns(s);
    FirstEntryGroups(s);
    SecondEntryGroups(s);
    TypedEntryAt(s, 1, 12, 18, 24);
    TypedEntryAt(s, 25, 36, 42, 48);
    NoMatchAtNewline(s, 0);
    NoMatchAtNewline(s, 24);
    NoMatchAtNewline(s, 48);
    ScanTwoMatches(Attempts(s), ParamMatch(1, 24, Some("type"), "name1", Some("doc1")),
      ParamMatch(25, 48, Some("type"), "name2", Some("doc2")));
  }

  // ---------------------------------------------------------------------------
  // test_get_params0 and test_get_rtype0: a field of the other kind only

  /** A docstring with only a return type has no entries. */
  lemma GetParamsNoEntry()
    ensures FindParams("\n:rtype: int\n", 0) == []
  {
    var s := "\n:rtype: int\n";
    forall q | 0 <= q < |s| ensures !ParamTagAt(s, q) {
      if q == 1 {
        assert s[q + 1] == 'r';
      }
    }
    NoParamTagNoMatches(s, 0);
  }

  lemma OneEntryColons(s: string)
    requires s == "\n:param type name: doc\n"
    ensures forall q :: 0 <= q < |s| && s[q] == ':' ==> q == 1 || q == 17
    ensures s[2] == 'p' && s[18] == ' '
  {
  }

  /** A docstring with only an entry has no return type. */
  lemma GetRTypeNone()
    ensures GetRType("\n:param type name: doc\n") == None
  {
    var s := "\n:param type name: doc\n";
    OneEntryColons(s);
    assert forall q :: 0 <= q < |s| ==> !RTypeTagAt(s, q);
  }

  // ---------------------------------------------------------------------------
  // test_get_rtype1, test_get_rtype2, test_get_rtype_of

  /** A ":rtype: " right after the opening newline: the rest of its line, stripped. */
  lemma RTypeOnSecondLine(s: string, e: nat)
    requires 9 <= e < |s| && s[0] == '\n' && RTypeTagAt(s, 1) && s[e] == '\n'
    requires forall j :: 9 <= j < e ==> s[j] != '\n'
    ensures GetRType(s) == Some(Strip(s[9..e]))
  {
    GetRTypeFirst(s, 1);
    LineRunExact(s, 9, e - 9);
  }

  lemma RTypeOneText(s: string)
    requires s == "\n" + ":rtype: int\n"
    ensures |s| == 13 && s[0] == '\n' && RTypeTagAt(s, 1) && s[12] == '\n'
    ensures (forall j :: 9 <= j < 12 ==> s[j] != '\n') && s[9..12] == "int"
  {
  }

  /** The documented return type. */
  lemma GetRTypeOne()
    ensures GetRType("\n" + ":rtype: int\n") == Some("int")
  {
    var s := "\n" + ":rtype: int\n";
    RTypeOneText(s);
    RTypeOnSecondLine(s, 12);
    assert IsStripped("int");
  }

  lemma RTypeTwoText(s: string)
    requires s == "\n:rtype: int\n" + ":rtype: float\n"
    ensures s[0] == '\n' && RTypeTagAt(s, 1) && s[12] == '\n'
    ensures (forall j :: 9 <= j < 12 ==> s[j] != '\n') && s[9..12] == "int"
  {
  }

  /** Only the first ":rtype: " counts. */
  lemma GetRTypeTwo()
    ensures GetRType("\n:rtype: int\n" + ":rtype: float\n") == Some("int")
  {
    var s := "\n:rtype: int\n" + ":rtype: float\n";
    RTypeTwoText(s);
    RTypeOnSecondLine(s, 12);
    assert IsStripped("int");
  }

  lemma RTypeOfText(s: string)
    requires s == "\n:rtype: " + "list of str\n"
    ensures |s| == 21 && s[0] == '\n' && RTypeTagAt(s, 1) && s[20] == '\n'
    ensures (forall j :: 9 <= j < 20 ==> s[j] != '\n') && s[9..20] == "list of str"
  {
  }

  /** The return type keeps its `of`. */
  lemma GetRTypeOf()
    ensures GetRType("\n:rtype: " + "list of str\n") == Some("list of str")
  {
    var s := "\n:rtype: " + "list of str\n";
    RTypeOfText(s);
    RTypeOnSecondLine(s, 20);
    assert IsStripped("list of str");
  }

  // ---------------------------------------------------------------------------
  // test_parse_type_of1, 2 and 3

  /** A plain name is kept. */
  lemma ParseTypeOfName()
    ensures ParseTypeOf("list") == Leaf("list")
  {
    WordRunExact("list", 0, 4);
  }

  /** `list of str` splits once. */
  lemma ParseTypeOfOnce()
    ensures ParseTypeOf("list of str") == Of("list", Leaf("str"))
  {
    WordRunExact("str", 0, 3);
    var e := Of("list", Leaf("str"));
    assert WellFormedType(e);
    assert Render(e) == "list of str";
    ParseRender(e);
  }

  lemma NestedLeafWellFormed()
    ensures WellFormedType(Leaf("(str, str)"))
  {
    assert WordRun("(str, str)", 0) == 0;
  }

  /** `of` chains nest to the right. */
  lemma ParseTypeOfNested()
    ensures ParseTypeOf("list of " + "map of " + "(str, str)") == Of("list", Of("map", Leaf("(str, str)")))
  {
    NestedLeafWellFormed();
    var e := Of("list", Of("map", Leaf("(str, str)")));
    assert IsWord("list") && IsWord("map");
    assert Render(e) == "list" + " of " + ("map" + " of " + "(str, str)");
    assert "list" + " of " + ("map" + " of " + "(str, str)") == "list of " + "map of " + "(str, str)";
    ParseRender(e);
  }
}
