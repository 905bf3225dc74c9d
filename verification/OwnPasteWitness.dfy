/**
 Why invalidation soundness asks that a file's own definitions do not paste: a file whose
 macro pastes two operands to a name that neither the file nor any manifest entry of it
 mentions.
 */
module OwnPasteWitness {
  import opened Options
  import opened Text
  import opened MacroScan
  import opened Replacing
  import opened MacroApply
  import opened Substitution
  import opened MacroExpand
  import opened MacroContext
  import opened MacroDiff
  import opened DeclarationMacros
  import opened MacroInvalidation
  import opened MacroWitnesses

  const LINE := "#define M() a##b;"
  const CALL := "M()"

  /** A directive line, and a second line. */
  function TwoLines(line: string, call: string): string {
    line + "\n" + call
  }

  predicate Fit(line: string, call: string) {
    && line != "" && line[0] == '#' && '\n' !in line && '\\' !in line && |line| <= 128
    && call != "" && IsIdentStart(call[0]) && '\n' !in call
  }

  lemma LineFits()
    ensures Fit(LINE, CALL) && |LINE| == 17
  {
  }

  function OwnMacro(): Definition {
    Definition("M", Some([]), None, "a##b;")
  }

  // ---------------------------------------------------------------- the definition is found

  lemma {:induction false} FindsLine(t: string, from: nat, k: nat)
    requires from <= k < |t| && t[k] == '\n' && forall j :: from <= j < k ==> t[j] != '\n'
    ensures Find(t, "\n", from) == k
    decreases k - from
  {
    assert t[from..from + 1] == [t[from]];
    if from < k {
      assert t[from..from + 1][0] != '\n';
      FindsLine(t, from + 1, k);
    }
  }

  lemma {:induction false} FindsNoLine(t: string, from: nat)
    requires from <= |t| && forall j :: from <= j < |t| ==> t[j] != '\n'
    ensures Find(t, "\n", from) == |t|
    decreases |t| - from
  {
    if from < |t| {
      assert t[from..from + 1][0] != '\n';
      FindsNoLine(t, from + 1);
    }
  }

  lemma NoMatch(t: string, i: nat, pattern: string)
    requires i < |t| && pattern != "" && t[i] != pattern[0]
    ensures !MatchesAt(t, i, pattern)
  {
    assert i + |pattern| <= |t| ==> t[i..i + |pattern|][0] == t[i];
  }

  lemma {:induction false} JoinsNothing(t: string, i: nat)
    requires i <= |t| && '\\' !in t
    ensures JoinContinuations(t, i) == t[i..]
    decreases |t| - i
  {
    hide MatchesAt;
    if i < |t| {
      assert t[i] in t;
      NoMatch(t, i, "\\\n");
      NoMatch(t, i, "\\\r\n");
      JoinsNothing(t, i + 1);
      assert JoinContinuations(t, i) == [t[i]] + JoinContinuations(t, i + 1);
    }
  }

  lemma LineBlanks()
    ensures SkipSpaces(LINE, 0) == 0 && SkipSpaces(LINE, 1) == 1 && SkipSpaces(LINE, 7) == 8
  {
  }

  lemma LineIsRead()
    ensures DefineAt(LINE, 0) && AfterDefine(LINE) == 8 && LINE[8..] == "M() a##b;"
  {
    LineBlanks();
    hide SkipSpaces;
    assert LINE[1..7] == "define" && LINE[7] == ' ' && LINE[0] == '#';
    assert MatchesAt(LINE, 1, "define");
  }

  lemma DefinitionIsRead()
    ensures ReadDefinition("M() a##b;") == Some(OwnMacro())
  {
    var text := "M() a##b;";
    assert WordEnd(text, 0) == 1 by { assert WordEnd(text, 1) == 1; }
    assert CloseParen(text, 2, 1) == Some(3);
    assert text[2..2] == "" && text[..1] == "M" && text[3..] == " a##b;";
    NothingToSplit();
    assert ReadFormals([], Formals([], None)) == Some(Formals([], None));
    BodyIsTrimmed();
    hide WordEnd, CloseParen, SplitFrom, ReadFormals, Trim;
    assert Bounded(OwnMacro()) == Some(OwnMacro());
  }

  lemma NothingToSplit()
    ensures SplitFrom("", 0, 0, 0, 0, 0, []) == []
  {
    assert ""[0..] == "" && Trim("") == "";
  }

  lemma BodyIsTrimmed()
    ensures Trim(" a##b;") == "a##b;"
  {
    assert SkipSpaces(" a##b;", 0) == 1 && " a##b;"[1..] == "a##b;";
  }

  lemma LineDefines(line: string, call: string, d: Definition)
    requires Fit(line, call) && DefineAt(line, 0) && ReadDefinition(line[AfterDefine(line)..]) == Some(d)
    ensures LineDefinition(TwoLines(line, call), 0, |line|) == [LocalDefinition(0, d)]
  {
    assert TwoLines(line, call)[0..|line|] == line;
    JoinsNothing(line, 0);
    assert line[0..] == line;
    hide ReadDefinition, JoinContinuations, AfterDefine, DefineAt;
    assert ParseDefinition(TwoLines(line, call), 0, |line|) == Some(d);
  }

  lemma DirectiveEnds(line: string, call: string)
    requires Fit(line, call)
    ensures DirectiveEnd(TwoLines(line, call), 0) == |line|
  {
    var t, k := TwoLines(line, call), |line|;
    assert t[k] == '\n' && forall j :: 0 <= j < k ==> t[j] == line[j] && line[j] in line;
    FindsLine(t, 0, k);
    hide Find;
    assert !Continued(t, 0, k);
  }

  lemma SecondLine(line: string, call: string, found: seq<LocalDefinition>)
    requires Fit(line, call)
    ensures ScanFrom(TwoLines(line, call), |line| + 1, found) == found
  {
    var t, k := TwoLines(line, call), |line| + 1;
    assert t[k] == call[0] && forall j :: k <= j < |t| ==> t[j] == call[j - k] && call[j - k] in call;
    FindsNoLine(t, k);
    assert SkipBlanks(t, k) == k;
    hide LineDefinition, DirectiveEnd, Find, SkipBlanks;
    assert ScanFrom(t, |t|, found) == found;
  }

  lemma ScansDirective(source: string, offset: nat, end: nat, found: seq<LocalDefinition>)
    requires offset < |source| && SkipBlanks(source, offset) == offset && source[offset] == '#'
    requires DirectiveEnd(source, offset) == end < |source|
    ensures ScanFrom(source, offset, found) == ScanFrom(source, end + 1, found + LineDefinition(source, offset, end))
  {
    hide SkipBlanks, DirectiveEnd, LineDefinition, Find;
  }

  /** The definition of the first line is what the scan of such a source finds. */
  lemma OwnIsFound(line: string, call: string, d: Definition)
    requires Fit(line, call) && DefineAt(line, 0) && ReadDefinition(line[AfterDefine(line)..]) == Some(d)
    ensures LocalDefinitions(TwoLines(line, call)) == [LocalDefinition(0, d)]
  {
    var t := TwoLines(line, call);
    hide ReadDefinition, AfterDefine, ScanFrom, LineDefinition, DirectiveEnd;
    DefineStays(line, call);
    DirectiveEnds(line, call);
    LineDefines(line, call, d);
    SecondLine(line, call, [LocalDefinition(0, d)]);
    assert t[0] == '#' && SkipBlanks(t, 0) == 0;
    hide SkipBlanks, DefineAt, TwoLines;
    ScansDirective(t, 0, |line|, []);
    assert [] + LineDefinition(t, 0, |line|) == [LocalDefinition(0, d)];
  }

  lemma DefineStays(line: string, call: string)
    requires Fit(line, call) && DefineAt(line, 0)
    ensures DefineAt(TwoLines(line, call), 0) && HasDefine(TwoLines(line, call))
  {
    var t, k := TwoLines(line, call), SkipSpaces(line, 1);
    assert line[k..k + 6] == "define";
    assert t[k..k + 6] == line[k..k + 6];
    SameSpaces(line, "\n" + call, 1);
    assert t == line + ("\n" + call);
    assert k + 6 < |line| ==> t[k + 6] == line[k + 6];
    assert DefineAt(t, 0);
  }

  lemma {:induction false} SameSpaces(a: string, b: string, i: nat)
    requires i <= |a| && SkipSpaces(a, i) < |a|
    ensures SkipSpaces(a + b, i) == SkipSpaces(a, i)
    decreases |a| - i
  {
    if i < |a| && IsSpace(a[i]) {
      SameSpaces(a, b, i + 1);
    }
  }

  // ---------------------------------------------------------------- the invocation

  lemma WordOfTwo(t: string, p: nat)
    requires p <= |t|
    ensures Word(t, p) == "ab" ==> p + 1 < |t| && t[p] == 'a' && t[p + 1] == 'b'
  {
    var w := Word(t, p);
    assert forall k :: 0 <= k < |w| ==> w[k] == t[p + k];
    assert w == "ab" ==> w[0] == 'a' && w[1] == 'b';
  }

  predicate NoPair(t: string) {
    forall p: nat :: p + 1 < |t| && t[p] == 'a' ==> t[p + 1] != 'b'
  }

  lemma SourceAvoids(line: string, call: string)
    requires NoPair(line) && NoPair(call)
    ensures Avoids(TwoLines(line, call), {"ab"})
  {
    var t := TwoLines(line, call);
    forall p: nat | p + 1 < |t| && t[p] == 'a' ensures t[p + 1] != 'b' {
      if p + 1 < |line| {
        assert t[p] == line[p] && t[p + 1] == line[p + 1];
      } else if p > |line| {
        assert t[p] == call[p - |line| - 1] && t[p + 1] == call[p - |line| - 1 + 1];
      }
    }
    hide Word, TwoLines;
    forall p: nat | StartsAt(t, p) ensures Word(t, p) != "ab" {
      WordOfTwo(t, p);
    }
  }

  lemma Pasted()
    ensures PasteAll("a##b;") == "ab;"
  {
    hide MergePastes, DropPastes, HasPaste;
    Operands();
    NothingToDrop("ab;", 0);
    assert "ab;"[0..] == "ab;";
    NoPasting("ab;");
    EqualsRound("a##b;");
    hide PasteRound;
    assert PasteAll("a##b;") == PasteAll(PasteRound("a##b;"));
  }

  lemma Operands()
    ensures HasPaste("a##b;") && MergePastes("a##b;", 0) == "ab;"
  {
    var t := "a##b;";
    assert MatchesAt(t, 1, "##") by { assert t[1..3] == "##"; }
    assert WordEnd(t, 0) == 1 by { assert WordEnd(t, 1) == 1; }
    assert WordEnd(t, 3) == 4 by { assert WordEnd(t, 4) == 4; }
    assert SkipSpaces(t, 1) == 1 && SkipSpaces(t, 3) == 3;
    assert RightOperand(t, 0) == 3;
    assert MergePastes(t, 4) == ";" by { assert RightOperand(t, 4) == |t|; assert MergePastes(t, 5) == ""; }
    assert t[0..1] + t[3..4] + ";" == "ab;";
  }

  lemma OwnApplies()
    ensures Apply(OwnMacro(), [], []) == Some(Applied("ab;", true))
  {
    hide PasteAll, HasPaste;
    Pasted();
    assert BindFrom(OwnMacro(), [], 0, []) == [];
    assert Bind(OwnMacro(), []) == [];
    assert NoPatterns([]);
  }

  /** What the invocation expands to. */
  lemma OwnExpands(macros: Macros)
    requires macros.Keys - {"ab"} <= {"M", "A"} && ("ab" in macros ==> macros["ab"] == ObjectMacro("ab", "c"))
    ensures var r := ExpandInvocation("M", OwnMacro(), [], macros, 1, {});
            && r.Some? && r.value.text == (if "ab" in macros then "c;" else "ab;")
            && ("ab" !in macros ==> r.value.regular)
  {
    hide Expand, Apply;
    OwnApplies();
    assert ExpandEach([], macros, 1, {} + {"M"}) == [] && Texts([]) == [] && {} + {"M"} == {"M"};
    MacroWitnesses.Initials(macros, "ab");
    if "ab" in macros {
      QuietStretch("ab;", 0, 0, macros, {'M', 'A', 'a'});
      QuietStretch("ab;", 2, 3, macros, {'M', 'A', 'a'});
      QuietStretch("c", 0, 1, macros, {'M', 'A', 'a'});
      assert "" + "ab" + ";" == "ab;" && "" + "c" + ";" == "c;" && "" + "ab" == "ab";
      hide Quiet;
      ObjectInside("", "ab", ";", "c", macros, 1, {"M"});
    } else {
      QuietStretch("ab;", 0, 3, macros, {'M', 'A'});
      hide Quiet;
      QuietExpands("ab;", macros, 1, {"M"});
    }
  }

  // ---------------------------------------------------------------- the scan

  lemma OwnTable(globals: Macros, d: Definition)
    ensures ExpansionMacros(globals, [LocalDefinition(0, d)]) == globals[d.name := d]
  {
    var locals := [LocalDefinition(0, d)];
    assert locals[1..] == [];
    assert DeclarationMacros.Own(locals, d.name) == locals;
    assert OwnNames(locals) == {d.name} by { assert locals[0].definition.name in OwnNames(locals); }
    hide SignatureOf;
    assert UniqueLocals(locals) == map[d.name := d];
  }

  lemma OwnIsChosen(globals: Macros, d: Definition, offset: nat)
    requires offset > 0
    ensures DefinitionForOffset(d.name, offset, globals, [LocalDefinition(0, d)]) == Some(d)
  {
    var locals := [LocalDefinition(0, d)];
    assert locals[1..] == [];
    assert DeclarationMacros.Own(locals, d.name) == locals;
    assert LastBefore(locals[1..], offset, Some(d)) == Some(d);
    assert LastBefore(locals, offset, None) == Some(d);
  }

  lemma CallIsRead(line: string, d: Definition)
    requires d.parameters.Some?
    ensures var t, k := TwoLines(line, CALL), |line| + 1;
            && |t| == k + 3 && InvocationOf(t, k + 1, d) == Some(Invocation([], k + 3))
            && WordEnd(t, k) == k + 1 && t[k..k + 1] == "M" && t[k..k + 3] == CALL
  {
    var t, k := TwoLines(line, CALL), |line| + 1;
    assert t[k] == 'M' && t[k + 1] == '(' && t[k + 2] == ')' && |t| == k + 3;
    assert WordEnd(t, k + 1) == k + 1 && SkipGap(t, k + 1) == k + 1;
    Active(t, k + 2);
    assert t[k + 2..k + 2] == "" && Trim("") == "";
    hide SkipInert, Trim;
    assert InvocationFrom(t, k + 2, 1, k + 2, []) == Some(Invocation([], k + 3));
  }

  lemma Places(line: string, call: string)
    requires Fit(line, call)
    ensures var t, k := TwoLines(line, call), |line| + 1;
            && SkipInert(t, 0) == 0 && SkipInert(t, k - 1) == k - 1 && SkipInert(t, k) == k
            && IsDirectiveStart(t, 0) && !IsDirectiveStart(t, k - 1) && !IsDirectiveStart(t, k)
            && Line(t, k) == 2 && LineStart(t, k) == k
  {
    var t, k := TwoLines(line, call), |line| + 1;
    assert t[0] == '#' && t[k - 1] == '\n' && t[k] == call[0];
    Active(t, 0);
    Active(t, k - 1);
    Active(t, k);
    assert t[..k] == line + "\n" && LineStart(t, 0) == 0;
    CountNone(line, '\n');
    CountJoin(line, "\n", '\n');
    assert "\n"[1..] == "" && Count("\n", '\n') == 1;
  }

  predicate AllowsSecond(scope: Scope, text: string) {
    scope.accepts(text) && scope.lexical(2, 0) && scope.declaration(2, 0)
  }

  /** What the scan comes to from an invocation on that it replaces and that ends the source. */
  lemma ScanReplaces(t: string, k: nat, d: Definition, project: Project, result: Expansion)
    requires k + 3 == |t| && IsIdentStart(t[k]) && SkipInert(t, k) == k && !IsDirectiveStart(t, k)
    requires Line(t, k) == 2 && LineStart(t, k) == k && WordEnd(t, k) == k + 1 && '\n' !in t[k..]
    requires DefinitionForOffset(t[k..k + 1], k, project.globals, project.locals) == Some(d)
    requires InvocationOf(t, k + 1, d) == Some(Invocation([], |t|))
    requires ExpandInvocation(t[k..k + 1], d, [], ExpansionMacros(project.globals, project.locals), 1, {}) ==
        Some(result)
    requires Flat(result.text) && |result.text| <= 8 && AllowsSecond(project.scope, result.text)
    ensures ScanSource(t, k, [], true, project) ==
        Outcome([Replacement(k, |t|, result.text, 2, t[k..k + 1])], result.regular)
  {
    var r := Replacement(k, |t|, result.text, 2, t[k..k + 1]);
    assert t[k..|t|] == t[k..];
    FlatStays(result.text, t[k..]);
    hide DirectiveEnd, SkipInert, IsDirectiveStart, Line, LineStart, WordEnd, InvocationOf, DefinitionForOffset,
         ExpandInvocation, ExpansionMacros, Flattened;
    assert Replace(t, k, t[k..k + 1], d, [], |t|, project) == Some(r);
    assert RegularAt(t[k..k + 1], d, [], project) == result.regular;
    hide Replace, RegularAt;
    assert ScanSource(t, |t|, [r], result.regular, project) == Outcome([r], result.regular);
    assert [] + [r] == [r];
  }

  /** A directive and its line end are skipped. */
  lemma ScanSkipsLine(t: string, k: nat, project: Project)
    requires 1 < k < |t| && t[0] == '#' && t[k - 1] == '\n'
    requires SkipInert(t, 0) == 0 && SkipInert(t, k - 1) == k - 1
    requires IsDirectiveStart(t, 0) && !IsDirectiveStart(t, k - 1) && DirectiveEnd(t, 0) == k - 1
    ensures ScanSource(t, 0, [], true, project) == ScanSource(t, k, [], true, project)
  {
    hide DirectiveEnd, SkipInert, IsDirectiveStart, WordEnd, InvocationOf, DefinitionForOffset, Replace, RegularAt;
    assert ScanSource(t, k - 1, [], true, project) == ScanSource(t, k, [], true, project);
  }

  lemma ExpandedSecond(t: string, project: Project, r: Replacement, regular: bool)
    requires ScanSource(t, 0, [], true, project) == Outcome([r], regular) && r.start <= r.end == |t|
    ensures Expanded(t, project).source == t[0..r.start] + r.text
  {
    hide ScanSource;
    ScanPlaces(t, project);
    assert [r][1..] == [] && t[|t|..] == "";
    assert Assemble(t, |t|, []) == "";
    assert Assemble(t, 0, [r]) == t[0..r.start] + r.text + "";
  }

  /** Both for the two lines, with the definition of the first one. */
  lemma TwoLinesExpand(line: string, d: Definition, context: Context, scope: Scope, result: Expansion)
    requires Fit(line, CALL) && DefineAt(line, 0) && ReadDefinition(line[AfterDefine(line)..]) == Some(d)
    requires d.name == "M" && d.parameters.Some?
    requires ExpandInvocation("M", d, [], context.definitions["M" := d], 1, {}) == Some(result)
    requires Flat(result.text) && |result.text| <= 8 && AllowsSecond(scope, result.text)
    ensures var t := TwoLines(line, CALL); var project := ProjectOf(context, t, scope);
            && ScanSource(t, 0, [], true, project).regular == result.regular
            && Expanded(t, project).source == t[0..|line| + 1] + result.text
  {
    hide ScanSource, ExpandInvocation, LocalDefinitions, ReadDefinition, AfterDefine, DefineAt, Expanded, DirectiveEnd,
         SkipInert, IsDirectiveStart, Line, LineStart, WordEnd, InvocationOf, DefinitionForOffset, ExpansionMacros;
    var t, k := TwoLines(line, CALL), |line| + 1;
    var project := ProjectOf(context, t, scope);
    OwnIsFound(line, CALL, d);
    DirectiveEnds(line, CALL);
    Places(line, CALL);
    CallIsRead(line, d);
    OwnIsChosen(context.definitions, d, k);
    OwnTable(context.definitions, d);
    assert t[0] == '#' && t[k - 1] == '\n' && t[k] == 'M' && t[k..] == CALL && '\n' !in CALL;
    hide TwoLines, Fit;
    ScanSkipsLine(t, k, project);
    ScanReplaces(t, k, d, project, result);
    ExpandedSecond(t, project, Replacement(k, |t|, result.text, 2, t[k..k + 1]), result.regular);
  }

  // ---------------------------------------------------------------- the witness

  /** A header without macros, to which `#define ab c` is added. */
  function Before(): Manifest {
    File({}, [])
  }

  function After(): Manifest {
    File({} + {"ab"}, [] + [ObjectMacro("ab", "c")])
  }

  lemma HeaderFacts()
    ensures var first, second := Table({}, map[]), Table({} + {"ab"}, map["ab" := ObjectMacro("ab", "c")]);
            && BuildContext(Before()) == first && BuildContext(After()) == second
            && ChangedNames(first, second) == Affected(first, second) == {"ab"} && Respelled(first, second) == {}
            && FormalsVisible(ObjectMacro("ab", "c"), {"ab"})
  {
    hide Affected, BuildContext, FormalsVisible, Respelled, ChangedNames;
    AdditionTo({}, [], map[], "ab");
  }

  /** The file's own macro pastes its operands to `ab`, which the file does not mention. */
  lemma OwnPasteIsMissed(scope: Scope)
    requires AllowsSecond(scope, "ab;") && AllowsSecond(scope, "c;")
    ensures Needed(OwnMacrosDoNotPaste, Before(), After(), TwoLines(LINE, CALL), scope)
  {
    hide Expand, Expanded, Affected, BuildContext, FormalsVisible, Respelled, ChangedNames, ScanSource, Avoids, Needed,
         LocalDefinitions, NoOwnPaste, ExpandInvocation, AllowsSecond, ReadDefinition, AfterDefine, DefineAt, Fit,
         TwoLines;
    var first, second := Table({}, map[]), Table({} + {"ab"}, map["ab" := ObjectMacro("ab", "c")]);
    HeaderFacts();
    LineFits();
    LineIsRead();
    DefinitionIsRead();
    OwnExpands(first.definitions["M" := OwnMacro()]);
    OwnExpands(second.definitions["M" := OwnMacro()]);
    var one := ExpandInvocation("M", OwnMacro(), [], first.definitions["M" := OwnMacro()], 1, {}).value;
    var two := ExpandInvocation("M", OwnMacro(), [], second.definitions["M" := OwnMacro()], 1, {}).value;
    TwoLinesExpand(LINE, OwnMacro(), first, scope, one);
    TwoLinesExpand(LINE, OwnMacro(), second, scope, two);
    LineAvoids();
    var t := TwoLines(LINE, CALL);
    Differ(t, |LINE| + 1);
    assert forall c :: c != OwnMacrosDoNotPaste ==> Meets(c, Before(), After(), t, scope);
    NeededBy(OwnMacrosDoNotPaste, Before(), After(), t, scope, first, second);
  }

  lemma LineAvoids()
    ensures Avoids(TwoLines(LINE, CALL), {"ab"})
  {
    hide Avoids, TwoLines;
    SourceAvoids(LINE, CALL);
  }

  lemma Differ(t: string, k: nat)
    ensures k <= |t| ==> t[0..k] + "ab;" != t[0..k] + "c;"
  {
    assert k <= |t| ==> |t[0..k] + "ab;"| != |t[0..k] + "c;"|;
  }
}
