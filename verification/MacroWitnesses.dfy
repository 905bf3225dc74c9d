/**
 Why invalidation soundness needs its conditions: for each of them two manifests and a
 source that meet all the others, such that the source mentions no affected name and
 its declaration macros expand to something else all the same.
 */
module MacroWitnesses {
  import opened Options
  import opened Text
  import opened MacroScan
  import opened Replacing
  import opened MacroApply
  import opened Substitution
  import opened MacroExpand
  import opened MacroContext
  import opened MacroDiff
  import opened DeclarationMacros
  import opened MacroInvalidation
  import opened Spelling

  // ---------------------------------------------------------------- the conditions

  datatype Condition = NamesAreListed | FormalsAreVisible | SpacingIsKept | OwnMacrosDoNotPaste | ExpansionIsRegular

  predicate ListsNames(manifest: Manifest) {
    forall k :: 0 <= k < |manifest| ==>
      var c := manifest[k].contribution;
      c.bodylessNames <= c.names && forall d :: d in c.definitions ==> d.name in c.names
  }

  ghost predicate ShowsFormals(manifest: Manifest, names: set<string>) {
    forall k :: 0 <= k < |manifest| ==>
      forall d :: d in manifest[k].contribution.definitions ==> FormalsVisible(d, names)
  }

  ghost predicate Meets(c: Condition, previous: Manifest, current: Manifest, source: string, scope: Scope) {
    var first, second := BuildContext(previous), BuildContext(current);
    match c
    case NamesAreListed => ListsNames(previous) && ListsNames(current)
    case FormalsAreVisible =>
      ShowsFormals(previous, Affected(first, second)) && ShowsFormals(current, Affected(first, second))
    case SpacingIsKept => Respelled(first, second) <= Affected(first, second)
    case OwnMacrosDoNotPaste => ChangedNames(first, second) == {} || NoOwnPaste(LocalDefinitions(source))
    case ExpansionIsRegular =>
      ChangedNames(first, second) == {} || ScanSource(source, 0, [], true, ProjectOf(first, source, scope)).regular
  }

  /** The source mentions no affected name, and its expansion changes all the same. */
  ghost predicate Missed(previous: Manifest, current: Manifest, source: string, scope: Scope) {
    var first, second := BuildContext(previous), BuildContext(current);
    && Avoids(source, Affected(first, second))
    && Expanded(source, ProjectOf(first, source, scope)) != Expanded(source, ProjectOf(second, source, scope))
  }

  /** Met all together, the conditions leave nothing that is missed. */
  lemma ConditionsSuffice(previous: Manifest, current: Manifest, source: string, scope: Scope)
    requires forall c :: Meets(c, previous, current, source, scope)
    ensures !Missed(previous, current, source, scope)
  {
    hide FormalsVisible, Expanded, Affected, Avoids, ScanSource, NoOwnPaste, LocalDefinitions, Respelled, ChangedNames,
         BuildContext;
    assert Meets(NamesAreListed, previous, current, source, scope);
    assert Meets(FormalsAreVisible, previous, current, source, scope);
    assert Meets(SpacingIsKept, previous, current, source, scope);
    assert Meets(OwnMacrosDoNotPaste, previous, current, source, scope);
    assert Meets(ExpansionIsRegular, previous, current, source, scope);
    if Avoids(source, Affected(BuildContext(previous), BuildContext(current))) {
      InvalidationIsSound(previous, current, source, scope);
    }
  }

  /** Without `c` the others do not suffice. */
  ghost predicate Needed(c: Condition, previous: Manifest, current: Manifest, source: string, scope: Scope) {
    && (forall other :: other != c ==> Meets(other, previous, current, source, scope))
    && Missed(previous, current, source, scope)
  }

  lemma NeededBy(c: Condition, previous: Manifest, current: Manifest, source: string, scope: Scope, first: Context,
      second: Context)
    requires BuildContext(previous) == first && BuildContext(current) == second
    requires forall other :: other != c ==> Meets(other, previous, current, source, scope)
    requires Avoids(source, Affected(first, second))
    requires Expanded(source, ProjectOf(first, source, scope)).source != Expanded(source,
        ProjectOf(second, source, scope)).source
    ensures Needed(c, previous, current, source, scope)
  {
    hide Meets, Avoids, Affected, Expanded, BuildContext;
  }

  // ---------------------------------------------------------------- two kinds of macros

  /** `#define name replacement`. */
  function ObjectMacro(name: Identifier, replacement: string): Definition {
    Definition(name, None, None, replacement)
  }

  /** `#define M(x) body`. */
  function CallMacro(body: string): Definition {
    Definition("M", Some(["x"]), None, body)
  }

  lemma ObjectShows(name: Identifier, replacement: string, names: set<string>)
    requires '_' !in replacement
    ensures FormalsVisible(ObjectMacro(name, replacement), names)
  {
    forall p: nat | StartsAt(replacement, p) ensures Word(replacement,
        p) !in FormalNames(ObjectMacro(name, replacement)) {
      assert VA_ARGS[0] == '_' && Word(replacement, p)[0] == replacement[p];
    }
  }

  /** Adding one macro that no definition mentions affects its name only. */
  lemma AdditionAffects(names: set<string>, macros: Macros, added: Definition)
    requires macros.Keys <= names && added.name !in names && !HasPaste(added.replacement)
    requires forall n :: n in macros ==> !HasPaste(macros[n].replacement) && added.name !in Dependencies(macros[n])
    ensures var first, second := Table(names, macros), Table(names + {added.name}, macros[added.name := added]);
            ChangedNames(first, second) == Affected(first, second) == {added.name} && Respelled(first, second) == {}
  {
    hide HasPaste, SignatureOf;
    var first, second := Table(names, macros), Table(names + {added.name}, macros[added.name := added]);
    assert MeaningOf(first, added.name) != MeaningOf(second, added.name);
    assert forall n :: n in names ==> MeaningOf(first, n) == MeaningOf(second, n);
    assert ChangedNames(first, second) == {added.name};
    assert Seeds(first, second) == {added.name};
    AffectedIsLeast(first, second);
    assert Closed(first, second, {added.name}) by {
      assert added.name !in Dependencies(added);
    }
    LeastIsAffected(first, second, {added.name});
  }

  // ---------------------------------------------------------------- text without invocations

  predicate Occurs(n: string, t: string, k: nat) {
    k + |n| <= |t| && forall m :: 0 <= m < |n| ==> t[k + m] == n[m]
  }

  /** No name of a macro occurs in `t[i..j]`. */
  ghost predicate Quiet(t: string, i: nat, j: nat, macros: Macros) {
    forall k: nat, n :: i <= k < j && n in macros ==> !Occurs(n, t, k)
  }

  /** A stretch is quiet in which no macro's first character stands. */
  lemma QuietStretch(t: string, i: nat, j: nat, macros: Macros, initials: set<char>)
    requires j <= |t| && forall n :: n in macros ==> n != "" && n[0] in initials
    requires forall k :: i <= k < j ==> t[k] !in initials
    ensures Quiet(t, i, j, macros)
  {
    forall k: nat, n | i <= k < j && n in macros ensures !Occurs(n, t, k) {
      assert t[k + 0] != n[0];
    }
  }

  /** A character that is neither a quote nor a slash begins no literal and no comment. */
  lemma Active(t: string, i: nat)
    requires i < |t| && !IsQuote(t[i]) && t[i] != '/'
    ensures SkipInert(t, i) == i
  {
    assert i + 2 <= |t| ==> t[i..i + 2][0] == t[i];
  }

  /** The scan copies a quiet stretch. */
  lemma {:induction false} Copies(t: string, i: nat, j: nat, out: string, regular: bool, macros: Macros, depth: nat,
      stack: set<string>)
    requires i <= j <= |t| && depth < MAX_EXPANSION_DEPTH && Quiet(t, i, j, macros)
    requires j == |t| || forall k :: i <= k < j ==>
        !IsQuote(t[k]) && t[k] != '/' && (IsIdentStart(t[k]) ==> WordEnd(t, k) <= j)
    ensures ExpandFrom(t, i, out, regular, macros, depth, stack) ==
        ExpandFrom(t, j, out + t[i..j], regular, macros, depth, stack)
    decreases j - i, 1
  {
    hide SkipInert, InvocationOf, ExpandInvocation, WordEnd, Glue;
    if i == j {
      assert out + t[i..j] == out;
    } else {
      if j < |t| { Active(t, i); }
      var e := SkipInert(t, i);
      if e > i {
        CopiesOn(t, i, e, j, out, regular, macros, depth, stack);
      } else if !IsIdentStart(t[i]) {
        assert [t[i]] == t[i..i + 1];
        CopiesOn(t, i, i + 1, j, out, regular, macros, depth, stack);
      } else {
        WordIsIdent(t, i);
        var w := WordEnd(t, i);
        assert t[i..w] in macros ==> Occurs(t[i..w], t, i);
        CopiesOn(t, i, w, j, out, regular, macros, depth, stack);
      }
    }
  }

  lemma {:induction false} CopiesOn(t: string, i: nat, k: nat, j: nat, out: string, regular: bool, macros: Macros,
      depth: nat, stack: set<string>)
    requires i < k <= j <= |t| && depth < MAX_EXPANSION_DEPTH && Quiet(t, i, j, macros)
    requires j == |t| || forall k :: i <= k < j ==>
        !IsQuote(t[k]) && t[k] != '/' && (IsIdentStart(t[k]) ==> WordEnd(t, k) <= j)
    ensures ExpandFrom(t, k, out + t[i..k], regular, macros, depth, stack) ==
        ExpandFrom(t, j, out + t[i..j], regular, macros, depth, stack)
    decreases j - i, 0
  {
    hide ExpandFrom, WordEnd;
    Copies(t, k, j, out + t[i..k], regular, macros, depth, stack);
    assert out + t[i..k] + t[k..j] == out + t[i..j];
  }

  lemma QuietExpands(t: string, macros: Macros, depth: nat, stack: set<string>)
    requires depth < MAX_EXPANSION_DEPTH && |t| <= MAX_EXPANSION_BYTES && Quiet(t, 0, |t|, macros)
    ensures Expand(t, macros, depth, stack) == Expansion(t, true)
  {
    hide Quiet;
    Copies(t, 0, |t|, "", true, macros, depth, stack);
    assert "" + t[0..|t|] == t;
  }

  /** An object-like macro between two quiet stretches. */
  lemma ObjectInside(a: string, n: Identifier, b: string, r: string, macros: Macros, depth: nat, stack: set<string>)
    requires depth + 1 < MAX_EXPANSION_DEPTH && |a + n + b| + |r| <= MAX_EXPANSION_BYTES
    requires n in macros && macros[n] == ObjectMacro(n, r) && n !in stack && Quiet(r, 0, |r|, macros)
    requires forall k :: 0 <= k < |a| ==>
        !IsQuote(a[k]) && a[k] != '/' && (IsIdentStart(a[k]) ==> WordEnd(a + n + b, k) <= |a|)
    requires Quiet(a + n + b, 0, |a|, macros) && Quiet(a + n + b, |a + n|, |a + n + b|, macros)
    requires b == "" || !IsIdentPart(b[0])
    ensures Expand(a + n + b, macros, depth, stack).text == a + r + b
  {
    hide Quiet, SkipInert, InvocationOf, Glue, WordEnd;
    var t, w := a + n + b, |a + n|;
    Copies(t, 0, |a|, "", true, macros, depth, stack);
    assert "" + t[0..|a|] == a && t[|a|..w] == n && t[w..] == b && t[w..|t|] == b;
    Active(t, |a|);
    WordInside(a, n, b);
    assert InvocationOf(t, w, macros[n]) == Some(Invocation([], w)) by { NoArguments(t, w, macros[n]); }
    var result := ExpandInvocation(n, macros[n], [], macros, depth + 1, stack);
    assert result.Some? && result.value.text == r by {
      assert ExpandEach([], macros, depth + 1, stack + {n}) == [];
      QuietExpands(r, macros, depth + 1, stack + {n});
    }
    hide ExpandInvocation, Expand;
    var regular := result.value.regular && !Glue(r, t[w..]);
    assert ExpandFrom(t, |a|, a, true, macros, depth, stack) == ExpandFrom(t, w, a + r, regular, macros, depth, stack);
    Copies(t, w, |t|, a + r, regular, macros, depth, stack);
    assert ExpandFrom(t, 0, "", true, macros, depth, stack).text == a + r + b;
    ExpandStarts(t, macros, depth, stack);
  }

  lemma ExpandStarts(t: string, macros: Macros, depth: nat, stack: set<string>)
    requires depth < MAX_EXPANSION_DEPTH && |t| <= MAX_EXPANSION_BYTES
    ensures Expand(t, macros, depth, stack) == ExpandFrom(t, 0, "", true, macros, depth, stack)
  {
  }

  lemma NoArguments(t: string, w: nat, d: Definition)
    requires w <= |t| && d.parameters.None?
    ensures InvocationOf(t, w, d) == Some(Invocation([], w))
  {
  }

  lemma WordInside(a: string, n: Identifier, b: string)
    requires b == "" || !IsIdentPart(b[0])
    ensures WordEnd(a + n + b, |a|) == |a + n|
  {
    WordAlone(n);
    WordEndJoin(n, b, 0);
    assert WordEnd(b, 0) == 0;
    WordEndShift(a, n + b, 0);
    assert a + n + b == a + (n + b);
  }

  // ---------------------------------------------------------------- one invocation in a source

  lemma {:induction false} EraseNothing(t: string, i: nat, out: string)
    requires i <= |t| && '/' !in t
    ensures EraseFrom(t, i, out) == out + t[i..]
    decreases |t| - i
  {
    if i < |t| {
      var next := if IsQuote(t[i]) then QuotedEnd(t, t[i], i + 1) else i + 1;
      assert !MatchesAt(t, i, "//") by { assert t[i] in t; assert i + 2 <= |t| ==> t[i..i + 2][0] == t[i]; }
      hide MatchesAt;
      EraseNothing(t, next, out + t[i..next]);
      assert out + t[i..next] + t[next..] == out + t[i..];
      assert !IsQuote(t[i]) ==> [t[i]] == t[i..next];
    }
  }

  lemma {:induction false} JoinNothing(t: string, i: nat)
    requires i <= |t| && '\n' !in t && '\r' !in t
    ensures JoinLines(t, i) == t[i..]
    decreases |t| - i
  {
    if i < |t| {
      assert t[i] in t;
      assert !MatchesAt(t, i, "\r\n") by { assert i + 2 <= |t| ==> t[i..i + 2][0] == t[i]; }
      JoinNothing(t, i + 1);
    }
  }

  lemma {:induction false} CountNone(t: string, c: char)
    requires c !in t
    ensures Count(t, c) == 0
  {
    if t != "" {
      CountNone(t[1..], c);
    }
  }

  /** Text on one line and without slashes. */
  predicate Flat(t: string) {
    '\n' !in t && '\r' !in t && '/' !in t
  }

  lemma FlatStays(t: string, original: string)
    requires Flat(t) && '\n' !in original
    ensures Flattened(t, original) == t
  {
    EraseNothing(t, 0, "");
    assert "" + t[0..] == t;
    JoinNothing(t, 0);
    CountNone(original, '\n');
    assert t + Newlines(0) == t;
  }

  lemma NoDefine(t: string)
    requires '#' !in t || 'd' !in t
    ensures LocalDefinitions(t) == []
  {
    hide ScanFrom;
    forall i: nat | i < |t| ensures !DefineAt(t, i) {
      var k := SkipSpaces(t, i + 1);
      assert t[i] in t;
      assert k + 6 <= |t| ==> t[k..k + 6][0] == t[k] && t[k] in t;
    }
  }

  /** The tests pass an expansion at the very start of the source. */
  predicate Allows(scope: Scope, text: string) {
    scope.accepts(text) && scope.lexical(1, 0) && scope.declaration(1, 0)
  }

  /** A source that is one invocation becomes what the invocation expands to. */
  lemma OneInvocation(source: string, w: nat, d: Definition, args: seq<string>, context: Context, scope: Scope,
      result: Expansion)
    requires 0 < w <= |source| && IsIdentStart(source[0]) && WordEnd(source, 0) == w && Flat(source)
    requires '#' !in source || 'd' !in source
    requires source[..w] in context.definitions && context.definitions[source[..w]] == d
    requires InvocationOf(source, w, d) == Some(Invocation(args, |source|))
    requires ExpandInvocation(source[..w], d, args, context.definitions, 1, {}) == Some(result)
    requires Flat(result.text) && |result.text| <= MAX_EXPANSION_BYTES && Allows(scope, result.text)
    ensures Expanded(source, ProjectOf(context, source, scope)).source == result.text
    ensures RegularUnder(source, context, scope) <==> result.regular
  {
    hide InvocationOf, ExpandInvocation, WordEnd, Flattened, SkipInert, LocalDefinitions;
    var project := ProjectOf(context, source, scope);
    NoDefine(source);
    assert ExpansionMacros(context.definitions, []) == context.definitions by { assert UniqueLocals([]) == map[]; }
    Active(source, 0) by { assert source[0] != '/'; }
    assert source[0..w] == source[..w] && source[0..|source|] == source && source[..0] == "";
    assert DefinitionForOffset(source[..w], 0, context.definitions, []) == Some(d);
    FlatStays(result.text, source);
    var r := Replacement(0, |source|, result.text, 1, source[..w]);
    assert Replace(source, 0, source[..w], d, args, |source|, project) == Some(r);
    assert ScanSource(source, |source|, [r], result.regular, project) == Outcome([r], result.regular);
    assert [] + [r] == [r];
    assert ScanSource(source, 0, [], true, project) == Outcome([r], result.regular);
    ScanPlaces(source, project);
    AssembleOne(source, r);
  }

  lemma AssembleOne(source: string, r: Replacement)
    requires r.start == 0 && r.end == |source| && Placed(source, 0, [r])
    ensures Assemble(source, 0, [r]) == r.text
  {
    assert [r][1..] == [] && source[|source|..] == "" && source[0..0] == "";
    assert "" + r.text + "" == r.text;
  }

  // ---------------------------------------------------------------- the condition on names

  lemma ObjectExpands(r: string, macros: Macros)
    requires "S" in macros && macros["S"] == ObjectMacro("S", r) && |r| <= MAX_EXPANSION_BYTES &&
        Quiet(r, 0, |r|, macros)
    ensures ExpandInvocation("S", macros["S"], [], macros, 1, {}) == Some(Expansion(r, true))
  {
    hide Quiet;
    assert ExpandEach([], macros, 1, {} + {"S"}) == [];
    QuietExpands(r, macros, 1, {} + {"S"});
  }

  /** The file `S` under a table that defines `S` as the flat text `r`. */
  lemma ObjectSource(names: set<string>, r: string, scope: Scope)
    requires Flat(r) && 'S' !in r && |r| <= 64 && Allows(scope, r)
    ensures var context := Table(names, map["S" := ObjectMacro("S", r)]);
            Expanded("S", ProjectOf(context, "S", scope)).source == r
  {
    hide Expanded, ExpandInvocation;
    var context := Table(names, map["S" := ObjectMacro("S", r)]);
    QuietStretch(r, 0, |r|, context.definitions, {'S'});
    ObjectExpands(r, context.definitions);
    WordAlone("S");
    assert "S"[..1] == "S";
    OneInvocation("S", 1, ObjectMacro("S", r), [], context, scope, Expansion(r, true));
  }

  // ---------------------------------------------------------------- the condition on spacing

  const LONG := "s=\"  \";"
  const SHORT := "s=\" \";"

  lemma SpacingCollapses()
    ensures SignatureOf(ObjectMacro("S", LONG)) == SignatureOf(ObjectMacro("S", SHORT))
  {
    assert SkipSpaces(LONG, 3) == 5 && SkipSpaces(SHORT, 3) == 4;
    assert CollapseSpaces(LONG, 6) == ";" && CollapseSpaces(SHORT, 5) == ";";
    assert CollapseSpaces(LONG, 5) == "\";" && CollapseSpaces(SHORT, 4) == "\";";
    assert CollapseSpaces(LONG, 3) == CollapseSpaces(SHORT, 3);
    assert CollapseSpaces(LONG, 2) == CollapseSpaces(SHORT, 2);
    assert CollapseSpaces(LONG, 1) == CollapseSpaces(SHORT, 1);
  }

  /** Signatures collapse white space inside string literals too, so such an edit affects nothing. */
  lemma SpacingInLiteralIsMissed(scope: Scope)
    requires Allows(scope, LONG) && Allows(scope, SHORT)
    ensures Needed(SpacingIsKept, File({"S"}, [ObjectMacro("S", LONG)]), File({"S"}, [ObjectMacro("S", SHORT)]), "S",
        scope)
  {
    hide Expanded, FormalsVisible, BuildContext, RegularUnder, SignatureOf, Allows;
    var a, b := ObjectMacro("S", LONG), ObjectMacro("S", SHORT);
    var first, second := Table({"S"}, map["S" := a]), Table({"S"}, map["S" := b]);
    FileContext({"S"}, [a], map["S" := a]);
    FileContext({"S"}, [b], map["S" := b]);
    LiteralsAreFlat();
    ObjectShows("S", LONG, Affected(first, second));
    ObjectShows("S", SHORT, Affected(first, second));
    ObjectSource({"S"}, LONG, scope);
    ObjectSource({"S"}, SHORT, scope);
    SpacingCollapses();
    assert ChangedNames(first, second) == {};
    hide Respelled, ChangedNames;
    assert forall c :: c != SpacingIsKept ==> Meets(c, File({"S"}, [a]), File({"S"}, [b]), "S", scope);
    NeededBy(SpacingIsKept, File({"S"}, [a]), File({"S"}, [b]), "S", scope, first, second);
  }

  lemma LiteralsAreFlat()
    ensures LONG != SHORT && Flat(LONG) && Flat(SHORT) && '_' !in LONG + SHORT && 'S' !in LONG + SHORT && |LONG| == 7 &&
        |SHORT| == 6
  {
  }

  // ---------------------------------------------------------------- macros with an argument

  lemma BindOne(d: Definition, value: string)
    requires d.parameters == Some(["x"]) && d.variadic == None
    ensures Bind(d, [value]) == [("x", value)]
  {
    assert BindFrom(d, [value], 1, [("x", value)]) == [("x", value)];
  }

  /** The substitution of `M(x)` when its body has no `#`. */
  lemma ApplyBody(body: string, arg: string, expanded: string)
    requires '#' !in body
    ensures var r, substituted := Apply(CallMacro(body), [arg], [expanded]), ReplaceWord(body, 0, "x", expanded);
            r.Some? && r.value.text == PasteAll(substituted) &&
                (r.value.regular <==> NoPattern(expanded) && !HasPaste(substituted))
  {
    hide PasteAll, ReplaceWord, Quoted, HasPaste;
    var d := CallMacro(body);
    assert VariadicIndex(d) == 1;
    BindOne(d, arg);
    BindOne(d, expanded);
    var values, expandedValues := [("x", arg)], [("x", expanded)];
    assert values[1..] == [] && expandedValues[1..] == [];
    NothingToStringify(body, 0, 0, "x", Quoted(arg));
    assert body[0..] == body;
    assert StringifyAll(body, values) == body;
    HashFree(body);
    ShieldKeeps(body, values);
    assert SubstituteAll(body, expandedValues) == ReplaceWord(body, 0, "x", expanded);
    assert NoPatterns(expandedValues) <==> NoPattern(expandedValues[0].1);
  }

  /** The expansion of `M(arg)`. */
  lemma CallExpands(body: string, arg: string, expanded: Expansion, pasted: string, macros: Macros)
    requires '#' !in body && Expand(arg, macros, 1, {"M"}) == expanded
    requires PasteAll(ReplaceWord(body, 0, "x", expanded.text)) == pasted
    ensures var r := ExpandInvocation("M", CallMacro(body), [arg], macros, 1, {});
            && r.Some? && r.value.text == Expand(pasted, macros, 1, {"M"}).text
            && (r.value.regular <==>
                expanded.regular && NoPattern(expanded.text) && !HasPaste(ReplaceWord(body, 0, "x", expanded.text))
                                     && Expand(pasted, macros, 1, {"M"}).regular)
  {
    hide Expand, PasteAll, ReplaceWord, Apply, HasPaste;
    assert {} + {"M"} == {"M"};
    assert [arg][1..] == [];
    var each := ExpandEach([arg], macros, 1, {"M"});
    assert each == [expanded];
    assert Texts(each) == [expanded.text];
    assert AllRegular(each) <==> each[0].regular;
    ApplyBody(body, arg, expanded.text);
  }

  lemma NotReplaced(t: string, i: nat, value: string)
    requires i < |t| && !WordAt(t, i, "x")
    ensures ReplaceWord(t, i, "x", value) == [t[i]] + ReplaceWord(t, i + 1, "x", value)
  {
    hide WordAt, Substitute;
  }

  /** `x` alone is replaced, wherever it stands as a word. */
  lemma {:induction false} NothingReplaced(t: string, i: nat, j: nat, value: string)
    requires i <= j <= |t| && forall k :: i <= k < j ==> !WordAt(t, k, "x")
    ensures ReplaceWord(t, i, "x", value) == t[i..j] + ReplaceWord(t, j, "x", value)
    decreases j - i
  {
    hide WordAt, ReplaceWord;
    if i < j {
      NotReplaced(t, i, value);
      NothingReplaced(t, i + 1, j, value);
      assert [t[i]] + (t[i + 1..j] + ReplaceWord(t, j, "x", value)) == t[i..j] + ReplaceWord(t, j, "x", value);
    } else {
      assert t[i..j] == "";
    }
  }

  const BODY := "int x;"

  lemma BodyHasOne()
    ensures WordAt(BODY, 4, "x") && forall k :: 0 <= k < 6 && k != 4 ==> !WordAt(BODY, k, "x")
    ensures BODY[0..4] == BODY[..4] == "int " && BODY[5..] == BODY[5..6] == ";"
  {
    assert BODY[4..5] == "x";
    forall k | 0 <= k < 6 && k != 4 ensures !WordAt(BODY, k, "x") { assert BODY[k..k + 1][0] == BODY[k]; }
  }

  lemma BodySubstitutes(value: string)
    ensures ReplaceWord(BODY, 0, "x", value) == "int " + Substitute(value, "x", "int ", ";") + ";"
  {
    BodyHasOne();
    hide Substitute, WordAt;
    assert ReplaceWord(BODY, 6, "x", value) == "";
    assert ReplaceWord(BODY, 4, "x", value) ==
      Substitute(value, "x", BODY[..4], BODY[5..]) + ReplaceWord(BODY, 5, "x", value);
    hide ReplaceWord;
    NothingReplaced(BODY, 0, 4, value);
    NothingReplaced(BODY, 5, 6, value);
    assert ";" + "" == ";";
  }

  /** The file `M(arg)`. */
  function Call(arg: string): string {
    "M(" + arg + ")"
  }

  lemma CallSource(arg: string, body: string, expanded: Expansion, pasted: string, context: Context, scope: Scope)
    requires "M" in context.definitions && context.definitions["M"] == CallMacro(body) && '#' !in body
    requires Flat(arg) && 'd' !in arg && InvocationAt(Call(arg), 1) == Some(Invocation([arg], |Call(arg)|))
    requires Expand(arg, context.definitions, 1, {"M"}) == expanded
    requires PasteAll(ReplaceWord(body, 0, "x", expanded.text)) == pasted
    requires var text := Expand(pasted, context.definitions, 1, {"M"}).text;
             Flat(text) && |text| <= MAX_EXPANSION_BYTES && Allows(scope, text)
    ensures var result, substituted := Expand(pasted, context.definitions, 1, {"M"}),
        ReplaceWord(body, 0, "x", expanded.text);
            && Expanded(Call(arg), ProjectOf(context, Call(arg), scope)).source == result.text
            && (RegularUnder(Call(arg), context, scope) <==>
                expanded.regular && NoPattern(expanded.text) && !HasPaste(substituted) && result.regular)
  {
    hide Expand, PasteAll, ReplaceWord, HasPaste, Expanded, RegularUnder, ExpandInvocation, InvocationAt, Allows;
    var source := Call(arg);
    CallExpands(body, arg, expanded, pasted, context.definitions);
    assert source[..1] == "M" && source[1] == '(';
    assert WordEnd(source, 0) == 1 by { assert WordEnd(source, 1) == 1; }
    assert SkipGap(source, 1) == 1;
    OneInvocation(source, 1, CallMacro(body), [arg], context, scope,
                  ExpandInvocation("M", CallMacro(body), [arg], context.definitions, 1, {}).value);
  }

  /** An argument list without nested syntax. */
  lemma {:induction false} PlainArgument(arg: string, i: nat)
    requires 2 <= i < |Call(arg)| && arg != ""
    requires forall k :: 0 <= k < |arg| ==> arg[k] !in "\"'/()," && !IsSpace(arg[k])
    ensures InvocationFrom(Call(arg), i, 1, 2, []) == Some(Invocation([arg], |Call(arg)|))
    decreases |Call(arg)| - i
  {
    hide SkipInert;
    var t := Call(arg);
    assert i < |t| - 1 ==> t[i] == arg[i - 2];
    Active(t, i);
    if i == |t| - 1 {
      assert t[2..i] == arg && SkipSpaces(arg, 0) == 0 && arg[0..] == arg && Trim(arg) == arg;
      assert [] + [arg] == [arg];
    } else {
      PlainArgument(arg, i + 1);
    }
  }

  lemma AdditionTo(names: set<string>, definitions: seq<Definition>, macros: Macros, n: Identifier)
    requires forall d :: d in definitions ==> d.name in macros && macros[d.name] == d
    requires forall m :: m in macros ==> macros[m] in definitions && macros[m].name == m
    requires macros.Keys == names && n !in names && n != "c"
    requires forall m :: m in macros ==> !HasPaste(macros[m].replacement) && n !in Dependencies(macros[m])
    ensures var added := ObjectMacro(n, "c");
            var first, second := Table(names, macros), Table(names + {n}, macros[n := added]);
            && BuildContext(File(names, definitions)) == first
            && BuildContext(File(names + {n}, definitions + [added])) == second
            && ChangedNames(first, second) == Affected(first, second) == {n} && Respelled(first, second) == {}
            && FormalsVisible(added, {n})
  {
    hide Affected, ChangedNames, Respelled, FormalsVisible, Dependencies, HasPaste, BuildContext;
    var added := ObjectMacro(n, "c");
    FileContext(names, definitions, macros);
    FileContext(names + {n}, definitions + [added], macros[n := added]);
    assert !HasPaste("c") by { HashFree("c"); }
    AdditionAffects(names, macros, added);
    ObjectShows(n, "c", {n});
  }

  lemma Initials(macros: Macros, n: Identifier)
    requires macros.Keys - {n} <= {"M", "A"}
    ensures forall m :: m in macros ==> m != "" && m[0] in {'M', 'A', n[0]}
    ensures n !in macros ==> forall m :: m in macros ==> m[0] in {'M', 'A'}
  {
    assert forall m :: m in macros ==> m == n || m in macros.Keys - {n};
  }

  /** `int n;` is left alone, or the object-like macro `n` in it is expanded. */
  lemma Declares(n: Identifier, macros: Macros)
    requires n[0] !in "intc; " && 'M' !in n && 'A' !in n && |n| <= 2
    requires macros.Keys - {n} <= {"M", "A"} && (n in macros ==> macros[n] == ObjectMacro(n, "c"))
    ensures var r := Expand("int " + n + ";", macros, 1, {"M"}).text;
            r == (if n in macros then "int c;" else "int " + n + ";")
  {
    hide Expand, Quiet;
    Initials(macros, n);
    if n in macros {
      DeclaresObject(n, macros);
    } else {
      var t := "int " + n + ";";
      QuietStretch(t, 0, |t|, macros, {'M', 'A'});
      QuietExpands(t, macros, 1, {"M"});
    }
  }

  lemma DeclaresObject(n: Identifier, macros: Macros)
    requires n[0] !in "intc; " && |n| <= 2 && n != "M" && n in macros && macros[n] == ObjectMacro(n, "c")
    requires forall m :: m in macros ==> m != "" && m[0] in {'M', 'A', n[0]}
    ensures Expand("int " + n + ";", macros, 1, {"M"}).text == "int c;"
  {
    hide Expand, Quiet;
    var t, initials := "int " + n + ";", {'M', 'A', n[0]};
    assert t[3] == ' ';
    forall k | 0 <= k < 4 ensures WordEnd(t, k) <= 4 { assert k <= 3 < WordEnd(t, k) ==> IsIdentPart(t[3]); }
    QuietStretch(t, 0, 4, macros, initials);
    QuietStretch(t, |"int " + n|, |t|, macros, initials);
    QuietStretch("c", 0, 1, macros, initials);
    ObjectInside("int ", n, ";", "c", macros, 1, {"M"});
    assert "int " + "c" + ";" == "int c;";
  }

  // ---------------------------------------------------------------- the condition on regularity

  function Identity(): Definition {
    CallMacro(BODY)
  }

  lemma IdentityFacts(names: set<string>)
    ensures FormalsVisible(Identity(), names) && !HasPaste(BODY) && Dependencies(Identity()) <= {"int"}
  {
    HashFree(BODY);
    var d := Identity();
    assert d.parameters.value[0] in Bound(d) && d.parameters.value[0] in FormalNames(d);
    BodyWords();
    assert VA_ARGS[0] == '_';
  }

  lemma BodyWords()
    ensures forall p: nat :: StartsAt(BODY, p) ==> p == 0 || p == 4
    ensures Word(BODY, 0) == "int" && Word(BODY, 4) == "x" && Detached(BODY, 4)
  {
    assert WordEnd(BODY, 3) == 3 && WordEnd(BODY, 4) == 5;
  }

  /** `#define A() a`. */
  function Letter(): Definition {
    Definition("A", Some([]), None, "a")
  }

  lemma LetterFacts(names: set<string>)
    ensures FormalsVisible(Letter(), names) && !HasPaste("a") && Dependencies(Letter()) <= {"a"}
  {
    HashFree("a");
    assert forall p: nat :: StartsAt("a", p) ==> p == 0;
    assert Word("a", 0) == "a" && VA_ARGS[0] == '_';
  }

  /** `#define M(x) int x;` and `#define A() a`, to which `#define n c` is added. */
  function Before(): Manifest {
    File({"M", "A"}, [Identity(), Letter()])
  }

  function After(n: Identifier): Manifest {
    File({"M", "A"} + {n}, [Identity(), Letter()] + [ObjectMacro(n, "c")])
  }

  lemma AfterFacts(n: Identifier, source: string, scope: Scope)
    requires (n == "ab" || n == "x") && Avoids(source, {n}) && LocalDefinitions(source) == []
    ensures var macros := map["M" := Identity(), "A" := Letter()];
            BuildContext(Before()) == Table({"M", "A"}, macros) &&
            BuildContext(After(n)) == Table({"M", "A"} + {n}, macros[n := ObjectMacro(n, "c")])
    ensures Avoids(source, Affected(BuildContext(Before()), BuildContext(After(n))))
    ensures forall c :: c != ExpansionIsRegular ==> Meets(c, Before(), After(n), source, scope)
  {
    hide FormalsVisible, HasPaste, Affected, Respelled, Avoids, BuildContext, Dependencies, ChangedNames;
    IdentityFacts({n});
    LetterFacts({n});
    assert n != "int" && n != "a" by { assert |n| < 3 && (|n| == 2 || n[0] == 'x'); }
    AdditionTo({"M", "A"}, [Identity(), Letter()], map["M" := Identity(), "A" := Letter()], n);
  }

  /** The tables before and after the edit. */
  predicate Defines(macros: Macros, n: Identifier) {
    && macros.Keys - {n} <= {"M", "A"} && "M" in macros && macros["M"] == Identity() && "A" in macros &&
        macros["A"] == Letter()
    && (n in macros ==> macros[n] == ObjectMacro(n, "c"))
  }

  /** The source `M(arg)`, whose argument comes to `n` in the place of the parameter. */
  lemma ArgumentIsMissed(arg: string, expanded: string, n: Identifier, scope: Scope)
    requires (n == "ab" || n == "x") && Avoids(Call(arg), {n}) && Allows(scope, "int " + n + ";") &&
        Allows(scope, "int c;")
    requires Flat(arg) && 'd' !in arg && InvocationAt(Call(arg), 1) == Some(Invocation([arg], |Call(arg)|))
    requires forall macros: Macros :: Defines(macros, n) ==> Expand(arg, macros, 1, {"M"}).text == expanded
    requires PasteAll("int " + Substitute(expanded, "x", "int ", ";") + ";") == "int " + n + ";"
    ensures Needed(ExpansionIsRegular, Before(), After(n), Call(arg), scope)
  {
    hide Expand, PasteAll, Substitute, Expanded, Avoids, Affected, BuildContext, InvocationAt, RegularUnder, Allows,
         Meets, ReplaceWord, HasPaste, Call, After, Before, Needed, LocalDefinitions;
    CallDefinesNothing(arg);
    AfterFacts(n, Call(arg), scope);
    BodySubstitutes(expanded);
    var first, second, text := BuildContext(Before()), BuildContext(After(n)), "int " + n + ";";
    TablesDefine(n, first, second);
    Declares(n, first.definitions);
    Declares(n, second.definitions);
    BodiesOf(n);
    CallSource(arg, BODY, Expand(arg, first.definitions, 1, {"M"}), text, first, scope);
    CallSource(arg, BODY, Expand(arg, second.definitions, 1, {"M"}), text, second, scope);
    NeededBy(ExpansionIsRegular, Before(), After(n), Call(arg), scope, first, second);
  }

  lemma CallDefinesNothing(arg: string)
    requires 'd' !in arg
    ensures LocalDefinitions(Call(arg)) == []
  {
    hide LocalDefinitions;
    NoDefine(Call(arg));
  }

  lemma TablesDefine(n: Identifier, first: Context, second: Context)
    requires n != "M" && n != "A"
    requires var macros := map["M" := Identity(), "A" := Letter()];
             first == Table({"M", "A"}, macros) && second == Table({"M", "A"} + {n}, macros[n := ObjectMacro(n, "c")])
    ensures Defines(first.definitions, n) && Defines(second.definitions, n) && n !in first.definitions &&
        n in second.definitions
  {
  }

  lemma BodiesOf(n: Identifier)
    requires n == "ab" || n == "x"
    ensures var text := "int " + n + ";";
        Flat(text) && Flat("int c;") && text != "int c;" && |text| <= 16 && '#' !in BODY
    ensures n != "M" && n != "A"
  {
    assert ("int " + n + ";")[4] != "int c;"[4];
  }

  lemma ReadsArgument(arg: string)
    requires arg != "" && forall k :: 0 <= k < |arg| ==> arg[k] !in "\"'/()," && !IsSpace(arg[k])
    ensures InvocationAt(Call(arg), 1) == Some(Invocation([arg], |Call(arg)|))
  {
    hide InvocationFrom;
    PlainArgument(arg, 2);
  }

  lemma NoPasting(t: string)
    requires '#' !in t
    ensures PasteAll(t) == t
  {
    HashFree(t);
  }

  lemma {:induction false} NothingToDrop(t: string, i: nat)
    requires i <= |t| && '#' !in t
    ensures DropPastes(t, i) == t[i..]
    decreases |t| - i
  {
    if i < |t| {
      assert !PasteFollows(t, i) by { assert SkipSpaces(t, i) < |t| ==> t[SkipSpaces(t, i)] in t; }
      NothingToDrop(t, i + 1);
    }
  }

  const PASTED := "int a##b;"

  lemma {:induction false} MergeCopies(t: string, i: nat, j: nat)
    requires i <= j <= |t| && forall k: nat :: i <= k < j ==> RightOperand(t, k) == |t|
    ensures MergePastes(t, i) == t[i..j] + MergePastes(t, j)
    decreases j - i
  {
    hide RightOperand, MergePastes, WordEnd;
    if i < j {
      MergeStep(t, i);
      MergeCopies(t, i + 1, j);
      assert [t[i]] + (t[i + 1..j] + MergePastes(t, j)) == t[i..j] + MergePastes(t, j);
    } else {
      assert t[i..j] == "";
    }
  }

  lemma NoOperandBefore(k: nat)
    requires k < 4 || k == 8
    ensures RightOperand(PASTED, k) == |PASTED|
  {
    assert PASTED[3] == ' ' && PASTED[4] == 'a' && PASTED[8] == ';';
    assert WordEnd(PASTED, 3) == 3;
    assert WordEnd(PASTED, 2) == 3 && WordEnd(PASTED, 1) == 3 && WordEnd(PASTED, 0) == 3;
    assert SkipSpaces(PASTED, 3) == 4 && !MatchesAt(PASTED, 4, "##") by { assert PASTED[4..6][0] == 'a'; }
  }

  lemma MergesInto()
    ensures MergePastes(PASTED, 0) == "int ab;"
  {
    MergesPair();
    FrontIsCopied();
    BackIsCopied();
    hide MergePastes;
    assert "int " + ("ab" + ";") == "int ab;";
  }

  lemma FrontIsCopied()
    ensures MergePastes(PASTED, 0) == "int " + MergePastes(PASTED, 4)
  {
    forall k: nat | 0 <= k < 4 ensures RightOperand(PASTED, k) == |PASTED| { NoOperandBefore(k); }
    hide RightOperand, MergePastes;
    MergeCopies(PASTED, 0, 4);
    assert PASTED[0..4] == "int ";
  }

  lemma BackIsCopied()
    ensures MergePastes(PASTED, 8) == ";"
  {
    NoOperandBefore(8);
    hide RightOperand;
    MergesPair();
    assert [PASTED[8]] + "" == ";";
  }

  lemma MergesPair()
    ensures MergePastes(PASTED, 4) == "ab" + MergePastes(PASTED, 8) && MergePastes(PASTED, 9) == ""
  {
    Operands();
    hide RightOperand, WordEnd;
    assert PASTED[4..5] + PASTED[7..8] == "ab";
  }

  lemma Operands()
    ensures RightOperand(PASTED, 4) == 7 && WordEnd(PASTED, 4) == 5 && WordEnd(PASTED, 7) == 8
  {
    var t := PASTED;
    assert t[5] == '#' && t[7] == 'b' && t[5..7] == "##";
    assert WordEnd(t, 4) == 5 && SkipSpaces(t, 5) == 5 && SkipSpaces(t, 7) == 7;
  }

  lemma Pastes()
    ensures PasteAll(PASTED) == "int ab;"
  {
    hide MergePastes, DropPastes, HasPaste;
    assert HasPaste(PASTED) by { PastedHasPaste(); }
    MergesInto();
    NothingToDrop("int ab;", 0);
    assert "int ab;"[0..] == "int ab;";
    NoPasting("int ab;");
    EqualsRound(PASTED);
    hide PasteRound;
    assert PasteAll(PASTED) == PasteAll(PasteRound(PASTED));
  }

  lemma PastedHasPaste()
    ensures HasPaste(PASTED)
  {
    assert MatchesAt(PASTED, 5, "##");
  }

  /** An argument that itself has `##` is pasted after substitution: `M(a##b)` expands through `ab`. */
  lemma PastedArgumentIsMissed(scope: Scope)
    requires Allows(scope, "int ab;") && Allows(scope, "int c;")
    ensures Needed(ExpansionIsRegular, Before(), After("ab"), "M(a##b)", scope)
  {
    hide Expand, PasteAll, Allows, InvocationAt, Defines, Substitute, Avoids, Needed, Before, After;
    var arg := "a##b";
    assert Call(arg) == "M(a##b)";
    PastedSource();
    ReadsArgument(arg);
    forall macros: Macros | Defines(macros, "ab") ensures Expand(arg, macros, 1, {"M"}).text == arg {
      OperandsExpand(macros);
    }
    SubstitutePlain(arg, "x", "int ", ";");
    Pastes();
    assert "int " + arg + ";" == PASTED;
    assert "int " + "ab" + ";" == "int ab;";
    ArgumentIsMissed(arg, arg, "ab", scope);
  }

  lemma OperandsExpand(macros: Macros)
    requires Defines(macros, "ab")
    ensures Expand("a##b", macros, 1, {"M"}).text == "a##b"
  {
    var t := "a##b";
    assert Quiet(t, 0, 4, macros) by {
      forall k: nat, n | k < 4 && n in macros ensures !Occurs(n, t, k) {
        assert n == "ab" || n in macros.Keys - {"ab"};
        assert n == "ab" || n[0] == 'M' || n[0] == 'A';
        assert t[k + 0] != n[0] || (k == 0 && t[k + 1] != n[1]);
      }
    }
    hide Quiet, Expand;
    QuietExpands(t, macros, 1, {"M"});
  }

  lemma PastedSource()
    ensures Avoids("M(a##b)", {"ab"})
  {
    var t := "M(a##b)";
    assert WordEnd(t, 0) == 1 && WordEnd(t, 2) == 3 && WordEnd(t, 5) == 6;
    forall p: nat | StartsAt(t, p) ensures Word(t, p) != "ab" {
      assert p == 0 || p == 2 || p == 5;
    }
  }

  /** A `$&` in an argument is read as a pattern and brings the parameter's name back: `M($&)` expands through `x`. */
  lemma DollarArgumentIsMissed(scope: Scope)
    requires Allows(scope, "int x;") && Allows(scope, "int c;")
    ensures Needed(ExpansionIsRegular, Before(), After("x"), "M($&)", scope)
  {
    hide Expand, PasteAll, Allows, InvocationAt, Defines, Substitute, Avoids, Needed, Before, After;
    var arg := "$&";
    assert Call(arg) == "M($&)";
    DollarSource();
    ReadsArgument(arg);
    forall macros: Macros | Defines(macros, "x") ensures Expand(arg, macros, 1, {"M"}).text == arg {
      DollarExpands(macros);
    }
    DollarSubstitutes();
    NoPasting("int x;");
    assert "int " + "x" + ";" == "int x;";
    ArgumentIsMissed(arg, arg, "x", scope);
  }

  lemma DollarExpands(macros: Macros)
    requires Defines(macros, "x")
    ensures Expand("$&", macros, 1, {"M"}).text == "$&"
  {
    Initials(macros, "x");
    hide Quiet, Expand;
    QuietStretch("$&", 0, 2, macros, {'M', 'A', 'x'});
    QuietExpands("$&", macros, 1, {"M"});
  }

  lemma DollarSubstitutes()
    ensures Substitute("$&", "x", "int ", ";") == "x"
  {
    assert Substitute("", "x", "int ", ";") == "" && "$&"[2..] == "";
  }

  lemma DollarSource()
    ensures Avoids("M($&)", {"x"})
  {
    assert WordEnd("M($&)", 0) == 1;
    assert forall p: nat :: StartsAt("M($&)", p) ==> p == 0;
  }

  // `A()b` expands to `ab`: nothing separates the expansion from what follows the invocation.

  lemma GlueArgument()
    ensures InvocationAt("M(A()b)", 1) == Some(Invocation(["A()b"], 7))
    ensures InvocationOf("A()b", 1, Letter()) == Some(Invocation([], 3))
  {
    var t, arg := "M(A()b)", "A()b";
    assert t[2..6] == arg && SkipSpaces(arg, 0) == 0 && arg[0..] == arg && Trim(arg) == arg;
    assert SkipGap(arg, 1) == 1 && Trim(arg[2..2]) == "";
    forall k | 0 <= k < |t| ensures SkipInert(t, k) == k { Active(t, k); }
    Active(arg, 2);
    hide SkipInert, Trim;
    assert [] + [arg] == [arg];
    assert InvocationFrom(t, 6, 1, 2, []) == Some(Invocation([arg], 7));
    assert InvocationFrom(t, 4, 2, 2, []) == InvocationFrom(t, 6, 1, 2, []);
    assert InvocationFrom(t, 2, 1, 2, []) == InvocationFrom(t, 4, 2, 2, []);
  }

  lemma LetterExpands(macros: Macros)
    requires Defines(macros, "ab")
    ensures var r := ExpandInvocation("A", Letter(), [], macros, 2, {"M"}); r.Some? && r.value.text == "a"
  {
    hide Expand, Apply;
    assert ExpandEach([], macros, 2, {"M"} + {"A"}) == [] && Texts([]) == [];
    assert Apply(Letter(), [], []).Some? && Apply(Letter(), [], []).value.text == "a" by { LetterApplies(); }
    assert Quiet("a", 0, 1, macros) by {
      forall n | n in macros ensures !Occurs(n, "a", 0) { assert n == "ab" ||
          n in macros.Keys - {"ab"}; assert |n| == 2 || n[0] != 'a'; }
    }
    QuietExpands("a", macros, 2, {"M"} + {"A"});
  }

  lemma LetterApplies()
    ensures var r := Apply(Letter(), [], []); r.Some? && r.value.text == "a"
  {
    NoPasting("a");
  }

  lemma GlueExpands(macros: Macros)
    requires Defines(macros, "ab")
    ensures Expand("A()b", macros, 1, {"M"}).text == "ab"
  {
    var t := "A()b";
    GlueStarts();
    hide SkipInert, InvocationOf, ExpandInvocation, Expand, Glue, WordEnd, Defines, Quiet;
    GlueArgument();
    LetterExpands(macros);
    QuietAfterCall(macros);
    var g := ExpandInvocation("A", Letter(), [], macros, 2, {"M"}).value.regular && !Glue("a", t[3..]);
    assert "" + "a" == "a" && "a" + "b" == "ab";
    assert ExpandFrom(t, 0, "", true, macros, 1, {"M"}) == ExpandFrom(t, 3, "a", g, macros, 1, {"M"});
    Copies(t, 3, 4, "a", g, macros, 1, {"M"});
    ExpandStarts(t, macros, 1, {"M"});
  }

  lemma GlueStarts()
    ensures var t := "A()b"; SkipInert(t, 0) == 0 && WordEnd(t, 0) == 1 && t[0..1] == "A" && t[3..4] == "b"
  {
    assert WordEnd("A()b", 1) == 1;
    Active("A()b", 0);
  }

  lemma QuietAfterCall(macros: Macros)
    requires Defines(macros, "ab")
    ensures Quiet("A()b", 3, 4, macros) && "A" in macros && macros["A"] == Letter()
  {
    Initials(macros, "ab");
    QuietStretch("A()b", 3, 4, macros, {'M', 'A', 'a'});
  }

  /** An expansion runs together with the identifier after its invocation: `M(A()b)` expands through `ab`. */
  lemma GluedExpansionIsMissed(scope: Scope)
    requires Allows(scope, "int ab;") && Allows(scope, "int c;")
    ensures Needed(ExpansionIsRegular, Before(), After("ab"), "M(A()b)", scope)
  {
    hide Expand, PasteAll, Allows, InvocationAt, Defines, Substitute, Avoids, Needed, Before, After;
    var arg := "A()b";
    assert Call(arg) == "M(A()b)";
    GluedSource();
    GlueArgument();
    forall macros: Macros | Defines(macros, "ab") ensures Expand(arg, macros, 1, {"M"}).text == "ab" {
      GlueExpands(macros);
    }
    SubstitutePlain("ab", "x", "int ", ";");
    NoPasting("int ab;");
    assert "int " + "ab" + ";" == "int ab;";
    ArgumentIsMissed(arg, "ab", "ab", scope);
  }

  lemma GluedSource()
    ensures Avoids("M(A()b)", {"ab"})
  {
    var t := "M(A()b)";
    assert WordEnd(t, 0) == 1 && WordEnd(t, 2) == 3 && WordEnd(t, 5) == 6;
    forall p: nat | StartsAt(t, p) ensures Word(t, p) != "ab" {
      assert p == 0 || p == 2 || p == 5;
    }
  }

  // ---------------------------------------------------------------- the condition on parameters

  /** The body of `#define M(x) int 1x;`: the parameter stands where `\b` does not see it. */
  const HIDDEN := "int 1x;"

  lemma HiddenStays()
    ensures ReplaceWord(HIDDEN, 0, "x", "3") == HIDDEN
  {
    var t := HIDDEN;
    forall k | 0 <= k < |t| ensures !WordAt(t, k, "x") {
      assert t[k..k + 1][0] == t[k]; assert k == 5 ==> IsIdentPart(t[k - 1]);
    }
    hide WordAt;
    NothingReplaced(t, 0, |t|, "3");
    assert t[0..|t|] == t;
  }

  lemma HiddenFacts()
    ensures !HasPaste(HIDDEN) && "x" !in Dependencies(CallMacro(HIDDEN))
  {
    HashFree(HIDDEN);
    assert CallMacro(HIDDEN).parameters.value[0] in FormalNames(CallMacro(HIDDEN));
  }

  lemma HiddenExpands(macros: Macros)
    requires macros.Keys - {"x"} <= {"M"} && ("x" in macros ==> macros["x"] == ObjectMacro("x", "c"))
    ensures "x" in macros ==> Expand(HIDDEN, macros, 1, {"M"}).text == "int 1c;"
    ensures "x" !in macros ==> Expand(HIDDEN, macros, 1, {"M"}) == Expansion(HIDDEN, true)
    ensures Expand("3", macros, 1, {"M"}) == Expansion("3", true)
  {
    hide Expand;
    var t := HIDDEN;
    assert forall m :: m in macros ==> m == "x" || m in macros.Keys - {"x"};
    QuietStretch("3", 0, 1, macros, {'M', 'x'});
    QuietExpands("3", macros, 1, {"M"});
    if "x" in macros {
      forall k | 0 <= k < 5 && IsIdentStart(t[k]) ensures WordEnd(t, k) <= 5 {
        assert k <= 3 < WordEnd(t, k) ==> IsIdentPart(t[3]);
      }
      assert "int 1" + "x" + ";" == t && "int 1" + "c" + ";" == "int 1c;";
      QuietStretch(t, 0, 5, macros, {'M', 'x'});
      QuietStretch(t, 6, 7, macros, {'M', 'x'});
      QuietStretch("c", 0, 1, macros, {'M', 'x'});
      ObjectInside("int 1", "x", ";", "c", macros, 1, {"M"});
    } else {
      QuietStretch(t, 0, |t|, macros, {'M'});
      QuietExpands(t, macros, 1, {"M"});
    }
  }

  lemma HiddenSource()
    ensures Avoids("M(3)", {"x"})
  {
    assert WordEnd("M(3)", 0) == 1;
    assert forall p: nat :: StartsAt("M(3)", p) ==> p == 0;
  }

  /** A parameter after a digit is neither substituted nor counted as a dependency: `M(3)` expands through `x`. */
  lemma HiddenParameterIsMissed(scope: Scope)
    requires Allows(scope, HIDDEN) && Allows(scope, "int 1c;")
    ensures Needed(FormalsAreVisible, HiddenBefore(), HiddenAfter(), "M(3)", scope)
  {
    hide Expand, PasteAll, Expanded, Affected, BuildContext, InvocationAt, RegularUnder, Allows, HasPaste, ChangedNames,
         Respelled, ReplaceWord, Avoids, Meets, Needed, HiddenBefore, HiddenAfter;
    var d := CallMacro(HIDDEN);
    var macros := map["M" := d];
    var first, second := Table({"M"}, macros), Table({"M"} + {"x"}, macros["x" := ObjectMacro("x", "c")]);
    HiddenAddition();
    HiddenSource();
    ReadsArgument("3");
    HiddenStays();
    NoPasting(HIDDEN);
    HiddenExpands(first.definitions);
    HiddenExpands(second.definitions);
    assert Call("3") == "M(3)" && HIDDEN[5] != "int 1c;"[5];
    CallSource("3", HIDDEN, Expansion("3", true), HIDDEN, first, scope);
    CallSource("3", HIDDEN, Expansion("3", true), HIDDEN, second, scope);
    HashFree(HIDDEN);
    HiddenMeets(scope);
    NeededBy(FormalsAreVisible, HiddenBefore(), HiddenAfter(), "M(3)", scope, first, second);
  }

  function HiddenBefore(): Manifest {
    File({"M"}, [CallMacro(HIDDEN)])
  }

  function HiddenAfter(): Manifest {
    File({"M"} + {"x"}, [CallMacro(HIDDEN)] + [ObjectMacro("x", "c")])
  }

  lemma HiddenAddition()
    ensures var macros := map["M" := CallMacro(HIDDEN)];
            var first, second := Table({"M"}, macros), Table({"M"} + {"x"}, macros["x" := ObjectMacro("x", "c")]);
            && BuildContext(HiddenBefore()) == first && BuildContext(HiddenAfter()) == second
            && ChangedNames(first, second) == Affected(first, second) == {"x"} && Respelled(first, second) == {}
  {
    hide Affected, BuildContext, FormalsVisible, HasPaste, Dependencies, Respelled, ChangedNames;
    HiddenFacts();
    AdditionTo({"M"}, [CallMacro(HIDDEN)], map["M" := CallMacro(HIDDEN)], "x");
  }

  lemma HiddenMeets(scope: Scope)
    requires RegularUnder("M(3)", BuildContext(HiddenBefore()), scope)
    ensures forall c :: c != FormalsAreVisible ==> Meets(c, HiddenBefore(), HiddenAfter(), "M(3)", scope)
  {
    hide Affected, BuildContext, FormalsVisible, Respelled, ChangedNames, ScanSource, NoOwnPaste, LocalDefinitions;
    HiddenAddition();
  }
}
