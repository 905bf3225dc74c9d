/**
 Invalidation is sound: a file that mentions none of the names a change of context
 affects expands to the same text under the old context and under the new one.
 */
module MacroInvalidation {
  import opened Options
  import opened Text
  import opened MacroScan
  import opened Replacing
  import opened MacroApply
  import opened Substitution
  import opened MacroExpand
  import opened MacroContext
  import opened MacroDiff
  import opened DeclarationMacros
  import opened Spelling

  // ---------------------------------------------------------------- contexts

  /**
   Substitution reaches every parameter name in the replacement text that is one of `names` as
   well, and `__VA_ARGS__`, if it is one, stands in variadic macros only.
   */
  ghost predicate FormalsVisible(d: Definition, names: set<string>) {
    forall p: nat :: StartsAt(d.replacement, p) && Word(d.replacement, p) in FormalNames(d) * names ==>
      Word(d.replacement, p) in Bound(d) && Detached(d.replacement, p)
  }

  ghost predicate WellFormedContribution(c: Contribution, names: set<string>) {
    && c.bodylessNames <= c.names
    && forall d :: d in c.definitions ==> d.name in c.names && FormalsVisible(d, names)
  }

  /** Every file lists the names it defines, and no parameter that is one of `names` is out of reach. */
  ghost predicate WellFormed(manifest: Manifest, names: set<string>) {
    forall k :: 0 <= k < |manifest| ==> WellFormedContribution(manifest[k].contribution, names)
  }

  /** Each definition stands under its own name, which is listed. */
  ghost predicate Listed(c: Context) {
    && c.bodylessNames <= c.names
    && forall n :: n in c.definitions ==> n in c.names && c.definitions[n].name == n
  }

  ghost predicate WellFormedContext(c: Context, names: set<string>) {
    Listed(c) && forall n :: n in c.definitions ==> FormalsVisible(c.definitions[n], names)
  }

  lemma {:induction false} ManifestFacts(manifest: Manifest, names: set<string>)
    requires WellFormed(manifest, names)
    ensures AllBodyless(manifest) <= AllNames(manifest)
    ensures forall d :: d in AllDefinitions(manifest) ==> d.name in AllNames(manifest) && FormalsVisible(d, names)
  {
    hide FormalsVisible;
    if manifest != [] {
      assert WellFormedContribution(manifest[0].contribution, names);
      assert WellFormed(manifest[1..], names);
      ManifestFacts(manifest[1..], names);
    }
  }

  lemma BuiltIsWellFormed(manifest: Manifest, names: set<string>)
    requires WellFormed(manifest, names)
    ensures WellFormedContext(BuildContext(manifest), names)
  {
    hide FormalsVisible;
    ManifestFacts(manifest, names);
    var c := BuildContext(manifest);
    forall n | n in c.definitions
      ensures n in c.names && c.definitions[n].name == n && FormalsVisible(c.definitions[n], names)
    {
      SelectedIsUnambiguous(AllDefinitions(manifest), n);
    }
  }

  /** Both contexts list `n` alike and define it by one signature, or neither does. */
  ghost predicate Alike(first: Context, second: Context, n: string) {
    && (n in first.names <==> n in second.names) && (n in first.bodylessNames <==> n in second.bodylessNames)
    && (n in first.definitions <==> n in second.definitions)
    && (n in first.definitions ==> SignatureOf(first.definitions[n]) == SignatureOf(second.definitions[n]))
  }

  /**
   Two contexts mean the same outside `names`, as far as signatures tell: they agree on
   every other name, and, if there are such names, no other macro pastes or mentions one
   of them in its body.
   */
  ghost predicate SameMeaning(first: Context, second: Context, names: set<string>) {
    && (forall n: string :: n !in names ==> Alike(first, second, n))
    && (names != {} ==> forall n: string :: n !in names && n in first.definitions ==>
        Contained(first.definitions[n], names))
  }

  /** The same to the letter: equal contexts, or equal definitions outside `names` that keep clear of them. */
  ghost predicate SameText(first: Context, second: Context, names: set<string>) {
    if names == {} then first == second
    else SameMeaning(first, second, names) && Agree(first.definitions, second.definitions, names)
  }

  /** The names that keep their signature while their body is spaced differently. */
  function Respelled(previous: Context, current: Context): set<string> {
    set n | n in previous.definitions && n in current.definitions
            && SignatureOf(previous.definitions[n]) == SignatureOf(current.definitions[n])
            && previous.definitions[n] != current.definitions[n]
  }

  /** The affected names, if a change of spacing counts as a change too. */
  ghost function AffectedText(previous: Context, current: Context): set<string> {
    if ChangedNames(previous, current) == {} && Respelled(previous, current) == {} then {}
    else Closure(previous, current, Seeds(previous, current) + Respelled(previous, current))
  }

  lemma SameMeaningToTheLetter(first: Context, second: Context, names: set<string>)
    requires SameMeaning(first, second, names) && Respelled(first, second) <= names
    ensures SameText(first, second, names)
  {
    hide Contained, SignatureOf;
    forall n: string | n !in names
      ensures n in first.names <==> n in second.names
      ensures n in first.bodylessNames <==> n in second.bodylessNames
      ensures n in first.definitions <==> n in second.definitions
      ensures n in first.definitions ==> first.definitions[n] == second.definitions[n]
    {
      assert Alike(first, second, n) && n !in Respelled(first, second);
    }
    if names == {} {
      assert first.names == second.names && first.bodylessNames == second.bodylessNames;
      assert first.definitions == second.definitions;
    }
  }

  /** A set of names that holds the changed and the pasting ones and all that depend on it. */
  ghost predicate Covers(previous: Context, current: Context, names: set<string>) {
    && ChangedNames(previous, current) <= names <= BothNames(previous, current)
    && (names != {} ==> Seeds(previous, current) <= names && Closed(previous, current, names))
  }

  /** Outside a covering set the two contexts mean the same. */
  lemma CoveredIsSound(previous: Context, current: Context, names: set<string>)
    requires WellFormedContext(previous, names) && WellFormedContext(current, names)
    requires Covers(previous, current, names)
    ensures SameMeaning(previous, current, names)
  {
    hide FormalsVisible, Contained, ChangedNames, Listed, Closed, SignatureOf;
    forall n: string | n !in names ensures Alike(previous, current, n) {
      UnchangedIsAlike(previous, current, n);
    }
    if names != {} {
      forall n: string | n !in names && n in previous.definitions ensures Contained(previous.definitions[n], names) {
        UncoveredIsContained(previous, current, names, n);
      }
    }
  }

  /** Unaffected names mean the same in both contexts, and depend on unaffected names only. */
  lemma DiffIsSound(previous: Context, current: Context)
    requires WellFormedContext(previous, Affected(previous, current))
    requires WellFormedContext(current, Affected(previous, current))
    ensures SameMeaning(previous, current, Affected(previous, current))
  {
    AffectedCovers(previous, current);
    CoveredIsSound(previous, current, Affected(previous, current));
  }

  /** The same to the letter, if a change of spacing counts as a change. */
  lemma TextDiffIsSound(previous: Context, current: Context)
    requires WellFormedContext(previous, AffectedText(previous, current))
    requires WellFormedContext(current, AffectedText(previous, current))
    ensures SameText(previous, current, AffectedText(previous, current))
  {
    AffectedTextCovers(previous, current);
    hide AffectedText, SameText, SameMeaning, Covers, WellFormedContext, Respelled;
    CoveredIsSound(previous, current, AffectedText(previous, current));
    SameMeaningToTheLetter(previous, current, AffectedText(previous, current));
  }

  lemma AffectedCovers(previous: Context, current: Context)
    ensures Covers(previous, current, Affected(previous, current))
  {
    hide Opaque, MeaningOf, Closed;
    if ChangedNames(previous, current) != {} {
      AffectedIsLeast(previous, current);
    }
  }

  lemma AffectedTextCovers(previous: Context, current: Context)
    requires Listed(previous)
    ensures Covers(previous, current, AffectedText(previous, current))
    ensures Respelled(previous, current) <= AffectedText(previous, current)
  {
    hide Opaque, MeaningOf, Closed, SignatureOf;
    RespelledIsNamed(previous, current);
    ClosureIsLeast(previous, current, Seeds(previous, current) + Respelled(previous, current));
  }

  /** Unless a name that is not affected is spaced differently, the affected names are all there is to avoid. */
  lemma AffectedTextIsAffected(previous: Context, current: Context)
    requires Listed(previous) && Respelled(previous, current) <= Affected(previous, current)
    ensures AffectedText(previous, current) == Affected(previous, current)
  {
    hide Opaque, MeaningOf, SignatureOf, Closed, Closure, Respelled, ChangedNames, Listed;
    if ChangedNames(previous, current) != {} {
      var seeds := Seeds(previous, current);
      RespelledIsNamed(previous, current);
      SeedsAreNamed(previous, current);
      ClosureIsLeast(previous, current, seeds);
      ClosureIsLeast(previous, current, seeds + Respelled(previous, current));
    }
  }

  lemma RespelledIsNamed(previous: Context, current: Context)
    requires Listed(previous)
    ensures Respelled(previous, current) <= BothNames(previous, current)
  {
    hide SignatureOf;
  }

  lemma SeedsAreNamed(previous: Context, current: Context)
    ensures Seeds(previous, current) <= BothNames(previous, current)
  {
    hide MeaningOf, Opaque;
  }

  lemma AffectedIsEmpty(previous: Context, current: Context)
    ensures ChangedNames(previous, current) <= Affected(previous, current)
    ensures ChangedNames(previous, current) == {} <==> Affected(previous, current) == {}
  {
    hide Opaque, MeaningOf, Closed;
    if ChangedNames(previous, current) != {} {
      AffectedIsLeast(previous, current);
      assert ChangedNames(previous, current) <= Seeds(previous, current);
    }
  }

  lemma UnchangedIsAlike(previous: Context, current: Context, n: string)
    requires Listed(previous) && Listed(current) && n !in ChangedNames(previous, current)
    ensures Alike(previous, current, n)
  {
    hide SignatureOf;
    assert MeaningOf(previous, n) == MeaningOf(current, n);
  }

  lemma UncoveredIsContained(previous: Context, current: Context, names: set<string>, n: string)
    requires WellFormedContext(previous, names) && names != {} && Covers(previous, current, names)
    requires n in previous.definitions && n !in names
    ensures Contained(previous.definitions[n], names)
  {
    hide ChangedNames, Closed, Contained, WellFormedContext;
    ClosedIsContained(previous, current, names, previous, n);
  }

  /** Outside a closed set that holds the pasting names no macro of either context pastes or mentions one of the set. */
  lemma ClosedIsContained(previous: Context, current: Context, names: set<string>, c: Context, n: string)
    requires (c == previous || c == current) && WellFormedContext(c, names)
    requires Pasting(previous, current) <= names <= BothNames(previous, current) && Closed(previous, current, names)
    requires n in c.definitions && n !in names
    ensures Contained(c.definitions[n], names)
  {
    hide HasPaste;
    var d := c.definitions[n];
    assert n in BothNames(previous, current) && !Opaque(c, n);
    forall p: nat | StartsAt(d.replacement, p) && Word(d.replacement, p) in names
      ensures Word(d.replacement, p) in Bound(d) && Detached(d.replacement, p)
    {
      var word := Word(d.replacement, p);
      assert word in Idents(d.replacement);
      assert word in BothNames(previous, current) && !DependsOn(previous, current, n, word);
      assert word !in Dependencies(d);
    }
  }

  lemma ContainedInBoth(d: Definition, a: set<string>, b: set<string>)
    requires Contained(d, a) && Contained(d, b)
    ensures Contained(d, a + b)
  {
    hide HasPaste;
  }

  // ---------------------------------------------------------------- changes of spacing

  /** The names through which a macro that changed only the spacing of its body can reach a source. */
  ghost function Respellings(previous: Context, current: Context): set<string> {
    if Respelled(previous, current) == {} then {}
    else Closure(previous, current, Respelled(previous, current) + Pasting(previous, current))
  }

  lemma RespellingsFacts(previous: Context, current: Context)
    requires Listed(current)
    ensures var r := Respellings(previous, current);
            && Respelled(previous, current) <= r <= BothNames(previous, current)
            && (r != {} ==> Pasting(previous, current) <= r && Closed(previous, current, r))
  {
    hide SignatureOf, Opaque, Closed;
    if Respelled(previous, current) != {} {
      ClosureIsLeast(previous, current, Respelled(previous, current) + Pasting(previous, current));
    }
  }

  /** Contexts that mean the same outside `names` are equal to the letter outside these names as well. */
  lemma RespelledApart(first: Context, second: Context, names: set<string>)
    requires WellFormedContext(second, Respellings(first, second)) && SameMeaning(first, second, names)
    ensures SameText(first, second, names + Respellings(first, second))
  {
    hide Contained, SignatureOf, Listed, FormalsVisible, Closed, Pasting;
    var apart := Respellings(first, second);
    RespellingsFacts(first, second);
    hide Respellings;
    if apart == {} {
      assert names + apart == names;
      SameMeaningToTheLetter(first, second, names);
    } else {
      forall n: string | n !in names + apart
        ensures Alike(first, second, n)
        ensures n in first.definitions ==>
          first.definitions[n] == second.definitions[n] && Contained(first.definitions[n], names + apart)
      {
        assert Alike(first, second, n) && n !in Respelled(first, second);
        if n in first.definitions {
          ClosedIsContained(first, second, apart, second, n);
          if names == {} {
            assert names + apart == apart;
          } else {
            ContainedInBoth(first.definitions[n], names, apart);
          }
        }
      }
    }
  }

  // ---------------------------------------------------------------- sources

  /** The file's own definitions do not paste. */
  predicate NoOwnPaste(locals: seq<LocalDefinition>) {
    forall k :: 0 <= k < |locals| ==> !HasPaste(locals[k].definition.replacement)
  }

  ghost predicate LocalsContained(locals: seq<LocalDefinition>, names: set<string>) {
    forall k :: 0 <= k < |locals| ==> Contained(locals[k].definition, names)
  }

  lemma LocalsAreContained(source: string, names: set<string>)
    requires Avoids(source, names) && NoOwnPaste(LocalDefinitions(source))
    ensures LocalsContained(LocalDefinitions(source), names)
  {
    hide HasPaste, LocalDefinitions, Avoids;
    var locals := LocalDefinitions(source);
    LocalDefinitionsAvoid(source, names);
    forall k | 0 <= k < |locals| ensures Contained(locals[k].definition, names) {
      AvoidsFits(locals[k].definition.replacement, names, Bound(locals[k].definition));
    }
  }

  lemma {:induction false} OwnContained(locals: seq<LocalDefinition>, name: string, names: set<string>)
    requires LocalsContained(locals, names)
    ensures LocalsContained(Own(locals, name), names)
  {
    hide Contained;
    if locals != [] {
      assert Contained(locals[0].definition, names);
      assert LocalsContained(locals[1..], names) by {
        forall k | 0 <= k < |locals[1..]| ensures Contained(locals[1..][k].definition, names) {
          assert locals[1..][k] == locals[k + 1];
        }
      }
      OwnContained(locals[1..], name, names);
    }
  }

  lemma {:induction false} LastBeforeContained(candidates: seq<LocalDefinition>, offset: nat,
      selected: Option<Definition>, names: set<string>)
    requires LocalsContained(candidates, names) && (selected.Some? ==> Contained(selected.value, names))
    ensures var r := LastBefore(candidates, offset, selected); r.Some? ==> Contained(r.value, names)
  {
    hide Contained;
    if candidates != [] && candidates[0].start < offset {
      assert LocalsContained(candidates[1..], names) by {
        forall k | 0 <= k < |candidates[1..]| ensures Contained(candidates[1..][k].definition, names) {
          assert candidates[1..][k] == candidates[k + 1];
        }
      }
      LastBeforeContained(candidates[1..], offset, Some(candidates[0].definition), names);
    }
  }

  /** A file's own definitions extend agreeing tables to agreeing tables. */
  lemma TablesAgree(first: Macros, second: Macros, locals: seq<LocalDefinition>, names: set<string>)
    requires Agree(first, second, names) && LocalsContained(locals, names)
    ensures Agree(ExpansionMacros(first, locals), ExpansionMacros(second, locals), names)
  {
    hide Contained, OneSpelling, Own;
    forall n: string | n in UniqueLocals(locals) ensures Contained(UniqueLocals(locals)[n], names) {
      OwnContained(locals, n, names);
    }
  }

  lemma LookupAgrees(name: string, offset: nat, first: Macros, second: Macros, locals: seq<LocalDefinition>,
      names: set<string>)
    requires Agree(first, second, names) && LocalsContained(locals, names) && name !in names
    ensures DefinitionForOffset(name, offset, first, locals) == DefinitionForOffset(name, offset, second, locals)
    ensures var d := DefinitionForOffset(name, offset, first, locals); d.Some? ==> Contained(d.value, names)
  {
    hide Contained, Own, LastBefore;
    OwnContained(locals, name, names);
    LastBeforeContained(Own(locals, name), offset, None, names);
  }

  ghost predicate ProjectsAgree(first: Project, second: Project, names: set<string>) {
    && first.locals == second.locals && first.scope == second.scope
    && LocalsContained(first.locals, names)
    && Agree(first.globals, second.globals, names)
  }

  lemma {:induction false} RegularScan(source: string, i: nat, found: seq<Replacement>, regular: bool, project: Project)
    requires i <= |source|
    ensures ScanSource(source, i, found, regular, project).regular ==> regular
    decreases |source| - i
  {
    hide SkipInert, InvocationOf, Replace, RegularAt, DefinitionForOffset, IsDirectiveStart, WordEnd, Line, LineStart,
         DirectiveEnd;
    if i < |source| && |found| < MAX_SOURCE_INVOCATIONS {
      var e := SkipInert(source, i);
      if e > i {
        RegularScan(source, e, found, regular, project);
      } else if IsDirectiveStart(source, i) {
        DirectiveAdvances(source, i);
        RegularScan(source, DirectiveEnd(source, i), found, regular, project);
      } else if !IsIdentStart(source[i]) {
        RegularScan(source, i + 1, found, regular, project);
      } else {
        WordIsIdent(source, i);
        var w := WordEnd(source, i);
        var name := source[i..w];
        var d := DefinitionForOffset(name, i, project.globals, project.locals);
        var invocation := if d.Some? then InvocationOf(source, w, d.value) else None;
        if invocation.None? {
          RegularScan(source, w, found, regular, project);
        } else {
          var Invocation(args, end) := invocation.value;
          var regular' := regular && RegularAt(name, d.value, args, project);
          var replacement := Replace(source, i, name, d.value, args, end, project);
          if !project.scope.lexical(Line(source, i), i - LineStart(source, i)) {
            RegularScan(source, end, found, regular, project);
          } else if replacement.None? {
            RegularScan(source, w, found, regular', project);
          } else {
            RegularScan(source, end, found + [replacement.value], regular', project);
          }
        }
      }
    }
  }

  lemma ReplaceAgrees(source: string, start: nat, name: string, d: Definition, args: seq<string>, end: nat,
      first: Project, second: Project, names: set<string>)
    requires start <= end <= |source| && ProjectsAgree(first, second, names)
    requires Contained(d, names) && AllAvoid(args, names) && RegularAt(name, d, args, first)
    ensures Replace(source, start, name, d, args, end, second) == Replace(source, start, name, d, args, end, first)
    ensures RegularAt(name, d, args, second)
  {
    hide Contained, LocalsContained, Agree, AllAvoid, Line, LineStart, Flattened, ExpansionMacros, ExpandInvocation;
    TablesAgree(first.globals, second.globals, first.locals, names);
    InvocationAgrees(name, d, args, ExpansionMacros(first.globals, first.locals),
        ExpansionMacros(second.globals, second.locals), names, 1, {});
  }

  /** The scan of a source that mentions none of `names` does not depend on them. */
  lemma {:induction false} ScanSourceAgrees(source: string, i: nat, found: seq<Replacement>, regular: bool,
      first: Project, second: Project, names: set<string>)
    requires Cut(source, i) && Avoids(source, names) && ProjectsAgree(first, second, names)
    requires ScanSource(source, i, found, regular, first).regular
    ensures ScanSource(source, i, found, regular, second) == ScanSource(source, i, found, regular, first)
    decreases |source| - i
  {
    hide SkipInert, InvocationOf, Replace, RegularAt, DefinitionForOffset, IsDirectiveStart, WordEnd, Line, LineStart,
         DirectiveEnd, Agree, LocalsContained, Avoids, Glue, AllAvoid, Contained;
    if i < |source| && |found| < MAX_SOURCE_INVOCATIONS {
      var e := SkipInert(source, i);
      if e > i {
        InertCut(source, i);
        ScanSourceAgrees(source, e, found, regular, first, second, names);
      } else if IsDirectiveStart(source, i) {
        DirectiveAdvances(source, i);
        CutAtNonPart(source, DirectiveEnd(source, i));
        ScanSourceAgrees(source, DirectiveEnd(source, i), found, regular, first, second, names);
      } else if !IsIdentStart(source[i]) {
        CutStep(source, i);
        ScanSourceAgrees(source, i + 1, found, regular, first, second, names);
      } else {
        CutStarts(source, i);
        var w := WordEnd(source, i);
        var name := source[i..w];
        assert name !in names by { NameAvoided(source, i, names); }
        LookupAgrees(name, i, first.globals, second.globals, first.locals, names);
        var d := DefinitionForOffset(name, i, first.globals, first.locals);
        var invocation := if d.Some? then InvocationOf(source, w, d.value) else None;
        if invocation.None? {
          ScanSourceAgrees(source, w, found, regular, first, second, names);
        } else {
          var Invocation(args, end) := invocation.value;
          InvocationAvoidsOf(source, w, d.value, names);
          var regular' := regular && RegularAt(name, d.value, args, first);
          var replacement := Replace(source, i, name, d.value, args, end, first);
          if !first.scope.lexical(Line(source, i), i - LineStart(source, i)) {
            ScanSourceAgrees(source, end, found, regular, first, second, names);
          } else if replacement.None? {
            RegularScan(source, w, found, regular', first);
            ReplaceAgrees(source, i, name, d.value, args, end, first, second, names);
            ScanSourceAgrees(source, w, found, regular', first, second, names);
          } else {
            RegularScan(source, end, found + [replacement.value], regular', first);
            ReplaceAgrees(source, i, name, d.value, args, end, first, second, names);
            ScanSourceAgrees(source, end, found + [replacement.value], regular', first, second, names);
          }
        }
      }
    }
  }

  lemma NameAvoided(source: string, i: nat, names: set<string>)
    requires Avoids(source, names) && StartsAt(source, i)
    ensures source[i..WordEnd(source, i)] !in names
  {
    assert Word(source, i) !in names;
  }

  function ProjectOf(context: Context, source: string, scope: Scope): Project {
    Project(context.definitions, LocalDefinitions(source), scope)
  }

  /** The expansion of `source` under `context` is regular, and its own definitions do not paste. */
  predicate RegularUnder(source: string, context: Context, scope: Scope) {
    NoOwnPaste(LocalDefinitions(source)) && ScanSource(source, 0, [], true, ProjectOf(context, source, scope)).regular
  }

  lemma SameTextSameExpansion(first: Context, second: Context, names: set<string>, source: string, scope: Scope)
    requires SameText(first, second, names) && Avoids(source, names)
    requires names == {} || RegularUnder(source, first, scope)
    ensures Expanded(source, ProjectOf(first, source, scope)) == Expanded(source, ProjectOf(second, source, scope))
  {
    hide Avoids, Agree, LocalDefinitions, NoOwnPaste, ScanSource, LocalsContained;
    if names != {} {
      LocalsAreContained(source, names);
      CutAtEnds(source);
      ScanSourceAgrees(source, 0, [], true, ProjectOf(first, source, scope), ProjectOf(second, source, scope), names);
    }
  }

  /**
   If the context changes from `previous` to `current` and the source mentions no name
   that this affects, a change of spacing included, its declaration macros expand to the
   same text, on the same lines, with the same names. When something changed, this is
   claimed for a source whose own definitions have no `##` and whose expansion so far
   was regular.
   */
  lemma TextInvalidationIsSound(previous: Manifest, current: Manifest, source: string, scope: Scope)
    requires WellFormed(previous, AffectedText(BuildContext(previous), BuildContext(current)))
    requires WellFormed(current, AffectedText(BuildContext(previous), BuildContext(current)))
    requires Avoids(source, AffectedText(BuildContext(previous), BuildContext(current)))
    requires AffectedText(BuildContext(previous), BuildContext(current)) == {} ||
        RegularUnder(source, BuildContext(previous), scope)
    ensures Expanded(source, ProjectOf(BuildContext(previous), source, scope)) ==
        Expanded(source, ProjectOf(BuildContext(current), source, scope))
  {
    hide Avoids, Expanded, RegularUnder, AffectedText, BuildContext, SameText, WellFormedContext, WellFormed;
    BuiltIsWellFormed(previous, AffectedText(BuildContext(previous), BuildContext(current)));
    BuiltIsWellFormed(current, AffectedText(BuildContext(previous), BuildContext(current)));
    TextDiffIsSound(BuildContext(previous), BuildContext(current));
    SameTextSameExpansion(BuildContext(previous), BuildContext(current),
        AffectedText(BuildContext(previous), BuildContext(current)), source, scope);
  }

  /**
   Invalidation soundness. A source that mentions no affected name keeps its expansion,
   under the same conditions, if no name beside the affected ones changed its spacing
   alone.
   */
  lemma InvalidationIsSound(previous: Manifest, current: Manifest, source: string, scope: Scope)
    requires WellFormed(previous, Affected(BuildContext(previous), BuildContext(current)))
    requires WellFormed(current, Affected(BuildContext(previous), BuildContext(current)))
    requires Avoids(source, Affected(BuildContext(previous), BuildContext(current)))
    requires Respelled(BuildContext(previous), BuildContext(current)) <=
        Affected(BuildContext(previous), BuildContext(current))
    requires ChangedNames(BuildContext(previous), BuildContext(current)) == {} ||
        RegularUnder(source, BuildContext(previous), scope)
    ensures Expanded(source, ProjectOf(BuildContext(previous), source, scope)) ==
        Expanded(source, ProjectOf(BuildContext(current), source, scope))
  {
    hide Avoids, Expanded, RegularUnder, ChangedNames, Affected, AffectedText, BuildContext, WellFormed, Listed,
         FormalsVisible, Respelled;
    BuiltIsWellFormed(previous, Affected(BuildContext(previous), BuildContext(current)));
    AffectedTextIsAffected(BuildContext(previous), BuildContext(current));
    AffectedIsEmpty(BuildContext(previous), BuildContext(current));
    TextInvalidationIsSound(previous, current, source, scope);
  }
}
