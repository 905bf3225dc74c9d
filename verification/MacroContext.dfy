/**
 The project-wide macro context: what each file contributes, which definitions are
 unambiguous, what every macro depends on, and which macro names a change of the
 context affects.
 */
module MacroContext {
  import opened Options
  import opened Text
  import opened MacroScan
  import opened Replacing
  import opened MacroApply
  import opened Substitution
  import opened MacroExpand

  /** What one C-family file contributes. */
  datatype Contribution = Contribution(names: set<string>, bodylessNames: set<string>, definitions: seq<Definition>)

  datatype ManifestFile = ManifestFile(path: string, contribution: Contribution)

  type Manifest = seq<ManifestFile>

  /** The names defined anywhere, those with an empty body, and the unambiguous definitions by name. */
  datatype Context = Context(names: set<string>, bodylessNames: set<string>, definitions: Macros)

  // ---------------------------------------------------------------- the scan of names

  /** Only white space stands between the start of a line and `i`. */
  predicate OpensLine(t: string, i: nat)
    requires i <= |t|
  {
    i == 0 || t[i - 1] in "\n\r\U{2028}\U{2029}" || (IsSpace(t[i - 1]) && OpensLine(t, i - 1))
  }

  /** The name after `#` at `i`, optional white space, `define` and white space. */
  function NameAt(t: string, i: nat): Option<string> {
    if i < |t| && t[i] == '#' && OpensLine(t, i) then
      var k := SkipSpaces(t, i + 1);
      if MatchesAt(t, k, "define") then
        var m := SkipSpaces(t, k + 6);
        if m > k + 6 && m < |t| && IsIdentStart(t[m]) then Some(Word(t, m)) else None
      else None
    else None
  }

  /** The macro names of a file. They are found by an expression of their own, apart from the definitions. */
  function ListedNames(t: string): set<string> {
    set i: nat | i < |t| && NameAt(t, i).Some? :: NameAt(t, i).value
  }

  /** What the scan of a file with this text contributes, up to which of its names have an empty body. */
  predicate ScansTo(t: string, c: Contribution) {
    && c.names == ListedNames(t) && c.bodylessNames <= c.names
    && |c.definitions| == |LocalDefinitions(t)|
    && forall k :: 0 <= k < |c.definitions| ==> c.definitions[k] == LocalDefinitions(t)[k].definition
  }

  // ---------------------------------------------------------------- signatures

  function CollapseSpaces(t: string, i: nat): string
    requires i <= |t|
    decreases |t| - i
  {
    if i == |t| then ""
    else if IsSpace(t[i]) then " " + CollapseSpaces(t, SkipSpaces(t, i))
    else [t[i]] + CollapseSpaces(t, i + 1)
  }

  function Normalize(t: string): string {
    Trim(CollapseSpaces(t, 0))
  }

  /** What two definitions must share to count as the same: their spelling up to white space. */
  datatype Signature = Signature(parameters: Option<seq<Identifier>>, variadic: Option<Identifier>, replacement: string)

  function SignatureOf(d: Definition): Signature {
    Signature(d.parameters, d.variadic, Normalize(d.replacement))
  }

  // ---------------------------------------------------------------- selection

  /** The signatures under which `name` is defined. */
  function Variants(definitions: seq<Definition>, name: string): set<Signature> {
    set k | 0 <= k < |definitions| && definitions[k].name == name :: SignatureOf(definitions[k])
  }

  function DefinedNames(definitions: seq<Definition>): set<string> {
    set k | 0 <= k < |definitions| :: definitions[k].name
  }

  function LastDefinition(definitions: seq<Definition>, name: string): (d: Definition)
    requires name in DefinedNames(definitions)
    ensures d in definitions && d.name == name
  {
    var last := definitions[|definitions| - 1];
    if last.name == name then last else LastDefinition(definitions[..|definitions| - 1], name)
  }

  /** The definitions of the names that have one spelling only; of equal spellings the last counts. */
  function Selected(definitions: seq<Definition>): Macros {
    map name | name in DefinedNames(definitions) &&
        |Variants(definitions, name)| == 1 :: LastDefinition(definitions, name)
  }

  lemma {:induction false} OneVariant(definitions: seq<Definition>, name: string, d: Definition)
    requires d in definitions && d.name == name && |Variants(definitions, name)| == 1
    ensures Variants(definitions, name) == {SignatureOf(d)}
  {
    var all := Variants(definitions, name);
    assert SignatureOf(d) in all;
    assert |all - {SignatureOf(d)}| == 0;
  }

  /** Whatever the order of the files, a selected definition has the one spelling its name has. */
  lemma SelectedIsUnambiguous(definitions: seq<Definition>, name: string)
    ensures name in Selected(definitions) <==>
        (exists d :: d in definitions && d.name == name) &&
        (forall d, e :: d in definitions && e in definitions && d.name == name && e.name == name ==>
            SignatureOf(d) == SignatureOf(e))
    ensures name in Selected(definitions) ==>
        Selected(definitions)[name] in definitions && Selected(definitions)[name].name == name
  {
    hide SignatureOf;
    if name in Selected(definitions) {
      forall d, e | d in definitions && e in definitions && d.name == name && e.name == name
        ensures SignatureOf(d) == SignatureOf(e)
      {
        OneVariant(definitions, name, d);
        OneVariant(definitions, name, e);
      }
    }
    if exists d :: d in definitions && d.name == name {
      var d :| d in definitions && d.name == name;
      assert name in DefinedNames(definitions);
      if forall d, e :: d in definitions && e in definitions && d.name == name && e.name == name ==>
          SignatureOf(d) == SignatureOf(e) {
        assert Variants(definitions, name) == {SignatureOf(d)};
      }
    }
  }

  type NameIndex = map<string, map<Signature, Definition>>

  function Record(byName: NameIndex, d: Definition): NameIndex {
    var variants := if d.name in byName then byName[d.name] else map[];
    byName[d.name := variants[SignatureOf(d) := d]]
  }

  function IndexByName(definitions: seq<Definition>): NameIndex {
    if definitions == [] then map[]
    else Record(IndexByName(definitions[..|definitions| - 1]), definitions[|definitions| - 1])
  }

  /** The index holds every name, every spelling, and of a single spelling the last definition. */
  ghost predicate Indexes(byName: NameIndex, definitions: seq<Definition>) {
    && byName.Keys == DefinedNames(definitions)
    && (forall n :: n in byName ==> byName[n].Keys == Variants(definitions, n))
    && (forall n, s :: n in byName && s in byName[n] && |byName[n]| == 1 ==>
        byName[n][s] == LastDefinition(definitions, n))
  }

  lemma {:induction false} IndexFacts(definitions: seq<Definition>)
    ensures Indexes(IndexByName(definitions), definitions)
  {
    hide SignatureOf, Variants, DefinedNames;
    if definitions == [] {
      NoDefinitions();
    } else {
      var before, d := definitions[..|definitions| - 1], definitions[|definitions| - 1];
      IndexFacts(before);
      assert definitions == before + [d];
      RecordFacts(IndexByName(before), before, d);
    }
  }

  lemma NoDefinitions()
    ensures DefinedNames([]) == {}
  {
  }

  lemma RecordFacts(byName: NameIndex, before: seq<Definition>, d: Definition)
    requires Indexes(byName, before)
    ensures Indexes(Record(byName, d), before + [d])
  {
    hide SignatureOf, Variants, DefinedNames;
    var after, byName' := before + [d], Record(byName, d);
    assert byName'.Keys == byName.Keys + {d.name};
    NamesGrow(before, d);
    assert after[..|after| - 1] == before && after[|after| - 1] == d;
    if d.name !in byName { UnnamedHasNoVariant(before, d.name); }
    forall n | n in byName' ensures byName'[n].Keys == Variants(after, n) { VariantsGrow(before, d, n); }
    forall n, s | n in byName' && s in byName'[n] && |byName'[n]| == 1
        ensures byName'[n][s] == LastDefinition(after, n) {
      if n == d.name {
        Singleton(byName'[n].Keys, SignatureOf(d));
      }
    }
  }

  method SelectUnambiguousCppMacroDefinitions(definitions: seq<Definition>) returns (result: Macros)
    ensures result == Selected(definitions)
  {
    hide SignatureOf;
    var byName: NameIndex := map[];
    for k := 0 to |definitions|
      invariant byName == IndexByName(definitions[..k])
    {
      byName := Record(byName, definitions[k]);
      assert definitions[..k + 1] == definitions[..k] + [definitions[k]];
    }
    assert definitions[..|definitions|] == definitions;
    result := KeepSingle(byName);
    IndexFacts(definitions);
    SingleIsSelected(byName, definitions, result);
  }

  /** Keep the value of every name that has exactly one. */
  method KeepSingle(byName: NameIndex) returns (result: Macros)
    ensures OnlySingle(byName, byName.Keys, result)
  {
    result := map[];
    var todo := byName.Keys;
    while todo != {}
      invariant todo <= byName.Keys
      invariant OnlySingle(byName, byName.Keys - todo, result)
    {
      var n :| n in todo;
      todo := todo - {n};
      if |byName[n]| == 1 {
        assert byName[n].Keys != {};
        var s :| s in byName[n];
        result := result[n := byName[n][s]];
      }
    }
  }

  ghost predicate OnlySingle(byName: NameIndex, done: set<string>, result: Macros)
    requires done <= byName.Keys
  {
    && (forall n :: n in result <==> n in done && |byName[n]| == 1)
    && (forall n :: n in result ==> result[n] in byName[n].Values)
  }

  lemma SingleIsSelected(byName: NameIndex, definitions: seq<Definition>, result: Macros)
    requires Indexes(byName, definitions) && OnlySingle(byName, byName.Keys, result)
    ensures result == Selected(definitions)
  {
    hide Variants, DefinedNames, LastDefinition;
    CardinalityOfKeys(byName, definitions);
    forall n | n in result ensures result[n] == LastDefinition(definitions, n) {
      var s :| s in byName[n] && byName[n][s] == result[n];
    }
  }

  lemma CardinalityOfKeys(byName: NameIndex, definitions: seq<Definition>)
    requires Indexes(byName, definitions)
    ensures forall n :: n in byName ==> |byName[n]| == |Variants(definitions, n)|
  {
    forall n | n in byName ensures |byName[n]| == |Variants(definitions, n)| {
      assert |byName[n]| == |byName[n].Keys|;
    }
  }

  lemma Singleton<T>(s: set<T>, x: T)
    requires |s| == 1 && x in s
    ensures s == {x}
  {
    assert |s - {x}| == 0;
  }

  lemma NamesGrow(before: seq<Definition>, d: Definition)
    ensures DefinedNames(before + [d]) == DefinedNames(before) + {d.name}
  {
    var after := before + [d];
    forall k | 0 <= k < |before| ensures before[k].name in DefinedNames(after) { assert after[k] == before[k]; }
    assert after[|before|] == d;
  }

  lemma VariantsGrow(before: seq<Definition>, d: Definition, n: string)
    ensures Variants(before + [d], n) == if n == d.name then Variants(before, n) + {SignatureOf(d)}
        else Variants(before, n)
  {
    hide SignatureOf;
    var after := before + [d];
    forall k | 0 <= k < |before| && before[k].name == n ensures SignatureOf(before[k]) in Variants(after, n) {
      assert after[k] == before[k];
    }
    assert after[|before|] == d;
  }

  lemma UnnamedHasNoVariant(definitions: seq<Definition>, n: string)
    requires n !in DefinedNames(definitions)
    ensures Variants(definitions, n) == {}
  {
  }

  // ---------------------------------------------------------------- the context

  function AllNames(manifest: Manifest): set<string> {
    if manifest == [] then {} else manifest[0].contribution.names + AllNames(manifest[1..])
  }

  function AllBodyless(manifest: Manifest): set<string> {
    if manifest == [] then {} else manifest[0].contribution.bodylessNames + AllBodyless(manifest[1..])
  }

  function AllDefinitions(manifest: Manifest): seq<Definition> {
    if manifest == [] then [] else manifest[0].contribution.definitions + AllDefinitions(manifest[1..])
  }

  function BuildContext(manifest: Manifest): Context {
    Context(AllNames(manifest), AllBodyless(manifest), Selected(AllDefinitions(manifest)))
  }

  lemma NoneLeft()
    ensures AllNames([]) == {} && AllBodyless([]) == {} && AllDefinitions([]) == []
  {
  }

  lemma FileFirst(manifest: Manifest)
    requires manifest != []
    ensures var file := manifest[0].contribution;
            && AllNames(manifest) == file.names + AllNames(manifest[1..])
            && AllBodyless(manifest) == file.bodylessNames + AllBodyless(manifest[1..])
            && AllDefinitions(manifest) == file.definitions + AllDefinitions(manifest[1..])
  {
  }

  method BuildCppMacroContext(manifest: Manifest) returns (context: Context)
    ensures context == BuildContext(manifest)
  {
    hide Selected, AllNames, AllBodyless, AllDefinitions;
    NoneLeft();
    var names, bodyless, definitions := {}, {}, [];
    assert manifest[0..] == manifest;
    for k := 0 to |manifest|
      invariant names + AllNames(manifest[k..]) == AllNames(manifest)
      invariant bodyless + AllBodyless(manifest[k..]) == AllBodyless(manifest)
      invariant definitions + AllDefinitions(manifest[k..]) == AllDefinitions(manifest)
    {
      var file := manifest[k].contribution;
      names := names + file.names;
      bodyless := bodyless + file.bodylessNames;
      definitions := definitions + file.definitions;
      assert manifest[k..][1..] == manifest[k + 1..];
      FileFirst(manifest[k..]);
    }
    assert manifest[|manifest|..] == [] && definitions + [] == definitions;
    var selected := SelectUnambiguousCppMacroDefinitions(definitions);
    context := Context(names, bodyless, selected);
  }

  // ---------------------------------------------------------------- manifests of one file

  function File(names: set<string>, definitions: seq<Definition>): Manifest {
    [ManifestFile("h", Contribution(names, {}, definitions))]
  }

  function Table(names: set<string>, macros: Macros): Context {
    Context(names, {}, macros)
  }

  lemma FileContext(names: set<string>, definitions: seq<Definition>, macros: Macros)
    requires forall d :: d in definitions ==> d.name in macros && macros[d.name] == d
    requires forall n :: n in macros ==> macros[n] in definitions && macros[n].name == n
    ensures BuildContext(File(names, definitions)) == Table(names, macros)
  {
    hide SignatureOf;
    var manifest := File(names, definitions);
    assert AllDefinitions(manifest[1..]) == [] && AllNames(manifest[1..]) == {} && AllBodyless(manifest[1..]) == {};
    assert AllDefinitions(manifest) == definitions;
    forall n: string ensures n in Selected(definitions) <==> n in macros
                     ensures n in macros ==> Selected(definitions)[n] == macros[n]
    {
      hide Selected;
      SelectedIsUnambiguous(definitions, n);
    }
    assert Selected(definitions) == macros;
  }

  // ---------------------------------------------------------------- dependencies

  function FormalNames(d: Definition): set<string> {
    (if d.parameters.None? then {} else set k | 0 <= k < |d.parameters.value| :: d.parameters.value[k])
    + (if d.variadic.Some? then {d.variadic.value} else {}) + {VA_ARGS}
  }

  /** The identifiers of the replacement text, without the parameters and the macro's own name. */
  ghost function Dependencies(d: Definition): set<string> {
    Idents(d.replacement) - FormalNames(d) - {d.name}
  }

  method DefinitionDependencies(d: Definition) returns (dependencies: set<string>)
    ensures dependencies == Dependencies(d)
  {
    hide InIdent, WordEnd, FormalNames;
    var formals := FormalNames(d);
    dependencies := {};
    var text := d.replacement;
    var i := 0;
    CutAtEnds(text);
    while i < |text|
      invariant Cut(text, i)
      invariant dependencies == (set p: nat | p < |text| && p < i && StartsAt(text, p) :: Word(text, p)) - formals -
          {d.name}
    {
      if IsIdentStart(text[i]) {
        CutStarts(text, i);
        NoStartInside(text, i);
        var name := Word(text, i);
        if name !in formals && name != d.name {
          dependencies := dependencies + {name};
        }
        i := WordEnd(text, i);
      } else {
        CutStep(text, i);
        i := i + 1;
      }
    }
  }

  /** No identifier starts inside another. */
  lemma NoStartInside(t: string, i: nat)
    requires StartsAt(t, i)
    ensures forall p: nat :: i < p < WordEnd(t, i) ==> !StartsAt(t, p)
  {
    forall p: nat | i < p < WordEnd(t, i) ensures InIdent(t[..p]) {
      WordReachesEnd(t, i, p);
    }
  }

  /** The raw-token check: does the text mention any of the names? */
  method SourceReferencesAnyCppMacro(source: string, names: set<string>) returns (found: bool)
    ensures found <==> !Avoids(source, names)
  {
    if names == {} {
      return false;
    }
    var i := 0;
    CutAtEnds(source);
    while i < |source|
      invariant Cut(source, i)
      invariant forall p: nat :: p < i && StartsAt(source, p) ==> Word(source, p) !in names
    {
      if IsIdentStart(source[i]) {
        CutStarts(source, i);
        NoStartInside(source, i);
        if Word(source, i) in names {
          return true;
        }
        i := WordEnd(source, i);
      } else {
        CutStep(source, i);
        i := i + 1;
      }
    }
    return false;
  }
}
