/**
 Why invalidation soundness asks that files list the names they define: the two scans of a
 file disagree on a `#define` that is continued before its name.
 */
module UnlistedWitness {
  import opened Options
  import opened Text
  import opened MacroScan
  import opened MacroExpand
  import opened MacroContext
  import opened MacroDiff
  import opened DeclarationMacros
  import opened MacroInvalidation
  import opened MacroWitnesses
  import OwnPasteWitness
  import opened Spelling

  const START := "#define \\\n"

  /** Two lines: the directive is continued before its name. */
  function Continuing(body: string): string {
    START + "S " + body
  }

  /** A body on the second line without a sign that a scan looks for. */
  predicate Simple(body: string) {
    && body != "" && Trim(body) == body && |body| <= 64 && IsIdentStart(body[0])
    && '#' !in body && '\\' !in body && '\n' !in body
  }

  // ---------------------------------------------------------------- the scan of definitions

  lemma JoinStep(t: string, i: nat)
    requires i < |t| && t[i] != '\\'
    ensures JoinContinuations(t, i) == [t[i]] + JoinContinuations(t, i + 1)
  {
    OwnPasteWitness.NoMatch(t, i, "\\\n");
    OwnPasteWitness.NoMatch(t, i, "\\\r\n");
    hide MatchesAt;
  }

  lemma {:induction false} JoinCopies(t: string, i: nat, j: nat)
    requires i <= j <= |t| && forall k :: i <= k < j ==> t[k] != '\\'
    ensures JoinContinuations(t, i) == t[i..j] + JoinContinuations(t, j)
    decreases j - i
  {
    hide JoinContinuations;
    if i < j {
      JoinStep(t, i);
      JoinCopies(t, i + 1, j);
      assert [t[i]] + (t[i + 1..j] + JoinContinuations(t, j)) == t[i..j] + JoinContinuations(t, j);
    } else {
      assert t[i..j] == "";
    }
  }

  /** The characters of the two lines. */
  lemma Lines(body: string)
    requires Simple(body)
    ensures var t := Continuing(body);
            && |t| == 12 + |body| && t[..8] == t[0..8] == "#define " && t[8..10] == "\\\n" && t[10..] == "S " + body
            && t[0] == '#' && forall k :: 0 < k < |t| ==> t[k] != '#' && (t[k] == '\\' <==> k == 8)
  {
    var t := Continuing(body);
    assert forall k :: 0 <= k < 10 ==> t[k] == START[k];
    assert t[10] == 'S' && t[11] == ' ' && forall k :: 12 <= k < |t| ==> t[k] == body[k - 12] && body[k - 12] in body;
  }

  /** The joined directive. */
  lemma Joined(body: string)
    requires Simple(body)
    ensures JoinContinuations(Continuing(body), 0) == "#define  S " + body
  {
    var t := Continuing(body);
    Lines(body);
    hide Continuing, Simple;
    JoinCopies(t, 0, 8);
    JoinCopies(t, 10, |t|);
    assert MatchesAt(t, 8, "\\\n");
    hide MatchesAt;
    assert JoinContinuations(t, |t|) == "" && JoinContinuations(t, 8) == " " + JoinContinuations(t, 10);
    hide JoinContinuations;
    assert t[10..|t|] + "" == "S " + body;
    InOneLine(body);
  }

  lemma InOneLine(body: string)
    ensures "#define " + (" " + ("S " + body)) == "#define  S " + body
  {
    assert "#define " + " " == "#define  " && "#define  " + "S " == "#define  S ";
    assert "#define " + (" " + ("S " + body)) == "#define " + " " + "S " + body;
  }

  lemma NameFollows(body: string)
    requires Simple(body)
    ensures var t := "#define  S " + body; AfterDefine(t) == 9 && t[9..] == "S " + body
  {
    var t := "#define  S " + body;
    assert t[0] == '#' && t[1] == 'd' && t[1..7] == "define" && t[7] == ' ' && t[8] == ' ' && t[9] == 'S';
    assert SkipSpaces(t, 0) == 0 && SkipSpaces(t, 1) == 1;
    assert SkipSpaces(t, 9) == 9 && SkipSpaces(t, 8) == 9 && SkipSpaces(t, 7) == 9;
  }

  lemma BodyIsRead(body: string)
    requires Simple(body)
    ensures ReadDefinition("S " + body) == Some(ObjectMacro("S", body))
  {
    var text := "S " + body;
    assert text[1] == ' ' && WordEnd(text, 1) == 1 && WordEnd(text, 0) == 1 && text[..1] == "S";
    assert text[1..] == " " + body;
    TrimSpace(body);
    hide Trim, WordEnd;
  }

  lemma TrimSpace(body: string)
    requires Simple(body)
    ensures Trim(" " + body) == body
  {
    assert (" " + body)[1] == body[0] && (" " + body)[1..] == body && body[0..] == body;
    assert SkipSpaces(body, 0) == 0 && SkipSpaces(" " + body, 1) == 1;
  }

  /** The scan of definitions reads the definition. */
  lemma DefinitionIsFound(body: string)
    requires Simple(body)
    ensures LocalDefinitions(Continuing(body)) == [LocalDefinition(0, ObjectMacro("S", body))]
  {
    var t := Continuing(body);
    StartsDirective(body);
    DirectiveContinues(body);
    Joined(body);
    NameFollows(body);
    BodyIsRead(body);
    assert t[0..|t|] == t;
    hide Continuing, Simple, DefineAt, JoinContinuations, AfterDefine, ReadDefinition;
    assert ParseDefinition(t, 0, |t|) == Some(ObjectMacro("S", body));
    assert LineDefinition(t, 0, |t|) == [LocalDefinition(0, ObjectMacro("S", body))];
    OneDirective(t, LineDefinition(t, 0, |t|));
  }

  lemma OneDirective(t: string, found: seq<LocalDefinition>)
    requires HasDefine(t) && t != "" && t[0] == '#' && SkipBlanks(t, 0) == 0 && DirectiveEnd(t, 0) == |t|
    requires LineDefinition(t, 0, |t|) == found
    ensures LocalDefinitions(t) == found
  {
    hide HasDefine, SkipBlanks, DirectiveEnd, LineDefinition, Find;
    assert [] + found == found;
    assert ScanFrom(t, |t|, found) == found;
  }

  lemma StartsDirective(body: string)
    requires Simple(body)
    ensures var t := Continuing(body);
            DefineAt(t, 0) && HasDefine(t) && t[0] == '#' && SkipBlanks(t, 0) == 0 && |t| <= 128
  {
    var t := Continuing(body);
    assert t[0] == '#' && t[1] == 'd' && t[1..7] == "define" && t[7] == ' ';
    assert SkipSpaces(t, 1) == 1;
    assert DefineAt(t, 0);
  }

  lemma DirectiveContinues(body: string)
    requires Simple(body)
    ensures DirectiveEnd(Continuing(body), 0) == |Continuing(body)|
  {
    var t := Continuing(body);
    assert forall k :: 0 <= k < |START| ==> t[k] == START[k];
    assert t[8] == '\\' && t[9] == '\n' && t[10] == 'S' && t[11] == ' ';
    assert forall j :: 12 <= j < |t| ==> t[j] == body[j - 12] && body[j - 12] in body;
    OwnPasteWitness.FindsLine(t, 0, 9);
    OwnPasteWitness.FindsNoLine(t, 10);
    hide Find;
    assert Continued(t, 0, 9);
    assert DirectiveEndFrom(t, 0, 10) == |t|;
  }

  // ---------------------------------------------------------------- the scan of names

  /** The scan of names does not find the name. */
  lemma NothingIsListed(body: string)
    requires Simple(body)
    ensures ListedNames(Continuing(body)) == {}
  {
    var t := Continuing(body);
    Lines(body);
    hide Continuing, Simple;
    assert t[..8][7] == ' ' && t[..8][1] == 'd' && t[8..10][0] == '\\';
    assert t[7] == ' ' && t[1] == 'd' && t[8] == '\\' && t[..8][1..7] == t[1..7];
    assert SkipSpaces(t, 1) == 1 && SkipSpaces(t, 8) == 8;
    hide OpensLine, MatchesAt, SkipSpaces, WordEnd;
    assert NameAt(t, 0).None? by { AfterOneSpace(t); }
    assert forall i: nat :: 0 < i < |t| ==> NameAt(t, i).None?;
  }

  lemma AfterOneSpace(t: string)
    requires |t| > 8 && t[7] == ' ' && SkipSpaces(t, 8) == 8
    ensures SkipSpaces(t, 7) == 8
  {
  }

  // ---------------------------------------------------------------- the witness

  /** The manifest of a project with this one file. */
  function Scanned(body: string): Manifest {
    File({}, [ObjectMacro("S", body)])
  }

  lemma FileIsScanned(body: string)
    requires Simple(body)
    ensures |Scanned(body)| == 1 && ScansTo(Continuing(body), Scanned(body)[0].contribution)
  {
    hide LocalDefinitions, ListedNames;
    DefinitionIsFound(body);
    NothingIsListed(body);
  }

  lemma BodiesAreFlat()
    ensures BEFORE != AFTER && Flat(BEFORE) && Flat(AFTER) && '_' !in BEFORE + AFTER && 'S' !in BEFORE + AFTER &&
        |BEFORE| == |AFTER| == 6
  {
    assert BEFORE[4] != AFTER[4];
  }

  lemma BodiesAreSimple()
    ensures Simple(BEFORE) && Simple(AFTER)
  {
    assert BEFORE[5] == AFTER[5] == ';' && BEFORE[0] == AFTER[0] == 'i';
    assert SkipSpaces(BEFORE, 0) == 0 && BEFORE[0..] == BEFORE && TrimEnd(BEFORE) == BEFORE;
    assert SkipSpaces(AFTER, 0) == 0 && AFTER[0..] == AFTER && TrimEnd(AFTER) == AFTER;
  }

  /**
   The header `#define \`, a line end and `S int a;` is scanned to a definition of `S` and to
   no macro name. A definition whose name is not listed has no semantic entry, so editing it
   to `S int b;` affects nothing, and the source `S` is missed.
   */
  lemma UnlistedNameIsMissed(scope: Scope)
    requires Allows(scope, BEFORE) && Allows(scope, AFTER)
    ensures Continuing(BEFORE) == "#define \\\nS int a;" && Continuing(AFTER) == "#define \\\nS int b;"
    ensures |Scanned(BEFORE)| == |Scanned(AFTER)| == 1
    ensures ScansTo(Continuing(BEFORE), Scanned(BEFORE)[0].contribution)
    ensures ScansTo(Continuing(AFTER), Scanned(AFTER)[0].contribution)
    ensures Needed(NamesAreListed, Scanned(BEFORE), Scanned(AFTER), "S", scope)
  {
    hide Expanded, FormalsVisible, BuildContext, RegularUnder, SignatureOf, Allows, ScansTo, Simple;
    var a, b := ObjectMacro("S", BEFORE), ObjectMacro("S", AFTER);
    var first, second := Table({}, map["S" := a]), Table({}, map["S" := b]);
    FileContext({}, [a], map["S" := a]);
    FileContext({}, [b], map["S" := b]);
    BodiesAreFlat();
    BodiesAreSimple();
    FileIsScanned(BEFORE);
    FileIsScanned(AFTER);
    ObjectShows("S", BEFORE, Affected(first, second));
    ObjectShows("S", AFTER, Affected(first, second));
    ObjectSource({}, BEFORE, scope);
    ObjectSource({}, AFTER, scope);
    SignaturesDiffer(a, b);
    assert ChangedNames(first, second) == {} && Respelled(first, second) == {};
    hide Respelled, ChangedNames;
    assert forall c :: c != NamesAreListed ==> Meets(c, File({}, [a]), File({}, [b]), "S", scope);
    NeededBy(NamesAreListed, File({}, [a]), File({}, [b]), "S", scope, first, second);
  }
}
