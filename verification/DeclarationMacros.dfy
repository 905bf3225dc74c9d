/**
 Replacing the macro invocations of one source file that expand to declarations: the
 scan that finds and expands them, the assembly of the new text, and two facts about
 the result. It keeps every line in place, and it depends on the project-wide context
 only through the names the source mentions.
 */
module DeclarationMacros {
  import opened Options
  import opened Text
  import opened MacroScan
  import opened Replacing
  import opened MacroApply
  import opened Substitution
  import opened MacroExpand
  import opened MacroContext

  const MAX_SOURCE_INVOCATIONS := 4096

  /**
   The tests the scan is given: which expansions look like declarations, and which
   positions (line, column) may hold one, by the lexical and by the full test.
   */
  datatype Scope = Scope(accepts: string -> bool, lexical: (nat, nat) -> bool, declaration: (nat, nat) -> bool)

  datatype Replacement = Replacement(start: nat, end: nat, text: string, line: nat, name: string)

  datatype Outcome = Outcome(replacements: seq<Replacement>, regular: bool)

  datatype DeclarationExpansion = DeclarationExpansion(source: string, invocationLines: set<nat>,
      expandedMacroNames: set<string>)

  // ---------------------------------------------------------------- lines

  /** The 1-based line on which position `k` lies. */
  function Line(t: string, k: nat): nat
    requires k <= |t|
  {
    1 + Count(t[..k], '\n')
  }

  /** The position at which the line of `k` begins. */
  function LineStart(t: string, k: nat): (s: nat)
    requires k <= |t|
    ensures s <= k
  {
    if k == 0 || t[k - 1] == '\n' then k else LineStart(t, k - 1)
  }

  function Newlines(n: nat): string {
    seq(n, _ => '\n')
  }

  function JoinLines(t: string, i: nat): string
    requires i <= |t|
    decreases |t| - i
  {
    if i == |t| then ""
    else if t[i] == '\n' then " " + JoinLines(t, i + 1)
    else if MatchesAt(t, i, "\r\n") then " " + JoinLines(t, i + 2)
    else [t[i]] + JoinLines(t, i + 1)
  }

  function Spaces(n: nat): string {
    seq(n, _ => ' ')
  }

  /** Blank out `//` comments, leaving quoted text alone. */
  function EraseFrom(t: string, i: nat, out: string): string
    requires i <= |t|
    decreases |t| - i
  {
    if i == |t| then out
    else if IsQuote(t[i]) then
      var end := QuotedEnd(t, t[i], i + 1);
      EraseFrom(t, end, out + t[i..end])
    else if MatchesAt(t, i, "//") then
      var end := LineCommentEnd(t, i);
      EraseFrom(t, end, out + Spaces(end - i))
    else EraseFrom(t, i + 1, out + [t[i]])
  }

  method EraseLineComments(t: string) returns (out: string)
    ensures out == EraseFrom(t, 0, "")
  {
    hide MatchesAt;
    out := "";
    var i := 0;
    while i < |t|
      invariant i <= |t| && EraseFrom(t, 0, "") == EraseFrom(t, i, out)
    {
      if IsQuote(t[i]) {
        var end := SkipQuoted(t, i);
        out := out + t[i..end];
        i := end;
      } else if MatchesAt(t, i, "//") {
        CommentAdvances(t, i);
        var end := LineCommentEnd(t, i);
        out := out + Spaces(end - i);
        i := end;
      } else {
        out := out + [t[i]];
        i := i + 1;
      }
    }
  }

  lemma CommentAdvances(t: string, i: nat)
    requires MatchesAt(t, i, "//")
    ensures i < LineCommentEnd(t, i) <= |t|
  {
  }

  /** The text put in place of an invocation: one line, and the newlines of what it replaces. */
  function Flattened(expanded: string, original: string): string {
    JoinLines(EraseFrom(expanded, 0, ""), 0) + Newlines(Count(original, '\n'))
  }

  // ---------------------------------------------------------------- lookup

  /** The file's own definitions of `name`, in order. */
  function Own(locals: seq<LocalDefinition>, name: string): seq<LocalDefinition> {
    if locals == [] then []
    else (if locals[0].definition.name == name then [locals[0]] else []) + Own(locals[1..], name)
  }

  /** The last of the candidates that begins before `offset`; the scan stops at the first that does not. */
  function LastBefore(candidates: seq<LocalDefinition>, offset: nat, selected: Option<Definition>): Option<Definition> {
    if candidates == [] || candidates[0].start >= offset then selected
    else LastBefore(candidates[1..], offset, Some(candidates[0].definition))
  }

  function GlobalDefinition(globals: Macros, name: string): Option<Definition> {
    if name in globals then Some(globals[name]) else None
  }

  /** The definition an invocation at `offset` uses: the file's own, once it has been passed, or the project's. */
  function DefinitionForOffset(name: string, offset: nat, globals: Macros,
      locals: seq<LocalDefinition>): Option<Definition> {
    var selected := LastBefore(Own(locals, name), offset, None);
    if selected.Some? then selected else GlobalDefinition(globals, name)
  }

  predicate OneSpelling(candidates: seq<LocalDefinition>) {
    forall k :: 0 <= k < |candidates| ==> SignatureOf(candidates[k].definition) == SignatureOf(candidates[0].definition)
  }

  function OwnNames(locals: seq<LocalDefinition>): set<string> {
    set k | 0 <= k < |locals| :: locals[k].definition.name
  }

  /** The file's own definitions that are unique in it. */
  function UniqueLocals(locals: seq<LocalDefinition>): Macros {
    map name | name in OwnNames(locals) && Own(locals, name) != [] &&
        OneSpelling(Own(locals, name)) :: Own(locals, name)[0].definition
  }

  /** The table for expansions inside expansions. */
  function ExpansionMacros(globals: Macros, locals: seq<LocalDefinition>): Macros {
    globals + UniqueLocals(locals)
  }

  // ---------------------------------------------------------------- the scan

  predicate IsDirectiveStart(t: string, i: nat)
    requires i < |t|
  {
    t[i] == '#' && forall k :: LineStart(t, i) <= k < i ==> t[k] in " \t\r"
  }

  datatype Project = Project(globals: Macros, locals: seq<LocalDefinition>, scope: Scope)

  /** What becomes of the invocation of `d` at `start`: None when it is left alone. */
  function Replace(source: string, start: nat, name: string, d: Definition, args: seq<string>, end: nat,
      project: Project): (r: Option<Replacement>)
    requires start <= end <= |source|
    ensures r.Some? ==> r.value.start == start && r.value.end == end && r.value.line == Line(source, start)
  {
    var result := ExpandInvocation(name, d, args, ExpansionMacros(project.globals, project.locals), 1, {});
    var column := start - LineStart(source, start);
    if result.None? || !project.scope.accepts(result.value.text) || |result.value.text| > MAX_EXPANSION_BYTES
       || !project.scope.declaration(Line(source, start), column)
    then None
    else Some(Replacement(start, end, Flattened(result.value.text, source[start..end]), Line(source, start), name))
  }

  function RegularAt(name: string, d: Definition, args: seq<string>, project: Project): bool {
    var result := ExpandInvocation(name, d, args, ExpansionMacros(project.globals, project.locals), 1, {});
    result.Some? ==> result.value.regular
  }

  /** The scan of `source` from `i` on, with the replacements found so far. */
  function ScanSource(source: string, i: nat, found: seq<Replacement>, regular: bool, project: Project): Outcome
    requires i <= |source|
    decreases |source| - i
  {
    if i == |source| || |found| >= MAX_SOURCE_INVOCATIONS then Outcome(found, regular)
    else
      var e := SkipInert(source, i);
      if e > i then ScanSource(source, e, found, regular, project)
      else if IsDirectiveStart(source, i) then ScanSource(source, DirectiveEnd(source, i), found, regular, project)
      else if !IsIdentStart(source[i]) then ScanSource(source, i + 1, found, regular, project)
      else
        var w := WordEnd(source, i);
        var name := source[i..w];
        var d := DefinitionForOffset(name, i, project.globals, project.locals);
        var invocation := if d.Some? then InvocationOf(source, w, d.value) else None;
        if invocation.None? then ScanSource(source, w, found, regular, project)
        else
          var Invocation(args, end) := invocation.value;
          if !project.scope.lexical(Line(source, i), i - LineStart(source, i))
              then ScanSource(source, end, found, regular, project)
          else
            var regular' := regular && RegularAt(name, d.value, args, project);
            var replacement := Replace(source, i, name, d.value, args, end, project);
            if replacement.None? then ScanSource(source, w, found, regular', project)
            else ScanSource(source, end, found + [replacement.value], regular', project)
  }

  /** The source with the replacements made, from `cursor` on. */
  function Assemble(source: string, cursor: nat, replacements: seq<Replacement>): string
    requires Placed(source, cursor, replacements)
    decreases |replacements|
  {
    if replacements == [] then source[cursor..]
    else
      var r := replacements[0];
      source[cursor..r.start] + r.text + Assemble(source, r.end, replacements[1..])
  }

  /**
   The replacements are in order, do not overlap, lie after `cursor`; each has as many
   newlines as what it replaces, and its recorded line is the line it begins on.
   */
  predicate Placed(source: string, cursor: nat, replacements: seq<Replacement>)
    decreases |replacements|
  {
    cursor <= |source| &&
    (replacements != [] ==>
       var r := replacements[0];
       && cursor <= r.start < r.end <= |source|
       && Count(r.text, '\n') == Count(source[r.start..r.end], '\n')
       && r.line == Line(source, r.start)
       && Placed(source, r.end, replacements[1..]))
  }

  function Expanded(source: string, project: Project): DeclarationExpansion
  {
    ScanPlaces(source, project);
    var found := ScanSource(source, 0, [], true, project).replacements;
    DeclarationExpansion(
      Assemble(source, 0, found),
      set k | 0 <= k < |found| :: found[k].line,
      set k | 0 <= k < |found| :: found[k].name)
  }

  lemma {:induction false} PlacedAppend(source: string, cursor: nat, replacements: seq<Replacement>, r: Replacement)
    requires Placed(source, cursor, replacements)
    requires (if replacements == [] then cursor else replacements[|replacements| - 1].end) <= r.start < r.end <=
        |source|
    requires Count(r.text, '\n') == Count(source[r.start..r.end], '\n') && r.line == Line(source, r.start)
    ensures Placed(source, cursor, replacements + [r])
    decreases |replacements|
  {
    hide Count;
    if replacements != [] {
      PlacedAppend(source, replacements[0].end, replacements[1..], r);
      assert (replacements + [r])[1..] == replacements[1..] + [r];
    }
  }

  lemma {:induction false} NewlinesCount(n: nat)
    ensures Count(Newlines(n), '\n') == n
  {
    if n > 0 {
      NewlinesCount(n - 1);
      assert Newlines(n)[1..] == Newlines(n - 1);
    }
  }

  lemma {:induction false} JoinedHasNoNewline(t: string, i: nat)
    requires i <= |t|
    ensures Count(JoinLines(t, i), '\n') == 0
    decreases |t| - i
  {
    if i < |t| {
      var step := if t[i] == '\n' then i + 1 else if MatchesAt(t, i, "\r\n") then i + 2 else i + 1;
      JoinedHasNoNewline(t, step);
      assert JoinLines(t, i)[1..] == JoinLines(t, step);
    }
  }

  lemma FlattenedNewlines(expanded: string, original: string)
    ensures Count(Flattened(expanded, original), '\n') == Count(original, '\n')
  {
    hide EraseFrom, JoinLines, Newlines;
    var joined := JoinLines(EraseFrom(expanded, 0, ""), 0);
    JoinedHasNoNewline(EraseFrom(expanded, 0, ""), 0);
    NewlinesCount(Count(original, '\n'));
    CountJoin(joined, Newlines(Count(original, '\n')), '\n');
  }

  /** The replacements found are placed, whatever the project and its tests. */
  lemma {:induction false} ScanPlacesFrom(source: string, i: nat, found: seq<Replacement>, regular: bool,
      project: Project)
    requires i <= |source| && Placed(source, 0, found)
    requires found != [] ==> found[|found| - 1].end <= i
    ensures Placed(source, 0, ScanSource(source, i, found, regular, project).replacements)
    decreases |source| - i
  {
    hide SkipInert, Count, InvocationOf, Replace, RegularAt, DefinitionForOffset, IsDirectiveStart, WordEnd, LineStart,
         DirectiveEnd;
    if i < |source| && |found| < MAX_SOURCE_INVOCATIONS {
      var e := SkipInert(source, i);
      if e > i {
        ScanPlacesFrom(source, e, found, regular, project);
      } else if IsDirectiveStart(source, i) {
        DirectiveAdvances(source, i);
        ScanPlacesFrom(source, DirectiveEnd(source, i), found, regular, project);
      } else if !IsIdentStart(source[i]) {
        ScanPlacesFrom(source, i + 1, found, regular, project);
      } else {
        WordIsIdent(source, i);
        var w := WordEnd(source, i);
        var name := source[i..w];
        var d := DefinitionForOffset(name, i, project.globals, project.locals);
        var invocation := if d.Some? then InvocationOf(source, w, d.value) else None;
        if invocation.None? {
          ScanPlacesFrom(source, w, found, regular, project);
        } else {
          var Invocation(args, end) := invocation.value;
          var regular' := regular && RegularAt(name, d.value, args, project);
          var replacement := Replace(source, i, name, d.value, args, end, project);
          if !project.scope.lexical(Line(source, i), i - LineStart(source, i)) {
            ScanPlacesFrom(source, end, found, regular, project);
          } else if replacement.None? {
            ScanPlacesFrom(source, w, found, regular', project);
          } else {
            ReplaceKeepsNewlines(source, i, name, d.value, args, end, project);
            PlacedAppend(source, 0, found, replacement.value);
            ScanPlacesFrom(source, end, found + [replacement.value], regular', project);
          }
        }
      }
    }
  }

  lemma DirectiveAdvances(source: string, i: nat)
    requires i < |source| && IsDirectiveStart(source, i)
    ensures i < DirectiveEnd(source, i) <= |source| && source[i] == '#'
    ensures DirectiveEnd(source, i) < |source| ==> source[DirectiveEnd(source, i)] == '\n'
  {
    hide LineStart;
  }

  lemma ReplaceKeepsNewlines(source: string, start: nat, name: string, d: Definition, args: seq<string>, end: nat,
      project: Project)
    requires start <= end <= |source|
    ensures var r := Replace(source, start, name, d, args, end, project);
            r.Some? ==> Count(r.value.text, '\n') == Count(source[start..end], '\n')
  {
    hide ExpandInvocation, Count, Flattened, LineStart;
    var result := ExpandInvocation(name, d, args, ExpansionMacros(project.globals, project.locals), 1, {});
    if result.Some? {
      FlattenedNewlines(result.value.text, source[start..end]);
    }
  }

  lemma ScanPlaces(source: string, project: Project)
    ensures Placed(source, 0, ScanSource(source, 0, [], true, project).replacements)
  {
    ScanPlacesFrom(source, 0, [], true, project);
  }

  // ---------------------------------------------------------------- every line stays in place

  /** Replacing invocations changes neither the number of lines ... */
  lemma {:induction false} AssembleKeepsNewlines(source: string, cursor: nat, replacements: seq<Replacement>)
    requires Placed(source, cursor, replacements)
    ensures Count(Assemble(source, cursor, replacements), '\n') == Count(source[cursor..], '\n')
    decreases |replacements|
  {
    hide Count;
    if replacements != [] {
      var r := replacements[0];
      var rest := Assemble(source, r.end, replacements[1..]);
      AssembleKeepsNewlines(source, r.end, replacements[1..]);
      CountJoin(source[cursor..r.start] + r.text, rest, '\n');
      CountJoin(source[cursor..r.start], r.text, '\n');
      assert source[cursor..] == source[cursor..r.start] + source[r.start..r.end] + source[r.end..];
      CountJoin(source[cursor..r.start] + source[r.start..r.end], source[r.end..], '\n');
      CountJoin(source[cursor..r.start], source[r.start..r.end], '\n');
    }
  }

  /** Position `k` of the source is not inside a replaced invocation. */
  predicate Kept(replacements: seq<Replacement>, k: nat) {
    forall n :: 0 <= n < |replacements| ==> !(replacements[n].start <= k < replacements[n].end)
  }

  /** Where position `k` of the source lands in the assembled text. */
  function Offset(source: string, cursor: nat, replacements: seq<Replacement>, k: nat): nat
    requires Placed(source, cursor, replacements) && cursor <= k
    decreases |replacements|
  {
    if replacements == [] || k < replacements[0].end then k - cursor
    else
      var r := replacements[0];
      r.start - cursor + |r.text| + Offset(source, r.end, replacements[1..], k)
  }

  /** ... nor the line of any character that is kept. */
  lemma {:induction false} KeptCharacterKeepsItsLine(source: string, cursor: nat, replacements: seq<Replacement>,
      k: nat)
    requires Placed(source, cursor, replacements) && cursor <= k < |source| && Kept(replacements, k)
    ensures var out, p := Assemble(source, cursor, replacements), Offset(source, cursor, replacements, k);
            p < |out| && out[p] == source[k] && Count(out[..p], '\n') == Count(source[cursor..k], '\n')
    decreases |replacements|
  {
    hide Count;
    var out := Assemble(source, cursor, replacements);
    if replacements != [] {
      var r := replacements[0];
      assert !(r.start <= k < r.end);
      var head, rest := source[cursor..r.start] + r.text, Assemble(source, r.end, replacements[1..]);
      if k < r.start {
        assert out[..k - cursor] == source[cursor..k];
      } else {
        assert Kept(replacements[1..], k) by {
          forall n | 0 <= n < |replacements[1..]|
              ensures !(replacements[1..][n].start <= k < replacements[1..][n].end) {
            assert replacements[1..][n] == replacements[n + 1];
          }
        }
        KeptCharacterKeepsItsLine(source, r.end, replacements[1..], k);
        var q := Offset(source, r.end, replacements[1..], k);
        assert out == head + rest && out[..|head| + q] == head + rest[..q];
        CountJoin(head, rest[..q], '\n');
        CountJoin(source[cursor..r.start], r.text, '\n');
        assert source[cursor..k] == source[cursor..r.start] + source[r.start..r.end] + source[r.end..k];
        CountJoin(source[cursor..r.start] + source[r.start..r.end], source[r.end..k], '\n');
        CountJoin(source[cursor..r.start], source[r.start..r.end], '\n');
      }
    } else {
      assert out[..k - cursor] == source[cursor..k];
    }
  }

  /**
   Line preservation: the expanded source has as many lines as the source, every
   character outside a replaced invocation is on the line it was on, and the recorded
   lines are those on which the replaced invocations begin.
   */
  lemma LinesPreserved(source: string, project: Project)
    ensures Count(Expanded(source, project).source, '\n') == Count(source, '\n')
    ensures var found := ScanSource(source, 0, [], true, project).replacements;
            Placed(source, 0, found) &&
            (forall k: nat :: k < |source| && Kept(found, k) ==>
               var out, p := Expanded(source, project).source, Offset(source, 0, found, k);
               p < |out| && out[p] == source[k] && Line(out, p) == Line(source, k)) &&
            (forall n :: 0 <= n < |found| ==>
                found[n].start < |source| && found[n].line == Line(source, found[n].start))
  {
    hide Count;
    var found := ScanSource(source, 0, [], true, project).replacements;
    ScanPlaces(source, project);
    AssembleKeepsNewlines(source, 0, found);
    assert source[0..] == source;
    forall k: nat | k < |source| && Kept(found, k)
      ensures var out, p := Expanded(source, project).source, Offset(source, 0, found, k);
              p < |out| && out[p] == source[k] && Line(out, p) == Line(source, k)
    {
      KeptCharacterKeepsItsLine(source, 0, found, k);
      assert source[0..k] == source[..k];
    }
    forall n | 0 <= n < |found| ensures found[n].start < |source| && found[n].line == Line(source, found[n].start) {
      PlacedLine(source, 0, found, n);
    }
  }

  lemma {:induction false} PlacedLine(source: string, cursor: nat, replacements: seq<Replacement>, n: nat)
    requires Placed(source, cursor, replacements) && n < |replacements|
    ensures replacements[n].start < |source| && replacements[n].line == Line(source, replacements[n].start)
    decreases |replacements|
  {
    if n > 0 {
      PlacedLine(source, replacements[0].end, replacements[1..], n - 1);
    }
  }

  // ---------------------------------------------------------------- the method

  method AdvanceLineState(source: string, from: nat, to: nat, line0: nat, lineStart0: nat)
    returns (line: nat, lineStart: nat)
    requires from <= to <= |source| && line0 == Line(source, from) && lineStart0 == LineStart(source, from)
    ensures line == Line(source, to) && lineStart == LineStart(source, to)
  {
    line, lineStart := line0, lineStart0;
    for k := from to to
      invariant line == Line(source, k) && lineStart == LineStart(source, k)
    {
      LineSteps(source, k);
      if source[k] == '\n' {
        line, lineStart := line + 1, k + 1;
      }
    }
  }

  lemma LineSteps(source: string, k: nat)
    requires k < |source|
    ensures Line(source, k + 1) == Line(source, k) + (if source[k] == '\n' then 1 else 0)
    ensures LineStart(source, k + 1) == if source[k] == '\n' then k + 1 else LineStart(source, k)
  {
    assert source[..k + 1] == source[..k] + [source[k]];
    CountJoin(source[..k], [source[k]], '\n');
  }

  /** An identifier lies on one line. */
  lemma {:induction false} SameLine(source: string, i: nat, j: nat)
    requires i <= j <= |source| && forall k :: i <= k < j ==> source[k] != '\n'
    ensures Line(source, j) == Line(source, i) && LineStart(source, j) == LineStart(source, i)
    decreases j - i
  {
    if i < j {
      LineSteps(source, j - 1);
      SameLine(source, i, j - 1);
    }
  }

  /** The first characters of all names that have a definition. */
  function Initials(globals: Macros, locals: seq<LocalDefinition>): set<char> {
    set n | n in globals.Keys + OwnNames(locals) && n != "" :: n[0]
  }

  lemma {:induction false} OwnIsNamed(locals: seq<LocalDefinition>, name: string)
    ensures name !in OwnNames(locals) ==> Own(locals, name) == []
  {
    if locals != [] {
      OwnIsNamed(locals[1..], name);
      assert locals[0].definition.name in OwnNames(locals);
      assert OwnNames(locals[1..]) <= OwnNames(locals);
    }
  }

  /** An identifier whose first character begins no known name has no definition, wherever it stands. */
  lemma FilterIsExact(name: string, offset: nat, globals: Macros, locals: seq<LocalDefinition>)
    requires name != "" && name[0] !in Initials(globals, locals)
    ensures DefinitionForOffset(name, offset, globals, locals).None?
  {
    assert forall n :: n in globals.Keys + OwnNames(locals) && n != "" ==> n[0] in Initials(globals, locals);
    OwnIsNamed(locals, name);
  }

  lemma {:induction false} NothingDefined(source: string, i: nat, regular: bool, project: Project)
    requires i <= |source| && project.globals == map[] && project.locals == []
    ensures ScanSource(source, i, [], regular, project).replacements == []
    decreases |source| - i
  {
    hide SkipInert, IsDirectiveStart, DirectiveEnd, WordEnd;
    if i < |source| {
      var e := SkipInert(source, i);
      if e > i {
        NothingDefined(source, e, regular, project);
      } else if IsDirectiveStart(source, i) {
        DirectiveAdvances(source, i);
        NothingDefined(source, DirectiveEnd(source, i), regular, project);
      } else if !IsIdentStart(source[i]) {
        NothingDefined(source, i + 1, regular, project);
      } else {
        WordIsIdent(source, i);
        NothingDefined(source, WordEnd(source, i), regular, project);
      }
    }
  }

  lemma NothingExpanded(source: string, project: Project)
    requires project.globals == map[] && project.locals == []
    ensures Expanded(source, project) == DeclarationExpansion(source, {}, {})
  {
    NothingDefined(source, 0, true, project);
    assert source[0..] == source;
  }

  /** Expand one invocation and decide whether the result goes into the source. */
  method TryReplace(source: string, start: nat, name: string, d: Definition, args: seq<string>, end: nat,
      project: Project, line: nat, column: nat)
    returns (r: Option<Replacement>)
    requires start <= end <= |source| && line == Line(source, start) && column == start - LineStart(source, start)
    ensures r == Replace(source, start, name, d, args, end, project)
  {
    hide ExpandInvocation, EraseFrom, LineStart, Count;
    var expanded := ExpandOne(name, d, args, ExpansionMacros(project.globals, project.locals), 1, {});
    if expanded.None? || !project.scope.accepts(expanded.value) || |expanded.value| > MAX_EXPANSION_BYTES ||
        !project.scope.declaration(line, column) {
      return None;
    }
    var erased := EraseLineComments(expanded.value);
    return Some(Replacement(start, end, JoinLines(erased, 0) + Newlines(Count(source[start..end], '\n')), line, name));
  }

  method ExpandDeclarationMacros(source: string, globals: Macros, scope: Scope) returns (r: DeclarationExpansion)
    ensures r == Expanded(source, Project(globals, LocalDefinitions(source), scope))
  {
    hide SkipInert, Line, LineStart, InvocationOf, DefinitionForOffset, RegularAt, WordEnd, DirectiveEnd,
         IsDirectiveStart, Replace, LocalDefinitions, Initials, Assemble, Placed;
    var locals := ScanCppMacroDefinitions(source);
    var project := Project(globals, locals, scope);
    if globals == map[] && locals == [] {
      NothingExpanded(source, project);
      return DeclarationExpansion(source, {}, {});
    }
    var initials := Initials(globals, locals);
    var found: seq<Replacement> := [];
    ghost var regular := true;
    var line, lineStart, i := 1, 0, 0;
    StartOfText(source);
    while i < |source| && |found| < MAX_SOURCE_INVOCATIONS
      invariant i <= |source| && line == Line(source, i) && lineStart == LineStart(source, i)
      invariant ScanSource(source, 0, [], true, project) == ScanSource(source, i, found, regular, project)
    {
      var e := SkipInert(source, i);
      if e > i {
        line, lineStart := AdvanceLineState(source, i, e, line, lineStart);
        i := e;
        continue;
      }
      if IsDirectiveStart(source, i) {
        DirectiveAdvances(source, i);
        var end := FindDirectiveEnd(source, i);
        line, lineStart := AdvanceLineState(source, i, end, line, lineStart);
        i := end;
        continue;
      }
      if !IsIdentStart(source[i]) {
        line, lineStart := AdvanceLineState(source, i, i + 1, line, lineStart);
        i := i + 1;
        continue;
      }
      WordIsIdent(source, i);
      var start, w := i, WordEnd(source, i);
      SameLine(source, i, w);
      var name := source[start..w];
      if source[start] !in initials {
        FilterIsExact(name, start, globals, locals);
        i := w;
        continue;
      }
      var d := DefinitionForOffset(name, start, globals, locals);
      if d.None? {
        i := w;
        continue;
      }
      var invocation := InvocationOf(source, w, d.value);
      if invocation.None? {
        i := w;
        continue;
      }
      var Invocation(args, end) := invocation.value;
      var column := start - lineStart;
      if !scope.lexical(line, column) {
        line, lineStart := AdvanceLineState(source, start, end, line, lineStart);
        i := end;
        continue;
      }
      regular := regular && RegularAt(name, d.value, args, project);
      var replacement := TryReplace(source, start, name, d.value, args, end, project, line, column);
      if replacement.None? {
        i := w;
        continue;
      }
      found := found + [replacement.value];
      line, lineStart := AdvanceLineState(source, start, end, line, lineStart);
      i := end;
    }
    ScanPlaces(source, project);
    var text := AssembleChunks(source, found);
    return DeclarationExpansion(
        text,
        set k | 0 <= k < |found| :: found[k].line,
        set k | 0 <= k < |found| :: found[k].name);
  }

  lemma StartOfText(source: string)
    ensures Line(source, 0) == 1 && LineStart(source, 0) == 0
  {
  }

  method AssembleChunks(source: string, replacements: seq<Replacement>) returns (text: string)
    requires Placed(source, 0, replacements)
    ensures text == Assemble(source, 0, replacements)
  {
    hide Count, Line, Placed, Assemble;
    text := "";
    var cursor: nat := 0;
    assert replacements[0..] == replacements;
    PlacedStep(source, 0, replacements);
    for k := 0 to |replacements|
      invariant cursor <= |source| && Placed(source, cursor, replacements[k..])
      invariant Assemble(source, 0, replacements) == text + Assemble(source, cursor, replacements[k..])
    {
      var r := replacements[k];
      assert replacements[k..][0] == r && replacements[k..][1..] == replacements[k + 1..];
      PlacedStep(source, cursor, replacements[k..]);
      PlacedStep(source, r.end, replacements[k + 1..]);
      Regroup(text, source[cursor..r.start], r.text, Assemble(source, r.end, replacements[k + 1..]));
      text := text + source[cursor..r.start] + r.text;
      cursor := r.end;
    }
    assert replacements[|replacements|..] == [];
    PlacedStep(source, cursor, []);
    text := text + source[cursor..];
  }

  lemma Regroup(a: string, b: string, c: string, d: string)
    ensures a + (b + c + d) == a + b + c + d
  {
  }

  lemma PlacedStep(source: string, cursor: nat, replacements: seq<Replacement>)
    requires Placed(source, cursor, replacements)
    ensures cursor <= |source|
    ensures replacements == [] ==> Assemble(source, cursor, replacements) == source[cursor..]
    ensures replacements != [] ==>
        var r := replacements[0];
        && cursor <= r.start < r.end <= |source| && Placed(source, r.end, replacements[1..])
        && Assemble(source, cursor, replacements) == source[cursor..r.start] + r.text +
            Assemble(source, r.end, replacements[1..])
  {
  }
}
