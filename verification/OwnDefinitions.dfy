/**
 Which of a file's own definitions an invocation uses, and which ones help to expand what
 it expands to.
 */
module OwnDefinitions {
  import opened Options
  import opened Text
  import opened MacroScan
  import opened MacroExpand
  import opened MacroContext
  import opened DeclarationMacros

  ghost predicate Ascending(locals: seq<LocalDefinition>) {
    forall i, j :: 0 <= i < j < |locals| ==> locals[i].start < locals[j].start
  }

  /** Definition `k` is one of `name` that has been passed at `offset`. */
  ghost predicate Passed(locals: seq<LocalDefinition>, name: string, offset: nat, k: nat) {
    k < |locals| && locals[k].definition.name == name && locals[k].start < offset
  }

  // ---------------------------------------------------------------- the definitions of a file

  lemma {:induction false} ScanAscends(source: string, offset: nat, found: seq<LocalDefinition>)
    requires offset <= |source| && Ascending(found)
    requires forall k :: 0 <= k < |found| ==> found[k].start < offset && source[found[k].start] == '#'
    ensures var r := ScanFrom(source, offset, found);
            Ascending(r) && forall k :: 0 <= k < |r| ==> r[k].start < |source| && source[r[k].start] == '#'
    decreases |source| - offset
  {
    hide DirectiveEnd, LineDefinition, Find, MatchesAt, SkipBlanks;
    if offset < |source| {
      var newline := Find(source, "\n", offset);
      var first := SkipBlanks(source, offset);
      if first < |source| && source[first] == '#' {
        var end := DirectiveEnd(source, first);
        EndsLater(source, first);
        OneAtMost(source, first, end);
        ScanAscends(source, if end < |source| then end + 1 else end, found + LineDefinition(source, first, end));
      } else {
        ScanAscends(source, if newline == |source| then newline else newline + 1, found);
      }
    }
  }

  lemma EndsLater(source: string, first: nat)
    requires first < |source| && source[first] == '#'
    ensures first < DirectiveEnd(source, first)
  {
  }

  lemma OneAtMost(source: string, first: nat, end: nat)
    requires first <= end <= |source|
    ensures |LineDefinition(source, first, end)| <= 1
    ensures forall l :: l in LineDefinition(source, first, end) ==> l.start == first
  {
    hide DefineAt, ParseDefinition;
  }

  /** A file's definitions come in the order in which they stand, each at its own `#`. */
  lemma DefinitionsAscend(source: string)
    ensures var r := LocalDefinitions(source);
            Ascending(r) && forall k :: 0 <= k < |r| ==> r[k].start < |source| && source[r[k].start] == '#'
  {
    ScanAscends(source, 0, []);
  }

  // ---------------------------------------------------------------- the definition an invocation uses

  lemma {:induction false} OwnMembers(locals: seq<LocalDefinition>, name: string)
    ensures forall l :: l in Own(locals, name) <==> l in locals && l.definition.name == name
  {
    if locals != [] {
      OwnMembers(locals[1..], name);
      assert forall l :: l in locals <==> l == locals[0] || l in locals[1..];
    }
  }

  lemma {:induction false} OwnAscends(locals: seq<LocalDefinition>, name: string)
    requires Ascending(locals)
    ensures Ascending(Own(locals, name))
  {
    if locals != [] {
      var rest := locals[1..];
      OwnAscends(rest, name);
      OwnMembers(rest, name);
      FirstIsLeast(locals, Own(rest, name));
      OwnStep(locals, name);
      hide Own;
      AscendsFrom(locals[0], Own(rest, name));
    }
  }

  lemma OwnStep(locals: seq<LocalDefinition>, name: string)
    requires locals != []
    ensures Own(locals, name) ==
        if locals[0].definition.name == name then [locals[0]] + Own(locals[1..], name) else Own(locals[1..], name)
  {
  }

  lemma FirstIsLeast(locals: seq<LocalDefinition>, some: seq<LocalDefinition>)
    requires locals != [] && Ascending(locals) && forall l :: l in some ==> l in locals[1..]
    ensures forall k :: 0 <= k < |some| ==> locals[0].start < some[k].start
  {
    forall k | 0 <= k < |some| ensures locals[0].start < some[k].start {
      assert some[k] in some;
      var j :| 0 <= j < |locals| - 1 && locals[1..][j] == some[k];
    }
  }

  lemma AscendsFrom(first: LocalDefinition, rest: seq<LocalDefinition>)
    requires Ascending(rest) && forall k :: 0 <= k < |rest| ==> first.start < rest[k].start
    ensures Ascending([first] + rest)
  {
  }

  ghost predicate Latest(candidates: seq<LocalDefinition>, offset: nat, l: LocalDefinition) {
    l.start < offset && forall m :: m in candidates && m.start < offset ==> m.start <= l.start
  }

  /** Among ascending candidates the latest that begins before `offset` is selected. */
  lemma {:induction false} LatestIsSelected(candidates: seq<LocalDefinition>, offset: nat, selected: Option<Definition>)
    requires Ascending(candidates)
    ensures var r := LastBefore(candidates, offset, selected);
            && ((forall l :: l in candidates ==> l.start >= offset) ==> r == selected)
            && forall l :: l in candidates && Latest(candidates, offset, l) ==> r == Some(l.definition)
  {
    if candidates != [] && candidates[0].start < offset {
      var first, rest := candidates[0], candidates[1..];
      LatestIsSelected(rest, offset, Some(first.definition));
      assert forall l :: l in candidates <==> l == first || l in rest;
      var r := LastBefore(candidates, offset, selected);
      forall l | l in candidates && Latest(candidates, offset, l) ensures r == Some(l.definition)
      {
        if l !in rest {
          assert forall m :: m in rest ==> m.start > first.start;
        }
      }
    } else if candidates != [] {
      assert forall k :: 0 <= k < |candidates| ==> candidates[0].start <= candidates[k].start;
    }
  }

  /** An invocation uses the last of the file's own definitions of its name that it has passed. */
  lemma LastPassedIsUsed(name: string, offset: nat, globals: Macros, locals: seq<LocalDefinition>, k: nat)
    requires Ascending(locals) && Passed(locals, name, offset, k)
    requires forall j :: k < j && j < |locals| ==> !Passed(locals, name, offset, j)
    ensures DefinitionForOffset(name, offset, globals, locals) == Some(locals[k].definition)
  {
    hide Own, LastBefore;
    var own := Own(locals, name);
    OwnAscends(locals, name);
    OwnMembers(locals, name);
    LatestIsSelected(own, offset, None);
    forall m | m in own && m.start < offset ensures m.start <= locals[k].start {
      PassedIsEarlier(locals, name, offset, k, m);
    }
    assert Latest(own, offset, locals[k]) && locals[k] in own;
  }

  lemma PassedIsEarlier(locals: seq<LocalDefinition>, name: string, offset: nat, k: nat, m: LocalDefinition)
    requires Ascending(locals) && Passed(locals, name, offset, k)
    requires forall j :: k < j && j < |locals| ==> !Passed(locals, name, offset, j)
    requires m in locals && m.definition.name == name && m.start < offset
    ensures m.start <= locals[k].start
  {
    var j :| 0 <= j < |locals| && locals[j] == m;
    assert Passed(locals, name, offset, j);
  }

  /** One that has passed none uses the project's definition, if there is one. */
  lemma NonePassedIsGlobal(name: string, offset: nat, globals: Macros, locals: seq<LocalDefinition>)
    requires Ascending(locals) && forall k: nat :: !Passed(locals, name, offset, k)
    ensures DefinitionForOffset(name, offset, globals, locals) ==
        if name in globals then Some(globals[name]) else None
  {
    hide Own, LastBefore;
    var own := Own(locals, name);
    OwnAscends(locals, name);
    OwnMembers(locals, name);
    LatestIsSelected(own, offset, None);
    forall l | l in own ensures l.start >= offset {
      var j :| 0 <= j < |locals| && locals[j] == l;
      assert !Passed(locals, name, offset, j);
    }
  }

  // ---------------------------------------------------------------- the table for helpers

  /** Definition `k` is the first one of its name. */
  ghost predicate First(locals: seq<LocalDefinition>, k: nat) {
    k < |locals| && forall j :: 0 <= j < k ==> locals[j].definition.name != locals[k].definition.name
  }

  ghost predicate SpeltAlike(locals: seq<LocalDefinition>, name: string) {
    forall i, j ::
      0 <= i < |locals| && 0 <= j < |locals| && locals[i].definition.name == locals[j].definition.name == name ==>
        SignatureOf(locals[i].definition) == SignatureOf(locals[j].definition)
  }

  lemma {:induction false} FirstOfOwn(locals: seq<LocalDefinition>, k: nat)
    requires First(locals, k)
    ensures var own := Own(locals, locals[k].definition.name); own != [] && own[0] == locals[k]
  {
    if k > 0 {
      var rest := locals[1..];
      assert rest[k - 1] == locals[k];
      assert First(rest, k - 1) by {
        forall j | 0 <= j < k - 1 ensures rest[j].definition.name != locals[k].definition.name {
          assert rest[j] == locals[j + 1];
        }
      }
      FirstOfOwn(rest, k - 1);
    }
  }

  lemma AlikeIsOneSpelling(locals: seq<LocalDefinition>, name: string)
    ensures OneSpelling(Own(locals, name)) <==> SpeltAlike(locals, name)
  {
    hide SignatureOf;
    var own := Own(locals, name);
    OwnMembers(locals, name);
    if OneSpelling(own) {
      forall i, j | 0 <= i < |locals| && 0 <= j < |locals|
                    && locals[i].definition.name == locals[j].definition.name == name
        ensures SignatureOf(locals[i].definition) == SignatureOf(locals[j].definition)
      {
        assert locals[i] in own && locals[j] in own;
        var a :| 0 <= a < |own| && own[a] == locals[i];
        var b :| 0 <= b < |own| && own[b] == locals[j];
      }
    }
    if SpeltAlike(locals, name) {
      forall k | 0 <= k < |own| ensures SignatureOf(own[k].definition) == SignatureOf(own[0].definition) {
        assert own[k] in own && own[0] in own;
        var i :| 0 <= i < |locals| && locals[i] == own[k];
        var j :| 0 <= j < |locals| && locals[j] == own[0];
      }
    }
  }

  /**
   Inside expansions a name that the file defines, in one spelling only, means the file's
   first definition of it, and any other name means what it means in the project.
   */
  lemma HelpersAreUnambiguous(globals: Macros, locals: seq<LocalDefinition>, name: string)
    ensures var table := ExpansionMacros(globals, locals);
            && (forall k: nat :: First(locals, k) && locals[k].definition.name == name && SpeltAlike(locals, name) ==>
                  name in table && table[name] == locals[k].definition)
            && ((forall k :: 0 <= k < |locals| ==> locals[k].definition.name != name) || !SpeltAlike(locals, name) ==>
                  (name in table <==> name in globals) && (name in table ==> table[name] == globals[name]))
  {
    hide SignatureOf, OneSpelling, SpeltAlike, Own;
    AlikeIsOneSpelling(locals, name);
    OwnMembers(locals, name);
    forall k: nat | First(locals, k) && locals[k].definition.name == name ensures
      Own(locals, name) != [] && Own(locals, name)[0] == locals[k] && name in OwnNames(locals)
    {
      FirstOfOwn(locals, k);
    }
    if forall k :: 0 <= k < |locals| ==> locals[k].definition.name != name {
      assert name !in OwnNames(locals);
    }
  }
}
