/**
 Why a macro is affected by a change of context: it changed, or it pastes tokens, or it
 mentions a macro that is affected. Every affected macro has such a chain of reasons, and
 no other macro is affected.
 */
module AffectedReasons {
  import opened Options
  import opened Text
  import opened MacroScan
  import opened Replacing
  import opened MacroContext
  import opened MacroDiff

  /** The name has the same meaning in both contexts: spelled alike, and with an empty body in both or neither. */
  predicate SameMeaning(previous: Context, current: Context, name: string) {
    && (name in previous.bodylessNames <==> name in current.bodylessNames)
    && (name in previous.definitions <==> name in current.definitions)
    && (name in previous.definitions ==> SpeltTheSame(previous.definitions[name], current.definitions[name]))
  }

  predicate SpeltTheSame(d: Definition, e: Definition) {
    d.parameters == e.parameters && d.variadic == e.variadic && Normalize(d.replacement) == Normalize(e.replacement)
  }

  /** A name listed in one of the contexts changed exactly if it is not listed in the other, or means something else. */
  lemma ChangedIsExact(previous: Context, current: Context, name: string)
    ensures name in ChangedNames(previous, current) <==>
        (name in previous.names || name in current.names) &&
        !(name in previous.names && name in current.names && SameMeaning(previous, current, name))
  {
    hide Normalize;
  }

  /** The definition mentions the name, and not as a parameter or as itself. */
  ghost predicate Mentions(d: Definition, name: string) {
    && name in Idents(d.replacement) && name != d.name && name != "__VA_ARGS__"
    && !(d.variadic.Some? && d.variadic.value == name) && !(d.parameters.Some? && name in d.parameters.value)
  }

  /** In one of the contexts the definition of `name` mentions the macro `other`. */
  ghost predicate ExpandsThrough(previous: Context, current: Context, name: string, other: string) {
    && (other in previous.names || other in current.names)
    && ((name in previous.names && name in previous.definitions && Mentions(previous.definitions[name], other)) ||
        (name in current.names && name in current.definitions && Mentions(current.definitions[name], other)))
  }

  /** In one of the contexts the definition of `name` pastes tokens. */
  ghost predicate Pastes(previous: Context, current: Context, name: string) {
    || (name in previous.names && name in previous.definitions && HasPaste(previous.definitions[name].replacement))
    || (name in current.names && name in current.definitions && HasPaste(current.definitions[name].replacement))
  }

  lemma ExpandsThroughIs(previous: Context, current: Context, name: string, other: string)
    ensures ExpandsThrough(previous, current, name, other) <==> DependsOn(previous, current, name, other)
  {
    hide Idents;
    if name in previous.definitions { MentionsIs(previous.definitions[name], other); }
    if name in current.definitions { MentionsIs(current.definitions[name], other); }
    hide Mentions, Dependencies;
  }

  lemma MentionsIs(d: Definition, name: string)
    ensures Mentions(d, name) <==> name in Dependencies(d)
  {
    hide Idents;
    assert d.parameters.Some? && name in d.parameters.value ==> name in FormalNames(d);
  }

  lemma SeedsAre(previous: Context, current: Context, name: string)
    ensures name in Seeds(previous, current) <==>
        name in ChangedNames(previous, current) || Pastes(previous, current, name)
  {
    hide HasPaste, MeaningOf;
  }

  /** Each macro of the chain expands through the next, and the last one changed or pastes. */
  ghost predicate Chain(previous: Context, current: Context, names: seq<string>) {
    && names != []
    && (forall k :: 0 <= k < |names| - 1 ==> ExpandsThrough(previous, current, names[k], names[k + 1]))
    && (names[|names| - 1] in ChangedNames(previous, current) || Pastes(previous, current, names[|names| - 1]))
  }

  ghost predicate HasReason(previous: Context, current: Context, name: string) {
    exists names :: Chain(previous, current, names) && names[0] == name
  }

  lemma {:induction false} ChainIsAffected(previous: Context, current: Context, names: seq<string>)
    requires ChangedNames(previous, current) != {} && Chain(previous, current, names)
    ensures names[0] in Affected(previous, current)
    decreases |names|
  {
    hide Affected, Seeds, ChangedNames, ExpandsThrough, Pastes, DependsOn;
    AffectedIsLeast(previous, current);
    if |names| == 1 {
      SeedsAre(previous, current, names[0]);
    } else {
      assert ExpandsThrough(previous, current, names[0], names[0 + 1]);
      assert forall k :: 0 <= k < |names| - 1 ==> names[1..][k] == names[k + 1];
      ChainIsAffected(previous, current, names[1..]);
      ExpandsThroughIs(previous, current, names[0], names[1]);
    }
  }

  lemma ChainMore(previous: Context, current: Context, name: string, names: seq<string>)
    requires Chain(previous, current, names) && ExpandsThrough(previous, current, name, names[0])
    ensures Chain(previous, current, [name] + names)
  {
    hide ExpandsThrough, Pastes, ChangedNames;
    var more := [name] + names;
    forall k | 0 <= k < |more| - 1 ensures ExpandsThrough(previous, current, more[k], more[k + 1]) {
      if k > 0 {
        assert ExpandsThrough(previous, current, names[k - 1], names[k - 1 + 1]);
      }
    }
  }

  /** The listed macros that have a reason. */
  ghost function WithReason(previous: Context, current: Context): set<string> {
    set n | n in BothNames(previous, current) && HasReason(previous, current, n)
  }

  lemma ReasonsAreClosed(previous: Context, current: Context)
    ensures Seeds(previous, current) <= WithReason(previous, current)
    ensures Closed(previous, current, WithReason(previous, current))
  {
    hide ExpandsThrough, Pastes, ChangedNames, Seeds, DependsOn, MeaningOf, Opaque;
    forall n | n in Seeds(previous, current) ensures n in WithReason(previous, current) {
      SeedsAre(previous, current, n);
      assert Chain(previous, current, [n]) && [n][0] == n;
      SeedIsNamed(previous, current, n);
    }
    forall name, other | other in WithReason(previous, current) && DependsOn(previous, current, name, other)
      ensures name in WithReason(previous, current)
    {
      var names :| Chain(previous, current, names) && names[0] == other;
      ExpandsThroughIs(previous, current, name, other);
      ChainMore(previous, current, name, names);
      assert ([name] + names)[0] == name;
      DependsIsNamed(previous, current, name, other);
    }
  }

  lemma SeedIsNamed(previous: Context, current: Context, n: string)
    requires n in Seeds(previous, current)
    ensures n in BothNames(previous, current)
  {
    hide HasPaste, MeaningOf;
  }

  /** A macro is affected exactly if some macro changed, and a chain leads from it to one that changed or pastes. */
  lemma AffectedHasReason(previous: Context, current: Context, name: string)
    ensures name in Affected(previous, current) <==>
        ChangedNames(previous, current) != {} && HasReason(previous, current, name)
  {
    hide ChangedNames, Seeds, Closed, ExpandsThrough, Pastes, Closure;
    if ChangedNames(previous, current) == {} {
      assert Affected(previous, current) == {};
    } else {
      hide Affected;
      AffectedIsLeast(previous, current);
      ReasonsAreClosed(previous, current);
      if HasReason(previous, current, name) {
        var names :| Chain(previous, current, names) && names[0] == name;
        ChainIsAffected(previous, current, names);
      }
    }
  }
}
