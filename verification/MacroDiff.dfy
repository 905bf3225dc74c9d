/**
 Which macro names a change of context affects: the names whose own meaning changed,
 the macros that paste tokens, and every macro that can expand through one of them in
 either context. The program computes this with a worklist; the set is the least one
 that contains the seeds and is closed under "depends on".
 */
module MacroDiff {
  import opened Options
  import opened Text
  import opened MacroScan
  import opened Replacing
  import opened MacroApply
  import opened Substitution
  import opened MacroExpand
  import opened MacroContext

  /** What the diff compares of one name: whether it is bodyless, and the signature of its definition. */
  datatype Meaning = Meaning(bodyless: bool, signature: Option<Signature>)

  function MeaningOf(context: Context, name: string): Option<Meaning> {
    if name !in context.names then None
    else Some(Meaning(name in context.bodylessNames,
                      if name in context.definitions then Some(SignatureOf(context.definitions[name])) else None))
  }

  function BothNames(previous: Context, current: Context): set<string> {
    previous.names + current.names
  }

  function ChangedNames(previous: Context, current: Context): set<string> {
    set n | n in BothNames(previous, current) && MeaningOf(previous, n) != MeaningOf(current, n)
  }

  predicate Opaque(context: Context, name: string) {
    name in context.names && name in context.definitions && HasPaste(context.definitions[name].replacement)
  }

  /** In `context`, the definition of `name` mentions `dependency`. */
  ghost predicate DependsIn(context: Context, name: string, dependency: string) {
    name in context.names && name in context.definitions && dependency in Dependencies(context.definitions[name])
  }

  ghost predicate DependsOn(previous: Context, current: Context, name: string, dependency: string) {
    dependency in BothNames(previous, current) &&
        (DependsIn(previous, name, dependency) || DependsIn(current, name, dependency))
  }

  ghost predicate Closed(previous: Context, current: Context, names: set<string>) {
    forall name, dependency :: dependency in names && DependsOn(previous, current, name, dependency) ==> name in names
  }

  /** The macros that paste in either context. */
  function Pasting(previous: Context, current: Context): set<string> {
    set n | n in BothNames(previous, current) && (Opaque(previous, n) || Opaque(current, n))
  }

  function Seeds(previous: Context, current: Context): set<string> {
    ChangedNames(previous, current) + Pasting(previous, current)
  }

  /** The names in every closed set that contains `seeds`. */
  ghost function Closure(previous: Context, current: Context, seeds: set<string>): set<string> {
    set n | n in BothNames(previous, current) &&
            forall s: set<string> :: seeds <= s && Closed(previous, current, s) ==> n in s
  }

  lemma ClosureIsLeast(previous: Context, current: Context, seeds: set<string>)
    requires seeds <= BothNames(previous, current)
    ensures seeds <= Closure(previous, current, seeds) && Closed(previous, current, Closure(previous, current, seeds))
    ensures forall s: set<string> :: seeds <= s && Closed(previous, current, s) ==>
        Closure(previous, current, seeds) <= s
  {
    hide DependsIn;
    var closure := Closure(previous, current, seeds);
    forall name, dependency | dependency in closure && DependsOn(previous, current, name, dependency)
      ensures name in closure
    {
      assert name in BothNames(previous, current) by { DependsIsNamed(previous, current, name, dependency); }
    }
  }

  /** What lies in every closed set around the seeds; nothing when nothing changed. */
  ghost function Affected(previous: Context, current: Context): set<string> {
    if ChangedNames(previous, current) == {} then {} else Closure(previous, current, Seeds(previous, current))
  }

  lemma AffectedIsLeast(previous: Context, current: Context)
    requires ChangedNames(previous, current) != {}
    ensures Seeds(previous, current) <= Affected(previous, current)
    ensures Closed(previous, current, Affected(previous, current))
    ensures forall s: set<string> :: Seeds(previous, current) <= s && Closed(previous, current, s) ==>
        Affected(previous, current) <= s
  {
    hide Closure, Closed, Opaque, MeaningOf;
    ClosureIsLeast(previous, current, Seeds(previous, current));
  }

  lemma DependsIsNamed(previous: Context, current: Context, name: string, dependency: string)
    requires DependsOn(previous, current, name, dependency)
    ensures name in BothNames(previous, current)
  {
  }

  /** A closed set that contains the seeds and lies in every such set is the affected set. */
  lemma LeastIsAffected(previous: Context, current: Context, names: set<string>)
    requires ChangedNames(previous, current) != {}
    requires Seeds(previous, current) <= names && Closed(previous, current, names)
    requires names <= Affected(previous, current)
    ensures names == Affected(previous, current)
  {
    AffectedIsLeast(previous, current);
  }

  // ---------------------------------------------------------------- the worklist

  type Reverse = map<string, set<string>>

  function DependentsIn(reverse: Reverse, dependency: string): set<string> {
    if dependency in reverse then reverse[dependency] else {}
  }

  predicate Lists(reverse: Reverse, dependency: string, name: string) {
    name in DependentsIn(reverse, dependency)
  }

  /** `reverse` records exactly the dependencies on `all` of the names `done` in `context`, and those of `base`. */
  ghost predicate Records(reverse: Reverse, base: Reverse, context: Context, all: set<string>, done: set<string>) {
    forall name, dependency ::
      Lists(reverse, dependency, name) <==>
      Lists(base, dependency, name) || (name in done && dependency in all && DependsIn(context, name, dependency))
  }

  /** Add one context's dependencies to the reverse graph, and collect its pasting macros. */
  method AddDependencies(base: Reverse, context: Context, all: set<string>)
    returns (reverse: Reverse, opaqueMacros: set<string>)
    ensures Records(reverse, base, context, all, context.names)
    ensures opaqueMacros == set n | n in context.names && Opaque(context, n)
  {
    hide HasPaste, Dependencies;
    reverse, opaqueMacros := base, {};
    var todo := context.names;
    while todo != {}
      invariant todo <= context.names
      invariant Records(reverse, base, context, all, context.names - todo)
      invariant opaqueMacros == set n | n in context.names - todo && Opaque(context, n)
    {
      var name :| name in todo;
      ghost var done, before := context.names - todo, reverse;
      todo := todo - {name};
      if name in context.definitions {
        var d := context.definitions[name];
        if HasPaste(d.replacement) {
          opaqueMacros := opaqueMacros + {name};
        }
        var dependencies := DefinitionDependencies(d);
        reverse := AddDependent(reverse, name, dependencies, all);
      }
      assert context.names - todo == done + {name};
      assert Records(reverse, before, context, all, {name});
      RecordsChain(reverse, before, base, context, all, done, {name});
    }
  }

  lemma RecordsChain(reverse: Reverse, middle: Reverse, base: Reverse, context: Context, all: set<string>,
      done: set<string>, more: set<string>)
    requires Records(middle, base, context, all, done) && Records(reverse, middle, context, all, more)
    ensures Records(reverse, base, context, all, done + more)
  {
    hide DependsIn, Lists;
  }

  method AddDependent(base: Reverse, name: string, dependencies: set<string>, all: set<string>)
    returns (reverse: Reverse)
    ensures forall n, dependency ::
              Lists(reverse, dependency, n) <==>
              Lists(base, dependency, n) || (n == name && dependency in all && dependency in dependencies)
  {
    reverse := base;
    var todo := dependencies;
    while todo != {}
      invariant todo <= dependencies
      invariant forall n, dependency ::
                  Lists(reverse, dependency, n) <==>
                  Lists(base, dependency, n) || (n == name && dependency in all && dependency in dependencies - todo)
    {
      var dependency :| dependency in todo;
      ghost var before := reverse;
      todo := todo - {dependency};
      if dependency in all {
        reverse := reverse[dependency := DependentsIn(reverse, dependency) + {name}];
      }
      assert forall n, d :: Lists(reverse, d, n) <==> Lists(before, d, n) || (n == name && d == dependency && d in all);
    }
  }

  ghost predicate Listed(queue: seq<string>, names: set<string>) {
    (forall n :: n in queue <==> n in names) && |queue| == |names|
  }

  /** The dependents of every listed name up to `index` are in `names`. */
  ghost predicate Propagated(reverse: Reverse, queue: seq<string>, index: nat, names: set<string>)
    requires index <= |queue|
  {
    forall k :: 0 <= k < index ==> DependentsIn(reverse, queue[k]) <= names
  }

  ghost predicate Reverses(reverse: Reverse, previous: Context, current: Context) {
    forall name, dependency :: Lists(reverse, dependency, name) <==> DependsOn(previous, current, name, dependency)
  }

  method ListOf(names: set<string>) returns (queue: seq<string>)
    ensures Listed(queue, names)
  {
    queue := [];
    var todo := names;
    while todo != {}
      invariant todo <= names && Listed(queue, names - todo)
    {
      var n :| n in todo;
      assert names - (todo - {n}) == (names - todo) + {n};
      todo := todo - {n};
      queue := queue + [n];
    }
    assert names - todo == names;
  }

  /** One worklist step: add the dependents of a name that are not yet affected. */
  method AddAffected(dependents: set<string>, names0: set<string>, queue0: seq<string>)
    returns (names: set<string>, queue: seq<string>)
    requires Listed(queue0, names0)
    ensures names == names0 + dependents && Listed(queue, names) && queue0 <= queue
  {
    names, queue := names0, queue0;
    var todo := dependents;
    while todo != {}
      invariant todo <= dependents
      invariant names == names0 + (dependents - todo) && Listed(queue, names) && queue0 <= queue
    {
      var n :| n in todo;
      todo := todo - {n};
      if n !in names {
        names := names + {n};
        queue := queue + [n];
      }
    }
  }

  method DiffCppMacroContexts(previous: Context, current: Context) returns (changed: set<string>, affected: set<string>)
    ensures changed == ChangedNames(previous, current)
    ensures affected == Affected(previous, current)
  {
    hide MeaningOf, Opaque, DependsIn;
    var all := BothNames(previous, current);
    changed := set n | n in all && MeaningOf(previous, n) != MeaningOf(current, n);
    if changed == {} {
      return changed, {};
    }
    var reverse, opaque1 := AddDependencies(map[], previous, all);
    var reverse2, opaque2 := AddDependencies(reverse, current, all);
    assert Reverses(reverse2, previous, current) by { BothRecorded(reverse, reverse2, previous, current); }
    affected := changed + (opaque1 + opaque2);
    assert affected == Seeds(previous, current) by { OpaqueNamed(previous, current, opaque1, opaque2); }
    AffectedIsLeast(previous, current);
    affected := Propagate(reverse2, affected, previous, current);
    LeastIsAffected(previous, current, affected);
  }

  method Propagate(reverse: Reverse, seeds: set<string>, ghost previous: Context, ghost current: Context)
    returns (affected: set<string>)
    requires Reverses(reverse, previous, current)
    requires ChangedNames(previous, current) != {} && seeds == Seeds(previous, current)
    ensures seeds <= affected && Closed(previous, current, affected) && affected <= Affected(previous, current)
  {
    hide MeaningOf, Opaque, DependsOn, Affected, Seeds, ChangedNames;
    AffectedIsLeast(previous, current);
    affected := seeds;
    var queue := ListOf(affected);
    var index := 0;
    while index < |queue|
      invariant index <= |queue| && Listed(queue, affected)
      invariant seeds <= affected <= Affected(previous, current)
      invariant Propagated(reverse, queue, index, affected)
      decreases |Affected(previous, current)| - index
    {
      SubsetIsSmaller(affected, Affected(previous, current));
      var dependents := DependentsIn(reverse, queue[index]);
      assert dependents <= Affected(previous, current) by { ClosedHolds(reverse, previous, current, queue[index]); }
      affected, queue := AddAffected(dependents, affected, queue);
      index := index + 1;
    }
    forall name, dependency | dependency in affected && DependsOn(previous, current, name, dependency)
        ensures name in affected {
      var k :| 0 <= k < |queue| && queue[k] == dependency;
      assert Lists(reverse, dependency, name);
    }
  }

  lemma ClosedHolds(reverse: Reverse, previous: Context, current: Context, dependency: string)
    requires Reverses(reverse, previous, current) && Closed(previous, current, Affected(previous, current))
    requires dependency in Affected(previous, current)
    ensures DependentsIn(reverse, dependency) <= Affected(previous, current)
  {
    forall name | name in DependentsIn(reverse, dependency) ensures name in Affected(previous, current) {
      assert Lists(reverse, dependency, name);
    }
  }

  lemma {:induction false} SubsetIsSmaller(a: set<string>, b: set<string>)
    requires a <= b
    ensures |a| <= |b|
  {
    if a != {} {
      var x :| x in a;
      SubsetIsSmaller(a - {x}, b - {x});
    }
  }

  lemma BothRecorded(reverse: Reverse, reverse2: Reverse, previous: Context, current: Context)
    requires Records(reverse, map[], previous, BothNames(previous, current), previous.names)
    requires Records(reverse2, reverse, current, BothNames(previous, current), current.names)
    ensures Reverses(reverse2, previous, current)
  {
  }

  lemma OpaqueNamed(previous: Context, current: Context, opaque1: set<string>, opaque2: set<string>)
    requires opaque1 == set n | n in previous.names && Opaque(previous, n)
    requires opaque2 == set n | n in current.names && Opaque(current, n)
    ensures ChangedNames(previous, current) + (opaque1 + opaque2) == Seeds(previous, current)
  {
  }
}
