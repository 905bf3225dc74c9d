/**
 Parameters are substituted one after another. Against the definition that substitutes
 them all at once, token by token, this makes a difference only when the argument of
 one parameter mentions a later one.
 */
module SubstitutionOrder {
  import opened Text
  import opened MacroScan
  import opened Replacing
  import opened MacroApply
  import opened Options
  import opened Substitution

  /** The end of the run of identifier characters at the start of the text. */
  function RunEnd(t: string): (e: nat)
    ensures e <= |t|
    ensures t != "" && IsIdentPart(t[0]) ==> e > 0
  {
    if t == "" || !IsIdentPart(t[0]) then 0 else 1 + RunEnd(t[1..])
  }

  lemma {:induction false} RunEndFacts(t: string)
    ensures forall k :: 0 <= k < RunEnd(t) ==> IsIdentPart(t[k])
    ensures RunEnd(t) < |t| ==> !IsIdentPart(t[RunEnd(t)])
  {
    if t != "" && IsIdentPart(t[0]) {
      RunEndFacts(t[1..]);
      forall k | 0 <= k < RunEnd(t) ensures IsIdentPart(t[k]) {
        if k > 0 {
          assert t[k] == t[1..][k - 1];
        }
      }
    }
  }

  /** The value bound to a word, or else the word itself. */
  function Lookup(values: Bindings, word: string): string {
    if values == [] then word else if values[0].0 == word then values[0].1 else Lookup(values[1..], word)
  }

  /** Every whole run of identifier characters is looked up, and nothing is looked at twice. */
  function AtOnce(t: string, values: Bindings): string {
    if t == "" then ""
    else if IsIdentPart(t[0]) then
      var e := RunEnd(t);
      Lookup(values, t[..e]) + AtOnce(t[e..], values)
    else [t[0]] + AtOnce(t[1..], values)
  }

  lemma RunEndIs(t: string, e: nat)
    requires e <= |t| && (forall k :: 0 <= k < e ==> IsIdentPart(t[k])) && (e == |t| || !IsIdentPart(t[e]))
    ensures RunEnd(t) == e
  {
    hide RunEnd, IsIdentPart;
    RunEndFacts(t);
  }

  /** A word matches just where it is a whole run. */
  lemma WordIsRun(t: string, i: nat, word: Identifier)
    requires i < |t| && IsIdentPart(t[i]) && (i == 0 || !IsIdentPart(t[i - 1]))
    ensures WordAt(t, i, word) <==> t[i..][..RunEnd(t[i..])] == word
  {
    var s := t[i..];
    var e := RunEnd(s);
    RunEndFacts(s);
    if WordAt(t, i, word) {
      assert s[..|word|] == word;
      assert forall k :: 0 <= k < |word| ==> s[k] == word[k];
      RunEndIs(s, |word|);
    }
    if s[..e] == word {
      assert t[i..i + e] == word;
      assert i + e < |t| ==> t[i + e] == s[e];
    }
  }

  lemma RunMatched(t: string, i: nat, word: Identifier, value: string)
    requires i < |t| && NoPattern(value) && WordAt(t, i, word)
    ensures i + |word| <= |t| && ReplaceWord(t, i, word, value) == value + ReplaceWord(t, i + |word|, word, value)
  {
    SubstitutePlain(value, word, t[..i], t[i + |word|..]);
    hide Substitute;
  }

  lemma NoMatchStep(t: string, i: nat, word: Identifier, value: string)
    requires i < |t| && !WordAt(t, i, word)
    ensures ReplaceWord(t, i, word, value) == [t[i]] + ReplaceWord(t, i + 1, word, value)
  {
  }

  lemma RunCopied(t: string, i: nat, j: nat, word: Identifier, value: string)
    requires i < j <= |t| && !WordAt(t, i, word) && forall k :: i <= k < j ==> IsIdentPart(t[k])
    ensures ReplaceWord(t, i, word, value) == t[i..j] + ReplaceWord(t, j, word, value)
  {
    hide ReplaceWord, WordAt, IsIdentPart;
    NoMatchStep(t, i, word, value);
    ReplaceWordCopies(t, i + 1, j, word, value);
    var rest := ReplaceWord(t, j, word, value);
    assert t[i..j] == [t[i]] + t[i + 1..j];
    assert [t[i]] + (t[i + 1..j] + rest) == [t[i]] + t[i + 1..j] + rest;
  }

  lemma RunReplaced(t: string, i: nat, word: Identifier, value: string)
    requires i < |t| && NoPattern(value) && IsIdentPart(t[i]) && (i == 0 || !IsIdentPart(t[i - 1]))
    ensures var e := RunEnd(t[i..]);
            i + e <= |t| && ReplaceWord(t, i, word, value) == Lookup([(word, value)], t[i..][..e]) +
                ReplaceWord(t, i + e, word, value)
  {
    hide WordAt, RunEnd, ReplaceWord, IsIdentPart, Lookup;
    var s := t[i..];
    var e := RunEnd(s);
    var run := s[..e];
    RunEndFacts(s);
    assert forall k :: i <= k < i + e ==> t[k] == s[k - i];
    WordIsRun(t, i, word);
    LookupOne(word, value, run);
    assert t[i..i + e] == run;
    if WordAt(t, i, word) {
      RunMatched(t, i, word, value);
    } else {
      RunCopied(t, i, i + e, word, value);
    }
  }

  lemma LookupOne(word: Identifier, value: string, run: string)
    ensures Lookup([(word, value)], run) == if run == word then value else run
  {
    assert [(word, value)][1..] == [];
  }

  lemma RunStops(t: string, i: nat)
    requires i < |t| && IsIdentPart(t[i])
    ensures var e := RunEnd(t[i..]); e > 0 && i + e <= |t| && (i + e == |t| || !IsIdentPart(t[i + e]))
  {
    hide RunEnd, IsIdentPart;
    RunEndFacts(t[i..]);
  }

  lemma RunIsAtOnce(t: string, i: nat, word: Identifier, value: string, e: nat)
    requires i < |t| && NoPattern(value) && IsIdentPart(t[i]) && (i == 0 || !IsIdentPart(t[i - 1]))
    requires e == RunEnd(t[i..]) && i + e <= |t| &&
        ReplaceWord(t, i + e, word, value) == AtOnce(t[i + e..], [(word, value)])
    ensures ReplaceWord(t, i, word, value) == AtOnce(t[i..], [(word, value)])
  {
    hide ReplaceWord, AtOnce, Lookup, RunEnd, IsIdentPart;
    AtOnceStep(t[i..], [(word, value)]);
    RunReplaced(t, i, word, value);
    assert t[i..][e..] == t[i + e..];
  }

  lemma CharIsAtOnce(t: string, i: nat, word: Identifier, value: string)
    requires i < |t| && !IsIdentPart(t[i]) && ReplaceWord(t, i + 1, word, value) == AtOnce(t[i + 1..], [(word, value)])
    ensures ReplaceWord(t, i, word, value) == AtOnce(t[i..], [(word, value)])
  {
    hide ReplaceWord, AtOnce, Lookup, RunEnd, IsIdentPart, WordAt;
    AtOnceStep(t[i..], [(word, value)]);
    NoWordHere(t, i, word);
    NoMatchStep(t, i, word, value);
    assert t[i..][1..] == t[i + 1..];
  }

  /** Replacing one word by a plain value is substituting it in every run. */
  lemma {:induction false} ReplaceWordIsAtOnce(t: string, i: nat, word: Identifier, value: string)
    requires i <= |t| && NoPattern(value) && (i == 0 || i == |t| || !IsIdentPart(t[i]) || !IsIdentPart(t[i - 1]))
    ensures ReplaceWord(t, i, word, value) == AtOnce(t[i..], [(word, value)])
    decreases |t| - i
  {
    hide IsIdentPart, RunEnd, WordAt, Substitute, Lookup;
    if i == |t| {
      assert t[i..] == "";
    } else if IsIdentPart(t[i]) {
      hide ReplaceWord, AtOnce;
      RunStops(t, i);
      ReplaceWordIsAtOnce(t, i + RunEnd(t[i..]), word, value);
      RunIsAtOnce(t, i, word, value, RunEnd(t[i..]));
    } else {
      hide ReplaceWord, AtOnce;
      ReplaceWordIsAtOnce(t, i + 1, word, value);
      CharIsAtOnce(t, i, word, value);
    }
  }

  lemma AtOnceStep(t: string, values: Bindings)
    requires t != ""
    ensures AtOnce(t, values) ==
        if IsIdentPart(t[0]) then Lookup(values, t[..RunEnd(t)]) + AtOnce(t[RunEnd(t)..], values)
            else [t[0]] + AtOnce(t[1..], values)
  {
  }

  lemma NoWordHere(t: string, i: nat, word: Identifier)
    requires i < |t| && !IsIdentPart(t[i])
    ensures !WordAt(t, i, word)
  {
  }

  lemma RunEndJoin(a: string, b: string)
    requires a != "" && (b == "" || !IsIdentPart(a[|a| - 1]) || !IsIdentPart(b[0]))
    ensures var e := RunEnd(a); RunEnd(a + b) == e && (a + b)[..e] == a[..e] && (a + b)[e..] == a[e..] + b
    ensures var e := RunEnd(a); a[e..] == "" || b == "" || !IsIdentPart(a[e..][|a| - e - 1]) || !IsIdentPart(b[0])
  {
    hide RunEnd, IsIdentPart;
    SameRunEnd(a, b);
    SliceJoin(a, b, RunEnd(a));
    LastOfTail(a, RunEnd(a));
  }

  lemma SameRunEnd(a: string, b: string)
    requires a != "" && (b == "" || !IsIdentPart(a[|a| - 1]) || !IsIdentPart(b[0]))
    ensures RunEnd(a + b) == RunEnd(a)
  {
    hide RunEnd, IsIdentPart;
    var t, e := a + b, RunEnd(a);
    RunEndFacts(a);
    assert forall k :: 0 <= k < |a| ==> t[k] == a[k];
    assert e == |a| && b != "" ==> t[e] == b[0];
    RunEndIs(t, e);
  }

  lemma LastOfTail(a: string, e: nat)
    requires e <= |a|
    ensures e < |a| ==> a[e..][|a| - e - 1] == a[|a| - 1]
  {
  }

  lemma SliceJoin(a: string, b: string, e: nat)
    requires e <= |a|
    ensures (a + b)[..e] == a[..e] && (a + b)[e..] == a[e..] + b
  {
  }

  lemma AtOnceNothing(values: Bindings)
    ensures AtOnce("", values) == ""
  {
  }

  /** Texts that do not run together are substituted apart. */
  lemma {:induction false} AtOnceJoin(a: string, b: string, values: Bindings)
    requires a == "" || b == "" || !IsIdentPart(a[|a| - 1]) || !IsIdentPart(b[0])
    ensures AtOnce(a + b, values) == AtOnce(a, values) + AtOnce(b, values)
    decreases |a|
  {
    hide AtOnce, IsIdentPart, Lookup, RunEnd;
    if a == "" {
      assert a + b == b;
      AtOnceNothing(values);
    } else {
      assert (a + b)[0] == a[0];
      AtOnceStep(a, values);
      AtOnceStep(a + b, values);
      if IsIdentPart(a[0]) {
        RunEndJoin(a, b);
        AtOnceJoin(a[RunEnd(a)..], b, values);
        Regroup(Lookup(values, a[..RunEnd(a)]), AtOnce(a[RunEnd(a)..], values), AtOnce(b, values));
      } else {
        assert (a + b)[1..] == a[1..] + b;
        AtOnceJoin(a[1..], b, values);
        Regroup([a[0]], AtOnce(a[1..], values), AtOnce(b, values));
      }
    }
  }

  lemma Regroup(a: string, b: string, c: string)
    ensures a + (b + c) == a + b + c
  {
  }

  lemma {:induction false} NothingBound(t: string)
    ensures AtOnce(t, []) == t
    decreases |t|
  {
    hide IsIdentPart;
    if t != "" {
      if IsIdentPart(t[0]) {
        var e := RunEnd(t);
        NothingBound(t[e..]);
        assert t == t[..e] + t[e..];
      } else {
        NothingBound(t[1..]);
      }
    }
  }

  /** Substituting the first parameter and then the others is substituting them all at once. */
  lemma {:induction false} FirstThenRest(t: string, first: (Identifier, string), rest: Bindings)
    requires AtOnce(first.1, rest) == first.1
    ensures AtOnce(AtOnce(t, [first]), rest) == AtOnce(t, [first] + rest)
    decreases |t|
  {
    hide AtOnce, IsIdentPart, Lookup, RunEnd;
    if t == "" {
      AtOnceNothing([first]);
      AtOnceNothing(rest);
      AtOnceNothing([first] + rest);
    } else {
      AtOnceStep(t, [first]);
      AtOnceStep(t, [first] + rest);
      if IsIdentPart(t[0]) {
        var e := RunEnd(t);
        RunEndFacts(t);
        FirstThenRest(t[e..], first, rest);
        TailStops(t[e..], [first]);
        AtOnceJoin(Lookup([first], t[..e]), AtOnce(t[e..], [first]), rest);
        RunThenRest(t[..e], first, rest);
      } else {
        FirstThenRest(t[1..], first, rest);
        AtOnceJoin([t[0]], AtOnce(t[1..], [first]), rest);
        OneChar(t[0], rest);
      }
    }
  }

  /** What a text that begins outside a run is turned into begins so too. */
  lemma TailStops(t: string, values: Bindings)
    requires t == "" || !IsIdentPart(t[0])
    ensures AtOnce(t, values) == "" || !IsIdentPart(AtOnce(t, values)[0])
  {
    hide IsIdentPart;
  }

  lemma OneChar(c: char, values: Bindings)
    requires !IsIdentPart(c)
    ensures AtOnce([c], values) == [c]
  {
    assert [c][1..] == "";
  }

  lemma RunThenRest(w: string, first: (Identifier, string), rest: Bindings)
    requires w != "" && forall k :: 0 <= k < |w| ==> IsIdentPart(w[k])
    requires AtOnce(first.1, rest) == first.1
    ensures AtOnce(Lookup([first], w), rest) == Lookup([first] + rest, w)
  {
    LookupOne(first.0, first.1, w);
    assert ([first] + rest)[1..] == rest;
    if w != first.0 {
      WholeRun(w, rest);
    }
  }

  lemma WholeRun(w: string, values: Bindings)
    requires w != "" && forall k :: 0 <= k < |w| ==> IsIdentPart(w[k])
    ensures AtOnce(w, values) == Lookup(values, w)
  {
    RunEndIs(w, |w|);
    assert w[..|w|] == w && w[|w|..] == "";
  }

  /** Substituting the later parameters leaves the value of each parameter as it is. */
  predicate Settled(values: Bindings) {
    forall i :: 0 <= i < |values| ==> SubstituteAll(values[i].1, values[i + 1..]) == values[i].1
  }

  predicate Distinct(values: Bindings) {
    forall i, j :: 0 <= i < j < |values| ==> values[i].0 != values[j].0
  }

  /** If the values are settled, substitution happens as if all at once. */
  lemma {:induction false} SubstitutedAtOnce(t: string, values: Bindings)
    requires NoPatterns(values) && Settled(values)
    ensures SubstituteAll(t, values) == AtOnce(t, values)
    decreases |values|
  {
    hide AtOnce, ReplaceWord;
    if values == [] {
      NothingBound(t);
    } else {
      var (word, value) := values[0];
      var rest := values[1..];
      assert values == [values[0]] + rest && values[0 + 1..] == rest;
      ReplaceWordIsAtOnce(t, 0, word, value);
      assert t[0..] == t;
      SettledTail(values);
      SubstitutedAtOnce(ReplaceWord(t, 0, word, value), rest);
      SubstitutedAtOnce(value, rest);
      FirstThenRest(t, values[0], rest);
    }
  }

  lemma SettledTail(values: Bindings)
    requires values != [] && Settled(values)
    ensures Settled(values[1..])
  {
    hide SubstituteAll;
    forall i | 0 <= i < |values[1..]| ensures SubstituteAll(values[1..][i].1, values[1..][i + 1..]) ==
        values[1..][i].1 {
      assert values[1..][i] == values[i + 1] && values[1..][i + 1..] == values[i + 1 + 1..];
    }
  }

  /** A parameter's name becomes its value, in which only the later parameters are substituted. */
  lemma {:induction false} NameBecomesValue(values: Bindings, i: nat)
    requires i < |values| && NoPatterns(values) && Distinct(values)
    ensures SubstituteAll(values[i].0, values) == SubstituteAll(values[i].1, values[i + 1..])
    ensures Lookup(values, values[i].0) == values[i].1
    decreases i
  {
    hide AtOnce, ReplaceWord;
    var name, rest := values[i].0, values[1..];
    IdentifierIsRun(name);
    WholeRun(name, [values[0]]);
    LookupOne(values[0].0, values[0].1, name);
    SubstituteOne(name, values, AtOnce(name, [values[0]]));
    if i > 0 {
      assert rest[i - 1] == values[i] && rest[i - 1 + 1..] == values[i + 1..];
      NameBecomesValue(rest, i - 1);
    }
  }

  /** Exactly settled values are substituted as if all at once, in every text. */
  lemma OrderIsImmaterial(values: Bindings)
    requires NoPatterns(values) && Distinct(values)
    ensures (forall t: string :: SubstituteAll(t, values) == AtOnce(t, values)) <==> Settled(values)
  {
    hide AtOnce, Lookup, SubstituteAll, NoPatterns;
    if Settled(values) {
      forall t: string ensures SubstituteAll(t, values) == AtOnce(t, values) { SubstitutedAtOnce(t, values); }
    } else {
      var i :| 0 <= i < |values| && SubstituteAll(values[i].1, values[i + 1..]) != values[i].1;
      NameBecomesValue(values, i);
      IdentifierIsRun(values[i].0);
      WholeRun(values[i].0, values);
      assert SubstituteAll(values[i].0, values) != AtOnce(values[i].0, values);
    }
  }

  lemma {:induction false} PutIsDistinct(values: Bindings, key: Identifier, value: string)
    requires Distinct(values)
    ensures Distinct(Put(values, key, value))
    ensures forall k :: 0 <= k < |Put(values, key, value)| ==>
        Put(values, key, value)[k].0 == key || exists j ::
        0 <= j < |values| && values[j].0 == Put(values, key, value)[k].0
  {
    if values != [] && values[0].0 != key {
      var rest := Put(values[1..], key, value);
      assert Distinct(values[1..]);
      PutIsDistinct(values[1..], key, value);
      forall k | 0 <= k < |rest| ensures rest[k].0 != values[0].0 &&
          (rest[k].0 == key || exists j :: 0 <= j < |values| && values[j].0 == rest[k].0) {
        if rest[k].0 != key {
          var j :| 0 <= j < |values[1..]| && values[1..][j].0 == rest[k].0;
          assert values[j + 1].0 == rest[k].0;
        }
      }
    }
  }

  lemma {:induction false} BindFromIsDistinct(d: Definition, args: seq<string>, i: nat, bound: Bindings)
    requires d.parameters.Some? && i <= |d.parameters.value| && Distinct(bound)
    ensures Distinct(BindFrom(d, args, i, bound))
    decreases |d.parameters.value| - i
  {
    hide Distinct, ArgumentFor;
    if i < |d.parameters.value| {
      var next := Put(bound, d.parameters.value[i], ArgumentFor(d, args, i));
      PutIsDistinct(bound, d.parameters.value[i], ArgumentFor(d, args, i));
      BindFromIsDistinct(d, args, i + 1, next);
    }
  }

  /** Every parameter is bound once. */
  lemma BindIsDistinct(d: Definition, args: seq<string>)
    requires d.parameters.Some?
    ensures Distinct(Bind(d, args))
  {
    hide BindFrom, Get;
    BindFromIsDistinct(d, args, 0, []);
    if d.variadic.Some? {
      PutIsDistinct(BindFrom(d, args, 0, []), VA_ARGS, Get(BindFrom(d, args, 0, []), d.variadic.value));
    }
  }

  lemma {:induction false} NothingStringified(t: string, values: Bindings)
    requires '#' !in t
    ensures StringifyAll(t, values) == t
    decreases |values|
  {
    if values != [] {
      NothingToStringify(t, 0, 0, values[0].0, Quoted(values[0].1));
      NothingStringified(t, values[1..]);
    }
  }

  /**
   A macro whose body has no `#` is applied by substituting all its expanded arguments at
   once, if these are settled; what is pasted afterwards is a `##` in an argument.
   */
  lemma ApplyIsSimultaneous(d: Definition, args: seq<string>, expanded: seq<string>)
    requires d.parameters.Some? && '#' !in d.replacement && NoPatterns(Bind(d, expanded)) && Settled(Bind(d, expanded))
    ensures Apply(d, args, expanded).Some? <==> |args| >= VariadicIndex(d)
    ensures |args| >= VariadicIndex(d) ==>
        Apply(d, args, expanded).value.text == PasteAll(AtOnce(d.replacement, Bind(d, expanded)))
    ensures |args| >= VariadicIndex(d) && !HasPaste(AtOnce(d.replacement, Bind(d, expanded))) ==>
        Apply(d, args, expanded).value.text == AtOnce(d.replacement, Bind(d, expanded))
  {
    hide Swallow, PasteRound, HasPaste, ReplaceWord, Stringify, AtOnce, Bind, Settled, NoPatterns;
    var t, values := d.replacement, Bind(d, args);
    HashFree(t);
    SwallowKeeps(d, values);
    NothingStringified(t, values);
    ShieldKeeps(t, values);
    SubstitutedAtOnce(t, Bind(d, expanded));
    hide ShieldAll, SubstituteAll, StringifyAll;
    assert RestoreAll(AtOnce(t, Bind(d, expanded)), []) == AtOnce(t, Bind(d, expanded));
  }

  /** With `a` bound to `b` and `b` to `c`, the text `a b` becomes `c c` instead of `b c`. */
  lemma LaterParameterIsReplacedAgain(a: Identifier, b: Identifier, c: char)
    requires a != b
    ensures SubstituteAll(a + " " + b, [(a, b), (b, [c])]) == [c] + " " + [c]
    ensures AtOnce(a + " " + b, [(a, b), (b, [c])]) == b + " " + [c]
  {
    hide ReplaceWord, IsIdentPart, AtOnce, OneRun;
    IdentifierIsRun(a);
    IdentifierIsRun(b);
    var first, second: Bindings := [(a, b)], [(b, [c])];
    var both := first + second;
    assert both == [(a, b), (b, [c])] && both[1..] == second && second[1..] == [];
    TwoWords(a, b, both);
    TwoWords(a, b, first);
    TwoWords(b, b, second);
    LookupOne(a, b, a);
    LookupOne(a, b, b);
    LookupOne(b, [c], b);
    assert Lookup(both, a) == b && Lookup(both, b) == Lookup(second, b);
    hide SubstituteAll, Lookup;
    assert NoPattern(b) by { NoPatternInRun(b); }
    SubstituteOne(a + " " + b, both, b + " " + b);
    SubstituteOne(b + " " + b, second, [c] + " " + [c]);
    SubstituteNone([c] + " " + [c]);
  }

  /** All characters of the word are identifier characters. */
  predicate OneRun(w: string) {
    w != "" && forall k :: 0 <= k < |w| ==> IsIdentPart(w[k])
  }

  lemma IdentifierIsRun(w: Identifier)
    ensures OneRun(w)
  {
  }

  lemma NoPatternInRun(w: string)
    requires OneRun(w)
    ensures NoPattern(w)
  {
    assert !IsIdentPart('$');
  }

  lemma SubstituteNone(t: string)
    ensures SubstituteAll(t, []) == t
  {
  }

  lemma SubstituteOne(t: string, values: Bindings, next: string)
    requires values != [] && NoPattern(values[0].1) && AtOnce(t, [values[0]]) == next
    ensures SubstituteAll(t, values) == SubstituteAll(next, values[1..])
  {
    ReplaceWordIsAtOnce(t, 0, values[0].0, values[0].1);
    assert t[0..] == t;
    hide ReplaceWord, AtOnce;
  }

  lemma TwoWords(a: string, b: string, values: Bindings)
    requires OneRun(a) && OneRun(b)
    ensures AtOnce(a + " " + b, values) == Lookup(values, a) + " " + Lookup(values, b)
  {
    WholeRun(a, values);
    WholeRun(b, values);
    assert AtOnce(" ", values) == " " by { assert " "[1..] == ""; }
    hide AtOnce, Lookup;
    AtOnceJoin(a + " ", b, values);
    AtOnceJoin(a, " ", values);
  }
}
