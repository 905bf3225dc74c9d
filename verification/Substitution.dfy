/**
 What a substituted text can mention. A text fits when each of its identifiers that
 is on a list of forbidden names is one of the words still to be substituted, and
 stands where `\b` sees it. Every step of the substitution keeps the text fitting,
 and substituting a word takes it off the list of exceptions.
 */
module Substitution {
  import opened Options
  import opened Text
  import opened MacroScan
  import opened Replacing
  import opened MacroApply

  /** The identifier at `p` does not follow a digit. */
  predicate Detached(t: string, p: nat)
    requires p <= |t|
  {
    p == 0 || !IsIdentPart(t[p - 1])
  }

  ghost predicate Fits(t: string, names: set<string>, words: set<string>) {
    forall p: nat :: StartsAt(t, p) && Word(t, p) in names ==> Word(t, p) in words && Detached(t, p)
  }

  lemma AvoidsFits(t: string, names: set<string>, words: set<string>)
    ensures Avoids(t, names) ==> Fits(t, names, words)
    ensures Fits(t, names, {}) ==> Avoids(t, names)
  {
  }

  /** Texts join well when they do not glue and no forbidden identifier comes to follow a digit. */
  lemma FitsJoin(a: string, b: string, names: set<string>, words: set<string>)
    requires !Glue(a, b) && Fits(a, names, words) && Fits(b, names, words)
    requires StartsAt(b, 0) && Word(b, 0) in names && a != "" ==> !IsIdentPart(a[|a| - 1])
    ensures Fits(a + b, names, words)
  {
    hide InIdent, WordEnd, Word;
    forall p: nat | StartsAt(a + b, p) && Word(a + b, p) in names
      ensures Word(a + b, p) in words && Detached(a + b, p)
    {
      if p < |a| {
        StartsJoinLeft(a, b, p);
      } else {
        StartsJoinRight(a, b, p - |a|);
        assert Detached(b, p - |a|);
        if p > |a| { assert (a + b)[p - 1] == b[p - |a| - 1]; }
      }
    }
  }

  lemma FitsSplit(a: string, b: string, names: set<string>, words: set<string>)
    requires !Glue(a, b) && Fits(a + b, names, words)
    ensures Fits(a, names, words) && Fits(b, names, words)
  {
    hide InIdent, WordEnd, Word;
    forall p: nat | StartsAt(a, p) && Word(a, p) in names ensures Word(a, p) in words && Detached(a, p) {
      StartsJoinLeft(a, b, p);
      assert p > 0 ==> (a + b)[p - 1] == a[p - 1];
    }
    forall p: nat | StartsAt(b, p) && Word(b, p) in names ensures Word(b, p) in words && Detached(b, p) {
      StartsJoinRight(a, b, p);
      assert Detached(a + b, |a| + p);
      assert p > 0 ==> (a + b)[|a| + p - 1] == b[p - 1];
    }
  }

  // ---------------------------------------------------------------- stringification

  lemma EscapeCharAvoids(c: char, names: set<string>)
    ensures Avoids("\\\\", names) && Avoids("\\\"", names) && Avoids("\"", names) && Avoids(" ", names)
  {
  }

  lemma {:induction false} EscapeAvoids(a: string, t: string, i: nat, names: set<string>)
    requires i <= |t| && Avoids(a + t[i..], names)
    ensures Avoids(a + Escape(t, i), names)
    decreases |t| - i
  {
    hide Avoids, InIdent;
    if i == |t| {
      assert t[i..] == "";
    } else {
      EscapeCharAvoids(t[i], names);
      if IsSpace(t[i]) {
        var j := SkipSpaces(t, i);
        assert a + t[i..] == a + t[i..j] + t[j..];
        AvoidsExchange(a, t[i..j], " ", t[j..], names);
        EscapeAvoids(a + " ", t, j, names);
        assert a + " " + Escape(t, j) == a + (" " + Escape(t, j));
      } else {
        var e := if t[i] == '\\' then "\\\\" else if t[i] == '"' then "\\\"" else [t[i]];
        assert a + t[i..] == a + [t[i]] + t[i + 1..];
        if e != [t[i]] {
          AvoidsExchange(a, [t[i]], e, t[i + 1..], names);
        }
        EscapeAvoids(a + e, t, i + 1, names);
        assert a + e + Escape(t, i + 1) == a + (e + Escape(t, i + 1));
      }
    }
  }

  lemma QuotedAvoids(value: string, names: set<string>)
    requires Avoids(value, names)
    ensures Avoids(Quoted(value), names)
  {
    hide Avoids, InIdent, Escape, Trim;
    TrimAvoids(value, names);
    var t := Trim(value);
    assert "" + t[0..] == t && "" + Escape(t, 0) == Escape(t, 0);
    EscapeAvoids("", t, 0, names);
    EscapeCharAvoids('"', names);
    AvoidsJoin("\"", Escape(t, 0), names) by { QuoteNoGlue(); }
    AvoidsJoin("\"" + Escape(t, 0), "\"", names);
  }

  lemma QuoteNoGlue()
    ensures !InIdent("\"")
  {
  }

  /** Replacing `#word` by a string literal keeps the text fitting. */
  lemma {:induction false} StringifyFits(a: string, t: string, i: nat, last: nat, word: Identifier, literal: string,
      names: set<string>, words: set<string>)
    requires i <= |t| && Fits(a + t[i..], names, words)
    requires Avoids(literal, names) && |literal| >= 2 && literal[0] == '"' && literal[|literal| - 1] == '"'
    ensures Fits(a + Stringify(t, i, last, word, literal), names, words)
    decreases |t| - i
  {
    hide Fits, Avoids, InIdent, HashedWordEnd;
    if i == |t| {
      assert t[i..] == "";
    } else {
      var e := HashedWordEnd(t, i, word);
      if e > 0 && (i == 0 || (last < i && t[i - 1] != '#')) {
        FitsExchange(a, t[i..e], literal, t[e..], names, words) by { assert a + t[i..] == a + t[i..e] + t[e..]; }
        StringifyFits(a + literal, t, e, e, word, literal, names, words);
        assert a + literal + Stringify(t, e, e, word, literal) == a + (literal + Stringify(t, e, e, word, literal));
      } else {
        assert a + t[i..] == a + [t[i]] + t[i + 1..];
        StringifyFits(a + [t[i]], t, i + 1, last, word, literal, names, words);
        assert a + [t[i]] + Stringify(t, i + 1, last, word, literal) == a +
            ([t[i]] + Stringify(t, i + 1, last, word, literal));
      }
    }
  }

  /** A stretch that begins and ends outside identifiers may be exchanged for a string literal. */
  lemma FitsExchange(a: string, x: string, literal: string, b: string, names: set<string>, words: set<string>)
    requires x != "" && !IsIdentPart(x[0]) && (b == "" || !IsIdentPart(b[0]))
    requires Fits(a + x + b, names, words)
    requires Avoids(literal, names) && |literal| >= 2 && literal[0] == '"' && literal[|literal| - 1] == '"'
    ensures Fits(a + literal + b, names, words)
  {
    hide Fits, Avoids, InIdent, WordEnd;
    FitsSplit(a + x, b, names, words);
    FitsSplit(a, x, names, words);
    AvoidsFits(literal, names, words);
    FitsJoin(a, literal, names, words);
    assert (a + literal)[|a + literal| - 1] == '"';
    FitsJoin(a + literal, b, names, words);
  }

  ghost predicate ValuesAvoid(values: Bindings, names: set<string>) {
    forall k :: 0 <= k < |values| ==> Avoids(values[k].1, names)
  }

  lemma {:induction false} StringifyAllFits(t: string, values: Bindings, names: set<string>, words: set<string>)
    requires Fits(t, names, words) && ValuesAvoid(values, names)
    ensures Fits(StringifyAll(t, values), names, words)
    decreases |values|
  {
    hide Fits, Avoids, Stringify, Escape, Trim;
    if values != [] {
      var literal := Quoted(values[0].1);
      QuotedAvoids(values[0].1, names);
      assert "" + t[0..] == t;
      StringifyFits("", t, 0, 0, values[0].0, literal, names, words);
      var t' := Stringify(t, 0, 0, values[0].0, literal);
      assert "" + t' == t';
      StringifyAllFits(t', values[1..], names, words);
    }
  }

  // ---------------------------------------------------------------- parameter substitution

  /** The part of `t` from `i` on fits, `word` being one more exception. */
  ghost predicate FitsFrom(t: string, i: nat, names: set<string>, words: set<string>) {
    forall p: nat :: i <= p && StartsAt(t, p) && Word(t, p) in names ==> Word(t, p) in words && Detached(t, p)
  }

  /** After an identifier character in `a`, the text at `i` continues only as it did in `t`. */
  predicate InStep(a: string, t: string, i: nat)
    requires i <= |t|
  {
    i < |t| && IsIdentPart(t[i]) && a != "" && IsIdentPart(a[|a| - 1]) ==> !Detached(t, i)
  }

  lemma OneChar(a: string, t: string, i: nat, names: set<string>, words: set<string>)
    requires i < |t| && Cut(t, i) && !IsIdentStart(t[i])
    requires !Glue(a, t[i..]) && Fits(a, names, words)
    ensures Fits(a + [t[i]], names, words) && !Glue(a + [t[i]], t[i + 1..])
  {
    hide WordEnd, Word;
    var a' := a + [t[i]];
    assert a'[..|a'| - 1] == a && a'[|a'| - 1] == t[i];
    FitsJoin(a, [t[i]], names, words);
  }

  lemma WordAlone(w: Identifier)
    ensures WordEnd(w, 0) == |w| && StartsAt(w, 0) && Word(w, 0) == w
    ensures forall p: nat :: StartsAt(w, p) ==> p == 0
    ensures !InIdent("")
  {
    forall p: nat | 0 < p < |w| ensures InIdent(w[..p]) {
      assert StartsAt(w, 0);
      WordReachesEnd(w, 0, p);
    }
  }

  /** Copying one whole identifier that fits. */
  lemma OneWord(a: string, t: string, i: nat, names: set<string>, words: set<string>)
    requires i < |t| && StartsAt(t, i)
    requires Cut(t, i) && !Glue(a, t[i..]) && Fits(a, names, words) && InStep(a, t, i)
    requires Word(t, i) in names ==> Word(t, i) in words && Detached(t, i)
    ensures Fits(a + Word(t, i), names, words) && !Glue(a + Word(t, i), t[WordEnd(t, i)..])
  {
    var w := Word(t, i);
    assert IsIdentifier(w);
    WordAlone(w);
    hide WordEnd, InIdent;
    FitsJoin(a, w, names, words);
  }

  /** The state of a substitution that has turned `t[..i]` into `a`. */
  ghost predicate Halfway(a: string, t: string, i: nat, names: set<string>, words: set<string>) {
    Cut(t, i) && !Glue(a, t[i..]) && InStep(a, t, i) && Fits(a, names, words)
  }

  /** One step replaces `word` at `i`. */
  lemma MatchStep(a: string, t: string, i: nat, word: Identifier, value: string, names: set<string>, words: set<string>)
    requires Halfway(a, t, i, names, words) && WordAt(t, i, word)
    requires Avoids(value, names) && NoPattern(value)
    ensures Halfway(a + value, t, i + |word|, names, words)
    ensures ReplaceWord(t, i, word, value) == value + ReplaceWord(t, i + |word|, word, value)
  {
    hide Fits, Avoids, InIdent, WordEnd, Substitute;
    assert t[i] == word[0] by { assert t[i..i + |word|][0] == t[i]; }
    SubstitutePlain(value, word, t[..i], t[i + |word|..]);
    AvoidsFits(value, names, words);
    NotInIdent(a);
    FitsJoin(a, value, names, words);
    CutAtNonPart(t, i + |word|);
  }

  /** One step copies the identifier at `i`, which is not a replaceable `word`. */
  lemma CopyStep(a: string, t: string, i: nat, word: Identifier, value: string, names: set<string>, words: set<string>)
    requires Halfway(a, t, i, names, words) && FitsFrom(t, i, names, words + {word})
    requires i < |t| && StartsAt(t, i) && !WordAt(t, i, word)
    ensures Halfway(a + Word(t, i), t, WordEnd(t, i), names, words)
    ensures ReplaceWord(t, i, word, value) == Word(t, i) + ReplaceWord(t, WordEnd(t, i), word, value)
  {
    hide Fits, InIdent, WordEnd, Substitute, ReplaceWord, WordAt, Glue;
    var e := WordEnd(t, i);
    WordIsIdent(t, i);
    if Word(t, i) == word && Detached(t, i) { WordAtIfDetached(t, i, word); }
    OneWord(a, t, i, names, words);
    CutAtNonPart(t, e);
    CopyReplace(t, i, word, value);
  }

  lemma CopyReplace(t: string, i: nat, word: Identifier, value: string)
    requires i < |t| && IsIdentStart(t[i]) && !WordAt(t, i, word)
    ensures ReplaceWord(t, i, word, value) == Word(t, i) + ReplaceWord(t, WordEnd(t, i), word, value)
  {
    hide InIdent, WordEnd, Substitute, WordAt;
    var e := WordEnd(t, i);
    WordIsIdent(t, i);
    assert ReplaceWord(t, i, word, value) == [t[i]] + ReplaceWord(t, i + 1, word, value);
    hide ReplaceWord;
    ReplaceWordCopies(t, i + 1, e, word, value);
    assert t[i..e] == [t[i]] + t[i + 1..e];
    Reassociate([t[i]], t[i + 1..e], ReplaceWord(t, e, word, value));
  }

  lemma Reassociate(a: string, b: string, c: string)
    ensures a + (b + c) == a + b + c
  {
  }

  lemma CharStep(a: string, t: string, i: nat, word: Identifier, value: string, names: set<string>, words: set<string>)
    requires Halfway(a, t, i, names, words) && i < |t| && !IsIdentStart(t[i])
    ensures Halfway(a + [t[i]], t, i + 1, names, words)
    ensures ReplaceWord(t, i, word, value) == [t[i]] + ReplaceWord(t, i + 1, word, value)
  {
    hide Fits, InIdent, WordEnd, Substitute;
    OneChar(a, t, i, names, words);
    CutStep(t, i);
  }

  /** The next step of the substitution, whichever it is. */
  lemma NextStep(a: string, t: string, i: nat, word: Identifier, value: string, names: set<string>, words: set<string>)
    returns (x: string, e: nat)
    requires Halfway(a, t, i, names, words) && FitsFrom(t, i, names, words + {word}) && i < |t|
    requires Avoids(value, names) && NoPattern(value)
    ensures i < e <= |t| && Halfway(a + x, t, e, names, words)
    ensures ReplaceWord(t, i, word, value) == x + ReplaceWord(t, e, word, value)
  {
    hide Fits, Avoids, InIdent, WordEnd, Substitute, InStep, Glue, ReplaceWord;
    if !IsIdentStart(t[i]) {
      CharStep(a, t, i, word, value, names, words);
      return [t[i]], i + 1;
    }
    CutStarts(t, i);
    if WordAt(t, i, word) {
      MatchStep(a, t, i, word, value, names, words);
      return value, i + |word|;
    }
    CopyStep(a, t, i, word, value, names, words);
    return Word(t, i), WordEnd(t, i);
  }

  /** Substituting `value` for `word` leaves no exception for `word`. */
  lemma {:induction false} ReplaceWordFits(a: string, t: string, i: nat, word: Identifier, value: string,
      names: set<string>, words: set<string>)
    requires Halfway(a, t, i, names, words) && FitsFrom(t, i, names, words + {word})
    requires Avoids(value, names) && NoPattern(value)
    ensures Fits(a + ReplaceWord(t, i, word, value), names, words)
    decreases |t| - i
  {
    hide Fits, Avoids, InIdent, InStep, Glue, StartsAt, Word, Detached;
    if i == |t| {
      assert a + "" == a;
    } else {
      hide ReplaceWord;
      var x, e := NextStep(a, t, i, word, value, names, words);
      ReplaceWordFits(a + x, t, e, word, value, names, words);
      Reassociate(a, x, ReplaceWord(t, e, word, value));
    }
  }

  lemma NotInIdent(a: string)
    ensures a == "" || !IsIdentPart(a[|a| - 1]) ==> !InIdent(a)
  {
  }

  lemma WordIsIdent(t: string, i: nat)
    requires i < |t| && IsIdentStart(t[i])
    ensures i < WordEnd(t, i) <= |t| && forall k :: i <= k < WordEnd(t, i) ==> IsIdentPart(t[k])
    ensures WordEnd(t, i) < |t| ==> !IsIdentPart(t[WordEnd(t, i)])
  {
  }

  lemma WordAtIfDetached(t: string, i: nat, word: Identifier)
    requires i < |t| && Word(t, i) == word && Detached(t, i)
    ensures WordAt(t, i, word)
  {
  }

  // ---------------------------------------------------------------- the whole substitution

  function Keys(values: Bindings): set<string> {
    set k | 0 <= k < |values| :: values[k].0
  }

  lemma {:induction false} SubstituteAllFits(t: string, values: Bindings, names: set<string>, words: set<string>)
    requires Fits(t, names, words + Keys(values))
    requires ValuesAvoid(values, names) && NoPatterns(values)
    ensures Fits(SubstituteAll(t, values), names, words)
    decreases |values|
  {
    hide Avoids, InIdent, ReplaceWord, StartsAt, Word;
    if values == [] {
      assert words + Keys(values) == words;
    } else {
      var rest := words + Keys(values[1..]);
      assert words + Keys(values) == rest + {values[0].0};
      CutAtEnds(t);
      assert Halfway("", t, 0, names, rest) by { EmptyFits(names, rest); }
      ReplaceWordFits("", t, 0, values[0].0, values[0].1, names, rest);
      var t' := ReplaceWord(t, 0, values[0].0, values[0].1);
      assert "" + t' == t';
      SubstituteAllFits(t', values[1..], names, words);
    }
  }

  lemma EmptyFits(names: set<string>, words: set<string>)
    ensures Fits("", names, words) && Avoids("", names)
  {
  }

  lemma {:induction false} PutFacts(bindings: Bindings, key: Identifier, value: string, names: set<string>)
    ensures Keys(Put(bindings, key, value)) == Keys(bindings) + {key}
    ensures ValuesAvoid(bindings, names) && Avoids(value, names) ==> ValuesAvoid(Put(bindings, key, value), names)
  {
    hide Avoids;
    if bindings == [] {
      assert Put(bindings, key, value)[0].0 == key;
    } else {
      var rest := bindings[1..];
      assert Keys(bindings) == {bindings[0].0} + Keys(rest);
      var tail := if bindings[0].0 == key then rest else Put(rest, key, value);
      var put := Put(bindings, key, value);
      assert put[1..] == tail;
      assert Keys(put) == {put[0].0} + Keys(put[1..]) by { KeysSplit(put); }
      if bindings[0].0 != key {
        PutFacts(rest, key, value, names);
      }
    }
  }

  lemma KeysSplit(values: Bindings)
    requires values != []
    ensures Keys(values) == {values[0].0} + Keys(values[1..])
  {
  }

  lemma {:induction false} GetAvoids(bindings: Bindings, key: Identifier, names: set<string>)
    requires ValuesAvoid(bindings, names)
    ensures Avoids(Get(bindings, key), names)
  {
    hide Avoids;
    if bindings == [] {
      EmptyFits(names, {});
    } else if bindings[0].0 != key {
      GetAvoids(bindings[1..], key, names);
    }
  }

  /** The words a definition's substitution replaces. */
  function Bound(d: Definition): set<string> {
    if d.parameters.None? then {}
    else (set k | 0 <= k < |d.parameters.value| :: d.parameters.value[k])
         + (if d.variadic.Some? && d.variadic.value != VA_ARGS then {VA_ARGS} else {})
  }

  lemma {:induction false} BindFromFacts(d: Definition, args: seq<string>, i: nat, bound: Bindings, names: set<string>)
    requires d.parameters.Some? && i <= |d.parameters.value|
    requires AllAvoid(args, names) && ValuesAvoid(bound, names)
    ensures ValuesAvoid(BindFrom(d, args, i, bound), names)
    ensures Keys(BindFrom(d, args, i, bound)) == Keys(bound) + set k | i <= k < |d.parameters.value| ::
        d.parameters.value[k]
    decreases |d.parameters.value| - i
  {
    hide Avoids, Join;
    if i < |d.parameters.value| {
      EmptyFits(names, {});
      if i <= |args| { JoinAvoids(args[i..], names); }
      PutFacts(bound, d.parameters.value[i], ArgumentFor(d, args, i), names);
      BindFromFacts(d, args, i + 1, Put(bound, d.parameters.value[i], ArgumentFor(d, args, i)), names);
    }
  }

  lemma BindFacts(d: Definition, args: seq<string>, names: set<string>)
    requires d.parameters.Some? && AllAvoid(args, names)
    ensures ValuesAvoid(Bind(d, args), names)
    ensures Keys(Bind(d, args)) == Bound(d)
  {
    hide Avoids;
    var bound := BindFrom(d, args, 0, []);
    BindFromFacts(d, args, 0, [], names);
    if d.variadic.Some? && d.variadic.value != VA_ARGS {
      GetAvoids(bound, d.variadic.value, names);
      PutFacts(bound, VA_ARGS, Get(bound, d.variadic.value), names);
    }
  }

  lemma SwallowKeeps(d: Definition, values: Bindings)
    requires !HasPaste(d.replacement)
    ensures Swallow(d, values) == d.replacement
  {
    if d.variadic.Some? {
      var value := Get(values, d.variadic.value);
      SwallowNeedsPaste(d.replacement, 0, if value != "" then ", " + value else "");
    }
  }

  lemma {:induction false} ShieldKeeps(text: string, values: Bindings)
    requires !HasPaste(text)
    ensures ShieldAll(Shielded(text, 0, []), values) == Shielded(text, 0, [])
    decreases |values|
  {
    hide HasPaste;
    if values != [] {
      ProtectNeedsPaste(text, 0, values[0].0, 0);
      assert text[0..] == text;
      assert Shield(Shielded(text, 0, []), values[0].0, values[0].1) == Shielded(text, 0, []);
      ShieldKeeps(text, values[1..]);
    }
  }

  /**
   Substitution invents nothing: when the replacement has no `##`, fits, and the
   substitution is regular, the result mentions no forbidden name that is in none
   of the arguments.
   */
  lemma ApplyAvoids(d: Definition, args: seq<string>, expanded: seq<string>, names: set<string>)
    requires Fits(d.replacement, names, Bound(d)) && !HasPaste(d.replacement)
    requires AllAvoid(args, names) && AllAvoid(expanded, names)
    requires var r := Apply(d, args, expanded); r.Some? && r.value.regular
    ensures Avoids(Apply(d, args, expanded).value.text, names)
  {
    hide Fits, Avoids, HasPaste, Swallow, Bind, StringifyAll, ShieldAll, SubstituteAll, PasteRound;
    if d.parameters.None? {
      AvoidsFits(d.replacement, names, {});
    } else {
      var values, expandedValues := Bind(d, args), Bind(d, expanded);
      BindFacts(d, args, names);
      BindFacts(d, expanded, names);
      SwallowKeeps(d, values);
      StringifyAllFits(d.replacement, values, names, Bound(d));
      var stringified := StringifyAll(d.replacement, values);
      ShieldKeeps(stringified, values);
      assert Bound(d) == {} + Keys(expandedValues);
      SubstituteAllFits(stringified, expandedValues, names, {});
      AvoidsFits(SubstituteAll(stringified, expandedValues), names, {});
    }
  }
}
