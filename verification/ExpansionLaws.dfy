/**
 What an expansion is: text without a macro in it stays as it is; an invocation becomes the
 body of its macro with the expanded arguments in place of the parameters, in which the macro
 is not expanded again; `#` makes a literal of an argument as it was written.
 */
module ExpansionLaws {
  import opened Options
  import opened Text
  import opened MacroScan
  import opened Replacing
  import opened MacroApply
  import opened Substitution
  import opened SubstitutionOrder
  import opened MacroExpand
  import opened MacroContext

  // ---------------------------------------------------------------- text without macros

  lemma AvoidedName(t: string, i: nat, names: set<string>)
    requires Avoids(t, names) && StartsAt(t, i)
    ensures t[i..WordEnd(t, i)] !in names
  {
    assert Word(t, i) !in names;
  }

  lemma {:induction false} NoMacroFrom(t: string, i: nat, out: string, macros: Macros, depth: nat, stack: set<string>)
    requires depth < MAX_EXPANSION_DEPTH && Cut(t, i) && Avoids(t, macros.Keys - stack)
    ensures ExpandFrom(t, i, out, true, macros, depth, stack) == Expansion(out + t[i..], true)
    decreases |t| - i
  {
    hide Avoids, SkipInert, InvocationOf, ExpandInvocation, Glue, WordEnd, InIdent, Cut;
    assert i <= |t| by { CutInside(t, i); }
    if i == |t| {
      assert out + t[i..] == out;
    } else {
      var e := SkipInert(t, i);
      if e > i {
        InertCut(t, i);
        NoMacroFrom(t, e, out + t[i..e], macros, depth, stack);
        assert out + t[i..e] + t[e..] == out + t[i..];
      } else if !IsIdentStart(t[i]) {
        CutStep(t, i);
        NoMacroFrom(t, i + 1, out + [t[i]], macros, depth, stack);
        assert out + [t[i]] + t[i + 1..] == out + t[i..];
      } else {
        CutStarts(t, i);
        var w := WordEnd(t, i);
        AvoidedName(t, i, macros.Keys - stack);
        NoMacroFrom(t, w, out + t[i..w], macros, depth, stack);
        assert out + t[i..w] + t[w..] == out + t[i..];
      }
    }
  }

  lemma CutInside(t: string, i: nat)
    requires Cut(t, i)
    ensures i <= |t|
  {
  }

  /** A text that mentions no macro but those that are being expanded stays as it is. */
  lemma NoMacroStays(t: string, macros: Macros, depth: nat, stack: set<string>)
    requires depth <= MAX_EXPANSION_DEPTH && Avoids(t, macros.Keys - stack)
    ensures Expand(t, macros, depth, stack) == Expansion(t, true)
  {
    hide Avoids, ExpandFrom;
    if depth < MAX_EXPANSION_DEPTH {
      CutAtEnds(t);
      NoMacroFrom(t, 0, "", macros, depth, stack);
      assert "" + t[0..] == t;
    }
  }

  // ---------------------------------------------------------------- parameters

  /** The parameters have different names, and the variadic one is among them. */
  predicate WellNamed(d: Definition) {
    && d.parameters.Some?
    && (forall i, j :: 0 <= i < j < |d.parameters.value| ==> d.parameters.value[i] != d.parameters.value[j])
    && (VA_ARGS in d.parameters.value ==> d.variadic == Some(VA_ARGS))
    && (d.variadic.Some? ==> d.variadic.value in d.parameters.value)
  }

  lemma {:induction false} LookupPut(values: Bindings, key: Identifier, value: string, word: string)
    ensures Lookup(Put(values, key, value), word) == if word == key then value else Lookup(values, word)
  {
    if values != [] && values[0].0 != key {
      LookupPut(values[1..], key, value, word);
      var put := Put(values, key, value);
      assert put[1..] == Put(values[1..], key, value);
    } else if values != [] {
      assert Put(values, key, value)[1..] == values[1..];
    } else {
      assert Put(values, key, value)[1..] == [];
    }
  }

  lemma {:induction false} BoundFrom(d: Definition, args: seq<string>, i: nat, bound: Bindings, k: nat)
    requires WellNamed(d) && i <= |d.parameters.value| && k < |d.parameters.value|
    requires k < i ==> Lookup(bound, d.parameters.value[k]) == ArgumentFor(d, args, k)
    ensures Lookup(BindFrom(d, args, i, bound), d.parameters.value[k]) == ArgumentFor(d, args, k)
    decreases |d.parameters.value| - i
  {
    hide ArgumentFor;
    if i < |d.parameters.value| {
      LookupPut(bound, d.parameters.value[i], ArgumentFor(d, args, i), d.parameters.value[k]);
      BoundFrom(d, args, i + 1, Put(bound, d.parameters.value[i], ArgumentFor(d, args, i)), k);
    }
  }

  /** A parameter stands for its argument, the variadic one for all the arguments that are left. */
  lemma EachParameterGetsItsArgument(d: Definition, args: seq<string>, i: nat)
    requires WellNamed(d) && i < |d.parameters.value|
    ensures var value := Lookup(Bind(d, args), d.parameters.value[i]);
            if d.variadic == Some(d.parameters.value[i])
                then value == (if i <= |args| then Join(args[i..], ", ") else "")
            else value == (if i < |args| then args[i] else "")
  {
    hide BindFrom, Join;
    BoundFrom(d, args, 0, [], i);
    if d.variadic.Some? {
      FirstIndex(d.parameters.value, d.variadic.value);
      if d.variadic.value != VA_ARGS {
        var bound := BindFrom(d, args, 0, []);
        LookupPut(bound, VA_ARGS, Get(bound, d.variadic.value), d.parameters.value[i]);
      }
    }
  }

  lemma {:induction false} FirstIndex(parameters: seq<Identifier>, name: Identifier)
    requires name in parameters
    ensures IndexOf(parameters, name) < |parameters| && parameters[IndexOf(parameters, name)] == name
  {
    if parameters[0] != name {
      FirstIndex(parameters[1..], name);
    }
  }

  // ---------------------------------------------------------------- invocations

  /** The arguments of an invocation of `name`, each expanded by itself, `name` being hidden. */
  function ExpandedArguments(name: string, args: seq<string>, macros: Macros, depth: nat,
      stack: set<string>): (r: seq<string>)
    requires depth <= MAX_EXPANSION_DEPTH
    ensures |r| == |args|
  {
    seq(|args|, k requires 0 <= k < |args| => Expand(args[k], macros, depth, stack + {name}).text)
  }

  lemma ArgumentsOneByOne(name: string, args: seq<string>, macros: Macros, depth: nat, stack: set<string>)
    requires depth <= MAX_EXPANSION_DEPTH
    ensures Texts(ExpandEach(args, macros, depth, stack + {name})) ==
        ExpandedArguments(name, args, macros, depth, stack)
  {
    hide Expand, ExpandEach;
    forall k | 0 <= k < |args|
      ensures ExpandEach(args, macros, depth, stack + {name})[k] == Expand(args[k], macros, depth, stack + {name})
    {
      ExpandEachAt(args, macros, depth, stack + {name}, k);
    }
  }

  /** The body is free of `#`, and the expanded arguments can be substituted in any order and paste nothing. */
  predicate Ordinary(d: Definition, expanded: seq<string>)
    requires d.parameters.Some?
  {
    && '#' !in d.replacement && NoPatterns(Bind(d, expanded)) && Settled(Bind(d, expanded))
    && !HasPaste(AtOnce(d.replacement, Bind(d, expanded)))
  }

  /**
   The invocation of an ordinary macro becomes the expansion of its body with the expanded
   arguments in place of the parameters, all at once. The macro is not expanded in either.
   */
  lemma InvocationIsSubstituted(name: string, d: Definition, args: seq<string>, macros: Macros, depth: nat,
      stack: set<string>)
    requires depth <= MAX_EXPANSION_DEPTH && d.parameters.Some? && |args| >= VariadicIndex(d)
    requires Ordinary(d, ExpandedArguments(name, args, macros, depth, stack))
    ensures var r := ExpandInvocation(name, d, args, macros, depth, stack);
            var body := AtOnce(d.replacement, Bind(d, ExpandedArguments(name, args, macros, depth, stack)));
            r.Some? && r.value.text == Expand(body, macros, depth, stack + {name}).text
  {
    ArgumentsOneByOne(name, args, macros, depth, stack);
    hide Expand, ExpandEach, ExpandedArguments, Apply, Bind, AtOnce, Settled, NoPatterns, HasPaste;
    ApplyIsSimultaneous(d, args, ExpandedArguments(name, args, macros, depth, stack));
  }

  /** A macro that mentions no other macro is expanded once, even if it mentions itself. */
  lemma NotInsideItself(name: string, d: Definition, args: seq<string>, macros: Macros, depth: nat, stack: set<string>)
    requires depth <= MAX_EXPANSION_DEPTH && d.parameters.Some? && |args| >= VariadicIndex(d)
    requires Ordinary(d, args) && AllAvoid(args, macros.Keys - stack - {name})
    requires Avoids(AtOnce(d.replacement, Bind(d, args)), macros.Keys - stack - {name})
    ensures var r := ExpandInvocation(name, d, args, macros, depth, stack);
            r.Some? && r.value.text == AtOnce(d.replacement, Bind(d, args))
  {
    hide Expand, Apply, Bind, AtOnce, Settled, NoPatterns, HasPaste, Avoids, ExpandInvocation;
    assert macros.Keys - stack - {name} == macros.Keys - (stack + {name});
    var expanded := ExpandedArguments(name, args, macros, depth, stack);
    forall k | 0 <= k < |args| ensures expanded[k] == args[k] {
      NoMacroStays(args[k], macros, depth, stack + {name});
    }
    assert expanded == args;
    InvocationIsSubstituted(name, d, args, macros, depth, stack);
    NoMacroStays(AtOnce(d.replacement, Bind(d, args)), macros, depth, stack + {name});
  }

  /** An object-like macro becomes the expansion of its body, in which it is not expanded again. */
  lemma ObjectMacroIsItsBody(name: string, d: Definition, macros: Macros, depth: nat, stack: set<string>)
    requires depth <= MAX_EXPANSION_DEPTH && d.parameters.None?
    requires Avoids(d.replacement, macros.Keys - stack - {name})
    ensures ExpandInvocation(name, d, [], macros, depth, stack) == Some(Expansion(d.replacement, true))
  {
    hide Expand, Avoids;
    assert macros.Keys - stack - {name} == macros.Keys - (stack + {name});
    NoMacroStays(d.replacement, macros, depth, stack + {name});
    var expanded := ExpandEach([], macros, depth, stack + {name});
    assert expanded == [];
  }

  // ---------------------------------------------------------------- literals made of arguments

  /** What the first character of the text is escaped to, and where the rest begins. */
  function EscapedFirst(t: string, i: nat): (r: (string, nat))
    requires i < |t|
    ensures i < r.1 <= |t|
  {
    if IsSpace(t[i]) then (" ", SkipSpaces(t, i))
    else (if t[i] == '\\' then "\\\\" else if t[i] == '"' then "\\\"" else [t[i]], i + 1)
  }

  lemma EscapeStep(t: string, i: nat)
    requires i < |t|
    ensures Escape(t, i) == EscapedFirst(t, i).0 + Escape(t, EscapedFirst(t, i).1)
  {
  }

  lemma FirstIsSkipped(before: string, t: string, i: nat, rest: string)
    requires i < |t|
    ensures var c := EscapedFirst(t, i).0;
            QuotedEnd(before + c + rest, '"', |before|) == QuotedEnd(before + c + rest, '"', |before + c|)
  {
    var c := EscapedFirst(t, i).0;
    var s := before + c + rest;
    assert s[|before|] == c[0];
  }

  lemma NothingEscaped(before: string, t: string, rest: string)
    ensures QuotedEnd(before + (Escape(t, |t|) + ("\"" + rest)), '"', |before|) == |before| + |Escape(t, |t|)| + 1
  {
    assert (before + ("" + ("\"" + rest)))[|before|] == '"';
  }

  lemma {:induction false} EscapedEnds(before: string, t: string, i: nat, rest: string)
    requires i <= |t|
    ensures QuotedEnd(before + (Escape(t, i) + ("\"" + rest)), '"', |before|) == |before| + |Escape(t, i)| + 1
    decreases |t| - i
  {
    if i == |t| {
      NothingEscaped(before, t, rest);
    } else {
      hide Escape, EscapedFirst, QuotedEnd;
      var (c, next) := EscapedFirst(t, i);
      EscapeStep(t, i);
      var close := "\"" + rest;
      EscapedEnds(before + c, t, next, rest);
      FirstIsSkipped(before, t, i, Escape(t, next) + close);
      RegroupFour(before, c, Escape(t, next), close);
    }
  }

  lemma RegroupFour(a: string, b: string, c: string, d: string)
    ensures a + (b + c + d) == a + b + (c + d)
  {
  }

  /** The literal made of an argument ends where it was made to end, whatever the argument holds. */
  lemma QuotedIsOneLiteral(value: string, rest: string)
    ensures Quoted(value)[0] == '"' && QuotedEnd(Quoted(value) + rest, '"', 1) == |Quoted(value)|
  {
    EscapedEnds("\"", Trim(value), 0, rest);
    assert Quoted(value) + rest == "\"" + (Escape(Trim(value), 0) + ("\"" + rest));
  }

  /** The characters that an escaped text stands for. */
  function Unescaped(t: string): string {
    if t == "" then ""
    else if t[0] == '\\' && |t| > 1 then [t[1]] + Unescaped(t[2..])
    else [t[0]] + Unescaped(t[1..])
  }

  lemma {:induction false} EscapedSays(t: string, i: nat)
    requires i <= |t|
    ensures Unescaped(Escape(t, i)) == CollapseSpaces(t, i)
    decreases |t| - i
  {
    if i < |t| {
      if IsSpace(t[i]) {
        EscapedSays(t, SkipSpaces(t, i));
        assert Escape(t, i)[1..] == Escape(t, SkipSpaces(t, i));
      } else {
        EscapedSays(t, i + 1);
        var n := if t[i] == '\\' || t[i] == '"' then 2 else 1;
        assert Escape(t, i)[n..] == Escape(t, i + 1);
      }
    }
  }

  /** The literal says what the argument says, up to white space. */
  lemma QuotedSaysTheArgument(value: string)
    ensures var literal := Quoted(value); Unescaped(literal[1..|literal| - 1]) == CollapseSpaces(Trim(value), 0)
  {
    EscapedSays(Trim(value), 0);
    var literal := Quoted(value);
    assert literal[1..|literal| - 1] == Escape(Trim(value), 0);
  }
}
