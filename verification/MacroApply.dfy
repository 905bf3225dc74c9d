/**
 Substituting the arguments of an invocation into a macro's replacement text, and
 what the result can mention: unless a `##` pastes or a `$` in an argument is read
 as a pattern, only identifiers of the replacement that are not parameters, and
 identifiers of the arguments.
 */
module MacroApply {
  import opened Options
  import opened Text
  import opened MacroScan
  import opened Replacing

  type Bindings = seq<(Identifier, string)>

  /** JavaScript's `Map.set`: an existing key keeps its place. */
  function Put(bindings: Bindings, key: Identifier, value: string): Bindings {
    if bindings == [] then [(key, value)]
    else if bindings[0].0 == key then [(key, value)] + bindings[1..]
    else [bindings[0]] + Put(bindings[1..], key, value)
  }

  function Get(bindings: Bindings, key: Identifier): string {
    if bindings == [] then ""
    else if bindings[0].0 == key then bindings[0].1
    else Get(bindings[1..], key)
  }

  /** The position of the first `name` in `parameters`, or |parameters|. */
  function IndexOf(parameters: seq<Identifier>, name: Identifier): (i: nat)
    ensures i <= |parameters|
  {
    if parameters == [] || parameters[0] == name then 0 else 1 + IndexOf(parameters[1..], name)
  }

  /** The position of the variadic parameter, or |parameters| when there is none. */
  function VariadicIndex(d: Definition): (i: nat)
    requires d.parameters.Some?
    ensures i <= |d.parameters.value|
  {
    if d.variadic.Some? then IndexOf(d.parameters.value, d.variadic.value) else |d.parameters.value|
  }

  /** What parameter `i` stands for: its own argument, or the rest of them when it is variadic. */
  function ArgumentFor(d: Definition, args: seq<string>, i: nat): string
    requires d.parameters.Some?
  {
    if i == VariadicIndex(d) then (if i <= |args| then Join(args[i..], ", ") else "")
    else if i < |args| then args[i] else ""
  }

  function BindFrom(d: Definition, args: seq<string>, i: nat, bound: Bindings): Bindings
    requires d.parameters.Some? && i <= |d.parameters.value|
    decreases |d.parameters.value| - i
  {
    if i == |d.parameters.value| then bound
    else BindFrom(d, args, i + 1, Put(bound, d.parameters.value[i], ArgumentFor(d, args, i)))
  }

  /** The value of every parameter, and of `__VA_ARGS__` when the variadic parameter has a name. */
  function Bind(d: Definition, args: seq<string>): Bindings
    requires d.parameters.Some?
  {
    var bound := BindFrom(d, args, 0, []);
    if d.variadic.Some? && d.variadic.value != VA_ARGS
    then Put(bound, VA_ARGS, Get(bound, d.variadic.value))
    else bound
  }

  // ---------------------------------------------------------------- the substitution steps

  function Swallow(d: Definition, values: Bindings): string {
    if d.variadic.None? then d.replacement
    else
      var value := Get(values, d.variadic.value);
      SwallowComma(d.replacement, 0, if value != "" then ", " + value else "")
  }

  function StringifyAll(t: string, values: Bindings): string
    decreases |values|
  {
    if values == [] then t
    else StringifyAll(Stringify(t, 0, 0, values[0].0, Quoted(values[0].1)), values[1..])
  }

  /** A text in which paste-adjacent parameters are placeholders, and what each placeholder stands for. */
  datatype Shielded = Shielded(text: string, next: nat, placeholders: seq<(nat, string)>)

  function Numbered(n: nat, next: nat, value: string): seq<(nat, string)>
    decreases next - n
  {
    if n >= next then [] else [(n, value)] + Numbered(n + 1, next, value)
  }

  function Shield(s: Shielded, word: Identifier, value: string): Shielded {
    var before := ProtectBefore(s.text, 0, word, s.next);
    var after := ProtectAfter(before.text, 0, word, before.next);
    Shielded(after.text, after.next, s.placeholders + Numbered(s.next, after.next, Trim(value)))
  }

  function ShieldAll(s: Shielded, values: Bindings): Shielded
    decreases |values|
  {
    if values == [] then s else ShieldAll(Shield(s, values[0].0, values[0].1), values[1..])
  }

  function SubstituteAll(t: string, values: Bindings): string
    decreases |values|
  {
    if values == [] then t else SubstituteAll(ReplaceWord(t, 0, values[0].0, values[0].1), values[1..])
  }

  function RestoreAll(t: string, placeholders: seq<(nat, string)>): string
    decreases |placeholders|
  {
    if placeholders == [] then t
    else RestoreAll(ReplaceLiteral(t, 0, Placeholder(placeholders[0].0), placeholders[0].1), placeholders[1..])
  }

  predicate NoPatterns(values: Bindings) {
    forall k :: 0 <= k < |values| ==> NoPattern(values[k].1)
  }

  /**
   The substituted text, and whether the substitution was regular: no expanded
   argument has a replacement pattern, and `##` was in the text only if the definition put it there.
   */
  datatype Applied = Applied(text: string, regular: bool)

  /** The replacement of `d` with its arguments substituted; None when there are too few of them. */
  function Apply(d: Definition, args: seq<string>, expanded: seq<string>): Option<Applied> {
    if d.parameters.None? then Some(Applied(d.replacement, true))
    else if |args| < VariadicIndex(d) then None
    else
      var values, expandedValues := Bind(d, args), Bind(d, expanded);
      var stringified := StringifyAll(Swallow(d, values), values);
      var shielded := ShieldAll(Shielded(stringified, 0, []), values);
      var substituted := RestoreAll(SubstituteAll(shielded.text, expandedValues), shielded.placeholders);
      var regular := NoPatterns(expandedValues) &&
          (HasPaste(stringified) || HasPaste(substituted) ==> HasPaste(d.replacement));
      Some(Applied(PasteAll(substituted), regular))
  }

  method ApplyArguments(d: Definition, args: seq<string>, expanded: seq<string>) returns (r: Option<string>)
    ensures r == match Apply(d, args, expanded) case None => None case Some(a) => Some(a.text)
  {
    hide Swallow, Stringify, Shield, ReplaceWord, ReplaceLiteral, HasPaste, NoPatterns, Bind, PasteAll, Quoted;
    if d.parameters.None? {
      return Some(d.replacement);
    }
    if |args| < VariadicIndex(d) {
      return None;
    }
    var values := Bind(d, args);
    var expandedValues := Bind(d, expanded);
    var text := Swallow(d, values);

    ghost var t0 := text;
    for i := 0 to |values|
      invariant StringifyAll(t0, values) == StringifyAll(text, values[i..])
    {
      text := Stringify(text, 0, 0, values[i].0, Quoted(values[i].1));
      assert values[i..][1..] == values[i + 1..];
    }

    var shielded := Shielded(text, 0, []);
    ghost var s0 := shielded;
    for i := 0 to |values|
      invariant ShieldAll(s0, values) == ShieldAll(shielded, values[i..])
    {
      shielded := Shield(shielded, values[i].0, values[i].1);
      assert values[i..][1..] == values[i + 1..];
    }

    text := shielded.text;
    for i := 0 to |expandedValues|
      invariant SubstituteAll(shielded.text, expandedValues) == SubstituteAll(text, expandedValues[i..])
    {
      text := ReplaceWord(text, 0, expandedValues[i].0, expandedValues[i].1);
      assert expandedValues[i..][1..] == expandedValues[i + 1..];
    }

    ghost var t1 := text;
    var placeholders := shielded.placeholders;
    for i := 0 to |placeholders|
      invariant RestoreAll(t1, placeholders) == RestoreAll(text, placeholders[i..])
    {
      text := ReplaceLiteral(text, 0, Placeholder(placeholders[i].0), placeholders[i].1);
      assert placeholders[i..][1..] == placeholders[i + 1..];
    }

    text := PasteTokens(text);
    return Some(text);
  }
}
