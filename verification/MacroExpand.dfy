/**
 The recursive macro expander: text is scanned once, each known macro is replaced by
 its expanded substitution, and a macro is not expanded inside itself. Recursion is
 bounded by a depth, and the output by a size.
 */
module MacroExpand {
  import opened Options
  import opened Text
  import opened MacroScan
  import opened Replacing
  import opened MacroApply
  import opened Substitution

  const MAX_EXPANSION_BYTES := 256 * 1024
  const MAX_EXPANSION_DEPTH := 24

  type Macros = map<string, Definition>

  /**
   The expanded text, and whether the expansion was regular: every substitution was,
   the output was never cut off at its size limit, and no expansion ran together with
   the text that follows its invocation.
   */
  datatype Expansion = Expansion(text: string, regular: bool)

  function SkipGap(t: string, i: nat): (j: nat)
    requires i <= |t|
    ensures i <= j <= |t|
    decreases |t| - i
  {
    if i < |t| && t[i] in " \t\r\n" then SkipGap(t, i + 1) else i
  }

  /** The arguments given to `d` by the text after its name, and where the invocation ends. */
  function InvocationOf(t: string, nameEnd: nat, d: Definition): (r: Option<Invocation>)
    requires nameEnd <= |t|
    ensures r.Some? ==> nameEnd <= r.value.end <= |t|
  {
    if d.parameters.None? then Some(Invocation([], nameEnd)) else InvocationAt(t, SkipGap(t, nameEnd))
  }

  predicate AllRegular(expansions: seq<Expansion>) {
    forall k :: 0 <= k < |expansions| ==> expansions[k].regular
  }

  function Texts(expansions: seq<Expansion>): (r: seq<string>)
    ensures |r| == |expansions|
    ensures forall k :: 0 <= k < |r| ==> r[k] == expansions[k].text
  {
    seq(|expansions|, k requires 0 <= k < |expansions| => expansions[k].text)
  }

  function Expand(t: string, macros: Macros, depth: nat, stack: set<string>): Expansion
    requires depth <= MAX_EXPANSION_DEPTH
    decreases MAX_EXPANSION_DEPTH - depth, 1, 0
  {
    if depth == MAX_EXPANSION_DEPTH || |t| > MAX_EXPANSION_BYTES then Expansion(t, true)
    else ExpandFrom(t, 0, "", true, macros, depth, stack)
  }

  function ExpandEach(texts: seq<string>, macros: Macros, depth: nat, stack: set<string>): (r: seq<Expansion>)
    requires depth <= MAX_EXPANSION_DEPTH
    ensures |r| == |texts|
    decreases MAX_EXPANSION_DEPTH - depth, 2, |texts|
  {
    if texts == [] then []
    else [Expand(texts[0], macros, depth, stack)] + ExpandEach(texts[1..], macros, depth, stack)
  }

  /** Expand the arguments, substitute them and expand the result, `name` being hidden throughout. */
  function ExpandInvocation(name: string, d: Definition, args: seq<string>, macros: Macros, depth: nat,
      stack: set<string>): Option<Expansion>
    requires depth <= MAX_EXPANSION_DEPTH
    decreases MAX_EXPANSION_DEPTH - depth, 3, 0
  {
    var expanded := ExpandEach(args, macros, depth, stack + {name});
    var applied := Apply(d, args, Texts(expanded));
    if applied.None? then None
    else
      var result := Expand(applied.value.text, macros, depth, stack + {name});
      Some(Expansion(result.text, AllRegular(expanded) && applied.value.regular && result.regular))
  }

  /** The scan of `t` from `i` on, with output `out` so far. */
  function ExpandFrom(t: string, i: nat, out: string, regular: bool, macros: Macros, depth: nat,
      stack: set<string>): Expansion
    requires i <= |t| && depth < MAX_EXPANSION_DEPTH
    decreases MAX_EXPANSION_DEPTH - depth, 0, |t| - i
  {
    if i == |t| then Expansion(out, regular)
    else
      var e := SkipInert(t, i);
      if e > i then ExpandFrom(t, e, out + t[i..e], regular, macros, depth, stack)
      else if !IsIdentStart(t[i]) then ExpandFrom(t, i + 1, out + [t[i]], regular, macros, depth, stack)
      else
        var w := WordEnd(t, i);
        var name := t[i..w];
        var invocation := if name in macros && name !in stack then InvocationOf(t, w, macros[name]) else None;
        if invocation.None? then ExpandFrom(t, w, out + name, regular, macros, depth, stack)
        else
          var end := invocation.value.end;
          var result := ExpandInvocation(name, macros[name], invocation.value.args, macros, depth + 1, stack);
          if result.None? then ExpandFrom(t, end, out + t[i..end], regular, macros, depth, stack)
          else
            var out' := out + result.value.text;
            var regular' := regular && result.value.regular && !Glue(result.value.text, t[end..]);
            if |out'| > MAX_EXPANSION_BYTES then Expansion(out'[..MAX_EXPANSION_BYTES], false)
            else ExpandFrom(t, end, out', regular', macros, depth, stack)
  }

  method ExpandText(t: string, macros: Macros, depth: nat, stack: set<string>) returns (out: string)
    requires depth <= MAX_EXPANSION_DEPTH
    ensures out == Expand(t, macros, depth, stack).text
    decreases MAX_EXPANSION_DEPTH - depth, 0
  {
    hide SkipInert, Apply, InvocationOf, Glue, WordEnd;
    if depth >= MAX_EXPANSION_DEPTH || |t| > MAX_EXPANSION_BYTES {
      return t;
    }
    out := "";
    ghost var regular := true;
    var i := 0;
    while i < |t|
      invariant i <= |t|
      invariant Expand(t, macros, depth, stack) == ExpandFrom(t, i, out, regular, macros, depth, stack)
    {
      var e := SkipInert(t, i);
      if e > i {
        out := out + t[i..e];
        i := e;
        continue;
      }
      if !IsIdentStart(t[i]) {
        out := out + [t[i]];
        i := i + 1;
        continue;
      }
      WordIsIdent(t, i);
      var w := WordEnd(t, i);
      var name := t[i..w];
      if name !in macros || name in stack {
        out := out + name;
        i := w;
        continue;
      }
      var d := macros[name];
      var invocation := InvocationOf(t, w, d);
      if invocation.None? {
        out := out + name;
        i := w;
        continue;
      }
      var Invocation(args, end) := invocation.value;
      ghost var result := ExpandInvocation(name, d, args, macros, depth + 1, stack);
      var replaced := ExpandOne(name, d, args, macros, depth + 1, stack);
      if replaced.None? {
        out := out + t[i..end];
        i := end;
        continue;
      }
      regular := regular && result.value.regular && !Glue(result.value.text, t[end..]);
      out := out + replaced.value;
      i := end;
      if |out| > MAX_EXPANSION_BYTES {
        return out[..MAX_EXPANSION_BYTES];
      }
    }
  }

  method ExpandOne(name: string, d: Definition, args: seq<string>, macros: Macros, depth: nat, stack: set<string>)
    returns (out: Option<string>)
    requires depth <= MAX_EXPANSION_DEPTH
    ensures out == match ExpandInvocation(name, d, args, macros, depth, stack) case None => None
        case Some(r) => Some(r.text)
    decreases MAX_EXPANSION_DEPTH - depth, 1
  {
    var hidden := stack + {name};
    var expanded: seq<string> := [];
    ghost var all := ExpandEach(args, macros, depth, hidden);
    for k := 0 to |args|
      invariant |expanded| == k
      invariant forall n :: 0 <= n < k ==> expanded[n] == all[n].text
    {
      var text := ExpandText(args[k], macros, depth, hidden);
      ExpandEachAt(args, macros, depth, hidden, k);
      expanded := expanded + [text];
    }
    assert expanded == Texts(all);
    var applied := ApplyArguments(d, args, expanded);
    if applied.None? {
      return None;
    }
    var text := ExpandText(applied.value, macros, depth, hidden);
    return Some(text);
  }

  lemma {:induction false} ExpandEachAt(texts: seq<string>, macros: Macros, depth: nat, stack: set<string>, k: nat)
    requires depth <= MAX_EXPANSION_DEPTH && k < |texts|
    ensures ExpandEach(texts, macros, depth, stack)[k] == Expand(texts[k], macros, depth, stack)
  {
    if k > 0 {
      ExpandEachAt(texts[1..], macros, depth, stack, k - 1);
    }
  }

  // ---------------------------------------------------------------- agreement

  /**
   Outside `names` the two macro tables define the same macros in the same way, and
   these definitions mention, besides their own parameters, nothing in `names`, and
   do not paste.
   */
  ghost predicate Agree(first: Macros, second: Macros, names: set<string>) {
    forall n: string :: n !in names ==>
      && (n in first <==> n in second)
      && (n in first ==> first[n] == second[n] && Contained(first[n], names))
  }

  ghost predicate Contained(d: Definition, names: set<string>) {
    Fits(d.replacement, names, Bound(d)) && !HasPaste(d.replacement)
  }

  ghost predicate ExpansionsAvoid(expansions: seq<Expansion>, names: set<string>) {
    forall k :: 0 <= k < |expansions| ==> Avoids(expansions[k].text, names)
  }

  lemma {:induction false} RegularFrom(t: string, i: nat, out: string, regular: bool, macros: Macros, depth: nat,
      stack: set<string>)
    requires i <= |t| && depth < MAX_EXPANSION_DEPTH
    ensures ExpandFrom(t, i, out, regular, macros, depth, stack).regular ==> regular
    decreases |t| - i
  {
    hide SkipInert, InvocationOf, ExpandInvocation, Glue, WordEnd;
    if i < |t| {
      var e := SkipInert(t, i);
      if e > i {
        RegularFrom(t, e, out + t[i..e], regular, macros, depth, stack);
      } else if !IsIdentStart(t[i]) {
        RegularFrom(t, i + 1, out + [t[i]], regular, macros, depth, stack);
      } else {
        WordIsIdent(t, i);
        var w := WordEnd(t, i);
        var name := t[i..w];
        var invocation := if name in macros && name !in stack then InvocationOf(t, w, macros[name]) else None;
        if invocation.None? {
          RegularFrom(t, w, out + name, regular, macros, depth, stack);
        } else {
          var end := invocation.value.end;
          var result := ExpandInvocation(name, macros[name], invocation.value.args, macros, depth + 1, stack);
          if result.None? {
            RegularFrom(t, end, out + t[i..end], regular, macros, depth, stack);
          } else if |out + result.value.text| <= MAX_EXPANSION_BYTES {
            RegularFrom(t, end, out + result.value.text, regular && result.value.regular &&
                !Glue(result.value.text, t[end..]), macros, depth, stack);
          }
        }
      }
    }
  }

  lemma InvocationAvoidsOf(t: string, nameEnd: nat, d: Definition, names: set<string>)
    requires nameEnd <= |t| && Avoids(t, names) && Cut(t, nameEnd)
    requires InvocationOf(t, nameEnd, d).Some?
    ensures AllAvoid(InvocationOf(t, nameEnd, d).value.args, names)
    ensures Cut(t, InvocationOf(t, nameEnd, d).value.end)
  {
    hide Avoids, InIdent, InvocationFrom;
    if d.parameters.Some? {
      ArgumentsAvoid(t, SkipGap(t, nameEnd), names);
      CutAtNonPart(t, InvocationOf(t, nameEnd, d).value.end);
    }
  }

  /** Copying `t[i..j]` between two cuts keeps the output clean and in step with the text. */
  lemma CopyKeeps(out: string, t: string, i: nat, j: nat, names: set<string>)
    requires Avoids(t, names) && Cut(t, i) && Cut(t, j) && i <= j
    requires Avoids(out, names) && !Glue(out, t[i..])
    ensures Avoids(out + t[i..j], names) && !Glue(out + t[i..j], t[j..])
  {
    AvoidsSlice(t, i, j, names);
    var x := t[i..j];
    if x == "" {
      assert out + x == out;
    } else {
      assert x[0] == t[i..][0];
      AvoidsJoin(out, x, names);
      GlueJoin(out, t, i, j);
    }
  }

  lemma GlueJoin(out: string, t: string, i: nat, j: nat)
    requires i < j <= |t| && Cut(t, i) && Cut(t, j) && !Glue(out, t[i..])
    ensures !Glue(out + t[i..j], t[j..])
  {
    hide InIdent;
    var x := t[i..j];
    InIdentJoin(out, x);
    assert t[..j] == t[..i] + x;
    InIdentJoin(t[..i], x);
    assert t[i..][0] == x[0];
  }

  /** Expansion depends on, and yields, nothing in `names`. */
  lemma {:induction false} ExpandAgrees(t: string, first: Macros, second: Macros, names: set<string>, depth: nat,
      stack: set<string>)
    requires depth <= MAX_EXPANSION_DEPTH && Agree(first, second, names) && Avoids(t, names)
    requires Expand(t, first, depth, stack).regular
    ensures Expand(t, second, depth, stack) == Expand(t, first, depth, stack)
    ensures Avoids(Expand(t, first, depth, stack).text, names)
    decreases MAX_EXPANSION_DEPTH - depth, 1, 0
  {
    hide Avoids, Agree, ExpandFrom;
    if depth < MAX_EXPANSION_DEPTH && |t| <= MAX_EXPANSION_BYTES {
      EmptyFits(names, {});
      CutAtEnds(t);
      ScanAgrees(t, 0, "", true, first, second, names, depth, stack);
    }
  }

  lemma {:induction false} EachAgrees(texts: seq<string>, first: Macros, second: Macros, names: set<string>, depth: nat,
      stack: set<string>)
    requires depth <= MAX_EXPANSION_DEPTH && Agree(first, second, names) && AllAvoid(texts, names)
    requires AllRegular(ExpandEach(texts, first, depth, stack))
    ensures ExpandEach(texts, second, depth, stack) == ExpandEach(texts, first, depth, stack)
    ensures ExpansionsAvoid(ExpandEach(texts, first, depth, stack), names)
    decreases MAX_EXPANSION_DEPTH - depth, 2, |texts|
  {
    hide Avoids, Agree, Expand;
    if texts != [] {
      var rest := ExpandEach(texts[1..], first, depth, stack);
      var all := ExpandEach(texts, first, depth, stack);
      assert all[0].regular && forall k :: 0 <= k < |rest| ==> rest[k] == all[k + 1];
      ExpandAgrees(texts[0], first, second, names, depth, stack);
      EachAgrees(texts[1..], first, second, names, depth, stack);
    }
  }

  lemma {:induction false} InvocationAgrees(name: string, d: Definition, args: seq<string>, first: Macros,
      second: Macros, names: set<string>, depth: nat, stack: set<string>)
    requires depth <= MAX_EXPANSION_DEPTH && Agree(first, second, names) && Contained(d, names) && AllAvoid(args, names)
    requires var r := ExpandInvocation(name, d, args, first, depth, stack); r.Some? ==> r.value.regular
    ensures ExpandInvocation(name, d, args, first, depth, stack).None? ==>
        ExpandInvocation(name, d, args, second, depth, stack).None?
    ensures var r := ExpandInvocation(name, d, args, first, depth, stack);
            r.Some? ==> ExpandInvocation(name, d, args, second, depth, stack) == r && Avoids(r.value.text, names)
    decreases MAX_EXPANSION_DEPTH - depth, 3, 0
  {
    hide Avoids, Agree, Expand, ExpandEach, Fits, HasPaste;
    var hidden := stack + {name};
    var expanded := ExpandEach(args, first, depth, hidden);
    if |args| < (if d.parameters.None? then 0 else VariadicIndex(d)) {
      assert Apply(d, args, Texts(expanded)).None?;
      assert Apply(d, args, Texts(ExpandEach(args, second, depth, hidden))).None?;
    } else {
      var applied := Apply(d, args, Texts(expanded));
      EachAgrees(args, first, second, names, depth, hidden);
      ApplyAvoids(d, args, Texts(expanded), names);
      ExpandAgrees(applied.value.text, first, second, names, depth, hidden);
    }
  }

  lemma {:induction false} ScanAgrees(t: string, i: nat, out: string, regular: bool, first: Macros, second: Macros,
      names: set<string>, depth: nat, stack: set<string>)
    requires depth < MAX_EXPANSION_DEPTH && Agree(first, second, names)
    requires Avoids(t, names) && Cut(t, i) && Avoids(out, names) && !Glue(out, t[i..])
    requires ExpandFrom(t, i, out, regular, first, depth, stack).regular
    ensures ExpandFrom(t, i, out, regular, second, depth, stack) == ExpandFrom(t, i, out, regular, first, depth, stack)
    ensures Avoids(ExpandFrom(t, i, out, regular, first, depth, stack).text, names)
    decreases MAX_EXPANSION_DEPTH - depth, 0, |t| - i
  {
    hide Avoids, Agree, SkipInert, InvocationOf, ExpandInvocation, Glue, WordEnd, InIdent;
    if i < |t| {
      var e := SkipInert(t, i);
      if e > i {
        InertCut(t, i);
        CopyKeeps(out, t, i, e, names);
        ScanAgrees(t, e, out + t[i..e], regular, first, second, names, depth, stack);
      } else if !IsIdentStart(t[i]) {
        CutStep(t, i);
        CopyKeeps(out, t, i, i + 1, names);
        assert t[i..i + 1] == [t[i]];
        ScanAgrees(t, i + 1, out + [t[i]], regular, first, second, names, depth, stack);
      } else {
        CutStarts(t, i);
        var w := WordEnd(t, i);
        var name := t[i..w];
        assert name !in names && (name in first <==> name in second) &&
            (name in first ==> first[name] == second[name] && Contained(first[name], names)) by {
          NameOutside(t, i, first, second, names);
        }
        var invocation := if name in first && name !in stack then InvocationOf(t, w, first[name]) else None;
        if invocation.None? {
          CopyKeeps(out, t, i, w, names);
          ScanAgrees(t, w, out + name, regular, first, second, names, depth, stack);
        } else {
          var Invocation(args, end) := invocation.value;
          InvocationAvoidsOf(t, w, first[name], names);
          var result := ExpandInvocation(name, first[name], args, first, depth + 1, stack);
          if result.None? {
            InvocationAgrees(name, first[name], args, first, second, names, depth + 1, stack);
            CopyKeeps(out, t, i, end, names);
            ScanAgrees(t, end, out + t[i..end], regular, first, second, names, depth, stack);
          } else {
            var out' := out + result.value.text;
            var regular' := regular && result.value.regular && !Glue(result.value.text, t[end..]);
            RegularFrom(t, end, out', regular', first, depth, stack);
            InvocationAgrees(name, first[name], args, first, second, names, depth + 1, stack);
            AppendKeeps(out, t, i, result.value.text, end, names);
            ScanAgrees(t, end, out', regular', first, second, names, depth, stack);
          }
        }
      }
    }
  }

  lemma NameOutside(t: string, i: nat, first: Macros, second: Macros, names: set<string>)
    requires Agree(first, second, names) && Avoids(t, names) && StartsAt(t, i)
    ensures var name := t[i..WordEnd(t, i)];
            && name !in names && (name in first <==> name in second)
            && (name in first ==> first[name] == second[name] && Contained(first[name], names))
  {
    hide Contained;
    assert Word(t, i) !in names;
  }

  lemma AppendKeeps(out: string, t: string, i: nat, x: string, end: nat, names: set<string>)
    requires i < end <= |t| && IsIdentStart(t[i]) && !Glue(out, t[i..])
    requires Avoids(out, names) && Avoids(x, names) && !Glue(x, t[end..])
    ensures Avoids(out + x, names) && !Glue(out + x, t[end..])
  {
    hide Avoids;
    assert !InIdent(out) by { assert t[i..][0] == t[i]; }
    AvoidsJoin(out, x, names);
    if x == "" {
      assert out + x == out;
    } else {
      InIdentJoin(out, x);
    }
  }
}
