/**
 The scanners of the macro expander: quoted text and comments, directive lines,
 the arguments of an invocation, and the `#define` lines of one source file.
 Each scanner is a loop over the text, given as a method, and a recursive
 function that says what the loop computes.
 */
module MacroScan {
  import opened Options
  import opened Text

  const MAX_DEFINITION_BYTES := 64 * 1024

  predicate IsIdentifier(v: string) {
    v != "" && IsIdentStart(v[0]) && forall k :: 0 <= k < |v| ==> IsIdentPart(v[k])
  }

  type Identifier = v: string | IsIdentifier(v) witness "x"

  /** A macro definition; `parameters` is None for an object-like macro. */
  datatype Definition = Definition(name: Identifier, parameters: Option<seq<Identifier>>, variadic: Option<Identifier>,
      replacement: string)

  /** A definition together with the offset of its `#` in its own file. */
  datatype LocalDefinition = LocalDefinition(start: nat, definition: Definition)

  datatype Invocation = Invocation(args: seq<string>, end: nat)

  // ---------------------------------------------------------------- quotes and comments

  /** Where quoted text ends when the scan stands at `i`, after the opening quote. */
  function QuotedEnd(t: string, quote: char, i: nat): (e: nat)
    requires i <= |t|
    ensures i <= e <= |t|
    ensures e == |t| || (i < e && t[e - 1] == quote)
    decreases |t| - i
  {
    if i == |t| then i
    else if t[i] == '\\' then (if i + 2 <= |t| then QuotedEnd(t, quote, i + 2) else |t|)
    else if t[i] == quote then i + 1
    else QuotedEnd(t, quote, i + 1)
  }

  method SkipQuoted(t: string, start: nat) returns (e: nat)
    requires start < |t|
    ensures e == QuotedEnd(t, t[start], start + 1)
  {
    var quote := t[start];
    e := start + 1;
    while e < |t|
      invariant e <= |t|
      invariant QuotedEnd(t, quote, start + 1) == QuotedEnd(t, quote, e)
    {
      var c := t[e];
      if c == '\\' {
        e := if e + 2 <= |t| then e + 2 else |t|;
        continue;
      }
      e := e + 1;
      if c == quote {
        return;
      }
    }
  }

  predicate IsQuote(c: char) {
    c == '"' || c == '\''
  }

  function LineCommentEnd(t: string, start: nat): nat {
    Find(t, "\n", start + 2)
  }

  function BlockCommentEnd(t: string, start: nat): nat {
    var e := Find(t, "*/", start + 2);
    if e < |t| then e + 2 else |t|
  }

  /** The end of the literal or comment that begins at `i`, or `i` when none does. */
  function SkipInert(t: string, i: nat): (e: nat)
    requires i < |t|
    ensures i <= e <= |t|
  {
    if IsQuote(t[i]) then QuotedEnd(t, t[i], i + 1)
    else if MatchesAt(t, i, "//") then LineCommentEnd(t, i)
    else if MatchesAt(t, i, "/*") then BlockCommentEnd(t, i)
    else i
  }

  lemma LineCommentCut(t: string, i: nat)
    requires i < |t| && MatchesAt(t, i, "//")
    ensures !IsIdentPart(t[i]) && LineCommentEnd(t, i) <= |t| && Cut(t, LineCommentEnd(t, i))
  {
    hide InIdent, Cut;
    var e := LineCommentEnd(t, i);
    assert t[i] == t[i..i + 2][0] == '/';
    assert e < |t| ==> t[e] == t[e..e + 1][0] == '\n';
    CutAtNonPart(t, e);
  }

  lemma BlockCommentCut(t: string, i: nat)
    requires i < |t| && MatchesAt(t, i, "/*")
    ensures !IsIdentPart(t[i]) && BlockCommentEnd(t, i) <= |t| && Cut(t, BlockCommentEnd(t, i))
  {
    hide InIdent, Cut;
    var e := BlockCommentEnd(t, i);
    assert t[i] == t[i..i + 2][0] == '/';
    assert e < |t| && MatchesAt(t, e - 2, "*/") ==> t[e - 1] == t[e - 2..e][1] == '/';
    CutAtNonPart(t, e);
  }

  /** A literal or comment begins and ends between identifiers. */
  lemma InertCut(t: string, i: nat)
    requires i < |t| && i < SkipInert(t, i)
    ensures !IsIdentPart(t[i]) && Cut(t, SkipInert(t, i))
  {
    hide InIdent, Cut, LineCommentEnd, BlockCommentEnd, MatchesAt;
    if IsQuote(t[i]) {
      CutAtNonPart(t, SkipInert(t, i));
    } else if MatchesAt(t, i, "//") {
      LineCommentCut(t, i);
    } else {
      BlockCommentCut(t, i);
    }
  }

  // ---------------------------------------------------------------- invocations

  /** The rest of an argument list: `depth` parentheses are open, the current argument began at `start`. */
  function InvocationFrom(t: string, i: nat, depth: nat, start: nat, args: seq<string>): Option<Invocation>
    requires start <= i <= |t| && depth > 0
    decreases |t| - i
  {
    if i == |t| then None
    else
      var e := SkipInert(t, i);
      if e > i then InvocationFrom(t, e, depth, start, args)
      else if t[i] == ')' && depth == 1 then
        var tail := Trim(t[start..i]);
        Some(Invocation(if tail != "" || args != [] then args + [tail] else args, i + 1))
      else
        var depth' := if t[i] == '(' then depth + 1 else if t[i] == ')' then depth - 1 else depth;
        var separator := t[i] == ',' && depth == 1;
        InvocationFrom(t, i + 1, depth', if separator then i + 1 else start, if separator
            then args + [Trim(t[start..i])] else args)
  }

  lemma {:induction false} InvocationEnds(t: string, i: nat, depth: nat, start: nat, args: seq<string>)
    requires start <= i <= |t| && depth > 0
    ensures var r := InvocationFrom(t, i, depth, start, args);
            r.Some? ==> i < r.value.end <= |t| && t[r.value.end - 1] == ')'
    decreases |t| - i
  {
    hide SkipInert, Trim;
    if i < |t| {
      var e := SkipInert(t, i);
      if e > i {
        InvocationEnds(t, e, depth, start, args);
      } else if t[i] != ')' || depth > 1 {
        var depth' := if t[i] == '(' then depth + 1 else if t[i] == ')' then depth - 1 else depth;
        var separator := t[i] == ',' && depth == 1;
        InvocationEnds(t, i + 1, depth', if separator then i + 1 else start, if separator
            then args + [Trim(t[start..i])] else args);
      }
    }
  }

  /** The argument list whose parenthesis opens at `open`, if it opens there and is closed. */
  function InvocationAt(t: string, open: nat): (r: Option<Invocation>)
    requires open <= |t|
    ensures r.Some? ==> open < r.value.end <= |t| && t[r.value.end - 1] == ')'
  {
    if open < |t| && t[open] == '(' then
      InvocationEnds(t, open + 1, 1, open + 1, []);
      InvocationFrom(t, open + 1, 1, open + 1, [])
    else None
  }

  method ParseInvocation(t: string, open: nat) returns (r: Option<Invocation>)
    requires open <= |t|
    ensures r == InvocationAt(t, open)
  {
    hide SkipInert, Trim;
    if open == |t| || t[open] != '(' {
      return None;
    }
    var i, depth, start, args := open + 1, 1, open + 1, [];
    while i < |t|
      invariant open < start <= i <= |t| && depth > 0
      invariant InvocationAt(t, open) == InvocationFrom(t, i, depth, start, args)
    {
      var e := SkipInert(t, i);
      if e > i {
        i := e;
        continue;
      }
      if t[i] == '(' {
        depth := depth + 1;
      } else if t[i] == ')' {
        if depth == 1 {
          var tail := Trim(t[start..i]);
          return Some(Invocation(if tail != "" || args != [] then args + [tail] else args, i + 1));
        }
        depth := depth - 1;
      } else if t[i] == ',' && depth == 1 {
        args := args + [Trim(t[start..i])];
        start := i + 1;
      }
      i := i + 1;
    }
    return None;
  }

  ghost predicate AllAvoid(texts: seq<string>, names: set<string>) {
    forall k :: 0 <= k < |texts| ==> Avoids(texts[k], names)
  }

  lemma {:induction false} InvocationAvoids(t: string, i: nat, depth: nat, start: nat, args: seq<string>,
      names: set<string>)
    requires 0 < start <= i <= |t| && depth > 0
    requires Avoids(t, names) && AllAvoid(args, names) && !IsIdentPart(t[start - 1])
    requires InvocationFrom(t, i, depth, start, args).Some?
    ensures AllAvoid(InvocationFrom(t, i, depth, start, args).value.args, names)
    decreases |t| - i
  {
    hide Avoids, SkipInert, Trim, Cut, Glue, InIdent;
    var e := SkipInert(t, i);
    if e > i {
      InvocationAvoids(t, e, depth, start, args, names);
    } else {
      if (t[i] == ')' || t[i] == ',') && depth == 1 {
        CutAtNonPart(t, start);
        CutAtNonPart(t, i);
        AvoidsSlice(t, start, i, names);
        TrimAvoids(t[start..i], names);
      }
      if t[i] != ')' || depth > 1 {
        var depth' := if t[i] == '(' then depth + 1 else if t[i] == ')' then depth - 1 else depth;
        var separator := t[i] == ',' && depth == 1;
        InvocationAvoids(t, i + 1, depth', if separator then i + 1 else start, if separator
            then args + [Trim(t[start..i])] else args, names);
      }
    }
  }

  /** The arguments of an invocation mention only identifiers of the text it stands in. */
  lemma ArgumentsAvoid(t: string, open: nat, names: set<string>)
    requires open <= |t| && Avoids(t, names) && InvocationAt(t, open).Some?
    ensures AllAvoid(InvocationAt(t, open).value.args, names)
  {
    InvocationAvoids(t, open + 1, 1, open + 1, [], names);
  }

  // ---------------------------------------------------------------- directive lines

  /** The newline that ends the directive at `hash`, continuation lines included, or the end of the text. */
  function DirectiveEndFrom(t: string, hash: nat, i: nat): (e: nat)
    requires i <= |t|
    ensures i <= e <= |t|
    ensures e < |t| ==> t[e] == '\n'
    decreases |t| - i
  {
    var newline := Find(t, "\n", i);
    if newline == |t| then |t|
    else
      assert t[newline] == t[newline..newline + 1][0];
      if Continued(t, hash, newline) then DirectiveEndFrom(t, hash, newline + 1) else newline
  }

  /** The line that ends at `newline` ends in a backslash that belongs to the directive. */
  predicate Continued(t: string, hash: nat, newline: nat)
    requires newline < |t|
  {
    var k := if newline >= 1 && t[newline - 1] == '\r' then newline - 2 else newline - 1;
    k >= hash && k >= 0 && t[k] == '\\'
  }

  function DirectiveEnd(t: string, hash: nat): (e: nat)
    requires hash <= |t|
    ensures hash <= e <= |t|
    ensures e < |t| ==> t[e] == '\n'
  {
    DirectiveEndFrom(t, hash, hash)
  }

  method FindDirectiveEnd(t: string, hash: nat) returns (e: nat)
    requires hash <= |t|
    ensures e == DirectiveEnd(t, hash)
  {
    hide Find, MatchesAt, Continued;
    var i := hash;
    while i < |t|
      invariant hash <= i <= |t|
      invariant DirectiveEnd(t, hash) == DirectiveEndFrom(t, hash, i)
    {
      var newline := Find(t, "\n", i);
      if newline == |t| {
        return |t|;
      }
      if Continued(t, hash, newline) {
        i := newline + 1;
        continue;
      }
      return newline;
    }
    return |t|;
  }

  // ---------------------------------------------------------------- definitions

  /** Replace each backslash, optional carriage return and newline by one space. */
  function JoinContinuations(t: string, i: nat): string
    requires i <= |t|
    decreases |t| - i
  {
    if i == |t| then ""
    else if MatchesAt(t, i, "\\\n") then " " + JoinContinuations(t, i + 2)
    else if MatchesAt(t, i, "\\\r\n") then " " + JoinContinuations(t, i + 3)
    else [t[i]] + JoinContinuations(t, i + 1)
  }

  /** Replacing a stretch of non-identifier characters by another changes no identifier. */
  lemma AvoidsExchange(a: string, x: string, y: string, b: string, names: set<string>)
    requires x != "" && !IsIdentPart(x[0]) && !IsIdentPart(x[|x| - 1])
    requires y != "" && !IsIdentPart(y[0]) && !IsIdentPart(y[|y| - 1])
    requires Avoids(a + x + b, names) && Avoids(y, names)
    ensures Avoids(a + y + b, names)
  {
    assert (a + x)[|a + x| - 1] == x[|x| - 1];
    assert (a + y)[|a + y| - 1] == y[|y| - 1];
    AvoidsJoin(a + x, b, names);
    AvoidsJoin(a, x, names);
    AvoidsJoin(a, y, names);
    AvoidsJoin(a + y, b, names);
  }

  lemma MatchSplits(t: string, i: nat, pattern: string)
    requires MatchesAt(t, i, pattern)
    ensures i + |pattern| <= |t| && t[i..] == pattern + t[i + |pattern|..]
  {
  }

  lemma SpaceAvoids(names: set<string>)
    ensures Avoids(" ", names)
  {
  }

  lemma {:induction false} JoinContinuationsAvoids(a: string, t: string, i: nat, names: set<string>)
    requires i <= |t| && Avoids(a + t[i..], names)
    ensures Avoids(a + JoinContinuations(t, i), names)
    decreases |t| - i
  {
    hide Avoids, InIdent, MatchesAt;
    SpaceAvoids(names);
    if i == |t| {
      assert t[i..] == "";
    } else if MatchesAt(t, i, "\\\n") {
      assert a + t[i..] == a + "\\\n" + t[i + 2..] by { MatchSplits(t, i, "\\\n"); }
      AvoidsExchange(a, "\\\n", " ", t[i + 2..], names);
      JoinContinuationsAvoids(a + " ", t, i + 2, names);
      assert a + " " + JoinContinuations(t, i + 2) == a + (" " + JoinContinuations(t, i + 2));
    } else if MatchesAt(t, i, "\\\r\n") {
      assert a + t[i..] == a + "\\\r\n" + t[i + 3..] by { MatchSplits(t, i, "\\\r\n"); }
      AvoidsExchange(a, "\\\r\n", " ", t[i + 3..], names);
      JoinContinuationsAvoids(a + " ", t, i + 3, names);
      assert a + " " + JoinContinuations(t, i + 3) == a + (" " + JoinContinuations(t, i + 3));
    } else {
      assert a + t[i..] == a + [t[i]] + t[i + 1..];
      JoinContinuationsAvoids(a + [t[i]], t, i + 1, names);
      assert a + [t[i]] + JoinContinuations(t, i + 1) == a + ([t[i]] + JoinContinuations(t, i + 1));
    }
  }

  /** The offset just after `# define` and the space that must follow it, or 0 when the text does not begin so. */
  function AfterDefine(t: string): (m: nat)
    ensures m <= |t|
    ensures m > 0 ==> !IsIdentPart(t[m - 1])
  {
    var j := SkipSpaces(t, 0);
    if j < |t| && t[j] == '#' then
      var k := SkipSpaces(t, j + 1);
      if MatchesAt(t, k, "define") then
        var m := SkipSpaces(t, k + 6);
        if m > k + 6 then assert IsSpace(t[m - 1]); m else 0
      else 0
    else 0
  }

  /** The position after the parenthesis that closes the `depth` open ones. */
  function CloseParen(t: string, i: nat, depth: nat): (r: Option<nat>)
    requires i <= |t|
    ensures r.Some? ==> i <= r.value <= |t|
    ensures r.Some? && depth > 0 ==> i < r.value && t[r.value - 1] == ')'
    decreases |t| - i
  {
    if depth == 0 then Some(i)
    else if i == |t| then None
    else if t[i] == '(' then CloseParen(t, i + 1, depth + 1)
    else if t[i] == ')' then CloseParen(t, i + 1, depth - 1)
    else CloseParen(t, i + 1, depth)
  }

  /** Split at the commas outside quotes, comments and brackets of every kind. */
  function SplitFrom(t: string, i: nat, start: nat, paren: nat, bracket: nat, brace: nat, out: seq<string>): seq<string>
    requires start <= i <= |t|
    decreases |t| - i
  {
    if i == |t| then
      var tail := Trim(t[start..]);
      if tail != "" || Trim(t) != "" then out + [tail] else out
    else
      var e := SkipInert(t, i);
      if e > i then SplitFrom(t, e, start, paren, bracket, brace, out)
      else match t[i]
        case '(' => SplitFrom(t, i + 1, start, paren + 1, bracket, brace, out)
        case ')' => SplitFrom(t, i + 1, start, if paren > 0 then paren - 1 else 0, bracket, brace, out)
        case '[' => SplitFrom(t, i + 1, start, paren, bracket + 1, brace, out)
        case ']' => SplitFrom(t, i + 1, start, paren, if bracket > 0 then bracket - 1 else 0, brace, out)
        case '{' => SplitFrom(t, i + 1, start, paren, bracket, brace + 1, out)
        case '}' => SplitFrom(t, i + 1, start, paren, bracket, if brace > 0 then brace - 1 else 0, out)
        case c =>
          if c == ',' && paren == 0 && bracket == 0 && brace == 0
          then SplitFrom(t, i + 1, i + 1, paren, bracket, brace, out + [Trim(t[start..i])])
          else SplitFrom(t, i + 1, start, paren, bracket, brace, out)
  }

  method SplitArguments(t: string) returns (out: seq<string>)
    ensures out == SplitFrom(t, 0, 0, 0, 0, 0, [])
  {
    hide SkipInert, Trim;
    out := [];
    var start, paren, bracket, brace, i := 0, 0, 0, 0, 0;
    while i < |t|
      invariant start <= i <= |t| && paren >= 0 && bracket >= 0 && brace >= 0
      invariant SplitFrom(t, 0, 0, 0, 0, 0, []) == SplitFrom(t, i, start, paren, bracket, brace, out)
    {
      var e := SkipInert(t, i);
      if e > i {
        i := e;
        continue;
      }
      var c := t[i];
      if c == '(' { paren := paren + 1; }
      else if c == ')' { paren := if paren > 0 then paren - 1 else 0; }
      else if c == '[' { bracket := bracket + 1; }
      else if c == ']' { bracket := if bracket > 0 then bracket - 1 else 0; }
      else if c == '{' { brace := brace + 1; }
      else if c == '}' { brace := if brace > 0 then brace - 1 else 0; }
      else if c == ',' && paren == 0 && bracket == 0 && brace == 0 {
        out := out + [Trim(t[start..i])];
        start := i + 1;
      }
      i := i + 1;
    }
    var tail := Trim(t[start..]);
    if tail != "" || Trim(t) != "" {
      out := out + [tail];
    }
  }

  datatype Formals = Formals(parameters: seq<Identifier>, variadic: Option<Identifier>)

  const VA_ARGS: Identifier := "__VA_ARGS__"

  /** Read the parameter list; None when a parameter is not an identifier, `...` or `name...`. */
  function ReadFormals(segments: seq<string>, acc: Formals): Option<Formals> {
    if segments == [] then Some(acc)
    else
      var v := Trim(segments[0]);
      if v == "" then ReadFormals(segments[1..], acc)
      else if v == "..." then ReadFormals(segments[1..], Formals(acc.parameters + [VA_ARGS], Some(VA_ARGS)))
      else
        var w := WordEnd(v, 0);
        if !IsIdentStart(v[0]) then None
        else if v[SkipSpaces(v, w)..] == "..."
            then ReadFormals(segments[1..], Formals(acc.parameters + [v[..w]], Some(v[..w])))
        else if w == |v| then ReadFormals(segments[1..], acc.(parameters := acc.parameters + [v]))
        else None
  }

  /** The directive line `source[hash..end]` with its continuations joined and its `#define` removed. */
  function DirectiveText(source: string, hash: nat, end: nat): string
    requires hash <= end <= |source|
  {
    var joined := JoinContinuations(source[hash..end], 0);
    joined[AfterDefine(joined)..]
  }

  /** Read a name, an optional parameter list that must follow at once, and the replacement. */
  function ReadDefinition(text: string): Option<Definition> {
    if text == "" || !IsIdentStart(text[0]) then None
    else
      var i := WordEnd(text, 0);
      if i < |text| && text[i] == '(' then
        var close := CloseParen(text, i + 1, 1);
        if close.None? then None
        else
          var formals := ReadFormals(SplitFrom(text[i + 1..close.value - 1], 0, 0, 0, 0, 0, []), Formals([], None));
          if formals.None? then None
          else
            Bounded(Definition(text[..i], Some(formals.value.parameters), formals.value.variadic,
                Trim(text[close.value..])))
      else Bounded(Definition(text[..i], None, None, Trim(text[i..])))
  }

  function Bounded(definition: Definition): Option<Definition> {
    if |definition.replacement| > MAX_DEFINITION_BYTES then None else Some(definition)
  }

  /** The definition on the directive line `source[hash..end]`, if it is one. */
  function ParseDefinition(source: string, hash: nat, end: nat): Option<Definition>
    requires hash <= end <= |source|
  {
    ReadDefinition(DirectiveText(source, hash, end))
  }

  lemma DirectiveTextAvoids(source: string, hash: nat, end: nat, names: set<string>)
    requires hash <= end <= |source| && Avoids(source, names)
    requires hash == |source| || !IsIdentPart(source[hash])
    requires end == |source| || !IsIdentPart(source[end])
    ensures Avoids(DirectiveText(source, hash, end), names)
  {
    hide Avoids, JoinContinuations, AfterDefine, InIdent;
    CutAtNonPart(source, hash);
    CutAtNonPart(source, end);
    AvoidsSlice(source, hash, end, names);
    var slice := source[hash..end];
    assert "" + slice[0..] == slice;
    JoinContinuationsAvoids("", slice, 0, names);
    var joined := JoinContinuations(slice, 0);
    assert "" + joined == joined;
    var m := AfterDefine(joined);
    CutAtEnds(joined);
    if m > 0 { CutAtNonPart(joined, m); }
    AvoidsSuffix(joined, m, names);
  }

  lemma ReplacementAvoids(text: string, names: set<string>)
    requires Avoids(text, names) && ReadDefinition(text).Some?
    ensures Avoids(ReadDefinition(text).value.replacement, names)
  {
    hide Avoids, Trim, CloseParen, ReadFormals, SplitFrom, InIdent;
    var i := WordEnd(text, 0);
    if i < |text| && text[i] == '(' {
      var close := CloseParen(text, i + 1, 1).value;
      CutAtNonPart(text, close);
      AvoidsSuffix(text, close, names);
      TrimAvoids(text[close..], names);
    } else {
      CutAtNonPart(text, i);
      AvoidsSuffix(text, i, names);
      TrimAvoids(text[i..], names);
    }
  }

  /** `#`, optional white space and the word `define` stand at `i`. */
  predicate DefineAt(t: string, i: nat) {
    i < |t| && t[i] == '#' &&
    var k := SkipSpaces(t, i + 1);
    MatchesAt(t, k, "define") && (k + 6 == |t| || !IsIdentPart(t[k + 6]))
  }

  predicate HasDefine(t: string) {
    exists i: nat :: i < |t| && DefineAt(t, i)
  }

  function SkipBlanks(t: string, i: nat): (j: nat)
    requires i <= |t|
    ensures i <= j <= |t|
    decreases |t| - i
  {
    if i < |t| && t[i] in " \t\r" then SkipBlanks(t, i + 1) else i
  }

  /** What the directive at `first` defines: nothing, or one definition. */
  function LineDefinition(source: string, first: nat, end: nat): seq<LocalDefinition>
    requires first <= end <= |source|
  {
    var header := source[first..if end <= first + 128 then end else first + 128];
    var parsed := if DefineAt(header, 0) then ParseDefinition(source, first, end) else None;
    if parsed.Some? then [LocalDefinition(first, parsed.value)] else []
  }

  /** Definitions on the lines from `offset` on, appended to those found so far. */
  function ScanFrom(source: string, offset: nat, found: seq<LocalDefinition>): seq<LocalDefinition>
    requires offset <= |source|
    decreases |source| - offset
  {
    if offset == |source| then found
    else
      var newline := Find(source, "\n", offset);
      var first := SkipBlanks(source, offset);
      if first < |source| && source[first] == '#' then
        var end := DirectiveEnd(source, first);
        ScanFrom(source, if end < |source| then end + 1 else end, found + LineDefinition(source, first, end))
      else ScanFrom(source, if newline == |source| then newline else newline + 1, found)
  }

  /** All the `#define` lines of one file, in order. */
  function LocalDefinitions(source: string): seq<LocalDefinition> {
    if HasDefine(source) then ScanFrom(source, 0, []) else []
  }

  method ScanCppMacroDefinitions(source: string) returns (definitions: seq<LocalDefinition>)
    ensures definitions == LocalDefinitions(source)
  {
    hide LineDefinition, HasDefine, DirectiveEnd, MatchesAt, Find, SkipBlanks;
    definitions := [];
    if !HasDefine(source) {
      return;
    }
    var offset := 0;
    while offset < |source|
      invariant offset <= |source|
      invariant ScanFrom(source, 0, []) == ScanFrom(source, offset, definitions)
    {
      var newline := Find(source, "\n", offset);
      var first := SkipBlanks(source, offset);
      if first < |source| && source[first] == '#' {
        var end := FindDirectiveEnd(source, first);
        definitions := definitions + LineDefinition(source, first, end);
        offset := if end < |source| then end + 1 else end;
        continue;
      }
      offset := if newline == |source| then newline else newline + 1;
    }
  }

  ghost predicate LocalsAvoid(locals: seq<LocalDefinition>, names: set<string>) {
    forall k :: 0 <= k < |locals| ==> Avoids(locals[k].definition.replacement, names)
  }

  lemma LineDefinitionAvoids(source: string, first: nat, end: nat, names: set<string>)
    requires first <= end <= |source| && Avoids(source, names)
    requires first < |source| && source[first] == '#'
    requires end == |source| || source[end] == '\n'
    ensures LocalsAvoid(LineDefinition(source, first, end), names)
  {
    hide Avoids, ReadDefinition, DirectiveText, DefineAt;
    DirectiveTextAvoids(source, first, end, names);
    if ReadDefinition(DirectiveText(source, first, end)).Some? {
      ReplacementAvoids(DirectiveText(source, first, end), names);
    }
  }

  lemma {:induction false} ScanAvoids(source: string, offset: nat, found: seq<LocalDefinition>, names: set<string>)
    requires offset <= |source| && Avoids(source, names) && LocalsAvoid(found, names)
    ensures LocalsAvoid(ScanFrom(source, offset, found), names)
    decreases |source| - offset
  {
    hide Avoids, DirectiveEnd, LineDefinition, Find, MatchesAt, SkipBlanks;
    if offset < |source| {
      var newline := Find(source, "\n", offset);
      var first := SkipBlanks(source, offset);
      if first < |source| && source[first] == '#' {
        var end := DirectiveEnd(source, first);
        LineDefinitionAvoids(source, first, end, names);
        ScanAvoids(source, if end < |source| then end + 1 else end, found + LineDefinition(source, first, end), names);
      } else {
        ScanAvoids(source, if newline == |source| then newline else newline + 1, found, names);
      }
    }
  }

  /** A file that mentions none of `names` has no definition whose replacement mentions one. */
  lemma LocalDefinitionsAvoid(source: string, names: set<string>)
    requires Avoids(source, names)
    ensures LocalsAvoid(LocalDefinitions(source), names)
  {
    ScanAvoids(source, 0, [], names);
  }
}
