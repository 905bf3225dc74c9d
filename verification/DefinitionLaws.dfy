/**
 Definitions are read back as they are written: a line `#define` with a name, parameters and
 a body is scanned to the definition with this name, these parameters and this body. And
 what a directive is: where it may begin, and where it ends.
 */
module DefinitionLaws {
  import opened Options
  import opened Text
  import opened MacroScan
  import opened Replacing
  import opened Substitution
  import opened DeclarationMacros
  import opened ArgumentLists
  import opened OwnPasteWitness

  // ---------------------------------------------------------------- directives

  /** Only blanks stand between `j`, where a line begins, and `i`. */
  predicate OpensLine(t: string, j: nat, i: nat) {
    j <= i <= |t| && (j == 0 || t[j - 1] == '\n') && forall k :: j <= k < i ==> t[k] in " \t\r"
  }

  lemma {:induction false} LineStartIs(t: string, k: nat)
    requires k <= |t|
    ensures var s := LineStart(t, k); (s == 0 || t[s - 1] == '\n') && forall n :: s <= n < k ==> t[n] != '\n'
  {
    if k > 0 && t[k - 1] != '\n' {
      LineStartIs(t, k - 1);
    }
  }

  /** A directive begins with a `#` that only blanks precede on its line. */
  lemma DirectiveOpensItsLine(t: string, i: nat)
    requires i < |t|
    ensures IsDirectiveStart(t, i) <==> t[i] == '#' && exists j: nat :: OpensLine(t, j, i)
  {
    LineStartIs(t, i);
    if IsDirectiveStart(t, i) {
      assert OpensLine(t, LineStart(t, i), i);
    }
    if j: nat :| OpensLine(t, j, i) {
      assert LineStart(t, i) > j ==> t[LineStart(t, i) - 1] == '\n';
      assert LineStart(t, i) < j ==> t[j - 1] != '\n';
    }
  }

  lemma NextNewline(t: string, i: nat)
    requires i <= |t|
    ensures var e := Find(t, "\n", i); (e < |t| ==> t[e] == '\n') && forall k :: i <= k < e ==> t[k] != '\n'
  {
    var e := Find(t, "\n", i);
    forall k: nat | i <= k < e ensures t[k] != '\n' {
      FindIsFirst(t, "\n", i, k);
      assert t[k..k + 1] == [t[k]];
    }
    assert e < |t| ==> t[e] == t[e..e + 1][0];
  }

  /** It ends at the first line end that is not continued. */
  lemma {:induction false} DirectiveEndIsFirst(t: string, hash: nat, i: nat)
    requires i <= |t|
    ensures var e := DirectiveEndFrom(t, hash, i);
            && (e < |t| ==> t[e] == '\n' && !Continued(t, hash, e))
            && forall k :: i <= k < e && t[k] == '\n' ==> Continued(t, hash, k)
    decreases |t| - i
  {
    hide Continued, Find;
    var newline := Find(t, "\n", i);
    NextNewline(t, i);
    if newline < |t| {
      if Continued(t, hash, newline) {
        DirectiveEndIsFirst(t, hash, newline + 1);
      }
    }
  }

  // ---------------------------------------------------------------- parameters

  /** A parameter as it is written: a name, `...`, or a name and `...`. */
  datatype Formal = Plain(p: Identifier) | Rest | Named(p: Identifier)

  function Spelt(f: Formal): string {
    match f
    case Plain(p) => p
    case Rest => "..."
    case Named(p) => p + "..."
  }

  function NameOf(f: Formal): Identifier {
    if f.Rest? then VA_ARGS else f.p
  }

  function SpeltAll(formals: seq<Formal>): (r: seq<string>)
    ensures |r| == |formals|
  {
    if formals == [] then [] else [Spelt(formals[0])] + SpeltAll(formals[1..])
  }

  function Names(formals: seq<Formal>): seq<Identifier> {
    if formals == [] then [] else [NameOf(formals[0])] + Names(formals[1..])
  }

  /** The last parameter with dots, or else `earlier`. */
  function VariadicOf(formals: seq<Formal>, earlier: Option<Identifier>): Option<Identifier> {
    if formals == [] then earlier
    else VariadicOf(formals[1..], if formals[0].Plain? then earlier else Some(NameOf(formals[0])))
  }

  /** Characters that mean nothing to the scanners of a parameter list. */
  predicate Quiet(c: char) {
    IsIdentPart(c) || c == '.' || c == ' '
  }

  lemma SpeltIs(f: Formal)
    ensures var s := Spelt(f);
            && s != "" && !IsSpace(s[0]) && !IsSpace(s[|s| - 1]) && Trim(s) == s
            && forall k :: 0 <= k < |s| ==> Quiet(s[k])
  {
    var s := Spelt(f);
    assert f.Named? ==> forall k :: 0 <= k < |f.p| ==> s[k] == f.p[k];
    TrimmedStays(s);
  }

  lemma TrimmedStays(s: string)
    requires s == "" || (!IsSpace(s[0]) && !IsSpace(s[|s| - 1]))
    ensures Trim(s) == s
  {
    assert s != "" ==> SkipSpaces(s, 0) == 0;
    assert s[0..] == s;
  }

  lemma DottedIs(p: Identifier)
    ensures var s := p + "..."; WordEnd(s, 0) == |p| && SkipSpaces(s, |p|) == |p| && s[|p|..] == "..." && s != "..."
  {
    var s := p + "...";
    assert forall k :: 0 <= k < |p| ==> s[k] == p[k];
    assert s[|p|] == '.' && s[0] == p[0];
  }

  lemma PlainIs(p: Identifier)
    ensures WordEnd(p, 0) == |p| && SkipSpaces(p, |p|) == |p| && p[|p|..] == "" && p != "..."
  {
    assert p[0] != '.';
  }

  /** One parameter is read. */
  lemma FormalIsRead(segments: seq<string>, f: Formal, acc: Formals)
    requires segments != [] && segments[0] == Spelt(f)
    ensures ReadFormals(segments, acc) == ReadFormals(segments[1..],
        Formals(acc.parameters + [NameOf(f)], if f.Plain? then acc.variadic else Some(NameOf(f))))
  {
    SpeltIs(f);
    hide WordEnd, SkipSpaces, Trim;
    match f
    case Plain(p) => PlainIs(p);
    case Rest =>
    case Named(p) =>
      DottedIs(p);
      assert Spelt(f)[..|p|] == p;
  }

  lemma {:induction false} FormalsAreRead(formals: seq<Formal>, acc: Formals)
    ensures ReadFormals(SpeltAll(formals), acc) ==
        Some(Formals(acc.parameters + Names(formals), VariadicOf(formals, acc.variadic)))
    decreases |formals|
  {
    hide ReadFormals;
    if formals == [] {
      NoFormals(acc);
      assert acc.parameters + [] == acc.parameters;
    } else {
      var f := formals[0];
      FormalIsRead(SpeltAll(formals), f, acc);
      assert SpeltAll(formals)[1..] == SpeltAll(formals[1..]);
      FormalsAreRead(formals[1..], Formals(acc.parameters + [NameOf(f)], if f.Plain? then acc.variadic
          else Some(NameOf(f))));
      assert acc.parameters + [NameOf(f)] + Names(formals[1..]) == acc.parameters + Names(formals);
    }
  }

  lemma NoFormals(acc: Formals)
    ensures ReadFormals([], acc) == Some(acc)
  {
  }

  // ---------------------------------------------------------------- the parameter list

  /** What the splitter makes of the text from `i` on, outside all brackets. */
  function SplitRest(t: string, i: nat, start: nat, out: seq<string>): seq<string>
    requires start <= i <= |t|
  {
    SplitFrom(t, i, start, 0, 0, 0, out)
  }

  lemma QuietStep(t: string, i: nat, start: nat, out: seq<string>)
    requires start <= i < |t| && Quiet(t[i])
    ensures SplitRest(t, i, start, out) == SplitRest(t, i + 1, start, out)
  {
    assert i + 2 <= |t| ==> t[i..i + 2][0] == t[i];
    assert !MatchesAt(t, i, "//") && !MatchesAt(t, i, "/*");
    hide MatchesAt, Trim;
  }

  lemma {:induction false} QuietIsPassed(t: string, i: nat, j: nat, start: nat, out: seq<string>)
    requires start <= i <= j <= |t| && forall k :: i <= k < j ==> Quiet(t[k])
    ensures SplitRest(t, i, start, out) == SplitRest(t, j, start, out)
    decreases j - i
  {
    hide SplitRest, Quiet;
    if i < j {
      QuietStep(t, i, start, out);
      QuietIsPassed(t, i + 1, j, start, out);
    }
  }

  lemma CommaSplits(t: string, i: nat, start: nat, out: seq<string>)
    requires start <= i < |t| && t[i] == ','
    ensures SplitRest(t, i, start, out) == SplitRest(t, i + 1, i + 1, out + [Trim(t[start..i])])
  {
    assert i + 2 <= |t| ==> t[i..i + 2][0] == t[i];
    assert !MatchesAt(t, i, "//") && !MatchesAt(t, i, "/*");
    hide MatchesAt, Trim;
  }

  lemma EndSplits(t: string, start: nat, out: seq<string>)
    requires start <= |t| && Trim(t[start..]) != ""
    ensures SplitRest(t, |t|, start, out) == out + [Trim(t[start..])]
  {
    hide Trim;
  }

  lemma SpacedTrims(s: string, gap: string)
    requires s != "" && Trim(s) == s && !IsSpace(s[0]) && (gap == "" || gap == " ")
    ensures Trim(gap + s) == s
  {
    var t := gap + s;
    if gap == " " {
      assert t[0] == ' ' && t[1] == s[0] && SkipSpaces(t, 1) == 1 && SkipSpaces(t, 0) == 1 && t[1..] == s;
      assert SkipSpaces(s, 0) == 0 && s[0..] == s;
    } else {
      assert t == s;
    }
  }

  predicate AllQuiet(s: string) {
    forall k :: 0 <= k < |s| ==> Quiet(s[k])
  }

  lemma QuietJoined(gap: string, s: string)
    requires AllQuiet(s) && (gap == "" || gap == " ")
    ensures AllQuiet(gap + s)
  {
  }

  lemma QuietWhereItStands(t: string, i: nat, x: string)
    requires StandsAt(t, i, x) && AllQuiet(x)
    ensures i + |x| <= |t| && t[i..i + |x|] == x && forall k :: i <= k < i + |x| ==> Quiet(t[k])
  {
    hide Quiet;
    forall k | i <= k < i + |x| ensures Quiet(t[k]) { assert t[k] == t[i..i + |x|][k - i]; }
  }

  lemma PieceIsQuiet(t: string, i: nat, gap: string, f: Formal)
    requires StandsAt(t, i, gap + Spelt(f)) && (gap == "" || gap == " ")
    ensures i + |gap + Spelt(f)| <= |t| && forall k :: i <= k < i + |gap + Spelt(f)| ==> Quiet(t[k])
    ensures Trim(t[i..i + |gap + Spelt(f)|]) == Spelt(f)
  {
    SpeltIs(f);
    hide Quiet, Spelt, Trim, StandsAt, IsSpace;
    QuietJoined(gap, Spelt(f));
    QuietWhereItStands(t, i, gap + Spelt(f));
    SpacedTrims(Spelt(f), gap);
  }

  /** The written parameters, joined by a comma and a space, from `i` to the end of the text. */
  lemma {:induction false} ListIsSplit(t: string, i: nat, gap: string, formals: seq<Formal>, out: seq<string>)
    requires formals != [] && (gap == "" || gap == " ")
    requires StandsAt(t, i, gap + Join(SpeltAll(formals), ", ")) && i + |gap + Join(SpeltAll(formals), ", ")| == |t|
    ensures SplitRest(t, i, i, out) == out + SpeltAll(formals)
    decreases |formals|
  {
    hide SplitRest, Spelt, StandsAt, Quiet, Trim;
    var f, rest := formals[0], formals[1..];
    var x := gap + Spelt(f);
    SpeltIs(f);
    if |formals| == 1 {
      assert Join(SpeltAll(formals), ", ") == Spelt(f);
      PieceIsQuiet(t, i, gap, f);
      QuietIsPassed(t, i, |t|, i, out);
      assert t[i..|t|] == t[i..];
      EndSplits(t, i, out);
    } else {
      var more := Join(SpeltAll(rest), ", ");
      JoinFirst(gap, formals);
      StandsJoined(t, i, x, "," + (" " + more));
      StandsJoined(t, i + |x|, ",", " " + more);
      OneStands(t, i + |x|, ',');
      PieceIsQuiet(t, i, gap, f);
      QuietIsPassed(t, i, i + |x|, i, out);
      CommaSplits(t, i + |x|, i, out);
      ListIsSplit(t, i + |x| + 1, " ", rest, out + [Spelt(f)]);
      assert out + [Spelt(f)] + SpeltAll(rest) == out + SpeltAll(formals);
    }
  }

  lemma JoinFirst(gap: string, formals: seq<Formal>)
    requires |formals| > 1
    ensures gap + Join(SpeltAll(formals), ", ") ==
        gap + Spelt(formals[0]) + ("," + (" " + Join(SpeltAll(formals[1..]), ", ")))
  {
    hide Spelt;
    var all := SpeltAll(formals);
    assert all[1..] == SpeltAll(formals[1..]);
    assert Join(all, ", ") == all[0] + ", " + Join(all[1..], ", ");
    CommaApart(gap, all[0], Join(all[1..], ", "));
  }

  lemma CommaApart(a: string, b: string, c: string)
    ensures a + (b + ", " + c) == a + b + ("," + (" " + c))
  {
    assert ", " == "," + " ";
    assert ", " + c == "," + (" " + c);
    assert b + ", " + c == b + (", " + c);
    assert a + (b + (", " + c)) == a + b + (", " + c);
  }

  // ---------------------------------------------------------------- the text of a definition

  /** A definition as it is written behind `#define`. */
  datatype Source = Source(name: Identifier, formals: Option<seq<Formal>>, body: string)

  predicate WellWritten(s: Source) {
    Trim(s.body) == s.body && |s.body| <= 64 * 1024 && '\n' !in s.body && '\\' !in s.body
  }

  function ListOf(s: Source): string {
    if s.formals.None? then "" else "(" + (Join(SpeltAll(s.formals.value), ", ") + ")")
  }

  function Written(s: Source): string {
    s.name + (ListOf(s) + (" " + s.body))
  }

  function Meant(s: Source): Definition {
    if s.formals.None? then Definition(s.name, None, None, s.body)
    else Definition(s.name, Some(Names(s.formals.value)), VariadicOf(s.formals.value, None), s.body)
  }

  lemma WordThen(name: Identifier, rest: string)
    requires rest != "" && !IsIdentPart(rest[0])
    ensures var t := name + rest;
            t != "" && IsIdentStart(t[0]) && WordEnd(t, 0) == |name| && t[..|name|] == name && t[|name|] == rest[0]
  {
    var t := name + rest;
    assert t[0] == name[0] && t[|name|] == rest[0];
    assert forall k :: 0 <= k < |name| ==> t[k] == name[k];
  }

  predicate NoParen(s: string) {
    '(' !in s && ')' !in s
  }

  lemma {:induction false} ListHasNoParen(formals: seq<Formal>)
    ensures NoParen(Join(SpeltAll(formals), ", "))
    decreases |formals|
  {
    hide Spelt;
    if formals != [] {
      SpeltHasNoParen(formals[0]);
      ListHasNoParen(formals[1..]);
      assert SpeltAll(formals)[1..] == SpeltAll(formals[1..]);
    }
  }

  lemma SpeltHasNoParen(f: Formal)
    ensures NoParen(Spelt(f))
  {
    SpeltIs(f);
    assert forall k :: 0 <= k < |Spelt(f)| ==> Quiet(Spelt(f)[k]);
    hide Spelt;
  }

  lemma {:induction false} ParenCloses(t: string, i: nat, j: nat)
    requires i <= j < |t| && t[j] == ')' && forall k :: i <= k < j ==> t[k] != '(' && t[k] != ')'
    ensures CloseParen(t, i, 1) == Some(j + 1)
    decreases j - i
  {
    if i < j {
      ParenCloses(t, i + 1, j);
    } else {
      assert CloseParen(t, j + 1, 0) == Some(j + 1);
    }
  }

  lemma InnerCloses(a: string, inner: string, rest: string)
    requires NoParen(inner)
    ensures var t := a + ("(" + (inner + ")") + rest);
            && |a| + 2 + |inner| <= |t| && CloseParen(t, |a| + 1, 1) == Some(|a| + 2 + |inner|)
            && t[|a| + 1..|a| + 1 + |inner|] == inner && t[|a| + 2 + |inner|..] == rest
  {
    var t, j := a + ("(" + (inner + ")") + rest), |a| + 1 + |inner|;
    assert t[j] == ')' && t[|a| + 1..j] == inner;
    assert forall k :: |a| + 1 <= k < j ==> t[k] == inner[k - |a| - 1] && inner[k - |a| - 1] in inner;
    ParenCloses(t, |a| + 1, j);
  }

  lemma BodyTrims(body: string)
    requires Trim(body) == body
    ensures Trim(" " + body) == body
  {
    if body == "" {
      assert SkipSpaces(" ", 0) == 1 && " " + body == " ";
    } else {
      assert !IsSpace(body[0]) by { TrimBegins(body); }
      SpacedTrims(body, " ");
    }
  }

  lemma TrimBegins(s: string)
    requires s != "" && Trim(s) == s
    ensures !IsSpace(s[0])
  {
    var j := SkipSpaces(s, 0);
    assert |Trim(s)| <= |s| - j;
  }

  lemma FormalsOfList(formals: seq<Formal>)
    ensures ReadFormals(SplitFrom(Join(SpeltAll(formals), ", "), 0, 0, 0, 0, 0, []), Formals([], None)) ==
        Some(Formals(Names(formals), VariadicOf(formals, None)))
  {
    FormalsAreRead(formals, Formals([], None));
    var t := Join(SpeltAll(formals), ", ");
    if formals == [] {
      NothingToSplit();
    } else {
      assert "" + t == t && t[0..0 + |t|] == t;
      ListIsSplit(t, 0, "", formals, []);
      assert [] + SpeltAll(formals) == SpeltAll(formals);
    }
    assert [] + Names(formals) == Names(formals);
    hide ReadFormals, SplitFrom, SpeltAll, Join;
  }

  lemma ObjectIsRead(name: Identifier, tail: string, body: string)
    requires tail != "" && tail[0] == ' ' && Trim(tail) == body && |body| <= 64 * 1024
    ensures ReadDefinition(name + tail) == Some(Definition(name, None, None, body))
  {
    WordThen(name, tail);
    var t := name + tail;
    assert t[|name|..] == tail;
    hide WordEnd, CloseParen, Trim, ReadFormals, SplitFrom;
  }

  lemma ReadInParts(t: string, name: Identifier, close: nat, inner: string, formals: Formals, body: string)
    requires t != "" && IsIdentStart(t[0]) && WordEnd(t, 0) == |name| < |t| && t[..|name|] == name && t[|name|] == '('
    requires |name| + 2 <= close <= |t| && CloseParen(t, |name| + 1, 1) == Some(close)
    requires t[|name| + 1..close - 1] == inner && Trim(t[close..]) == body && |body| <= 64 * 1024
    requires ReadFormals(SplitFrom(inner, 0, 0, 0, 0, 0, []), Formals([], None)) == Some(formals)
    ensures ReadDefinition(t) == Some(Definition(name, Some(formals.parameters), formals.variadic, body))
  {
    hide WordEnd, CloseParen, Trim, ReadFormals, SplitFrom, IsIdentStart, IsIdentifier, Bounded;
    var d := Definition(name, Some(formals.parameters), formals.variadic, body);
    assert ReadDefinition(t) == Bounded(d);
    assert Bounded(d) == Some(d) by { ShortEnough(d); }
  }

  lemma ShortEnough(d: Definition)
    requires |d.replacement| <= 64 * 1024
    ensures Bounded(d) == Some(d)
  {
  }

  lemma FunctionIsRead(name: Identifier, inner: string, formals: Formals, tail: string, body: string)
    requires NoParen(inner) && ReadFormals(SplitFrom(inner, 0, 0, 0, 0, 0, []), Formals([], None)) == Some(formals)
    requires Trim(tail) == body && |body| <= 64 * 1024
    ensures ReadDefinition(name + ("(" + (inner + ")") + tail)) ==
        Some(Definition(name, Some(formals.parameters), formals.variadic, body))
  {
    hide *;
    var rest := "(" + (inner + ")") + tail;
    ListOpens(inner, tail);
    WordThen(name, rest);
    InnerCloses(name, inner, tail);
    ReadInParts(name + rest, name, |name| + 2 + |inner|, inner, formals, body);
  }

  lemma ListOpens(inner: string, tail: string)
    ensures var rest := "(" + (inner + ")") + tail; |rest| >= 2 + |inner| && rest[0] == '(' && !IsIdentPart('(')
  {
  }

  /** A definition that is written is read back. */
  lemma WrittenIsRead(s: Source)
    requires WellWritten(s)
    ensures ReadDefinition(Written(s)) == Some(Meant(s))
  {
    hide ReadDefinition, Trim, ReadFormals, SplitFrom, Names, VariadicOf, SpeltAll, Join, NoParen;
    var tail := " " + s.body;
    BodyTrims(s.body);
    if s.formals.None? {
      ObjectIsRead(s.name, tail, s.body);
      assert "" + tail == tail;
    } else {
      var formals := s.formals.value;
      ListHasNoParen(formals);
      FormalsOfList(formals);
      FunctionIsRead(s.name, Join(SpeltAll(formals), ", "), Formals(Names(formals), VariadicOf(formals, None)), tail,
          s.body);
    }
  }

  // ---------------------------------------------------------------- files of definitions

  /** A text on one line that is not continued. */
  predicate OneLine(t: string) {
    '\n' !in t && '\\' !in t
  }

  lemma OneLineJoins(a: string, b: string)
    ensures OneLine(a + b) <==> OneLine(a) && OneLine(b)
  {
    if OneLine(a + b) {
      assert forall k :: 0 <= k < |a| ==> a[k] == (a + b)[k] && (a + b)[k] in a + b;
      assert forall k :: 0 <= k < |b| ==> b[k] == (a + b)[|a| + k] && (a + b)[|a| + k] in a + b;
    }
  }

  lemma {:induction false} ListIsOneLine(formals: seq<Formal>)
    ensures OneLine(Join(SpeltAll(formals), ", "))
    decreases |formals|
  {
    hide Spelt, OneLine;
    if formals == [] {
      assert OneLine("") by { EmptyIsOneLine(); }
    } else {
      SpeltIsOneLine(formals[0]);
      if |formals| > 1 {
        var rest := Join(SpeltAll(formals[1..]), ", ");
        ListIsOneLine(formals[1..]);
        assert SpeltAll(formals)[1..] == SpeltAll(formals[1..]);
        assert OneLine(", ") by { CommaIsOneLine(); }
        OneLineJoins(Spelt(formals[0]), ", ");
        OneLineJoins(Spelt(formals[0]) + ", ", rest);
      }
    }
  }

  lemma EmptyIsOneLine()
    ensures OneLine("")
  {
  }

  lemma CommaIsOneLine()
    ensures OneLine(", ") && OneLine("(") && OneLine(")") && OneLine(" ") && OneLine("#define ")
  {
  }

  lemma SpeltIsOneLine(f: Formal)
    ensures OneLine(Spelt(f))
  {
    SpeltIs(f);
    assert forall k :: 0 <= k < |Spelt(f)| ==> Quiet(Spelt(f)[k]);
    hide Spelt;
  }

  lemma IdentifierIsOneLine(p: Identifier)
    ensures OneLine(p)
  {
    assert forall k :: 0 <= k < |p| ==> IsIdentPart(p[k]);
  }

  function LineOf(s: Source): string {
    "#define " + Written(s)
  }

  lemma LineIsOneLine(s: Source)
    requires WellWritten(s)
    ensures OneLine(LineOf(s))
  {
    assert OneLine(s.body);
    hide OneLine, SpeltAll, Join, WellWritten;
    CommaIsOneLine();
    EmptyIsOneLine();
    IdentifierIsOneLine(s.name);
    OneLineJoins(" ", s.body);
    if s.formals.Some? {
      var inner := Join(SpeltAll(s.formals.value), ", ");
      ListIsOneLine(s.formals.value);
      OneLineJoins(inner, ")");
      OneLineJoins("(", inner + ")");
    }
    OneLineJoins(ListOf(s), " " + s.body);
    OneLineJoins(s.name, ListOf(s) + (" " + s.body));
    OneLineJoins("#define ", Written(s));
  }

  lemma DefineBegins(t: string)
    requires |t| >= 9 && t[..8] == "#define " && IsIdentStart(t[8])
    ensures DefineAt(t, 0) && AfterDefine(t) == 8
  {
    assert forall k :: 0 <= k < 8 ==> t[k] == "#define "[k];
    assert t[1..7] == t[..8][1..7] == "define";
    assert t[0] == '#' && t[1] == 'd' && t[7] == ' ';
    assert SkipSpaces(t, 0) == 0 && SkipSpaces(t, 1) == 1;
    assert SkipSpaces(t, 8) == 8 && SkipSpaces(t, 7) == 8;
  }

  lemma LineParts(s: Source)
    ensures var line := LineOf(s);
            && |line| == 8 + |Written(s)| >= 9 && line[..8] == "#define " && line[8..] == Written(s)
            && IsIdentStart(line[8])
  {
    WrittenBegins(s);
    hide Written;
  }

  /** The line that stands at `k` is read as a definition, and the scan goes on behind it. */
  lemma LineIsRead(source: string, k: nat, s: Source, found: seq<LocalDefinition>)
    requires WellWritten(s) && StandsAt(source, k, LineOf(s) + "\n")
    ensures k + |LineOf(s)| + 1 <= |source|
    ensures ScanFrom(source, k, found) ==
        ScanFrom(source, k + |LineOf(s)| + 1, found + [LocalDefinition(k, Meant(s))])
  {
    hide *;
    var line := LineOf(s);
    LineIsOneLine(s);
    LineStands(source, k, line);
    LineBeginsWithHash(s);
    LineEnds(source, k, line);
    StandsJoined(source, k, line, "\n");
    LineMeans(source, k, s);
    ScansDirective(source, k, k + |line|, found);
  }

  lemma LineBeginsWithHash(s: Source)
    ensures LineOf(s) != "" && LineOf(s)[0] == '#'
  {
    hide Written;
  }

  lemma LineStands(source: string, k: nat, line: string)
    requires StandsAt(source, k, line + "\n")
    ensures k + |line| < |source| && source[k..k + |line|] == line && source[k + |line|] == '\n'
    ensures forall n :: k <= n < k + |line| ==> source[n] == line[n - k]
  {
    StandsJoined(source, k, line, "\n");
    OneStands(source, k + |line|, '\n');
  }

  lemma LineEnds(source: string, k: nat, line: string)
    requires OneLine(line) && line != "" && line[0] == '#' && k + |line| < |source| && source[k + |line|] == '\n'
    requires forall n :: k <= n < k + |line| ==> source[n] == line[n - k]
    ensures SkipBlanks(source, k) == k && source[k] == '#' && DirectiveEnd(source, k) == k + |line|
  {
    var e := k + |line|;
    assert forall n :: k <= n < e ==> source[n] == line[n - k] && line[n - k] in line;
    assert source[k] == line[k - k];
    FindsLine(source, k, e);
    hide Find;
    assert !Continued(source, k, e);
  }

  lemma WrittenBegins(s: Source)
    ensures Written(s) != "" && IsIdentStart(Written(s)[0])
  {
    assert Written(s)[0] == s.name[0];
    hide ListOf;
  }

  lemma HeaderDefines(source: string, k: nat, s: Source, n: nat)
    requires StandsAt(source, k, LineOf(s)) && 9 <= n <= |LineOf(s)|
    ensures k + n <= |source| && DefineAt(source[k..k + n], 0)
  {
    LineParts(s);
    hide LineOf, Written, DefineAt;
    var line, header := LineOf(s), source[k..k + n];
    assert header == source[k..k + |line|][..n] == line[..n];
    assert header[..8] == line[..8] && header[8] == line[8];
    DefineBegins(header);
  }

  lemma ParsesRest(source: string, k: nat, end: nat, line: string)
    requires k <= end <= |source| && source[k..end] == line && 8 <= |line|
    requires JoinContinuations(line, 0) == line && AfterDefine(line) == 8
    ensures ParseDefinition(source, k, end) == ReadDefinition(line[8..])
  {
    hide ReadDefinition, JoinContinuations, AfterDefine;
  }

  lemma LineStaysJoined(line: string)
    requires OneLine(line)
    ensures JoinContinuations(line, 0) == line
  {
    JoinsNothing(line, 0);
    assert line[0..] == line;
  }

  lemma LineParses(source: string, k: nat, s: Source)
    requires WellWritten(s) && OneLine(LineOf(s)) && StandsAt(source, k, LineOf(s))
    ensures k + |LineOf(s)| <= |source| && ParseDefinition(source, k, k + |LineOf(s)|) == Some(Meant(s))
  {
    hide *;
    var line := LineOf(s);
    LineParts(s);
    WrittenIsRead(s);
    StandsIs(source, k, line);
    LineStaysJoined(line);
    DefineBegins(line);
    ParsesRest(source, k, k + |line|, line);
  }

  lemma LineMeans(source: string, k: nat, s: Source)
    requires WellWritten(s) && OneLine(LineOf(s)) && StandsAt(source, k, LineOf(s))
    ensures k + |LineOf(s)| <= |source|
    ensures LineDefinition(source, k, k + |LineOf(s)|) == [LocalDefinition(k, Meant(s))]
  {
    hide LineOf, Written, WellWritten, OneLine, StandsAt, ParseDefinition, DefineAt, Meant;
    LineParts(s);
    LineParses(source, k, s);
    HeaderDefines(source, k, s, if |LineOf(s)| <= 128 then |LineOf(s)| else 128);
  }

  /** A file of definitions, each on its own line. */
  function FileOf(sources: seq<Source>): string {
    if sources == [] then "" else LineOf(sources[0]) + "\n" + FileOf(sources[1..])
  }

  /** What they mean, each at the offset where it begins. */
  function DefinitionsOf(sources: seq<Source>, k: nat): seq<LocalDefinition> {
    if sources == [] then []
    else [LocalDefinition(k, Meant(sources[0]))] + DefinitionsOf(sources[1..], k + |LineOf(sources[0])| + 1)
  }

  lemma {:induction false} LinesAreRead(source: string, k: nat, sources: seq<Source>, found: seq<LocalDefinition>)
    requires (forall s :: s in sources ==> WellWritten(s)) && StandsAt(source, k, FileOf(sources))
    requires k + |FileOf(sources)| == |source|
    ensures ScanFrom(source, k, found) == found + DefinitionsOf(sources, k)
    decreases |sources|
  {
    hide StandsAt, WellWritten, LineOf, Meant, ScanFrom;
    if sources == [] {
      NothingLeft(source, found);
      assert found + [] == found;
    } else {
      var line := LineOf(sources[0]) + "\n";
      var more := found + [LocalDefinition(k, Meant(sources[0]))];
      FileBegins(sources, k);
      hide FileOf, DefinitionsOf;
      StandsJoined(source, k, line, FileOf(sources[1..]));
      LineIsRead(source, k, sources[0], found);
      LinesAreRead(source, k + |line|, sources[1..], more);
      assert found + ([LocalDefinition(k, Meant(sources[0]))] + DefinitionsOf(sources[1..], k + |line|)) ==
             more + DefinitionsOf(sources[1..], k + |line|);
    }
  }

  lemma FileBegins(sources: seq<Source>, k: nat)
    requires sources != []
    ensures var line := LineOf(sources[0]) + "\n";
            && FileOf(sources) == line + FileOf(sources[1..])
            && DefinitionsOf(sources, k) ==
                [LocalDefinition(k, Meant(sources[0]))] + DefinitionsOf(sources[1..], k + |line|)
  {
    hide LineOf, Meant;
  }

  lemma NothingLeft(source: string, found: seq<LocalDefinition>)
    ensures ScanFrom(source, |source|, found) == found
  {
  }

  lemma FileDefines(sources: seq<Source>)
    requires sources != []
    ensures HasDefine(FileOf(sources))
  {
    LineParts(sources[0]);
    hide LineOf, Written;
    var line, t := LineOf(sources[0]), FileOf(sources);
    assert t[..|line|] == line;
    assert t[..8] == line[..8] && t[8] == line[8];
    DefineBegins(t);
  }

  /** A file of definitions is read back: the same definitions, in order, each at its own `#`. */
  lemma FileIsReadBack(sources: seq<Source>)
    requires forall s :: s in sources ==> WellWritten(s)
    ensures LocalDefinitions(FileOf(sources)) == DefinitionsOf(sources, 0)
  {
    hide ScanFrom, HasDefine, WellWritten, DefinitionsOf;
    var t := FileOf(sources);
    if sources == [] {
      assert !HasDefine("") && DefinitionsOf([], 0) == [] by { NothingDefined(); }
    } else {
      FileDefines(sources);
      assert t[0..0 + |t|] == t;
      LinesAreRead(t, 0, sources, []);
      assert [] + DefinitionsOf(sources, 0) == DefinitionsOf(sources, 0);
    }
  }

  lemma NothingDefined()
    ensures !HasDefine("") && DefinitionsOf([], 0) == []
  {
  }
}
