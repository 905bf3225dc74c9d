/**
 Reading an argument list back: pieces of text, each with its parentheses balanced and its
 literals and comments closed, are joined by commas and put in parentheses; what is read are
 the pieces, trimmed.
 */
module ArgumentLists {
  import opened Options
  import opened Text
  import opened MacroScan
  import opened MacroExpand
  import opened SourcePieces

  /**
   From `j` on the text closes the parentheses it opens and the `depth` open ones before its last
   character, has no comma outside them, and no literal or comment that runs over that character.
   */
  predicate Closes(s: string, j: nat, depth: nat)
    requires j < |s|
    decreases |s| - j
  {
    if j == |s| - 1 then depth == 0
    else
      var e := SkipInert(s, j);
      if e > j then e < |s| && Closes(s, e, depth)
      else if s[j] == '(' then Closes(s, j + 1, depth + 1)
      else if s[j] == ')' then depth > 0 && Closes(s, j + 1, depth - 1)
      else (s[j] == ',' ==> depth > 0) && Closes(s, j + 1, depth)
  }

  /** The text can stand as one argument. */
  predicate OneArgument(p: string) {
    Closes(p + ")", 0, 0)
  }

  // ---------------------------------------------------------------- the same text elsewhere

  /** From `k` on, `t` reads as `s` does from `j` up to its last character, and goes on with a comma or parenthesis. */
  predicate ReadsAs(t: string, k: nat, s: string, j: nat) {
    && j < |s| && s[|s| - 1] == ')' && k + |s| - 1 - j < |t| && t[k + |s| - 1 - j] in ",)"
    && forall x :: j <= x < |s| - 1 ==> t[k + x - j] == s[x]
  }

  lemma {:induction false} SameFind(t: string, k: nat, s: string, j: nat, pattern: string)
    requires ReadsAs(t, k, s, j) && pattern != "" && Find(s, pattern, j) + |pattern| < |s|
    ensures Find(t, pattern, k) == k + Find(s, pattern, j) - j
    decreases |s| - j
  {
    var f := Find(s, pattern, j);
    SameMatch(t, k, s, j, pattern);
    if f > j {
      SameFind(t, k + 1, s, j + 1, pattern);
    }
  }

  lemma SameMatch(t: string, k: nat, s: string, j: nat, pattern: string)
    requires ReadsAs(t, k, s, j) && j + |pattern| < |s|
    ensures MatchesAt(t, k, pattern) <==> MatchesAt(s, j, pattern)
  {
    assert t[k..k + |pattern|] == s[j..j + |pattern|];
  }

  lemma SameComment(t: string, k: nat, s: string, j: nat)
    requires ReadsAs(t, k, s, j) && j < |s| - 1
    ensures MatchesAt(t, k, "//") <==> MatchesAt(s, j, "//")
    ensures MatchesAt(t, k, "/*") <==> MatchesAt(s, j, "/*")
  {
    if j + 2 < |s| {
      SameMatch(t, k, s, j, "//");
      SameMatch(t, k, s, j, "/*");
    } else {
      assert t[k..k + 2] == [t[k], t[k + 1]] && s[j..j + 2] == [s[j], ')'];
    }
  }

  lemma Later(t: string, k: nat, s: string, j: nat, n: nat)
    requires ReadsAs(t, k, s, j) && j + n < |s|
    ensures ReadsAs(t, k + n, s, j + n)
  {
  }

  lemma SameLineComment(t: string, k: nat, s: string, j: nat)
    requires ReadsAs(t, k, s, j) && MatchesAt(s, j, "//") && LineCommentEnd(s, j) < |s|
    ensures LineCommentEnd(t, k) - k == LineCommentEnd(s, j) - j
  {
    var f := Find(s, "\n", j + 2);
    assert f + 1 <= |s| && s[f] == s[f..f + 1][0] == '\n';
    assert f + 1 < |s|;
    hide Find, MatchesAt;
    Later(t, k, s, j, 2);
    SameFind(t, k + 2, s, j + 2, "\n");
  }

  lemma SameBlockComment(t: string, k: nat, s: string, j: nat)
    requires ReadsAs(t, k, s, j) && MatchesAt(s, j, "/*") && BlockCommentEnd(s, j) < |s|
    ensures BlockCommentEnd(t, k) - k == BlockCommentEnd(s, j) - j
  {
    Later(t, k, s, j, 2);
    SameFind(t, k + 2, s, j + 2, "*/");
  }

  /** A literal or comment that ends in the text ends in the same place. */
  lemma SameInert(t: string, k: nat, s: string, j: nat)
    requires ReadsAs(t, k, s, j) && j < |s| - 1 && SkipInert(s, j) < |s|
    ensures SkipInert(t, k) - k == SkipInert(s, j) - j
  {
    hide QuotedEnd, MatchesAt, LineCommentEnd, BlockCommentEnd;
    assert t[k] == s[j];
    if IsQuote(s[j]) {
      SameLiteral(s, j + 1, t, k + 1, s[j], QuotedEnd(s, s[j], j + 1) - j - 1);
    } else {
      SameComment(t, k, s, j);
      if MatchesAt(s, j, "//") {
        SameLineComment(t, k, s, j);
      } else if MatchesAt(s, j, "/*") {
        SameBlockComment(t, k, s, j);
      }
    }
  }

  // ---------------------------------------------------------------- one argument after another

  /** The scan passes over an argument. */
  lemma {:induction false} ArgumentIsPassed(t: string, k: nat, s: string, j: nat, depth: nat, start: nat,
      args: seq<string>)
    requires ReadsAs(t, k, s, j) && Closes(s, j, depth) && start <= k
    ensures InvocationFrom(t, k, depth + 1, start, args) == InvocationFrom(t, k + |s| - 1 - j, 1, start, args)
    decreases |s| - j
  {
    hide SkipInert, Trim, ReadsAs;
    assert k + |s| - 1 - j < |t| && (j < |s| - 1 ==> t[k] == s[j]) by { FirstIsSame(t, k, s, j); }
    if j < |s| - 1 {
      var e := SkipInert(s, j);
      if e < |s| { SameInert(t, k, s, j); }
      if e > j {
        Later(t, k, s, j, e - j);
        ArgumentIsPassed(t, k + e - j, s, e, depth, start, args);
      } else {
        Later(t, k, s, j, 1);
        var depth' := if s[j] == '(' then depth + 1 else if s[j] == ')' then depth - 1 else depth;
        ArgumentIsPassed(t, k + 1, s, j + 1, depth', start, args);
      }
    }
  }

  lemma FirstIsSame(t: string, k: nat, s: string, j: nat)
    requires ReadsAs(t, k, s, j)
    ensures k + |s| - 1 - j < |t| && (j < |s| - 1 ==> t[k] == s[j])
  {
  }

  function Trimmed(pieces: seq<string>): seq<string> {
    if pieces == [] then [] else [Trim(pieces[0])] + Trimmed(pieces[1..])
  }

  predicate StandsAt(t: string, k: nat, x: string) {
    k + |x| <= |t| && t[k..k + |x|] == x
  }

  lemma StandsJoined(t: string, k: nat, a: string, b: string)
    ensures StandsAt(t, k, a + b) <==> StandsAt(t, k, a) && StandsAt(t, k + |a|, b)
  {
    if StandsAt(t, k, a + b) {
      assert t[k..k + |a + b|][..|a|] == a && t[k..k + |a + b|][|a|..] == b;
    }
    if StandsAt(t, k, a) && StandsAt(t, k + |a|, b) {
      assert t[k..k + |a + b|] == t[k..k + |a|] + t[k + |a|..k + |a + b|];
    }
  }

  lemma OneStands(t: string, k: nat, c: char)
    ensures StandsAt(t, k, [c]) <==> k < |t| && t[k] == c
  {
    assert k < |t| ==> t[k..k + 1] == [t[k]];
  }

  lemma PieceReads(t: string, k: nat, p: string)
    requires StandsAt(t, k, p) && k + |p| < |t| && t[k + |p|] in ",)"
    ensures ReadsAs(t, k, p + ")", 0)
  {
    var s := p + ")";
    forall x | 0 <= x < |s| - 1 ensures t[k + x - 0] == s[x] {
      assert t[k..k + |p|][x] == p[x];
    }
  }

  predicate AllArguments(pieces: seq<string>) {
    forall i :: 0 <= i < |pieces| ==> OneArgument(pieces[i])
  }

  /** The argument at `k` is passed; what follows it is a comma or parenthesis. */
  lemma PieceIsPassed(t: string, k: nat, p: string, args: seq<string>)
    requires OneArgument(p) && StandsAt(t, k, p) && k + |p| < |t| && t[k + |p|] in ",)"
    ensures InvocationFrom(t, k, 1, k, args) == InvocationFrom(t, k + |p|, 1, k, args) && t[k..k + |p|] == p
  {
    hide *;
    var s := p + ")";
    PieceReads(t, k, p);
    ArgumentCloses(p);
    ArgumentIsPassed(t, k, s, 0, 0, k, args);
    assert k + |s| - 1 - 0 == k + |p|;
    StandsIs(t, k, p);
  }

  lemma ArgumentCloses(p: string)
    requires OneArgument(p)
    ensures Closes(p + ")", 0, 0)
  {
  }

  lemma StandsIs(t: string, k: nat, x: string)
    requires StandsAt(t, k, x)
    ensures k + |x| <= |t| && t[k..k + |x|] == x
  {
  }

  function Read(args: seq<string>, end: nat): Option<Invocation> {
    Some(Invocation(if args == [""] then [] else args, end))
  }

  lemma LastPiece(t: string, k: nat, p: string, args: seq<string>)
    requires OneArgument(p) && StandsAt(t, k, p + ")")
    ensures InvocationFrom(t, k, 1, k, args) == Read(args + [Trim(p)], k + |p| + 1)
  {
    hide *;
    StandsJoined(t, k, p, ")");
    OneStands(t, k + |p|, ')');
    PieceIsPassed(t, k, p, args);
    ListEnds(t, k, k + |p|, args);
  }

  lemma EarlierPiece(t: string, k: nat, p: string, more: string, args: seq<string>)
    requires OneArgument(p) && StandsAt(t, k, p + ("," + more))
    ensures StandsAt(t, k + |p| + 1, more)
    ensures InvocationFrom(t, k, 1, k, args) == InvocationFrom(t, k + |p| + 1, 1, k + |p| + 1, args + [Trim(p)])
  {
    hide *;
    StandsJoined(t, k, p, "," + more);
    StandsJoined(t, k + |p|, ",", more);
    OneStands(t, k + |p|, ',');
    PieceIsPassed(t, k, p, args);
    CommaEnds(t, k, k + |p|, args);
  }

  lemma TrimmedFirst(args: seq<string>, pieces: seq<string>)
    requires pieces != []
    ensures args + [Trim(pieces[0])] + Trimmed(pieces[1..]) == args + Trimmed(pieces)
  {
    hide Trim;
  }

  /** From `k` on, where an argument begins, the pieces and the closing parenthesis are read. */
  lemma {:induction false} PiecesAreRead(t: string, k: nat, pieces: seq<string>, args: seq<string>)
    requires pieces != [] && AllArguments(pieces) && StandsAt(t, k, Join(pieces, ",") + ")")
    ensures InvocationFrom(t, k, 1, k, args) == Read(args + Trimmed(pieces), k + |Join(pieces, ",")| + 1)
    decreases |pieces|
  {
    hide Closes, InvocationFrom, Trim, StandsAt, OneArgument, Trimmed, Read;
    var p, rest := pieces[0], pieces[1..];
    assert OneArgument(p);
    TrimmedFirst(args, pieces);
    if |pieces| == 1 {
      LastPiece(t, k, p, args);
      assert args + [Trim(p)] + [] == args + [Trim(p)];
      assert Trimmed(rest) == [] by { NoneTrimmed(rest); }
    } else {
      var more := Join(rest, ",");
      SplitFirst(p, more);
      EarlierPiece(t, k, p, more + ")", args);
      PiecesAreRead(t, k + |p| + 1, rest, args + [Trim(p)]);
    }
  }

  lemma NoneTrimmed(pieces: seq<string>)
    requires pieces == []
    ensures Trimmed(pieces) == []
  {
  }

  lemma SplitFirst(p: string, more: string)
    ensures p + "," + more + ")" == p + ("," + (more + ")"))
  {
  }

  lemma ListEnds(t: string, start: nat, i: nat, args: seq<string>)
    requires start <= i < |t| && t[i] == ')'
    ensures InvocationFrom(t, i, 1, start, args) == Read(args + [Trim(t[start..i])], i + 1)
  {
    assert !MatchesAt(t, i, "//") && !MatchesAt(t, i, "/*") by { assert i + 2 <= |t| ==> t[i..i + 2][0] == ')'; }
    hide MatchesAt, Trim;
    var tail := Trim(t[start..i]);
    assert args == [] ==> args + [tail] == [tail];
    assert args != [] ==> |args + [tail]| > 1;
  }

  lemma CommaEnds(t: string, start: nat, i: nat, args: seq<string>)
    requires start <= i < |t| && t[i] == ','
    ensures InvocationFrom(t, i, 1, start, args) == InvocationFrom(t, i + 1, 1, i + 1, args + [Trim(t[start..i])])
  {
    assert !MatchesAt(t, i, "//") && !MatchesAt(t, i, "/*") by { assert i + 2 <= |t| ==> t[i..i + 2][0] == ','; }
    hide MatchesAt;
  }

  /**
   Arguments that are written between parentheses, with commas between them, are read back
   trimmed, and what follows is left alone. Blank parentheses give no argument.
   */
  lemma ArgumentsAreRead(before: string, pieces: seq<string>, after: string)
    requires pieces != [] && AllArguments(pieces)
    ensures var list := "(" + (Join(pieces, ",") + ")");
            InvocationAt(before + list + after, |before|) == Read(Trimmed(pieces), |before + list|)
  {
    hide *;
    var inner := Join(pieces, ",") + ")";
    var t := before + ("(" + inner) + after;
    ListStands(before, inner, after);
    PiecesAreRead(t, |before| + 1, pieces, []);
    assert [] + Trimmed(pieces) == Trimmed(pieces);
    ListBegins(t, |before|);
  }

  lemma ListStands(before: string, inner: string, after: string)
    ensures var t := before + ("(" + inner) + after; t[|before|] == '(' && StandsAt(t, |before| + 1, inner)
  {
    var t := before + ("(" + inner) + after;
    assert t[|before| + 1..|before| + 1 + |inner|] == inner;
  }

  lemma ListBegins(t: string, open: nat)
    requires open < |t| && t[open] == '('
    ensures InvocationAt(t, open) == InvocationFrom(t, open + 1, 1, open + 1, [])
  {
  }

  predicate IsGap(gap: string) {
    forall k :: 0 <= k < |gap| ==> gap[k] in " \t\r\n"
  }

  lemma {:induction false} GapIsSkipped(t: string, i: nat, j: nat)
    requires i <= j < |t| && t[j] == '(' && forall k :: i <= k < j ==> t[k] in " \t\r\n"
    ensures SkipGap(t, i) == j
    decreases j - i
  {
    if i < j {
      GapIsSkipped(t, i + 1, j);
    }
  }

  /** The list may stand behind spaces, tabs and line ends. */
  lemma ArgumentsAreReadBehindGap(before: string, gap: string, pieces: seq<string>, after: string, d: Definition)
    requires pieces != [] && AllArguments(pieces) && IsGap(gap) && d.parameters.Some?
    ensures var list := "(" + (Join(pieces, ",") + ")");
            InvocationOf(before + gap + list + after, |before|, d) ==
            Read(Trimmed(pieces), |before| + |gap| + |list|)
  {
    var list := "(" + (Join(pieces, ",") + ")");
    var t := before + gap + list + after;
    hide AllArguments, Join, InvocationAt, Trimmed, Read;
    forall k | |before| <= k < |before + gap| ensures t[k] in " \t\r\n" { assert t[k] == gap[k - |before|]; }
    assert t[|before + gap|] == '(';
    GapIsSkipped(t, |before|, |before + gap|);
    ArgumentsAreRead(before + gap, pieces, after);
  }
}
