/**
 What the scan of a source makes of it, piece by piece. The source is cut into literals and
 comments, directives, single characters, words that stay, invocations outside declaration
 scope, and invocations that are replaced; at each position only one piece fits.
 */
module SourcePieces {
  import opened Options
  import opened Text
  import opened MacroScan
  import opened MacroApply
  import opened Substitution
  import opened MacroExpand
  import opened DeclarationMacros

  datatype Piece = Inert | Directive | Other | Word | Unscoped | Replaced(r: Replacement)

  /** A definition and the invocation of it that follows a word. */
  datatype Use = Use(definition: Definition, invocation: Invocation)

  function UseAt(source: string, i: nat, w: nat, project: Project): Option<Use>
    requires i <= w <= |source|
  {
    var d := DefinitionForOffset(source[i..w], i, project.globals, project.locals);
    if d.None? then None
    else
      var invocation := InvocationOf(source, w, d.value);
      if invocation.None? then None else Some(Use(d.value, invocation.value))
  }

  /** The text that the use expands to; None when arguments are missing. */
  function ExpandedUse(name: string, use: Use, project: Project): Option<string> {
    match ExpandInvocation(name, use.definition, use.invocation.args,
        ExpansionMacros(project.globals, project.locals), 1, {})
    case None => None
    case Some(x) => Some(x.text)
  }

  /** The expansion may replace the invocation: it is a declaration, not too long, where declarations may stand. */
  predicate Qualifies(text: Option<string>, line: nat, column: nat, scope: Scope) {
    text.Some? && scope.accepts(text.value) && |text.value| <= 256 * 1024 && scope.declaration(line, column)
  }

  function LineAt(source: string, i: nat): nat
    requires i <= |source|
  {
    1 + Count(source[..i], '\n')
  }

  function ColumnAt(source: string, i: nat): nat
    requires i <= |source|
  {
    i - LineStart(source, i)
  }

  /** The scan takes `source[i..j]` as this piece. */
  predicate Takes(source: string, i: nat, j: nat, piece: Piece, project: Project) {
    && i < j <= |source|
    && (piece.Inert? <==> SkipInert(source, i) > i)
    && (piece.Directive? <==> SkipInert(source, i) == i && IsDirectiveStart(source, i))
    && (piece.Other? ==> j == i + 1)
    && match piece
       case Inert => j == SkipInert(source, i)
       case Directive => j == DirectiveEnd(source, i)
       case Other => !IsIdentStart(source[i])
       case _ => IsIdentStart(source[i]) && TakesWord(source, i, WordEnd(source, i), j, piece, project)
  }

  /** The piece that begins with the word `source[i..w]`. */
  predicate TakesWord(source: string, i: nat, w: nat, j: nat, piece: Piece, project: Project)
    requires i <= w <= |source| && j <= |source|
  {
    var use, line, column := UseAt(source, i, w, project), LineAt(source, i), ColumnAt(source, i);
    if use.None? then piece.Word? && j == w
    else if !project.scope.lexical(line, column) then piece.Unscoped? && j == use.value.invocation.end
    else
      var text := ExpandedUse(source[i..w], use.value, project);
      if !Qualifies(text, line, column, project.scope) then piece.Word? && j == w
      else
        && j == use.value.invocation.end && i <= j
        && piece == Replaced(Replacement(i, j, Flattened(text.value, source[i..j]), line, source[i..w]))
  }

  /** Only one piece fits. */
  lemma OnePieceFits(source: string, i: nat, j: nat, piece: Piece, other: nat, otherPiece: Piece, project: Project)
    requires Takes(source, i, j, piece, project) && Takes(source, i, other, otherPiece, project)
    ensures other == j && otherPiece == piece
  {
    hide SkipInert, IsDirectiveStart, DirectiveEnd, UseAt, ExpandedUse, Qualifies, Flattened, LineAt, ColumnAt;
  }

  /** Where piece `k` begins. */
  function Begin(i: nat, ends: seq<nat>, k: nat): nat
    requires k <= |ends|
  {
    if k == 0 then i else ends[k - 1]
  }

  /** The pieces follow one another from `i` on; piece `k` ends at `ends[k]`. */
  predicate Cut(source: string, i: nat, ends: seq<nat>, pieces: seq<Piece>, project: Project) {
    |ends| == |pieces| &&
    forall k :: 0 <= k < |pieces| ==> Takes(source, Begin(i, ends, k), ends[k], pieces[k], project)
  }

  function Replacements(pieces: seq<Piece>): seq<Replacement> {
    if pieces == [] then []
    else (if pieces[0].Replaced? then [pieces[0].r] else []) + Replacements(pieces[1..])
  }

  lemma CutMore(source: string, i: nat, j: nat, piece: Piece, ends: seq<nat>, pieces: seq<Piece>, project: Project)
    requires Takes(source, i, j, piece, project) && Cut(source, j, ends, pieces, project)
    ensures Cut(source, i, [j] + ends, [piece] + pieces, project)
    ensures Replacements([piece] + pieces) == (if piece.Replaced? then [piece.r] else []) + Replacements(pieces)
  {
    hide Takes;
    var all, each := [j] + ends, [piece] + pieces;
    forall k | 0 <= k < |each| ensures Takes(source, Begin(i, all, k), all[k], each[k], project) {
      if k > 0 {
        assert Begin(i, all, k) == Begin(j, ends, k - 1);
        assert Takes(source, Begin(j, ends, k - 1), ends[k - 1], pieces[k - 1], project);
      }
    }
    assert each[1..] == pieces;
  }

  /**
   From any position on the scan replaces exactly the pieces that are to be replaced, up to
   the end of the source or until the allowed number of invocations is reached.
   */
  lemma {:induction false} ScanCuts(source: string, i: nat, found: seq<Replacement>, regular: bool, project: Project)
      returns (ends: seq<nat>, pieces: seq<Piece>)
    requires i <= |source| && |found| <= 4096
    ensures Cut(source, i, ends, pieces, project)
    ensures ScanSource(source, i, found, regular, project).replacements == found + Replacements(pieces)
    ensures |found + Replacements(pieces)| == 4096 || Begin(i, ends, |ends|) == |source|
    decreases |source| - i
  {
    hide Takes, ScanSource;
    ends, pieces := [], [];
    if i < |source| && |found| < 4096 {
      var j, piece, found', regular' := NextPiece(source, i, found, regular, project);
      assert i < j <= |source| by { TakesSome(source, i, j, piece, project); }
      ends, pieces := ScanCuts(source, j, found', regular', project);
      CutMore(source, i, j, piece, ends, pieces, project);
      ends, pieces := [j] + ends, [piece] + pieces;
    } else {
      ScanEnds(source, i, found, regular, project);
      assert found + Replacements([]) == found;
    }
  }

  lemma TakesSome(source: string, i: nat, j: nat, piece: Piece, project: Project)
    requires Takes(source, i, j, piece, project)
    ensures i < j <= |source|
  {
  }

  lemma ScanEnds(source: string, i: nat, found: seq<Replacement>, regular: bool, project: Project)
    requires i <= |source| && (i == |source| || |found| >= 4096)
    ensures ScanSource(source, i, found, regular, project) == Outcome(found, regular)
  {
  }

  /** One piece, and the scan goes on behind it. */
  lemma NextPiece(source: string, i: nat, found: seq<Replacement>, regular: bool, project: Project)
      returns (j: nat, piece: Piece, found': seq<Replacement>, regular': bool)
    requires i < |source| && |found| < 4096
    ensures Takes(source, i, j, piece, project)
    ensures found' == found + (if piece.Replaced? then [piece.r] else [])
    ensures ScanSource(source, i, found, regular, project) == ScanSource(source, j, found', regular', project)
  {
    hide SkipInert, InvocationOf, RegularAt, DefinitionForOffset, IsDirectiveStart, LineStart, DirectiveEnd,
         ExpandInvocation, ExpansionMacros, Flattened;
    found', regular' := found, regular;
    assert found + [] == found;
    var e := SkipInert(source, i);
    if e > i {
      j, piece := e, Inert;
    } else if IsDirectiveStart(source, i) {
      DirectiveAdvances(source, i);
      j, piece := DirectiveEnd(source, i), Directive;
    } else if !IsIdentStart(source[i]) {
      j, piece := i + 1, Other;
    } else {
      WordIsIdent(source, i);
      var w := WordEnd(source, i);
      var name := source[i..w];
      var use := UseAt(source, i, w, project);
      j, piece := w, Word;
      if use.Some? {
        var Use(d, Invocation(args, end)) := use.value;
        var replacement := Replace(source, i, name, d, args, end, project);
        if !project.scope.lexical(Line(source, i), i - LineStart(source, i)) {
          j, piece := end, Unscoped;
        } else {
          regular' := regular && RegularAt(name, d, args, project);
          if replacement.Some? {
            j, piece := end, Replaced(replacement.value);
            found' := found + [replacement.value];
          }
        }
      }
    }
  }

  /**
   The scan of a source makes of it what the pieces say: the replacements are those of a
   cutting of the whole source, or, once as many invocations are replaced as are allowed, of
   its beginning.
   */
  lemma ReplacementsAreThePieces(source: string, project: Project)
    ensures exists ends: seq<nat>, pieces: seq<Piece> ::
        && Cut(source, 0, ends, pieces, project)
        && ScanSource(source, 0, [], true, project).replacements == Replacements(pieces)
        && (|Replacements(pieces)| == 4096 || Begin(0, ends, |ends|) == |source|)
  {
    hide Cut, ScanSource;
    var ends, pieces := ScanCuts(source, 0, [], true, project);
    assert [] + Replacements(pieces) == Replacements(pieces);
  }

  // ---------------------------------------------------------------- comments in what is put in place

  /** Outside literals no `//` stands from `i` on. */
  predicate CommentFree(t: string, i: nat)
    requires i <= |t|
    decreases |t| - i
  {
    i == |t| ||
    if IsQuote(t[i]) then CommentFree(t, QuotedEnd(t, t[i], i + 1))
    else !MatchesAt(t, i, "//") && CommentFree(t, i + 1)
  }

  function Erased(t: string, i: nat): string
    requires i <= |t|
  {
    EraseFrom(t, i, "")
  }

  /** Where the literal, comment or character at `i` ends. */
  function EraseEnd(t: string, i: nat): nat
    requires i < |t|
  {
    if IsQuote(t[i]) then QuotedEnd(t, t[i], i + 1)
    else if MatchesAt(t, i, "//") then LineCommentEnd(t, i)
    else i + 1
  }

  /** It erases a comment, or copies the piece. */
  lemma EraseOne(t: string, i: nat, out: string) returns (first: string)
    requires i < |t|
    ensures i < EraseEnd(t, i) <= |t| && |first| == EraseEnd(t, i) - i
    ensures first == if !IsQuote(t[i]) && MatchesAt(t, i, "//") then Spaces(|first|) else t[i..EraseEnd(t, i)]
    ensures EraseFrom(t, i, out) == EraseFrom(t, EraseEnd(t, i), out + first)
  {
    if MatchesAt(t, i, "//") { CommentAdvances(t, i); }
    hide MatchesAt, QuotedEnd, LineCommentEnd;
    var end := EraseEnd(t, i);
    first := if !IsQuote(t[i]) && MatchesAt(t, i, "//") then Spaces(end - i) else t[i..end];
    assert !IsQuote(t[i]) && !MatchesAt(t, i, "//") ==> first == [t[i]];
  }

  lemma {:induction false} ErasedAfter(t: string, i: nat, out: string)
    requires i <= |t|
    ensures EraseFrom(t, i, out) == out + EraseFrom(t, i, "")
    decreases |t| - i
  {
    if i < |t| {
      var end := EraseEnd(t, i);
      var first := EraseOne(t, i, out);
      var again := EraseOne(t, i, "");
      hide EraseFrom, EraseEnd, MatchesAt;
      assert again == first && "" + first == first;
      ErasedAfter(t, end, out + first);
      ErasedAfter(t, end, first);
      assert out + first + EraseFrom(t, end, "") == out + (first + EraseFrom(t, end, ""));
    }
  }

  /** The text `t` from `i` on without its line comments, the first piece of it apart. */
  lemma ErasedStep(t: string, i: nat) returns (first: string)
    requires i < |t|
    ensures i < EraseEnd(t, i) <= |t| && |first| == EraseEnd(t, i) - i
    ensures first == if !IsQuote(t[i]) && MatchesAt(t, i, "//") then Spaces(|first|) else t[i..EraseEnd(t, i)]
    ensures Erased(t, i) == first + Erased(t, EraseEnd(t, i))
  {
    first := EraseOne(t, i, "");
    hide EraseFrom, EraseEnd, MatchesAt;
    assert "" + first == first;
    ErasedAfter(t, EraseEnd(t, i), first);
  }

  /** A literal ends in the same place in any text that has it, unless it is open at the end of one text only. */
  lemma {:induction false} SameLiteral(t: string, i: nat, s: string, j: nat, quote: char, n: nat)
    requires i <= |t| && j + n <= |s| && QuotedEnd(t, quote, i) == i + n && quote != '\\'
    requires (forall x :: j <= x < j + n ==> s[x] == t[i + x - j]) && (i + n == |t| ==> j + n == |s|)
    ensures QuotedEnd(s, quote, j) == j + n
    decreases |t| - i
  {
    hide QuotedEnd;
    LiteralStep(t, i, quote);
    LiteralStep(s, j, quote);
    if i < |t| {
      assert n > 0 && s[j] == t[i];
      var k := if t[i] == '\\' then 2 else 1;
      if t[i] != quote && i + k <= |t| {
        SameLiteral(t, i + k, s, j + k, quote, n - k);
      }
    }
  }

  lemma LiteralStep(t: string, i: nat, quote: char)
    requires i <= |t|
    ensures i == |t| ==> QuotedEnd(t, quote, i) == i
    ensures i < |t| && t[i] == '\\' ==>
        QuotedEnd(t, quote, i) == if i + 2 <= |t| then QuotedEnd(t, quote, i + 2) else |t|
    ensures i < |t| && t[i] != '\\' ==>
        QuotedEnd(t, quote, i) == if t[i] == quote then i + 1 else QuotedEnd(t, quote, i + 1)
  {
  }

  lemma LiteralFirst(t: string, i: nat, first: string, rest: string)
    requires i < |t| && IsQuote(t[i]) && first == t[i..QuotedEnd(t, t[i], i + 1)]
    requires QuotedEnd(t, t[i], i + 1) == |t| ==> rest == ""
    ensures QuotedEnd(first + rest, t[i], 1) == |first|
  {
    hide QuotedEnd;
    var s := first + rest;
    assert forall x :: 1 <= x < |first| ==> s[x] == first[x] == t[i + x];
    SameLiteral(t, i + 1, s, 1, t[i], |first| - 1);
  }

  /**
   What is put in place of an invocation is as long as the expansion, with no line comment to
   swallow what follows.
   */
  lemma {:induction false} ErasedIsCommentFree(t: string, i: nat)
    requires i <= |t|
    ensures |Erased(t, i)| == |t| - i
    ensures forall k :: i <= k < |t| ==> Erased(t, i)[k - i] == t[k] || Erased(t, i)[k - i] == ' '
    ensures CommentFree(Erased(t, i), 0)
    decreases |t| - i
  {
    if i < |t| {
      var end := EraseEnd(t, i);
      var first := ErasedStep(t, i);
      ErasedIsCommentFree(t, end);
      var rest := Erased(t, end);
      hide EraseFrom, Erased, CommentFree;
      FirstIsFree(t, i, first, rest);
    }
  }

  /** The first piece of what is left adds no comment. */
  lemma FirstIsFree(t: string, i: nat, first: string, rest: string)
    requires i < |t| && EraseEnd(t, i) <= |t| && CommentFree(rest, 0) && |rest| == |t| - EraseEnd(t, i)
    requires first == if !IsQuote(t[i]) && MatchesAt(t, i, "//") then Spaces(|first|) else t[i..EraseEnd(t, i)]
    requires rest != "" ==> rest[0] == t[EraseEnd(t, i)] || rest[0] == ' '
    ensures CommentFree(first + rest, 0)
  {
    hide CommentFree, MatchesAt, QuotedEnd, LineCommentEnd;
    FreeBehind(first, rest);
    if IsQuote(t[i]) {
      LiteralFirst(t, i, first, rest);
      FreeLiteral(first + rest);
    } else if MatchesAt(t, i, "//") {
      BlankIsFree(first, rest);
    } else {
      NoneArises(t, i, rest);
      FreeStep(first + rest);
    }
  }

  lemma NoneArises(t: string, i: nat, rest: string)
    requires i < |t| && !MatchesAt(t, i, "//") && |rest| == |t| - i - 1
    requires rest != "" ==> rest[0] == t[i + 1] || rest[0] == ' '
    ensures !MatchesAt(t[i..i + 1] + rest, 0, "//")
  {
    var r := t[i..i + 1] + rest;
    if i + 2 <= |t| {
      assert r[0..2] == [t[i], rest[0]] && t[i..i + 2] == [t[i], t[i + 1]] && "//" == ['/', '/'];
    }
  }

  lemma FreeLiteral(r: string)
    requires r != "" && IsQuote(r[0]) && CommentFree(r, QuotedEnd(r, r[0], 1))
    ensures CommentFree(r, 0)
  {
  }

  lemma FreeStep(r: string)
    requires r != "" && !IsQuote(r[0]) && !MatchesAt(r, 0, "//") && CommentFree(r, 1)
    ensures CommentFree(r, 0)
  {
  }

  lemma {:induction false} FreeFrom(a: string, b: string, i: nat)
    requires i <= |b| && CommentFree(b, i)
    ensures CommentFree(a + b, |a| + i)
    decreases |b| - i
  {
    hide MatchesAt, QuotedEnd;
    if i < |b| {
      assert (a + b)[|a| + i] == b[i];
      if IsQuote(b[i]) {
        LiteralBehind(a, b, i + 1, b[i]);
        FreeFrom(a, b, QuotedEnd(b, b[i], i + 1));
      } else {
        NoMatchJoined(a, b, i);
        FreeFrom(a, b, i + 1);
      }
    }
  }

  lemma {:induction false} LiteralBehind(a: string, b: string, i: nat, quote: char)
    requires i <= |b|
    ensures QuotedEnd(a + b, quote, |a| + i) == |a| + QuotedEnd(b, quote, i)
    decreases |b| - i
  {
    if i < |b| {
      assert (a + b)[|a| + i] == b[i];
      if b[i] != '\\' {
        LiteralBehind(a, b, i + 1, quote);
      } else if i + 2 <= |b| {
        LiteralBehind(a, b, i + 2, quote);
      }
    }
  }

  lemma NoMatchJoined(a: string, b: string, i: nat)
    requires i < |b| && !MatchesAt(b, i, "//")
    ensures !MatchesAt(a + b, |a| + i, "//")
  {
    if i + 2 <= |b| {
      assert (a + b)[|a| + i..|a| + i + 2] == b[i..i + 2];
    }
  }

  lemma FreeBehind(a: string, b: string)
    requires CommentFree(b, 0)
    ensures CommentFree(a + b, |a|)
  {
    FreeFrom(a, b, 0);
  }

  lemma {:induction false} BlankIsFree(a: string, b: string)
    requires CommentFree(b, 0) && forall k :: 0 <= k < |a| ==> a[k] == ' '
    ensures CommentFree(a + b, 0)
  {
    if a == "" {
      assert a + b == b;
    } else {
      BlankIsFree(a[1..], b);
      FreeBehind([' '], a[1..] + b);
      assert [' '] + (a[1..] + b) == a + b;
      assert !MatchesAt(a + b, 0, "//") by { assert |a + b| >= 2 ==> (a + b)[0..2][0] == ' '; }
      hide MatchesAt;
    }
  }

  /** Nothing else is erased: a text without line comments stays as it is. */
  lemma {:induction false} CommentFreeStays(t: string, i: nat)
    requires i <= |t| && CommentFree(t, i)
    ensures Erased(t, i) == t[i..]
    decreases |t| - i
  {
    if i < |t| {
      var first := ErasedStep(t, i);
      hide EraseFrom, MatchesAt;
      CommentFreeStays(t, EraseEnd(t, i));
      assert t[i..] == t[i..EraseEnd(t, i)] + t[EraseEnd(t, i)..];
    }
  }

  // ---------------------------------------------------------------- lines of what is put in place

  /** The text with each run of white space as one space; `gap` says that one was just written. */
  function Squeezed(t: string, gap: bool): string {
    if t == "" then ""
    else if IsSpace(t[0]) then (if gap then "" else " ") + Squeezed(t[1..], true)
    else [t[0]] + Squeezed(t[1..], false)
  }

  lemma SqueezedFirst(c: char, t: string, gap: bool)
    ensures Squeezed([c] + t, gap) ==
        if IsSpace(c) then (if gap then "" else " ") + Squeezed(t, true) else [c] + Squeezed(t, false)
  {
    assert ([c] + t)[1..] == t;
  }

  /** Joining the lines changes nothing but white space, and takes none away between two words. */
  lemma {:induction false} JoinedReadsTheSame(t: string, i: nat, gap: bool)
    requires i <= |t|
    ensures Squeezed(JoinLines(t, i), gap) == Squeezed(t[i..], gap)
    decreases |t| - i
  {
    hide IsSpace, Squeezed, MatchesAt;
    if i == |t| {
      assert t[i..] == "";
    } else {
      assert t[i..] == [t[i]] + t[i + 1..];
      SqueezedFirst(t[i], t[i + 1..], gap);
      if t[i] == '\n' {
        LineEndsAreSpaces();
        SqueezedFirst(' ', JoinLines(t, i + 1), gap);
        JoinedReadsTheSame(t, i + 1, true);
      } else if MatchesAt(t, i, "\r\n") {
        LineEndsAreSpaces();
        TwoAtLineEnd(t, i);
        SqueezedFirst(' ', JoinLines(t, i + 2), gap);
        SqueezedFirst('\n', t[i + 2..], true);
        JoinedReadsTheSame(t, i + 2, true);
        assert "" + Squeezed(t[i + 2..], true) == Squeezed(t[i + 2..], true);
      } else {
        SqueezedFirst(t[i], JoinLines(t, i + 1), gap);
        JoinedReadsTheSame(t, i + 1, IsSpace(t[i]));
      }
    }
  }

  lemma LineEndsAreSpaces()
    ensures IsSpace('\n') && IsSpace('\r') && IsSpace(' ')
  {
  }

  lemma TwoAtLineEnd(t: string, i: nat)
    requires MatchesAt(t, i, "\r\n")
    ensures i + 2 <= |t| && t[i] == '\r' && t[i + 1..] == ['\n'] + t[i + 2..]
  {
    assert t[i..i + 2][0] == '\r' && t[i..i + 2][1] == '\n';
  }
}
