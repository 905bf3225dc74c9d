/**
 Masking of comments and literals before the language of a header is guessed: they are
 blanked where they stand, so that lines and columns keep their places.
 */
module Masking {
  import opened Text

  predicate IsNewline(c: char) {
    c == '\r' || c == '\n'
  }

  /** The text with every character but line ends replaced by a space. */
  function Blank(t: string): (r: string)
    ensures |r| == |t| && forall k :: 0 <= k < |t| ==> r[k] == if IsNewline(t[k]) then t[k] else ' '
  {
    seq(|t|, k requires 0 <= k < |t| => if IsNewline(t[k]) then t[k] else ' ')
  }

  /** The end of a literal in quotes whose contents go on at `i`; a backslash protects what follows it. */
  function QuotedEnd(s: string, i: nat, quote: char): (end: nat)
    requires i <= |s|
    ensures i <= end <= |s|
    decreases |s| - i
  {
    if i == |s| then i
    else if s[i] == '\\' then QuotedEnd(s, if i + 2 <= |s| then i + 2 else |s|, quote)
    else if s[i] == quote then i + 1
    else QuotedEnd(s, i + 1, quote)
  }

  predicate DelimiterChar(c: char) {
    !IsSpace(c) && c != '\\' && c != '(' && c != ')'
  }

  /** The end of the raw string literal at `i`, or `i` if there is none. */
  function RawEnd(s: string, i: nat): (end: nat)
    requires i + 2 <= |s|
    ensures end == i || i + 2 <= end <= |s|
  {
    var paren := Find(s, "(", i + 2);
    if paren == |s| || paren - (i + 2) > 16 then i
    else
      var delimiter := s[i + 2..paren];
      if exists k :: 0 <= k < |delimiter| && !DelimiterChar(delimiter[k]) then i
      else
        var terminator := ")" + delimiter + "\"";
        var close := Find(s, terminator, paren + 1);
        if close == |s| then i else close + |terminator|
  }

  /** The end of the comment or literal that starts at `i`, or `i` if none does. */
  function SpanEnd(s: string, i: nat): (end: nat)
    requires i < |s|
    ensures i <= end <= |s|
    ensures end == i ==>
        s[i] != '"' && s[i] != '\'' && !(i + 1 < |s| && s[i] == '/' && (s[i + 1] == '/' || s[i + 1] == '*'))
  {
    var next := if i + 1 < |s| then s[i + 1] else '\0';
    var ahead := i + 1 < |s|;
    if ahead && s[i] == '/' && next == '/' then Find(s, "\n", i + 2)
    else if ahead && s[i] == '/' && next == '*' then
      var close := Find(s, "*/", i + 2);
      if close == |s| then |s| else close + 2
    else if ahead && s[i] == 'R' && next == '"' && RawEnd(s, i) > i then RawEnd(s, i)
    else if s[i] == '"' || s[i] == '\'' then QuotedEnd(s, i + 1, s[i])
    else i
  }

  /** The masked text from `i` on, where `i` is not inside a comment or literal. */
  function MaskFrom(s: string, i: nat): (r: string)
    requires i <= |s|
    ensures |r| == |s| - i
    decreases |s| - i
  {
    if i == |s| then ""
    else
      var end := SpanEnd(s, i);
      if end > i then Blank(s[i..end]) + MaskFrom(s, end) else [s[i]] + MaskFrom(s, i + 1)
  }

  function Mask(s: string): (r: string)
    ensures |r| == |s|
  {
    MaskFrom(s, 0)
  }

  /** Position `k` lies inside a comment or literal, as seen from `i`. */
  ghost predicate InSpan(s: string, i: nat, k: nat)
    requires i <= k < |s|
    decreases |s| - i
  {
    var end := SpanEnd(s, i);
    if end > i then k < end || InSpan(s, end, k) else i != k && InSpan(s, i + 1, k)
  }

  /** Characters keep their places: line ends and code as they are, everything else in a comment or literal blank. */
  lemma {:induction false} MaskedCharacter(s: string, i: nat, k: nat)
    requires i <= k < |s|
    ensures MaskFrom(s, i)[k - i] == if InSpan(s, i, k) && !IsNewline(s[k]) then ' ' else s[k]
    decreases |s| - i
  {
    hide SpanEnd;
    var end := SpanEnd(s, i);
    if end > i {
      if k >= end {
        MaskedCharacter(s, end, k);
      }
    } else if k > i {
      MaskedCharacter(s, i + 1, k);
    }
  }

  // ---------------------------------------------------------------- where a comment or literal ends

  /** The number of backslashes right before `k`, from `start` on. */
  function Backslashes(s: string, start: nat, k: nat): nat
    requires start <= k <= |s|
  {
    if k > start && s[k - 1] == '\\' then 1 + Backslashes(s, start, k - 1) else 0
  }

  /** A quote that no backslash protects. */
  predicate Closes(s: string, start: nat, k: nat, quote: char) {
    start <= k < |s| && s[k] == quote && Backslashes(s, start, k) % 2 == 0
  }

  lemma {:induction false} TwoBackslashes(s: string, start: nat, k: nat)
    requires start + 2 <= k <= |s| && s[start] == '\\'
    ensures Backslashes(s, start, k) % 2 == Backslashes(s, start + 2, k) % 2
  {
    if k > start + 2 {
      TwoBackslashes(s, start, k - 1);
    } else {
      assert Backslashes(s, start, start + 1) == 1;
    }
  }

  lemma {:induction false} NoBackslash(s: string, start: nat, k: nat)
    requires start + 1 <= k <= |s| && s[start] != '\\'
    ensures Backslashes(s, start, k) == Backslashes(s, start + 1, k)
  {
    if k > start + 1 {
      NoBackslash(s, start, k - 1);
    }
  }

  /** A literal ends at the first quote that no backslash protects, or with the text. */
  lemma {:induction false} QuotedEndsAtQuote(s: string, i: nat, quote: char)
    requires i <= |s| && quote != '\\'
    ensures var end := QuotedEnd(s, i, quote);
            && (forall k: nat :: k < end - 1 ==> !Closes(s, i, k, quote))
            && (end == |s| || Closes(s, i, end - 1, quote))
    decreases |s| - i
  {
    if i < |s| {
      var next := if s[i] == '\\' then i + 2 else i + 1;
      if next <= |s| && s[i] != quote {
        QuotedEndsAtQuote(s, next, quote);
        forall k: nat | next <= k < |s| ensures Closes(s, i, k, quote) <==> Closes(s, next, k, quote) {
          if s[i] == '\\' { TwoBackslashes(s, i, k); } else { NoBackslash(s, i, k); }
        }
        assert s[i] == '\\' && i + 1 < |s| ==> Backslashes(s, i, i + 1) == 1 + Backslashes(s, i, i);
      }
    }
  }

  predicate Pair(s: string, k: nat, a: char, b: char) {
    k + 1 < |s| && s[k] == a && s[k + 1] == b
  }

  lemma PairMatches(s: string, k: nat, a: char, b: char)
    ensures MatchesAt(s, k, [a, b]) <==> Pair(s, k, a, b)
  {
    assert k + 2 <= |s| ==> s[k..k + 2] == [s[k], s[k + 1]];
  }

  /** A line comment goes to the end of the line, a block comment to the first end of one, and code is no span. */
  lemma SpanIsShortest(s: string, i: nat)
    requires i < |s|
    ensures var end := SpanEnd(s, i);
            && (Pair(s, i, '/', '/') ==>
                (end == |s| || s[end] == '\n') && forall k :: i + 2 <= k < end ==> s[k] != '\n')
            && (Pair(s, i, '/', '*') ==>
                (end == |s| || (end >= i + 4 && Pair(s, end - 2, '*', '/'))) &&
                forall k: nat :: i + 2 <= k < end - 2 ==> !Pair(s, k, '*', '/'))
            && (s[i] == '"' || s[i] == '\'' ==> end == QuotedEnd(s, i + 1, s[i]))
            && (s[i] !in "/\"'" && !Pair(s, i, 'R', '"') ==> end == i)
  {
    var end := SpanEnd(s, i);
    hide QuotedEnd, RawEnd;
    if Pair(s, i, '/', '/') {
      assert end < |s| ==> s[end..end + 1][0] == '\n';
      forall k: nat | i + 2 <= k < end ensures s[k] != '\n' {
        FindIsFirst(s, "\n", i + 2, k);
        assert s[k..k + 1] == [s[k]];
      }
    } else if Pair(s, i, '/', '*') {
      var close := Find(s, "*/", i + 2);
      assert "*/" == ['*', '/'];
      if close < |s| { PairMatches(s, close, '*', '/'); }
      forall k: nat | i + 2 <= k < end - 2 ensures !Pair(s, k, '*', '/') {
        PairMatches(s, k, '*', '/');
        FindIsFirst(s, "*/", i + 2, k);
      }
    }
  }

  predicate Opens(t: string, k: nat)
    requires k < |t|
  {
    t[k] == '"' || t[k] == '\'' || (k + 1 < |t| && t[k] == '/' && (t[k + 1] == '/' || t[k + 1] == '*'))
  }

  /** A character that stays where it is starts no comment and no literal, and its successor is itself or blank. */
  lemma CodeOpensNothing(s: string, i: nat)
    requires i < |s| && SpanEnd(s, i) == i
    ensures !Opens(MaskFrom(s, i), 0)
  {
    assert !(s[i] == '"' || s[i] == '\'') && !(i + 1 < |s| && s[i] == '/' && (s[i + 1] == '/' || s[i + 1] == '*'));
    hide SpanEnd;
    if i + 1 < |s| {
      MaskedCharacter(s, i + 1, i + 1);
      assert MaskFrom(s, i)[1] == MaskFrom(s, i + 1)[0];
    }
  }

  lemma BlankOpensNothing(s: string, i: nat, k: nat)
    requires i < |s| && i <= k < SpanEnd(s, i)
    ensures !Opens(MaskFrom(s, i), k - i)
  {
    hide SpanEnd;
    MaskedCharacter(s, i, k);
    assert InSpan(s, i, k);
  }

  lemma {:induction false} NothingOpens(s: string, i: nat, k: nat)
    requires i <= k < |s|
    ensures !Opens(MaskFrom(s, i), k - i)
    decreases |s| - i
  {
    hide SpanEnd, Blank;
    var end := SpanEnd(s, i);
    if k < end {
      BlankOpensNothing(s, i, k);
    } else if end > i {
      NothingOpens(s, end, k);
      OpensLater(Blank(s[i..end]), MaskFrom(s, end), k - end);
    } else if k > i {
      NothingOpens(s, i + 1, k);
      OpensLater([s[i]], MaskFrom(s, i + 1), k - i - 1);
    } else {
      CodeOpensNothing(s, i);
    }
  }

  lemma OpensLater(a: string, b: string, k: nat)
    requires k < |b|
    ensures Opens(a + b, |a| + k) <==> Opens(b, k)
  {
  }

  lemma {:induction false} PlainIsKept(t: string, i: nat)
    requires i <= |t| && forall k :: 0 <= k < |t| ==> !Opens(t, k)
    ensures MaskFrom(t, i) == t[i..]
    decreases |t| - i
  {
    if i < |t| {
      assert !Opens(t, i);
      if i + 1 < |t| {
        assert !Opens(t, i + 1);
      }
      assert SpanEnd(t, i) == i;
      hide SpanEnd;
      PlainIsKept(t, i + 1);
    }
  }

  /** Masking keeps the length and the line ends, only ever writes spaces, and leaves nothing to mask. */
  lemma MaskIsClean(s: string)
    ensures forall k :: 0 <= k < |s| ==>
        (IsNewline(Mask(s)[k]) <==> IsNewline(s[k])) && (Mask(s)[k] == s[k] || Mask(s)[k] == ' ')
    ensures forall k :: 0 <= k < |s| ==> !Opens(Mask(s), k)
    ensures Mask(Mask(s)) == Mask(s)
  {
    var t := Mask(s);
    forall k | 0 <= k < |s|
      ensures (IsNewline(t[k]) <==> IsNewline(s[k])) && (t[k] == s[k] || t[k] == ' ') && !Opens(t, k)
    {
      MaskedCharacter(s, 0, k);
      NothingOpens(s, 0, k);
    }
    hide MaskFrom;
    PlainIsKept(t, 0);
  }

  // ---------------------------------------------------------------- the scanner

  method FindQuotedEnd(s: string, start: nat, quote: char) returns (end: nat)
    requires start <= |s|
    ensures end == QuotedEnd(s, start, quote)
  {
    end := start;
    while end < |s|
      invariant start <= end <= |s| && QuotedEnd(s, end, quote) == QuotedEnd(s, start, quote)
    {
      var q := s[end];
      if q == '\\' {
        end := if end + 2 <= |s| then end + 2 else |s|;
        continue;
      }
      end := end + 1;
      if q == quote {
        return;
      }
    }
  }

  /** The end of the comment or literal at `i`, found by looking at two characters. */
  method FindSpanEnd(s: string, i: nat) returns (end: nat)
    requires i < |s|
    ensures end == SpanEnd(s, i)
  {
    var ahead := i + 1 < |s|;
    if ahead && s[i] == '/' && s[i + 1] == '/' {
      return Find(s, "\n", i + 2);
    }
    if ahead && s[i] == '/' && s[i + 1] == '*' {
      var close := Find(s, "*/", i + 2);
      return if close == |s| then |s| else close + 2;
    }
    if ahead && s[i] == 'R' && s[i + 1] == '"' {
      end := RawEnd(s, i);
      if end > i {
        return;
      }
    }
    if s[i] == '"' || s[i] == '\'' {
      end := FindQuotedEnd(s, i + 1, s[i]);
      return;
    }
    return i;
  }

  /** Copies code and blanks comments and literals, in one pass over the text. */
  method MaskCStyleCommentsAndLiterals(source: string) returns (out: string)
    ensures out == Mask(source)
  {
    hide MaskFrom, Blank, SpanEnd;
    out := "";
    var codeStart, i := 0, 0;
    assert out + source[codeStart..i] + MaskFrom(source, i) == Mask(source);
    while i < |source|
      invariant codeStart <= i <= |source|
      invariant out + source[codeStart..i] + MaskFrom(source, i) == Mask(source)
    {
      MaskStep(source, i);
      var end := FindSpanEnd(source, i);
      if end > i {
        ghost var before, blanked := out + source[codeStart..i], Blank(source[i..end]);
        out := out + source[codeStart..i] + Blank(source[i..end]);
        codeStart, i := end, end;
        assert before + (blanked + MaskFrom(source, i)) == out + source[codeStart..i] + MaskFrom(source, i);
      } else {
        assert source[codeStart..i + 1] == source[codeStart..i] + [source[i]];
        i := i + 1;
      }
    }
    out := out + source[codeStart..];
    assert source[codeStart..i] == source[codeStart..];
  }

  lemma MaskStep(s: string, i: nat)
    requires i < |s|
    ensures var end := SpanEnd(s, i);
            MaskFrom(s, i) == if end > i then Blank(s[i..end]) + MaskFrom(s, end) else [s[i]] + MaskFrom(s, i + 1)
  {
  }
}
