/**
 The string replacements that macro substitution is made of. Each function is one
 global `replace` of the program, from position `i` of the text on; a replacement
 given as a string is read by JavaScript's rules, in which `$` is special.
 */
module Replacing {
  import opened Text

  /** The replacement string `template`, with `$$`, `$&`, `$\`` and `$'` expanded. */
  function Substitute(template: string, matched: string, before: string, after: string): string {
    if template == "" then ""
    else if template[0] == '$' && |template| > 1 && template[1] in "$&`'" then
      (match template[1]
       case '$' => "$"
       case '&' => matched
       case '`' => before
       case _ => after) + Substitute(template[2..], matched, before, after)
    else [template[0]] + Substitute(template[1..], matched, before, after)
  }

  /** No `$` begins one of these four patterns, so the string stands for itself. */
  predicate NoPattern(template: string) {
    forall k :: 0 <= k < |template| - 1 && template[k] == '$' ==> template[k + 1] !in "$&`'"
  }

  lemma {:induction false} SubstitutePlain(template: string, matched: string, before: string, after: string)
    requires NoPattern(template)
    ensures Substitute(template, matched, before, after) == template
  {
    if template != "" {
      SubstitutePlain(template[1..], matched, before, after);
    }
  }

  /** The condition is exact: a string with a pattern comes out shorter where nothing is matched or stands around it. */
  lemma {:induction false} PatternIsRead(template: string)
    ensures |Substitute(template, "", "", "")| <= |template|
    ensures Substitute(template, "", "", "") == template <==> NoPattern(template)
  {
    if NoPattern(template) {
      SubstitutePlain(template, "", "", "");
    } else if template[0] == '$' && template[1] in "$&`'" {
      PatternIsRead(template[2..]);
    } else {
      var k :| 0 <= k < |template| - 1 && template[k] == '$' && template[k + 1] in "$&`'";
      assert template[1..][k - 1] == '$' && template[1..][k] == template[k + 1];
      PatternIsRead(template[1..]);
      assert template == [template[0]] + template[1..];
    }
  }

  /** `\bword\b` matches at `i`. */
  predicate WordAt(t: string, i: nat, word: string) {
    && MatchesAt(t, i, word)
    && (i == 0 || !IsIdentPart(t[i - 1]))
    && (i + |word| == |t| || !IsIdentPart(t[i + |word|]))
  }

  function ReplaceWord(t: string, i: nat, word: string, value: string): string
    requires i <= |t| && word != ""
    decreases |t| - i
  {
    if i == |t| then ""
    else if WordAt(t, i, word) then
      Substitute(value, word, t[..i], t[i + |word|..]) + ReplaceWord(t, i + |word|, word, value)
    else [t[i]] + ReplaceWord(t, i + 1, word, value)
  }

  lemma NoWordInside(t: string, i: nat, word: string, value: string)
    requires 0 < i < |t| && word != "" && IsIdentPart(t[i - 1])
    ensures ReplaceWord(t, i, word, value) == [t[i]] + ReplaceWord(t, i + 1, word, value)
  {
    assert !WordAt(t, i, word);
    hide WordAt, Substitute;
  }

  /** Inside a run of identifier characters no word can match after the first position. */
  lemma {:induction false} ReplaceWordCopies(t: string, i: nat, j: nat, word: string, value: string)
    requires 0 < i <= j <= |t| && word != ""
    requires forall k :: i - 1 <= k < j ==> IsIdentPart(t[k])
    ensures ReplaceWord(t, i, word, value) == t[i..j] + ReplaceWord(t, j, word, value)
    decreases j - i
  {
    hide ReplaceWord;
    if i < j {
      NoWordInside(t, i, word, value);
      ReplaceWordCopies(t, i + 1, j, word, value);
      assert t[i..j] == [t[i]] + t[i + 1..j];
    } else {
      assert t[i..j] == "";
    }
  }

  /** `##` occurs in the text. */
  predicate HasPaste(t: string) {
    exists i: nat :: i < |t| && MatchesAt(t, i, "##")
  }

  /** Optional white space and then `##` stand at `i`. */
  predicate PasteFollows(t: string, i: nat)
    requires i <= |t|
  {
    MatchesAt(t, SkipSpaces(t, i), "##")
  }

  /** GNU comma swallowing: replace each `, ##__VA_ARGS__` by the replacement string. */
  function SwallowComma(t: string, i: nat, replacement: string): string
    requires i <= |t|
    decreases |t| - i
  {
    if i == |t| then ""
    else
      var word := "__VA_ARGS__";
      if t[i] == ',' && PasteFollows(t, i + 1) then
        var k := SkipSpaces(t, SkipSpaces(t, i + 1) + 2);
        var e := k + |word|;
        if MatchesAt(t, k, word) && (e == |t| || !IsIdentPart(t[e]))
        then Substitute(replacement, t[i..e], t[..i], t[e..]) + SwallowComma(t, e, replacement)
        else [t[i]] + SwallowComma(t, i + 1, replacement)
      else [t[i]] + SwallowComma(t, i + 1, replacement)
  }

  lemma {:induction false} SwallowNeedsPaste(t: string, i: nat, replacement: string)
    requires i <= |t| && !HasPaste(t)
    ensures SwallowComma(t, i, replacement) == t[i..]
    decreases |t| - i
  {
    if i < |t| {
      SwallowNeedsPaste(t, i + 1, replacement);
    }
  }

  /** The end of `#`, optional white space and `word`, when they stand at `i`; otherwise 0. */
  function HashedWordEnd(t: string, i: nat, word: string): (e: nat)
    ensures e > 0 ==> i < e <= |t| && t[i] == '#' && (e == |t| || !IsIdentPart(t[e]))
  {
    if i < |t| && t[i] == '#' then
      var k := SkipSpaces(t, i + 1);
      if MatchesAt(t, k, word) && (k + |word| == |t| || !IsIdentPart(t[k + |word|])) then k + |word| else 0
    else 0
  }

  /**
   Replace each `#word` by `literal`. The program's expression also consumes the
   character before the `#`, which must not be another `#` nor belong to the
   previous match, which ended at `last`.
   */
  function Stringify(t: string, i: nat, last: nat, word: string, literal: string): string
    requires i <= |t|
    decreases |t| - i
  {
    if i == |t| then ""
    else
      var e := HashedWordEnd(t, i, word);
      if e > 0 && (i == 0 || (last < i && t[i - 1] != '#'))
      then literal + Stringify(t, e, e, word, literal)
      else [t[i]] + Stringify(t, i + 1, last, word, literal)
  }

  lemma {:induction false} NothingToStringify(t: string, i: nat, last: nat, word: string, literal: string)
    requires i <= |t| && '#' !in t
    ensures Stringify(t, i, last, word, literal) == t[i..]
    decreases |t| - i
  {
    if i < |t| {
      assert t[i] in t;
      NothingToStringify(t, i + 1, last, word, literal);
    }
  }

  lemma HashFree(t: string)
    requires '#' !in t
    ensures !HasPaste(t)
  {
    forall i: nat | i < |t| ensures !MatchesAt(t, i, "##") {
      assert t[i] in t;
    }
  }

  /** The text of a string literal for `value`: white space collapsed, quotes and backslashes escaped. */
  function Escape(t: string, i: nat): string
    requires i <= |t|
    decreases |t| - i
  {
    if i == |t| then ""
    else if IsSpace(t[i]) then " " + Escape(t, SkipSpaces(t, i))
    else (if t[i] == '\\' then "\\\\" else if t[i] == '"' then "\\\"" else [t[i]]) + Escape(t, i + 1)
  }

  function Quoted(value: string): string {
    "\"" + Escape(Trim(value), 0) + "\""
  }

  function Decimal(n: nat): string {
    var digit := ['0' + (n % 10) as char];
    if n < 10 then digit else Decimal(n / 10) + digit
  }

  function Placeholder(n: nat): string {
    "__CODEGRAPH_PASTE_ARG_" + Decimal(n) + "__"
  }

  datatype Protected = Protected(text: string, next: nat)

  /** Replace each `word` that stands before `##` by a fresh placeholder, numbered from `n`. */
  function ProtectBefore(t: string, i: nat, word: string, n: nat): Protected
    requires i <= |t| && word != ""
    decreases |t| - i
  {
    if i == |t| then Protected("", n)
    else if WordAt(t, i, word) && PasteFollows(t, i + |word|) then
      var rest := ProtectBefore(t, i + |word|, word, n + 1);
      rest.(text := Placeholder(n) + rest.text)
    else
      var rest := ProtectBefore(t, i + 1, word, n);
      rest.(text := [t[i]] + rest.text)
  }

  /** Replace each `word` that stands after `##` by a fresh placeholder, numbered from `n`. */
  function ProtectAfter(t: string, i: nat, word: string, n: nat): Protected
    requires i <= |t| && word != ""
    decreases |t| - i
  {
    if i == |t| then Protected("", n)
    else
      var k := if MatchesAt(t, i, "##") then SkipSpaces(t, i + 2) else i;
      if k > i && WordAt(t, k, word) then
        var rest := ProtectAfter(t, k + |word|, word, n + 1);
        rest.(text := t[i..k] + Placeholder(n) + rest.text)
      else
        var rest := ProtectAfter(t, i + 1, word, n);
        rest.(text := [t[i]] + rest.text)
  }

  lemma {:induction false} ProtectNeedsPaste(t: string, i: nat, word: string, n: nat)
    requires i <= |t| && word != "" && !HasPaste(t)
    ensures ProtectBefore(t, i, word, n) == Protected(t[i..], n)
    ensures ProtectAfter(t, i, word, n) == Protected(t[i..], n)
    decreases |t| - i
  {
    if i < |t| {
      ProtectNeedsPaste(t, i + 1, word, n);
      assert t[i..] == [t[i]] + t[i + 1..];
    }
  }

  /** Replace each occurrence of `pattern`, wherever it stands. */
  function ReplaceLiteral(t: string, i: nat, pattern: string, value: string): string
    requires i <= |t| && pattern != ""
    decreases |t| - i
  {
    if i == |t| then ""
    else if MatchesAt(t, i, pattern) then
      Substitute(value, pattern, t[..i], t[i + |pattern|..]) + ReplaceLiteral(t, i + |pattern|, pattern, value)
    else [t[i]] + ReplaceLiteral(t, i + 1, pattern, value)
  }

  // ---------------------------------------------------------------- token pasting

  /** Where the right operand of the `##` after the run at `i` begins, or |t| when there is no such paste. */
  function RightOperand(t: string, i: nat): (k: nat)
    requires i <= |t|
    ensures k <= |t|
    ensures k < |t| ==> i < WordEnd(t, i) < k && IsIdentPart(t[k])
  {
    var w := WordEnd(t, i);
    var j := SkipSpaces(t, w);
    var k := if i < w && MatchesAt(t, j, "##") then SkipSpaces(t, j + 2) else |t|;
    if k < |t| && IsIdentPart(t[k]) then k else |t|
  }

  /** Join the two runs of identifier characters on the sides of each `##`. */
  function MergePastes(t: string, i: nat): string
    requires i <= |t|
    decreases |t| - i
  {
    if i == |t| then ""
    else
      var k := RightOperand(t, i);
      if k < |t|
      then t[i..WordEnd(t, i)] + t[k..WordEnd(t, k)] + MergePastes(t, WordEnd(t, k))
      else [t[i]] + MergePastes(t, i + 1)
  }

  /** Remove each `##` and the white space around it. */
  function DropPastes(t: string, i: nat): string
    requires i <= |t|
    decreases |t| - i
  {
    if i == |t| then ""
    else if PasteFollows(t, i) then DropPastes(t, SkipSpaces(t, SkipSpaces(t, i) + 2))
    else [t[i]] + DropPastes(t, i + 1)
  }

  lemma MergeStep(t: string, i: nat)
    requires i <= |t|
    ensures i == |t| ==> MergePastes(t, i) == ""
    ensures i < |t| ==>
        var k := RightOperand(t, i);
        if k < |t| then
          && i < WordEnd(t, i) < k < WordEnd(t, k) <= |t|
          && |MergePastes(t, i)| == WordEnd(t, i) - i + WordEnd(t, k) - k + |MergePastes(t, WordEnd(t, k))|
        else MergePastes(t, i) == [t[i]] + MergePastes(t, i + 1)
  {
  }

  lemma {:induction false} MergeShrinks(t: string, i: nat)
    requires i <= |t|
    ensures |MergePastes(t, i)| < |t| - i || MergePastes(t, i) == t[i..]
    decreases |t| - i
  {
    hide MergePastes, RightOperand, WordEnd;
    MergeStep(t, i);
    if i < |t| {
      var k := RightOperand(t, i);
      if k < |t| {
        MergeShrinks(t, WordEnd(t, k));
        assert |MergePastes(t, WordEnd(t, k))| <= |t| - WordEnd(t, k);
      } else {
        MergeShrinks(t, i + 1);
        assert t[i..] == [t[i]] + t[i + 1..];
      }
    }
  }

  lemma DropStep(t: string, i: nat)
    requires i < |t|
    ensures if PasteFollows(t, i) then
              var k := SkipSpaces(t, SkipSpaces(t, i) + 2);
              i + 2 <= k <= |t| && DropPastes(t, i) == DropPastes(t, k)
            else DropPastes(t, i) == [t[i]] + DropPastes(t, i + 1)
  {
  }

  lemma {:induction false} DropShortens(t: string, i: nat)
    requires i <= |t|
    ensures |DropPastes(t, i)| <= |t| - i
    decreases |t| - i
  {
    if i < |t| {
      DropStep(t, i);
      hide DropPastes, PasteFollows;
      DropShortens(t, if PasteFollows(t, i) then SkipSpaces(t, SkipSpaces(t, i) + 2) else i + 1);
    }
  }

  lemma {:induction false} DropShrinks(t: string, i: nat, k: nat)
    requires i <= k < |t| && MatchesAt(t, k, "##")
    ensures |DropPastes(t, i)| < |t| - i
    decreases |t| - i
  {
    DropStep(t, i);
    PasteHere(t, k);
    hide DropPastes, PasteFollows, MatchesAt, SkipSpaces;
    if PasteFollows(t, i) {
      DropShortens(t, SkipSpaces(t, SkipSpaces(t, i) + 2));
    } else {
      DropShrinks(t, i + 1, k);
    }
  }

  lemma PasteHere(t: string, i: nat)
    requires i < |t| && MatchesAt(t, i, "##")
    ensures PasteFollows(t, i)
  {
    assert t[i] == t[i..i + 2][0] == '#';
  }

  lemma RoundShrinks(t: string)
    ensures HasPaste(t) ==> |DropPastes(MergePastes(t, 0), 0)| < |t|
  {
    MergeShrinks(t, 0);
    assert t[0..] == t;
    hide MergePastes, DropPastes, MatchesAt;
    if MergePastes(t, 0) != t {
      DropShortens(MergePastes(t, 0), 0);
    } else if HasPaste(t) {
      var k: nat :| k < |t| && MatchesAt(t, k, "##");
      DropShrinks(t, 0, k);
    }
  }

  /** One round of pasting makes a text that has `##` shorter. */
  function PasteRound(t: string): (r: string)
    ensures HasPaste(t) ==> |r| < |t|
  {
    RoundShrinks(t);
    DropPastes(MergePastes(t, 0), 0)
  }

  function PasteAll(t: string): (r: string)
    ensures !HasPaste(r)
    decreases |t|
  {
    if HasPaste(t) then PasteAll(PasteRound(t)) else t
  }

  method PasteTokens(t: string) returns (result: string)
    ensures result == PasteAll(t)
  {
    hide PasteRound, HasPaste;
    result := t;
    var previous := "";
    while previous != result && HasPaste(result)
      invariant PasteAll(t) == PasteAll(result)
      invariant previous != "" ==> |result| < |previous|
      decreases |result|
    {
      previous := result;
      result := DropPastes(MergePastes(result, 0), 0);
      assert result == PasteRound(previous) by { EqualsRound(previous); }
    }
    assert result == "" ==> !HasPaste(result) by { EmptyHasNoPaste(); }
  }

  lemma EqualsRound(t: string)
    ensures PasteRound(t) == DropPastes(MergePastes(t, 0), 0)
  {
  }

  lemma EmptyHasNoPaste()
    ensures !HasPaste("")
  {
  }
}
