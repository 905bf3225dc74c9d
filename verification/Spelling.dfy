/**
 What the spelling of a macro body matters for: definitions with one signature, that is
 with bodies alike up to white space, mention the same identifiers and paste alike.
 */
module Spelling {
  import opened Options
  import opened Text
  import opened MacroScan
  import opened Replacing
  import opened MacroApply
  import opened Substitution
  import opened MacroExpand
  import opened MacroContext

  predicate Blank(x: string) {
    forall k :: 0 <= k < |x| ==> IsSpace(x[k])
  }

  lemma BlankAvoids(x: string, names: set<string>, words: set<string>)
    requires Blank(x)
    ensures Fits(x, names, words)
  {
  }

  /** White space between two texts keeps them apart, however much of it there is. */
  lemma FitsApart(a: string, x: string, b: string, names: set<string>, words: set<string>)
    requires x != "" && Blank(x)
    ensures Fits(a + x + b, names, words) <==> Fits(a, names, words) && Fits(b, names, words)
  {
    hide Fits, InIdent, WordEnd, Word;
    BlankAvoids(x, names, words);
    BlankIsNoPart(x);
    assert (a + x)[|a + x| - 1] == x[|x| - 1];
    assert !Glue(a, x) && !Glue(a + x, b) by { NoGlueAtBlank(a, x, b); }
    if Fits(a + x + b, names, words) {
      FitsSplit(a + x, b, names, words);
      FitsSplit(a, x, names, words);
    }
    if Fits(a, names, words) && Fits(b, names, words) {
      FitsJoin(a, x, names, words);
      FitsJoin(a + x, b, names, words);
    }
  }

  lemma BlankIsNoPart(x: string)
    requires Blank(x)
    ensures forall k :: 0 <= k < |x| ==> !IsIdentPart(x[k])
  {
  }

  lemma NoGlueAtBlank(a: string, x: string, b: string)
    requires x != "" && forall k :: 0 <= k < |x| ==> !IsIdentPart(x[k])
    ensures !Glue(a, x) && !Glue(a + x, b)
  {
    assert (a + x)[|a + x| - 1] == x[|x| - 1];
  }

  /** A run of white space at `i` is collapsed to one space. */
  lemma CollapseRun(t: string, i: nat)
    requires i < |t| && IsSpace(t[i])
    ensures var k := SkipSpaces(t, i);
            && i < k && Blank(t[i..k]) && t[i..] == t[i..k] + t[k..]
            && CollapseSpaces(t, i) == " " + CollapseSpaces(t, k)
  {
  }

  lemma CollapseOther(t: string, i: nat)
    requires i < |t| && !IsSpace(t[i])
    ensures t[i..] == [t[i]] + t[i + 1..] && CollapseSpaces(t, i) == [t[i]] + CollapseSpaces(t, i + 1)
  {
  }

  lemma FitsBesideGaps(a: string, x: string, y: string, b: string, c: string, names: set<string>, words: set<string>)
    requires x != "" && Blank(x) && y != "" && Blank(y)
    requires Fits(b, names, words) <==> Fits(c, names, words)
    ensures Fits(a + (x + b), names, words) <==> Fits(a + (y + c), names, words)
  {
    hide Fits, Blank;
    FitsApart(a, x, b, names, words);
    FitsApart(a, y, c, names, words);
    assert a + (x + b) == a + x + b && a + (y + c) == a + y + c;
  }

  lemma {:induction false} CollapseFits(a: string, t: string, i: nat, names: set<string>, words: set<string>)
    requires i <= |t|
    ensures Fits(a + t[i..], names, words) <==> Fits(a + CollapseSpaces(t, i), names, words)
    decreases |t| - i
  {
    hide Fits, IsSpace, CollapseSpaces, Blank;
    if i == |t| {
      assert t[i..] == CollapseSpaces(t, i) by { CollapseEnd(t); }
    } else if IsSpace(t[i]) {
      CollapseRun(t, i);
      var k := SkipSpaces(t, i);
      CollapseFits("", t, k, names, words);
      assert "" + t[k..] == t[k..] && "" + CollapseSpaces(t, k) == CollapseSpaces(t, k);
      SpaceIsBlank();
      FitsBesideGaps(a, t[i..k], " ", t[k..], CollapseSpaces(t, k), names, words);
    } else {
      CollapseOther(t, i);
      CollapseFits(a + [t[i]], t, i + 1, names, words);
      assert a + ([t[i]] + t[i + 1..]) == a + [t[i]] + t[i + 1..];
      assert a + ([t[i]] + CollapseSpaces(t, i + 1)) == a + [t[i]] + CollapseSpaces(t, i + 1);
    }
  }

  lemma CollapseEnd(t: string)
    ensures t[|t|..] == "" && CollapseSpaces(t, |t|) == ""
  {
  }

  lemma SpaceIsBlank()
    ensures Blank(" ")
  {
  }

  /** A text is white space, its trimmed self, and white space. */
  lemma TrimParts(t: string) returns (x: string, y: string)
    ensures Blank(x) && Blank(y) && t == x + Trim(t) + y
  {
    var i := SkipSpaces(t, 0);
    x := t[..i];
    var rest := t[i..];
    assert Blank(x) && t == x + rest;
    assert Trim(t) == TrimEnd(rest);
    hide SkipSpaces, TrimEnd, Trim, Blank, IsSpace;
    y := TrimmedEnd(rest);
    Rejoin(x, TrimEnd(rest), y);
  }

  lemma Rejoin(x: string, t: string, y: string)
    ensures x + (t + y) == x + t + y
  {
  }

  lemma {:induction false} TrimmedEnd(t: string) returns (y: string)
    ensures Blank(y) && t == TrimEnd(t) + y
  {
    if t == "" || !IsSpace(t[|t| - 1]) {
      y := "";
    } else {
      var z := TrimmedEnd(t[..|t| - 1]);
      y := z + [t[|t| - 1]];
      assert t == t[..|t| - 1] + [t[|t| - 1]];
    }
  }

  lemma TrimFits(t: string, names: set<string>, words: set<string>)
    ensures Fits(Trim(t), names, words) <==> Fits(t, names, words)
  {
    var x, y := TrimParts(t);
    hide Fits, Trim, Blank;
    GapsFit(x, Trim(t), y, names, words);
  }

  lemma GapsFit(x: string, t: string, y: string, names: set<string>, words: set<string>)
    requires Blank(x) && Blank(y)
    ensures Fits(x + t + y, names, words) <==> Fits(t, names, words)
  {
    BlankAvoids("", names, words);
    hide Fits, Blank;
    assert "" + x + (t + y) == x + t + y && x + t + y + "" == x + t + y;
    if x != "" {
      FitsApart("", x, t + y, names, words);
    } else {
      assert x + t + y == t + y;
    }
    if y != "" {
      FitsApart(t, y, "", names, words);
      assert t + y + "" == t + y;
    } else {
      assert t + y == t;
    }
  }

  // ---------------------------------------------------------------- pasting

  predicate Begins(t: string, c: char) {
    t != "" && t[0] == c
  }

  lemma PasteCons(c: char, t: string)
    ensures HasPaste([c] + t) <==> (c == '#' && Begins(t, '#')) || HasPaste(t)
  {
    var s := [c] + t;
    assert MatchesAt(s, 0, "##") <==> c == '#' && Begins(t, '#') by {
      if |s| >= 2 { assert s[0..2] == [c, t[0]]; }
    }
    forall i: nat | i < |t| ensures MatchesAt(s, i + 1, "##") <==> MatchesAt(t, i, "##") {
      if i + 2 <= |t| { assert s[i + 1..i + 3] == t[i..i + 2]; }
    }
    if HasPaste(s) {
      var i: nat :| i < |s| && MatchesAt(s, i, "##");
      assert i > 0 ==> MatchesAt(t, i - 1, "##");
    }
    if HasPaste(t) {
      var i: nat :| i < |t| && MatchesAt(t, i, "##");
      assert MatchesAt(s, i + 1, "##");
    }
  }

  lemma {:induction false} PasteAfterGap(x: string, t: string)
    requires Blank(x)
    ensures HasPaste(x + t) <==> HasPaste(t)
    ensures x != "" ==> !Begins(x + t, '#')
  {
    hide HasPaste;
    if x == "" {
      assert x + t == t;
    } else {
      assert x + t == [x[0]] + (x[1..] + t);
      assert IsSpace(x[0]);
      PasteCons(x[0], x[1..] + t);
      PasteAfterGap(x[1..], t);
    }
  }

  lemma {:induction false} PasteBeforeGap(t: string, y: string)
    requires Blank(y)
    ensures HasPaste(t + y) <==> HasPaste(t)
  {
    hide HasPaste;
    if t == "" {
      assert t + y == y + "";
      PasteAfterGap(y, "");
    } else {
      assert t + y == [t[0]] + (t[1..] + y);
      PasteCons(t[0], t[1..] + y);
      PasteBeforeGap(t[1..], y);
      assert t == [t[0]] + t[1..];
      PasteCons(t[0], t[1..]);
      assert Begins(t[1..] + y, '#') <==> Begins(t[1..], '#') by {
        assert t[1..] == "" && y != "" ==> (t[1..] + y)[0] == y[0] && IsSpace(y[0]);
      }
    }
  }

  lemma {:induction false} CollapsePaste(t: string, i: nat)
    requires i <= |t|
    ensures HasPaste(t[i..]) <==> HasPaste(CollapseSpaces(t, i))
    ensures Begins(t[i..], '#') <==> Begins(CollapseSpaces(t, i), '#')
    decreases |t| - i
  {
    hide HasPaste, CollapseSpaces;
    if i == |t| {
      CollapseEnd(t);
    } else if IsSpace(t[i]) {
      CollapseRun(t, i);
      var k := SkipSpaces(t, i);
      CollapsePaste(t, k);
      PasteAfterGap(t[i..k], t[k..]);
      SpaceIsBlank();
      PasteAfterGap(" ", CollapseSpaces(t, k));
    } else {
      CollapseOther(t, i);
      CollapsePaste(t, i + 1);
      PasteCons(t[i], t[i + 1..]);
      PasteCons(t[i], CollapseSpaces(t, i + 1));
    }
  }

  /** White space decides neither which identifiers a body mentions nor whether it pastes. */
  lemma NormalizeKeeps(t: string, names: set<string>, words: set<string>)
    ensures Fits(Normalize(t), names, words) <==> Fits(t, names, words)
    ensures HasPaste(Normalize(t)) <==> HasPaste(t)
  {
    hide Fits, HasPaste, Trim, CollapseSpaces, Begins, Blank;
    var c := CollapseSpaces(t, 0);
    assert t[0..] == t && "" + t == t && "" + c == c;
    CollapseFits("", t, 0, names, words);
    CollapsePaste(t, 0);
    TrimFits(c, names, words);
    var x, y := TrimParts(c);
    PasteAfterGap(x, Trim(c) + y);
    PasteBeforeGap(Trim(c), y);
    assert c == x + (Trim(c) + y);
  }

  /** Single spaces between other characters. */
  predicate Plain(t: string) {
    && (t != "" ==> !IsSpace(t[0]) && !IsSpace(t[|t| - 1]))
    && forall k :: 0 <= k < |t| - 1 && IsSpace(t[k]) ==> t[k] == ' ' && !IsSpace(t[k + 1])
  }

  lemma {:induction false} PlainCollapse(t: string, i: nat)
    requires i <= |t| && Plain(t)
    ensures CollapseSpaces(t, i) == t[i..]
    decreases |t| - i
  {
    if i < |t| {
      if IsSpace(t[i]) {
        CollapseRun(t, i);
      }
      PlainCollapse(t, i + 1);
    }
  }

  lemma NormalText(t: string)
    requires Plain(t)
    ensures Normalize(t) == t
  {
    PlainCollapse(t, 0);
    assert t[0..] == t;
    assert SkipSpaces(t, 0) == 0;
  }

  /** The two bodies of an edited macro. */
  const BEFORE := "int a;"
  const AFTER := "int b;"

  lemma SignaturesDiffer(d: Definition, e: Definition)
    requires d.replacement == BEFORE && e.replacement == AFTER
    ensures SignatureOf(d) != SignatureOf(e)
  {
    hide Normalize;
    assert BEFORE[4] != AFTER[4];
    NormalText(BEFORE);
    NormalText(AFTER);
  }

  lemma AlikeContained(d: Definition, e: Definition, names: set<string>)
    requires SignatureOf(d) == SignatureOf(e)
    ensures Contained(d, names) <==> Contained(e, names)
  {
    hide Fits, HasPaste, Normalize;
    NormalizeKeeps(d.replacement, names, Bound(d));
    NormalizeKeeps(e.replacement, names, Bound(e));
    assert Bound(d) == Bound(e) by { AlikeBound(d, e); }
  }

  lemma AlikeBound(d: Definition, e: Definition)
    requires d.parameters == e.parameters && d.variadic == e.variadic
    ensures Bound(d) == Bound(e)
  {
  }
}
