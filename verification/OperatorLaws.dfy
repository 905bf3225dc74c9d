/**
 The two operators of a macro body take an argument as it was written, not as it was expanded:
 `#` makes a literal of it, and `##` joins it to its neighbour.
 */
module OperatorLaws {
  import opened Options
  import opened Text
  import opened MacroScan
  import opened Replacing
  import opened MacroApply
  import opened Substitution
  import opened SubstitutionOrder

  /** A text of identifier characters. */
  predicate IsRun(w: string) {
    w != "" && forall k :: 0 <= k < |w| ==> IsIdentPart(w[k])
  }

  function Pasting(x: string, y: string): string {
    x + "##" + y
  }

  // ---------------------------------------------------------------- two runs around `##`

  lemma PasteParts(x: string, y: string)
    requires IsRun(x) && IsRun(y)
    ensures var t := Pasting(x, y);
            && |t| == |x| + 2 + |y| && t[..|x|] == x && t[|x| + 2..] == y && MatchesAt(t, |x|, "##")
            && (forall k :: 0 <= k < |t| ==> (IsIdentPart(t[k]) <==> k < |x| || k >= |x| + 2))
            && t[|x|] == '#' && t[|x| + 1] == '#'
  {
    var t := Pasting(x, y);
    assert forall k :: 0 <= k < |x| ==> t[k] == x[k];
    assert forall k :: 0 <= k < |y| ==> t[|x| + 2 + k] == y[k];
    assert t[|x|..|x| + 2] == "##";
  }

  /** A run occurs around `##` only within one of the operands. */
  lemma OccursInside(x: string, y: string, w: string, k: nat)
    requires IsRun(x) && IsRun(y) && IsRun(w) && MatchesAt(Pasting(x, y), k, w)
    ensures if k < |x| then k + |w| <= |x| && MatchesAt(x, k, w) else k >= |x| + 2 && MatchesAt(y, k - |x| - 2, w)
  {
    var t := Pasting(x, y);
    PasteParts(x, y);
    MatchIsRun(t, k, w);
    assert IsIdentPart(t[k]) && k < |t|;
    hide IsIdentPart, Pasting, IsRun;
    if k < |x| {
      assert k + |w| <= |x|;
      assert t[..|x|][k..k + |w|] == t[k..k + |w|];
    } else {
      assert t[|x| + 2..][k - |x| - 2..k - |x| - 2 + |w|] == t[k..k + |w|];
    }
  }

  lemma MatchIsRun(t: string, k: nat, w: string)
    requires IsRun(w) && MatchesAt(t, k, w)
    ensures k + |w| <= |t| && t[k..k + |w|] == w && forall n :: k <= n < k + |w| ==> IsIdentPart(t[n])
  {
    assert forall n :: k <= n < k + |w| ==> t[n] == w[n - k];
  }

  /** A word stands in such a text only as one of the two runs. */
  lemma WordInPaste(x: string, y: string, w: string, k: nat)
    requires IsRun(x) && IsRun(y) && IsRun(w)
    ensures WordAt(Pasting(x, y), k, w) <==> (k == 0 && w == x) || (k == |x| + 2 && w == y)
  {
    var t := Pasting(x, y);
    PasteParts(x, y);
    if WordAt(t, k, w) {
      OccursInside(x, y, w, k);
      hide IsIdentPart, Pasting, IsRun;
      if k < |x| {
        assert k == 0 && |w| == |x|;
        assert x[0..0 + |w|] == x;
      } else {
        assert k == |x| + 2 && |w| == |y|;
        assert y[0..0 + |w|] == y;
      }
    }
    if w == x { assert t[0..0 + |x|] == x; }
    if w == y { assert t[|x| + 2..|x| + 2 + |y|] == y; }
  }

  lemma NoSpaceHere(t: string, i: nat)
    requires i < |t| && (IsIdentPart(t[i]) || t[i] == '#')
    ensures SkipSpaces(t, i) == i
  {
  }

  lemma PasteFollowsFirst(x: string, y: string)
    requires IsRun(x) && IsRun(y)
    ensures PasteFollows(Pasting(x, y), |x|) && !PasteFollows(Pasting(x, y), |Pasting(x, y)|)
  {
    var t := Pasting(x, y);
    PasteParts(x, y);
    NoSpaceHere(t, |x|);
    hide Pasting;
  }

  lemma {:induction false} NothingBefore(t: string, i: nat, word: string, n: nat)
    requires i <= |t| && word != ""
    requires forall k: nat :: i <= k && WordAt(t, k, word) ==> !PasteFollows(t, k + |word|)
    ensures ProtectBefore(t, i, word, n) == Protected(t[i..], n)
    decreases |t| - i
  {
    hide WordAt, PasteFollows;
    if i < |t| {
      NothingBefore(t, i + 1, word, n);
      assert t[i..] == [t[i]] + t[i + 1..];
    }
  }

  lemma {:induction false} NothingAfter(t: string, i: nat, word: string, n: nat)
    requires i <= |t| && word != ""
    requires forall k: nat :: i < k ==> !WordAt(t, k, word)
    ensures ProtectAfter(t, i, word, n) == Protected(t[i..], n)
    decreases |t| - i
  {
    hide WordAt, MatchesAt;
    if i < |t| {
      NothingAfter(t, i + 1, word, n);
      assert t[i..] == [t[i]] + t[i + 1..];
    }
  }

  /** The left operand is shielded. */
  lemma LeftIsShielded(x: string, y: string, n: nat)
    requires IsRun(x) && IsRun(y) && x != y
    ensures ProtectBefore(Pasting(x, y), 0, x, n) == Protected(Pasting(Placeholder(n), y), n + 1)
  {
    var t := Pasting(x, y);
    PasteParts(x, y);
    forall k: nat | |x| <= k ensures !WordAt(t, k, x) { WordInPaste(x, y, x, k); }
    NothingBefore(t, |x|, x, n + 1);
    WordInPaste(x, y, x, 0);
    PasteFollowsFirst(x, y);
    hide WordAt, PasteFollows, Pasting, IsRun, IsIdentPart, Placeholder;
    assert ProtectBefore(t, 0, x, n) == Protected(Placeholder(n) + t[|x|..], n + 1);
    AfterFirst(x, y, Placeholder(n));
  }

  lemma AfterFirst(x: string, y: string, z: string)
    ensures |x| <= |Pasting(x, y)| && z + Pasting(x, y)[|x|..] == Pasting(z, y)
  {
    assert Pasting(x, y)[|x|..] == "##" + y;
  }

  lemma RightAtPaste(x: string, y: string, n: nat)
    requires IsRun(x) && IsRun(y)
    ensures |x| <= |Pasting(x, y)| && |x| <= |Pasting(x, Placeholder(n))|
    ensures ProtectAfter(Pasting(x, y), |x|, y, n) == Protected(Pasting(x, Placeholder(n))[|x|..], n + 1)
  {
    var t, i := Pasting(x, y), |x|;
    PasteParts(x, y);
    WordInPaste(x, y, y, i + 2);
    NoSpaceHere(t, i + 2);
    assert ProtectAfter(t, |t|, y, n + 1) == Protected("", n + 1);
    AfterFirst(x, Placeholder(n), "");
    assert Pasting(x, Placeholder(n))[i..] == "##" + Placeholder(n);
    assert t[i..i + 2] == "##";
    hide IsIdentPart, Placeholder, WordAt, Pasting, SkipSpaces, IsRun;
    assert ProtectAfter(t, i, y, n) == Protected("##" + Placeholder(n) + "", n + 1);
  }

  /** The right operand is shielded. */
  lemma {:induction false} RightIsShielded(x: string, y: string, n: nat, i: nat)
    requires IsRun(x) && IsRun(y) && i <= |x|
    ensures |x| <= |Pasting(x, y)| && |x| <= |Pasting(x, Placeholder(n))|
    ensures ProtectAfter(Pasting(x, y), i, y, n) == Protected(Pasting(x, Placeholder(n))[i..], n + 1)
    decreases |x| - i
  {
    hide *;
    RightAtPaste(x, y, n);
    if i < |x| {
      FirstChars(x, y, Placeholder(n), i);
      RightIsShielded(x, y, n, i + 1);
      NotHash(Pasting(x, y), i);
      RightStep(Pasting(x, y), i, y, n);
      FirstDropped(Pasting(x, Placeholder(n)), i);
    }
  }

  lemma FirstDropped(t: string, i: nat)
    requires i < |t|
    ensures t[i..] == [t[i]] + t[i + 1..]
  {
  }

  lemma FirstChars(x: string, y: string, z: string, i: nat)
    requires IsRun(x) && IsRun(y) && i < |x|
    ensures y != "" && i < |Pasting(x, y)| && i < |Pasting(x, z)| && Pasting(x, y)[i] == Pasting(x, z)[i]
    ensures IsIdentPart(Pasting(x, y)[i])
  {
    assert Pasting(x, y)[i] == x[i] && Pasting(x, z)[i] == x[i];
  }

  lemma RightStep(t: string, i: nat, y: string, n: nat)
    requires i < |t| && y != "" && !MatchesAt(t, i, "##")
    ensures ProtectAfter(t, i, y, n) ==
        ProtectAfter(t, i + 1, y, n).(text := [t[i]] + ProtectAfter(t, i + 1, y, n).text)
  {
  }

  lemma NotHash(t: string, i: nat)
    requires i < |t| && IsIdentPart(t[i])
    ensures !MatchesAt(t, i, "##")
  {
    assert i + 2 <= |t| ==> t[i..i + 2][0] == t[i];
  }

  // ---------------------------------------------------------------- the parameters are shielded

  lemma PlaceholderText(n: nat)
    requires n <= 1
    ensures Placeholder(n) == "__CODEGRAPH_PASTE_ARG_" + ['0' + n as char] + "__"
  {
    assert Decimal(n) == ['0' + n as char];
  }

  lemma RunsJoin(a: string, b: string)
    requires IsRun(a) && IsRun(b)
    ensures IsRun(a + b)
  {
  }

  lemma PlaceholderIsRun(n: nat)
    requires n <= 1
    ensures IsRun(Placeholder(n)) && IsIdentifier(Placeholder(n))
    ensures |Placeholder(n)| == 25 && Placeholder(n)[22] == '0' + n as char
  {
    PlaceholderText(n);
    var digit := ['0' + n as char];
    assert IsRun("__CODEGRAPH_PASTE_ARG_") && IsRun(digit) && IsRun("__");
    RunsJoin("__CODEGRAPH_PASTE_ARG_", digit);
    RunsJoin("__CODEGRAPH_PASTE_ARG_" + digit, "__");
  }

  lemma PlaceholdersDiffer()
    ensures Placeholder(0) != Placeholder(1)
  {
    hide Placeholder;
    PlaceholderIsRun(0);
    PlaceholderIsRun(1);
  }

  // ---------------------------------------------------------------- two bindings

  lemma StringifyTwo(t: string, first: (Identifier, string), second: (Identifier, string))
    ensures StringifyAll(t, [first, second]) ==
        Stringify(Stringify(t, 0, 0, first.0, Quoted(first.1)), 0, 0, second.0, Quoted(second.1))
  {
    hide Stringify, Quoted;
    var all, tail := [first, second], [second];
    assert all[1..] == tail && tail[1..] == [];
    var one := Stringify(t, 0, 0, first.0, Quoted(first.1));
    assert StringifyAll(t, all) == StringifyAll(one, tail);
    assert StringifyAll(one, tail) == StringifyAll(Stringify(one, 0, 0, second.0, Quoted(second.1)), []);
  }

  lemma ShieldTwo(s: Shielded, first: (Identifier, string), second: (Identifier, string))
    ensures ShieldAll(s, [first, second]) == Shield(Shield(s, first.0, first.1), second.0, second.1)
  {
    hide Shield;
    var all, tail := [first, second], [second];
    assert all[1..] == tail && tail[1..] == [];
    var one := Shield(s, first.0, first.1);
    assert ShieldAll(s, all) == ShieldAll(one, tail);
    assert ShieldAll(one, tail) == ShieldAll(Shield(one, second.0, second.1), []);
  }

  lemma SubstituteTwo(t: string, first: (Identifier, string), second: (Identifier, string))
    ensures SubstituteAll(t, [first, second]) ==
        ReplaceWord(ReplaceWord(t, 0, first.0, first.1), 0, second.0, second.1)
  {
    hide ReplaceWord;
    var all, tail := [first, second], [second];
    assert all[1..] == tail && tail[1..] == [];
    var one := ReplaceWord(t, 0, first.0, first.1);
    assert SubstituteAll(t, all) == SubstituteAll(one, tail);
    assert SubstituteAll(one, tail) == SubstituteAll(ReplaceWord(one, 0, second.0, second.1), []);
  }

  lemma RestoreTwo(t: string, a: string, b: string)
    ensures RestoreAll(t, [(0, a), (1, b)]) ==
        ReplaceLiteral(ReplaceLiteral(t, 0, Placeholder(0), a), 0, Placeholder(1), b)
  {
    hide ReplaceLiteral, Decimal;
    var all: seq<(nat, string)>, tail: seq<(nat, string)> := [(0, a), (1, b)], [(1, b)];
    assert all[1..] == tail && tail[1..] == [];
    var one := ReplaceLiteral(t, 0, Placeholder(0), a);
    assert RestoreAll(t, all) == RestoreAll(one, tail);
    assert RestoreAll(one, tail) == RestoreAll(ReplaceLiteral(one, 0, Placeholder(1), b), []);
  }

  /** Neither parameter is named like a placeholder. */
  predicate Ordinary(p: Identifier, q: Identifier) {
    p != q && p !in {Placeholder(0), Placeholder(1)} && q !in {Placeholder(0), Placeholder(1)}
  }

  lemma FirstIsShielded(p: Identifier, q: Identifier, a: string)
    requires Ordinary(p, q)
    ensures Shield(Shielded(Pasting(p, q), 0, []), p, a) == Shielded(Pasting(Placeholder(0), q), 1, [(0, Trim(a))])
  {
    var t := Pasting(Placeholder(0), q);
    LeftBefore(p, q);
    LeftAfter(p, q);
    OneNumbered(0, Trim(a));
    hide Placeholder, Pasting, Trim, ProtectBefore, ProtectAfter, Numbered;
    assert [] + [(0, Trim(a))] == [(0, Trim(a))];
  }

  lemma LeftBefore(p: Identifier, q: Identifier)
    requires Ordinary(p, q)
    ensures ProtectBefore(Pasting(p, q), 0, p, 0) == Protected(Pasting(Placeholder(0), q), 1)
  {
    assert IsRun(p) && IsRun(q);
    hide *;
    assert p != q by { ParametersDiffer(p, q); }
    LeftIsShielded(p, q, 0);
  }

  lemma ParametersDiffer(p: Identifier, q: Identifier)
    requires Ordinary(p, q)
    ensures p != q && p !in {Placeholder(0), Placeholder(1)} && q !in {Placeholder(0), Placeholder(1)}
  {
  }

  lemma LeftAfter(p: Identifier, q: Identifier)
    requires Ordinary(p, q)
    ensures ProtectAfter(Pasting(Placeholder(0), q), 0, p, 1) == Protected(Pasting(Placeholder(0), q), 1)
  {
    assert IsRun(p) && IsRun(q);
    hide *;
    ParametersDiffer(p, q);
    PlaceholderIsRun(0);
    var t := Pasting(Placeholder(0), q);
    forall k: nat | 0 < k ensures !WordAt(t, k, p) { WordInPaste(Placeholder(0), q, p, k); }
    NothingAfter(t, 0, p, 1);
    assert t[0..] == t;
  }

  lemma OneNumbered(n: nat, value: string)
    ensures Numbered(n, n + 1, value) == [(n, value)]
  {
    assert Numbered(n + 1, n + 1, value) == [];
  }

  lemma SecondIsShielded(p: Identifier, q: Identifier, a: string, b: string)
    requires Ordinary(p, q)
    ensures Shield(Shielded(Pasting(Placeholder(0), q), 1, [(0, Trim(a))]), q, b) ==
        Shielded(Pasting(Placeholder(0), Placeholder(1)), 2, [(0, Trim(a)), (1, Trim(b))])
  {
    PlaceholderIsRun(0);
    var p0, t := Placeholder(0), Pasting(Placeholder(0), q);
    assert IsRun(q) && q != p0;
    hide IsIdentPart, Placeholder, Pasting, Trim, IsRun, WordAt, PasteFollows, ProtectBefore, ProtectAfter;
    forall k: nat | WordAt(t, k, q) ensures k + |q| <= |t| && !PasteFollows(t, k + |q|) { NothingBehind(p0, q, k); }
    NothingBefore(t, 0, q, 1);
    RightIsShielded(p0, q, 1, 0);
    assert t[0..] == t && Pasting(p0, Placeholder(1))[0..] == Pasting(p0, Placeholder(1));
    OneNumbered(1, Trim(b));
    hide Numbered;
    assert [(0, Trim(a))] + [(1, Trim(b))] == [(0, Trim(a)), (1, Trim(b))];
  }

  lemma BothAreShielded(p: Identifier, q: Identifier, a: string, b: string)
    requires Ordinary(p, q)
    ensures ShieldAll(Shielded(Pasting(p, q), 0, []), [(p, a), (q, b)]) ==
        Shielded(Pasting(Placeholder(0), Placeholder(1)), 2, [(0, Trim(a)), (1, Trim(b))])
  {
    hide *;
    FirstIsShielded(p, q, a);
    SecondIsShielded(p, q, a, b);
    ShieldTwo(Shielded(Pasting(p, q), 0, []), (p, a), (q, b));
  }

  lemma NothingBehind(x: string, y: string, k: nat)
    requires IsRun(x) && IsRun(y) && x != y && WordAt(Pasting(x, y), k, y)
    ensures k + |y| <= |Pasting(x, y)| && !PasteFollows(Pasting(x, y), k + |y|)
  {
    WordInPaste(x, y, y, k);
    PasteParts(x, y);
    PasteFollowsFirst(x, y);
    hide IsIdentPart, Pasting, PasteFollows, IsRun, WordAt;
  }

  // ---------------------------------------------------------------- the operands come back and are joined

  /** The placeholder does not occur in the run. */
  ghost predicate Lacks(w: string, pattern: string) {
    forall k: nat :: !MatchesAt(w, k, pattern)
  }

  lemma {:induction false} NothingReplaced(t: string, i: nat, pattern: string, value: string)
    requires i <= |t| && pattern != "" && forall k: nat :: i <= k ==> !MatchesAt(t, k, pattern)
    ensures ReplaceLiteral(t, i, pattern, value) == t[i..]
    decreases |t| - i
  {
    hide MatchesAt;
    if i < |t| {
      NothingReplaced(t, i + 1, pattern, value);
    }
  }

  lemma RunHasNoPattern(w: string)
    requires IsRun(w)
    ensures NoPattern(w) && Trim(w) == w
  {
    assert forall k :: 0 <= k < |w| ==> w[k] != '$';
    assert IsIdentPart(w[0]) && IsIdentPart(w[|w| - 1]);
    assert SkipSpaces(w, 0) == 0 && w[0..] == w;
  }

  /** The left operand comes back. */
  lemma LeftComesBack(x: string, y: string, a: string)
    requires IsRun(x) && IsRun(y) && IsRun(a) && Lacks(y, x)
    ensures ReplaceLiteral(Pasting(x, y), 0, x, a) == Pasting(a, y)
  {
    var t := Pasting(x, y);
    PasteParts(x, y);
    RunHasNoPattern(a);
    forall k: nat | |x| <= k ensures !MatchesAt(t, k, x) {
      if MatchesAt(t, k, x) { OccursInside(x, y, x, k); }
    }
    NothingReplaced(t, |x|, x, a);
    assert t[0..0 + |x|] == x;
    AfterFirst(x, y, a);
    hide Pasting, IsRun;
    SubstitutePlain(a, x, t[..0], t[0 + |x|..]);
  }

  /** The right operand comes back. */
  lemma {:induction false} RightComesBack(x: string, y: string, b: string, i: nat)
    requires IsRun(x) && IsRun(y) && IsRun(b) && Lacks(x, y) && i <= |x|
    ensures |x| <= |Pasting(x, y)| && ReplaceLiteral(Pasting(x, y), i, y, b) == Pasting(x, b)[i..]
    decreases |x| - i
  {
    var t, u := Pasting(x, y), Pasting(x, b);
    PasteParts(x, y);
    PasteParts(x, b);
    if MatchesAt(t, i, y) { OccursInside(x, y, y, i); }
    hide Pasting, IsRun, IsIdentPart;
    if i < |x| {
      RightComesBack(x, y, b, i + 1);
      assert u[i] == x[i] == t[i] by { assert u[..|x|] == t[..|x|]; assert u[..|x|][i] == t[..|x|][i]; }
      assert u[i..] == [t[i]] + u[i + 1..];
    } else {
      RightAtHash(x, y, b);
    }
  }

  lemma RightAtHash(x: string, y: string, b: string)
    requires IsRun(x) && IsRun(y) && IsRun(b)
    ensures |x| <= |Pasting(x, y)| && |x| <= |Pasting(x, b)|
    ensures ReplaceLiteral(Pasting(x, y), |x|, y, b) == Pasting(x, b)[|x|..]
  {
    hide *;
    RunHasNoPattern(b);
    BehindHash(x, y);
    BehindHash(x, b);
    LiteralHere(Pasting(x, y), |x| + 2, y, b);
    LiteralNotHere(Pasting(x, y), |x| + 1, y, b);
    LiteralNotHere(Pasting(x, y), |x|, y, b);
    TwoHashes(b);
  }

  lemma TwoHashes(b: string)
    ensures ['#'] + (['#'] + b) == "##" + b
  {
  }

  lemma BehindHash(x: string, y: string)
    requires IsRun(x) && IsRun(y)
    ensures var t := Pasting(x, y);
            && y != "" && |x| + 2 + |y| == |t| && t[|x|] == '#' && t[|x| + 1] == '#' && t[|x|..] == "##" + y
            && MatchesAt(t, |x| + 2, y) && !MatchesAt(t, |x| + 1, y) && !MatchesAt(t, |x|, y)
  {
    var t := Pasting(x, y);
    PasteParts(x, y);
    NoRunAtHash(t, |x|, y);
    NoRunAtHash(t, |x| + 1, y);
    assert t[|x| + 2..|x| + 2 + |y|] == y;
  }

  lemma NoRunAtHash(t: string, i: nat, w: string)
    requires IsRun(w) && i < |t| && t[i] == '#'
    ensures !MatchesAt(t, i, w)
  {
    assert IsIdentPart(w[0]);
    assert i + |w| <= |t| ==> t[i..i + |w|][0] == '#';
  }

  lemma LiteralHere(t: string, i: nat, pattern: string, value: string)
    requires pattern != "" && MatchesAt(t, i, pattern) && i + |pattern| == |t| && NoPattern(value)
    ensures ReplaceLiteral(t, i, pattern, value) == value
  {
    hide Substitute, NoPattern;
    SubstitutePlain(value, pattern, t[..i], t[i + |pattern|..]);
    assert value + "" == value;
  }

  lemma LiteralNotHere(t: string, i: nat, pattern: string, value: string)
    requires pattern != "" && i < |t| && !MatchesAt(t, i, pattern)
    ensures ReplaceLiteral(t, i, pattern, value) == [t[i]] + ReplaceLiteral(t, i + 1, pattern, value)
  {
    hide Substitute;
  }

  /** Two runs around `##` are joined. */
  lemma RunsAreJoined(x: string, y: string)
    requires IsRun(x) && IsRun(y)
    ensures PasteAll(Pasting(x, y)) == x + y
  {
    var t := Pasting(x, y);
    PasteParts(x, y);
    assert HasPaste(t);
    MergedRuns(x, y);
    var r := x + y;
    assert '#' !in r by {
      forall k | 0 <= k < |r| ensures r[k] != '#' { assert IsIdentPart(r[k]); }
    }
    NothingDropped(r, 0);
    HashFree(r);
    assert r[0..] == r && PasteRound(t) == r by { EqualsRound(t); }
    hide PasteRound, HasPaste;
  }

  lemma MergedRuns(x: string, y: string)
    requires IsRun(x) && IsRun(y)
    ensures MergePastes(Pasting(x, y), 0) == x + y
  {
    var t := Pasting(x, y);
    PasteParts(x, y);
    hide IsIdentPart, Pasting;
    assert WordEnd(t, 0) == |x| && WordEnd(t, |x| + 2) == |t|;
    NoSpaceHere(t, |x|);
    NoSpaceHere(t, |x| + 2);
    assert RightOperand(t, 0) == |x| + 2;
    assert MergePastes(t, |t|) == "";
    assert t[0..|x|] + t[|x| + 2..|t|] + "" == x + y;
  }

  lemma {:induction false} NothingDropped(t: string, i: nat)
    requires i <= |t| && '#' !in t
    ensures DropPastes(t, i) == t[i..]
    decreases |t| - i
  {
    if i < |t| {
      NothingDropped(t, i + 1);
      assert !PasteFollows(t, i) by {
        var k := SkipSpaces(t, i);
        assert k + 2 <= |t| ==> t[k..k + 2][0] == t[k] && t[k] in t;
      }
    }
  }

  // ---------------------------------------------------------------- the laws

  /** The macro `name(p, q)` whose body pastes its parameters. */
  function Joiner(name: Identifier, p: Identifier, q: Identifier): Definition {
    Definition(name, Some([p, q]), None, Pasting(p, q))
  }

  lemma JoinerBinds(name: Identifier, p: Identifier, q: Identifier, args: seq<string>)
    requires p != q && |args| == 2
    ensures Bind(Joiner(name, p, q), args) == [(p, args[0]), (q, args[1])]
  {
    hide Pasting;
    var d := Joiner(name, p, q);
    var one, both := [(p, args[0])], [(p, args[0]), (q, args[1])];
    assert Put([], p, args[0]) == one;
    assert Put(one, q, args[1]) == both by { assert one[1..] == [] && Put([], q, args[1]) == [(q, args[1])]; }
    assert BindFrom(d, args, 2, both) == both;
    assert BindFrom(d, args, 1, one) == both;
  }

  lemma NothingToSubstitute(x: Identifier, y: Identifier, p: Identifier, q: Identifier, e: string, f: string)
    requires p !in {x, y} && q !in {x, y}
    ensures SubstituteAll(Pasting(x, y), [(p, e), (q, f)]) == Pasting(x, y)
  {
    assert IsRun(x) && IsRun(y) && IsRun(p) && IsRun(q);
    var t := Pasting(x, y);
    hide Pasting, IsRun, WordAt, SubstituteAll, ReplaceWord;
    forall k: nat ensures !WordAt(t, k, p) && !WordAt(t, k, q) {
      WordInPaste(x, y, p, k);
      WordInPaste(x, y, q, k);
    }
    NoWord(t, 0, p, e);
    NoWord(t, 0, q, f);
    assert t[0..] == t;
    SubstituteTwo(t, (p, e), (q, f));
  }

  lemma {:induction false} NoWord(t: string, i: nat, word: string, value: string)
    requires i <= |t| && word != "" && forall k: nat :: !WordAt(t, k, word)
    ensures ReplaceWord(t, i, word, value) == t[i..]
    decreases |t| - i
  {
    hide WordAt;
    if i < |t| {
      NoWord(t, i + 1, word, value);
    }
  }

  /** `##` joins the arguments as they were written, whatever they expand to. */
  lemma OperandsAreJoinedAsWritten(name: Identifier, p: Identifier, q: Identifier, args: seq<string>,
      expanded: seq<string>)
    requires Ordinary(p, q) && |args| == 2 && |expanded| == 2 && NoPattern(expanded[0]) && NoPattern(expanded[1])
    requires IsRun(args[0]) && IsRun(args[1]) && Lacks(args[0], Placeholder(1))
    ensures var r := Apply(Joiner(name, p, q), args, expanded); r.Some? && r.value.text == args[0] + args[1]
  {
    var d, a, b := Joiner(name, p, q), args[0], args[1];
    var p0, p1 := Placeholder(0), Placeholder(1);
    JoinerBinds(name, p, q, args);
    JoinerBinds(name, p, q, expanded);
    NotStringified(p, q, a, b);
    BothAreShielded(p, q, a, b);
    PlaceholderIsRun(0);
    PlaceholderIsRun(1);
    NothingToSubstitute(p0, p1, p, q, expanded[0], expanded[1]);
    RunHasNoPattern(a);
    RunHasNoPattern(b);
    BothComeBack(a, b);
    RunsAreJoined(a, b);
    hide Pasting, Placeholder, IsRun, Lacks, PasteAll, ShieldAll, SubstituteAll, RestoreAll, StringifyAll, Bind,
         NoPattern, HasPaste, NoPatterns, Ordinary;
  }

  lemma BothComeBack(a: string, b: string)
    requires IsRun(a) && IsRun(b) && Lacks(a, Placeholder(1))
    ensures RestoreAll(Pasting(Placeholder(0), Placeholder(1)), [(0, a), (1, b)]) == Pasting(a, b)
  {
    hide *;
    var p0, p1 := Placeholder(0), Placeholder(1);
    PlaceholderIsRun(0);
    PlaceholderIsRun(1);
    PlaceholdersDiffer();
    LacksOther(p1, p0);
    LeftComesBack(p0, p1, a);
    RightComesBack(a, p1, b, 0);
    assert Pasting(a, b)[0..] == Pasting(a, b);
    RestoreTwo(Pasting(p0, p1), a, b);
  }

  lemma LacksOther(w: string, other: string)
    requires |w| == |other| && w != other
    ensures Lacks(w, other)
  {
    assert w[0..|w|] == w;
  }

  /** A `#` that is part of `##` makes no literal. */
  lemma {:induction false} NoLiteral(t: string, i: nat, last: nat, word: string, literal: string)
    requires i <= |t| && forall k: nat :: HashedWordEnd(t, k, word) > 0 ==> 0 < k && t[k - 1] == '#'
    ensures Stringify(t, i, last, word, literal) == t[i..]
    decreases |t| - i
  {
    hide HashedWordEnd;
    if i < |t| {
      NoLiteral(t, i + 1, last, word, literal);
    }
  }

  lemma OnlyBehindHash(x: string, y: string, w: string, k: nat)
    requires IsRun(x) && IsRun(y) && IsRun(w) && HashedWordEnd(Pasting(x, y), k, w) > 0
    ensures 0 < k <= |Pasting(x, y)| && Pasting(x, y)[k - 1] == '#'
  {
    var t := Pasting(x, y);
    PasteParts(x, y);
    NoSpaceHere(t, |x| + 1);
    NoRunAtHash(t, |x| + 1, w);
    assert k == |x| || k == |x| + 1 by { assert !IsIdentPart('#'); }
    hide IsIdentPart, Pasting, IsRun, MatchesAt, SkipSpaces;
  }

  lemma NotStringified(p: Identifier, q: Identifier, a: string, b: string)
    requires p != q
    ensures StringifyAll(Pasting(p, q), [(p, a), (q, b)]) == Pasting(p, q)
  {
    var t := Pasting(p, q);
    assert IsRun(p) && IsRun(q);
    hide Pasting, IsRun, HashedWordEnd, Stringify, StringifyAll, Quoted;
    forall k: nat | HashedWordEnd(t, k, p) > 0 ensures 0 < k <= |t| && t[k - 1] == '#' { OnlyBehindHash(p, q, p, k); }
    forall k: nat | HashedWordEnd(t, k, q) > 0 ensures 0 < k <= |t| && t[k - 1] == '#' { OnlyBehindHash(p, q, q, k); }
    NoLiteral(t, 0, 0, p, Quoted(a));
    NoLiteral(t, 0, 0, q, Quoted(b));
    assert t[0..] == t;
    StringifyTwo(t, (p, a), (q, b));
  }

  // ---------------------------------------------------------------- literals

  /** The macro `name(p)` whose body makes a literal of its parameter. */
  function Stringer(name: Identifier, p: Identifier): Definition {
    Definition(name, Some([p]), None, "#" + p)
  }

  lemma StringerBinds(name: Identifier, p: Identifier, arg: string)
    ensures Bind(Stringer(name, p), [arg]) == [(p, arg)]
  {
    var d := Stringer(name, p);
    assert Put([], p, arg) == [(p, arg)];
    assert BindFrom(d, [arg], 1, [(p, arg)]) == [(p, arg)];
  }

  lemma HashedParameter(p: Identifier, literal: string)
    ensures Stringify("#" + p, 0, 0, p, literal) == literal
  {
    var t := "#" + p;
    assert t[1] == p[0] && t[1..1 + |p|] == p;
    NoSpaceHere(t, 1);
    assert HashedWordEnd(t, 0, p) == |t|;
    assert Stringify(t, |t|, |t|, p, literal) == "";
    assert literal + "" == literal;
  }

  lemma OneBinding(p: Identifier, value: string, t: string)
    ensures StringifyAll(t, [(p, value)]) == Stringify(t, 0, 0, p, Quoted(value))
    ensures SubstituteAll(t, [(p, value)]) == ReplaceWord(t, 0, p, value)
  {
    hide Stringify, ReplaceWord, Quoted;
    var all := [(p, value)];
    assert all[1..] == [];
    assert StringifyAll(t, all) == StringifyAll(Stringify(t, 0, 0, p, Quoted(value)), all[1..]);
    assert SubstituteAll(t, all) == SubstituteAll(ReplaceWord(t, 0, p, value), all[1..]);
  }

  /** `#` makes a literal of the argument as it was written, whatever it expands to. */
  lemma LiteralIsMadeAsWritten(name: Identifier, p: Identifier, arg: string, expanded: string)
    requires !HasPaste(Quoted(arg)) && forall k: nat :: !WordAt(Quoted(arg), k, p)
    ensures var r := Apply(Stringer(name, p), [arg], [expanded]); r.Some? && r.value.text == Quoted(arg)
  {
    var literal := Quoted(arg);
    StringerBinds(name, p, arg);
    StringerBinds(name, p, expanded);
    OneBinding(p, arg, "#" + p);
    HashedParameter(p, literal);
    ShieldKeeps(literal, [(p, arg)]);
    OneBinding(p, expanded, literal);
    NoWord(literal, 0, p, expanded);
    assert literal[0..] == literal;
    assert PasteAll(literal) == literal;
    assert RestoreAll(literal, []) == literal;
    hide Quoted, PasteAll, ShieldAll, SubstituteAll, RestoreAll, StringifyAll, Bind, NoPattern, HasPaste, NoPatterns,
         WordAt, ReplaceWord, Stringify;
  }

  // ---------------------------------------------------------------- the swallowed comma

  lemma OtherThanComma(t: string, i: nat, replacement: string)
    requires i < |t| && t[i] != ','
    ensures SwallowComma(t, i, replacement) == [t[i]] + SwallowComma(t, i + 1, replacement)
  {
    hide PasteFollows, Substitute, MatchesAt, SkipSpaces;
  }

  lemma OneMore(t: string, i: nat, j: nat, rest: string)
    requires i < j <= |t|
    ensures [t[i]] + (t[i + 1..j] + rest) == t[i..j] + rest
  {
    assert t[i..j] == [t[i]] + t[i + 1..j];
  }

  lemma {:induction false} NoCommaHere(t: string, i: nat, j: nat, replacement: string)
    requires i <= j <= |t| && forall k :: i <= k < j ==> t[k] != ','
    ensures SwallowComma(t, i, replacement) == t[i..j] + SwallowComma(t, j, replacement)
    decreases j - i
  {
    hide SwallowComma;
    if i < j {
      OtherThanComma(t, i, replacement);
      NoCommaHere(t, i + 1, j, replacement);
      OneMore(t, i, j, SwallowComma(t, j, replacement));
    } else {
      assert t[i..j] == "" && "" + SwallowComma(t, j, replacement) == SwallowComma(t, j, replacement);
    }
  }

  lemma CommaHere(t: string, i: nat, replacement: string)
    requires i + 15 <= |t| && t[i..i + 15] == ", ##__VA_ARGS__" && NoPattern(replacement)
    requires i + 15 == |t| || !IsIdentPart(t[i + 15])
    ensures SwallowComma(t, i, replacement) == replacement + SwallowComma(t, i + 15, replacement)
  {
    var x := t[i..i + 15];
    assert x[0] == ',' && x[1] == ' ' && x[2] == '#' && x[3] == '#' && x[4] == '_';
    assert t[i] == x[0] && t[i + 1] == x[1] && t[i + 2] == x[2] && t[i + 4] == x[4];
    assert t[i + 2..i + 4] == x[2..4] == "##";
    assert t[i + 4..i + 15] == x[4..15] == "__VA_ARGS__";
    NoSpaceHere(t, i + 2);
    NoSpaceHere(t, i + 4);
    assert SkipSpaces(t, i + 1) == i + 2;
    SubstitutePlain(replacement, t[i..i + 15], t[..i], t[i + 15..]);
    hide Substitute, NoPattern;
  }

  /**
   With no argument left `, ##__VA_ARGS__` vanishes, comma and all; otherwise it becomes the
   rest of the arguments.
   */
  lemma CommaIsSwallowed(d: Definition, values: Bindings, before: string, after: string)
    requires d.variadic.Some? && d.replacement == before + (", ##__VA_ARGS__" + after)
    requires ',' !in before && ',' !in after && (after == "" || !IsIdentPart(after[0]))
    requires NoPattern(", " + Get(values, d.variadic.value))
    ensures var rest := Get(values, d.variadic.value);
            Swallow(d, values) == before + ((if rest == "" then "" else ", " + rest) + after)
  {
    var rest := Get(values, d.variadic.value);
    hide NoPattern, Get;
    assert rest == "" ==> NoPattern("") by { NothingIsPlain(); }
    OneSwallowed(before, after, if rest == "" then "" else ", " + rest);
  }

  lemma NothingIsPlain()
    ensures NoPattern("")
  {
  }

  lemma AroundComma(t: string, before: string, after: string)
    requires t == before + (", ##__VA_ARGS__" + after) && ',' !in before && ',' !in after
    ensures var i := |before|;
            && i + 15 <= |t| && t[0..i] == before && t[i..i + 15] == ", ##__VA_ARGS__" && t[i + 15..|t|] == after
            && (forall k :: 0 <= k < i ==> t[k] != ',') && (forall k :: i + 15 <= k < |t| ==> t[k] != ',')
            && (after != "" ==> i + 15 < |t| && t[i + 15] == after[0])
  {
    var i := |before|;
    forall k | 0 <= k < i ensures t[k] != ',' { assert t[k] == before[k] && before[k] in before; }
    forall k | i + 15 <= k < |t| ensures t[k] != ',' {
      assert t[k] == after[k - i - 15] && after[k - i - 15] in after;
    }
  }

  lemma OneSwallowed(before: string, after: string, replacement: string)
    requires ',' !in before && ',' !in after && (after == "" || !IsIdentPart(after[0])) && NoPattern(replacement)
    ensures SwallowComma(before + (", ##__VA_ARGS__" + after), 0, replacement) == before + (replacement + after)
  {
    var t, i := before + (", ##__VA_ARGS__" + after), |before|;
    assert SwallowComma(t, |t|, replacement) == "";
    hide SwallowComma, NoPattern, IsIdentPart;
    AroundComma(t, before, after);
    assert after == "" ==> i + 15 == |t|;
    NoCommaHere(t, 0, i, replacement);
    CommaHere(t, i, replacement);
    NoCommaHere(t, i + 15, |t|, replacement);
    assert after + "" == after;
  }
}
