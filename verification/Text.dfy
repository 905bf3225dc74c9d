/**
 Source text as the macro modules see it: a string of characters, the ASCII
 identifiers in it, and the white space that JavaScript's `\s` and `trim` mean.

 The central notion is the set of identifiers of a text, found the way the
 expression `[A-Za-z_]\w*` finds them, left to right: an identifier may follow a digit, so "1u"
 mentions "u". Two texts glue when putting them side by side merges the
 identifier that ends the first with the characters that open the second.
 */
module Text {

  predicate IsIdentStart(c: char) {
    c == '_' || 'A' <= c <= 'Z' || 'a' <= c <= 'z'
  }

  predicate IsIdentPart(c: char) {
    IsIdentStart(c) || '0' <= c <= '9'
  }

  /** JavaScript white space: the class `\s`, which is also what `trim` removes. */
  predicate IsSpace(c: char) {
    || c == ' ' || '\t' <= c <= '\r' || c == '\U{00A0}' || c == '\U{1680}' || '\U{2000}' <= c <= '\U{200A}'
    || c == '\U{2028}' || c == '\U{2029}' || c == '\U{202F}' || c == '\U{205F}' || c == '\U{3000}' || c == '\U{FEFF}'
  }

  /** The text ends in the middle of, or just after, an identifier. */
  predicate InIdent(s: string) {
    s != "" && IsIdentPart(s[|s| - 1]) && (IsIdentStart(s[|s| - 1]) || InIdent(s[..|s| - 1]))
  }

  predicate Glue(a: string, b: string) {
    b != "" && IsIdentPart(b[0]) && InIdent(a)
  }

  predicate StartsAt(s: string, p: nat) {
    p < |s| && IsIdentStart(s[p]) && !InIdent(s[..p])
  }

  /** The end of the run of identifier characters that begins at `p`. */
  function WordEnd(s: string, p: nat): (e: nat)
    requires p <= |s|
    ensures p <= e <= |s|
    ensures forall k :: p <= k < e ==> IsIdentPart(s[k])
    ensures e < |s| ==> !IsIdentPart(s[e])
    decreases |s| - p
  {
    if p < |s| && IsIdentPart(s[p]) then WordEnd(s, p + 1) else p
  }

  function Word(s: string, p: nat): string
    requires p <= |s|
  {
    s[p..WordEnd(s, p)]
  }

  ghost function Idents(s: string): set<string> {
    set p: nat | p < |s| && StartsAt(s, p) :: Word(s, p)
  }

  /** No identifier of `s` is among `names`. */
  ghost predicate Avoids(s: string, names: set<string>) {
    forall p: nat :: StartsAt(s, p) ==> Word(s, p) !in names
  }

  // ---------------------------------------------------------------- joining

  lemma {:induction false} InIdentJoin(a: string, b: string)
    requires b != ""
    ensures InIdent(a + b) <==> InIdent(b) || ((forall k :: 0 <= k < |b| ==> IsIdentPart(b[k])) && InIdent(a))
  {
    var ab := a + b;
    var last := b[|b| - 1];
    assert ab[|ab| - 1] == last;
    assert ab[..|ab| - 1] == a + b[..|b| - 1];
    if |b| == 1 {
      assert b[..0] == "" && a + "" == a;
    } else {
      InIdentJoin(a, b[..|b| - 1]);
    }
  }

  lemma {:induction false} WordEndJoin(a: string, b: string, p: nat)
    requires p <= |a|
    ensures WordEnd(a, p) < |a| ==> WordEnd(a + b, p) == WordEnd(a, p)
    ensures WordEnd(a, p) == |a| ==> WordEnd(a + b, p) == |a| + WordEnd(b, 0)
    decreases |a| - p
  {
    if p == |a| {
      WordEndShift(a, b, 0);
    } else if IsIdentPart(a[p]) {
      WordEndJoin(a, b, p + 1);
    }
  }

  lemma {:induction false} WordEndShift(a: string, b: string, p: nat)
    requires p <= |b|
    ensures WordEnd(a + b, |a| + p) == |a| + WordEnd(b, p)
    decreases |b| - p
  {
    if p < |b| && IsIdentPart(b[p]) {
      WordEndShift(a, b, p + 1);
    }
  }

  /** An identifier that reaches the end of the text leaves the text inside an identifier. */
  lemma {:induction false} WordReachesEnd(a: string, p: nat, q: nat)
    requires StartsAt(a, p) && p < q <= WordEnd(a, p)
    ensures InIdent(a[..q])
    decreases q
  {
    var s := a[..q];
    assert s[..|s| - 1] == a[..q - 1];
    if q > p + 1 {
      WordReachesEnd(a, p, q - 1);
    }
  }

  /** Without glue, the identifiers of a join are those of its two halves, in place. */
  lemma StartsJoinLeft(a: string, b: string, p: nat)
    requires !Glue(a, b) && p < |a|
    ensures StartsAt(a + b, p) <==> StartsAt(a, p)
    ensures StartsAt(a, p) ==> Word(a + b, p) == Word(a, p)
  {
    assert (a + b)[..p] == a[..p];
    if StartsAt(a, p) {
      WordEndJoin(a, b, p);
      if WordEnd(a, p) == |a| {
        WordReachesEnd(a, p, |a|);
        assert a[..|a|] == a;
        assert WordEnd(b, 0) == 0;
      }
    }
  }

  lemma StartsJoinRight(a: string, b: string, q: nat)
    requires !Glue(a, b) && q < |b|
    ensures StartsAt(a + b, |a| + q) <==> StartsAt(b, q)
    ensures Word(a + b, |a| + q) == Word(b, q)
  {
    var ab := a + b;
    assert ab[..|a| + q] == a + b[..q];
    if q == 0 {
      assert ab[..|a|] == a;
    } else {
      InIdentJoin(a, b[..q]);
      assert b[..q][0] == b[0];
    }
    WordEndShift(a, b, q);
    assert ab[|a| + q..|a| + WordEnd(b, q)] == b[q..WordEnd(b, q)];
  }

  lemma AvoidsJoin(a: string, b: string, names: set<string>)
    requires !Glue(a, b)
    ensures Avoids(a + b, names) <==> Avoids(a, names) && Avoids(b, names)
  {
    if Avoids(a + b, names) {
      forall p: nat | StartsAt(a, p) ensures Word(a, p) !in names { StartsJoinLeft(a, b, p); }
      forall p: nat | StartsAt(b, p) ensures Word(b, p) !in names { StartsJoinRight(a, b, p); }
    }
    if Avoids(a, names) && Avoids(b, names) {
      forall p: nat | StartsAt(a + b, p) ensures Word(a + b, p) !in names {
        if p < |a| { StartsJoinLeft(a, b, p); } else { StartsJoinRight(a, b, p - |a|); }
      }
    }
  }

  /** A slice whose two ends do not cut an identifier mentions nothing new. */
  lemma AvoidsSlice(t: string, i: nat, j: nat, names: set<string>)
    requires i <= j <= |t|
    requires Avoids(t, names)
    requires !Glue(t[..i], t[i..]) && !Glue(t[..j], t[j..])
    ensures Avoids(t[i..j], names)
  {
    assert t == t[..j] + t[j..];
    AvoidsJoin(t[..j], t[j..], names);
    assert t[..j] == t[..i] + t[i..j];
    assert i < j ==> t[i..j][0] == t[i..][0];
    AvoidsJoin(t[..i], t[i..j], names);
  }

  lemma AvoidsSuffix(t: string, i: nat, names: set<string>)
    requires i <= |t| && Avoids(t, names) && !Glue(t[..i], t[i..])
    ensures Avoids(t[i..], names)
  {
    assert t == t[..i] + t[i..];
    AvoidsJoin(t[..i], t[i..], names);
  }

  // ---------------------------------------------------------------- cut points

  /** Position `i` does not lie inside an identifier of `t`. */
  predicate Cut(t: string, i: nat) {
    i <= |t| && !Glue(t[..i], t[i..])
  }

  lemma CutAtEnds(t: string)
    ensures Cut(t, 0) && Cut(t, |t|)
  {
  }

  /** Stepping over one character that does not start an identifier keeps a cut a cut. */
  lemma CutStep(t: string, i: nat)
    requires i < |t| && Cut(t, i) && !IsIdentStart(t[i])
    ensures Cut(t, i + 1)
  {
    var s := t[..i + 1];
    assert s[..|s| - 1] == t[..i] && s[|s| - 1] == t[i];
  }

  /** A cut lies before any character that cannot belong to an identifier, and after it. */
  lemma CutAtNonPart(t: string, i: nat)
    requires i <= |t|
    requires i == |t| || !IsIdentPart(t[i]) || (i > 0 && !IsIdentPart(t[i - 1]))
    ensures Cut(t, i)
  {
    if 0 < i {
      var s := t[..i];
      assert s[|s| - 1] == t[i - 1];
    }
  }

  /** At a cut where an identifier character stands, an identifier starts there if it can. */
  lemma CutStarts(t: string, i: nat)
    requires i < |t| && Cut(t, i) && IsIdentStart(t[i])
    ensures StartsAt(t, i)
    ensures i < WordEnd(t, i) && Cut(t, WordEnd(t, i))
  {
    CutAtNonPart(t, WordEnd(t, i));
  }

  // ---------------------------------------------------------------- searching and trimming

  predicate MatchesAt(t: string, i: nat, pattern: string) {
    i + |pattern| <= |t| && t[i..i + |pattern|] == pattern
  }

  /** `t.indexOf(pattern, from)`, with `|t|` standing for "not found". */
  function Find(t: string, pattern: string, from: nat): (i: nat)
    ensures i < |t| ==> from <= i && MatchesAt(t, i, pattern)
    ensures from <= |t| ==> from <= i <= |t|
    ensures from > |t| ==> i == |t|
    decreases |t| - from
  {
    if from >= |t| then |t|
    else if MatchesAt(t, from, pattern) then from
    else Find(t, pattern, from + 1)
  }

  /** `Find` returns the first match. */
  lemma {:induction false} FindIsFirst(t: string, pattern: string, from: nat, k: nat)
    requires from <= k < Find(t, pattern, from) && k < |t|
    ensures !MatchesAt(t, k, pattern)
    decreases |t| - from
  {
    if from < k {
      FindIsFirst(t, pattern, from + 1, k);
    }
  }

  function SkipSpaces(t: string, i: nat): (j: nat)
    requires i <= |t|
    ensures i <= j <= |t|
    ensures forall k :: i <= k < j ==> IsSpace(t[k])
    ensures j < |t| ==> !IsSpace(t[j])
    decreases |t| - i
  {
    if i < |t| && IsSpace(t[i]) then SkipSpaces(t, i + 1) else i
  }

  function TrimEnd(t: string): (r: string)
    ensures r <= t
    ensures r != "" ==> !IsSpace(r[|r| - 1])
    ensures forall k :: |r| <= k < |t| ==> IsSpace(t[k])
  {
    if t != "" && IsSpace(t[|t| - 1]) then TrimEnd(t[..|t| - 1]) else t
  }

  function Trim(t: string): string {
    TrimEnd(t[SkipSpaces(t, 0)..])
  }

  lemma TrimAvoids(t: string, names: set<string>)
    requires Avoids(t, names)
    ensures Avoids(Trim(t), names)
  {
    var i := SkipSpaces(t, 0);
    var j := i + |Trim(t)|;
    assert Trim(t) == t[i..j];
    assert j < |t| ==> IsSpace(t[i..][j - i]);
    if 0 < i { CutAtNonPart(t, i); }
    CutAtNonPart(t, j);
    AvoidsSlice(t, i, j, names);
  }

  /** `parts.join(separator)` */
  function Join(parts: seq<string>, separator: string): string {
    if parts == [] then ""
    else if |parts| == 1 then parts[0]
    else parts[0] + separator + Join(parts[1..], separator)
  }

  lemma {:induction false} JoinAvoids(parts: seq<string>, names: set<string>)
    requires forall k :: 0 <= k < |parts| ==> Avoids(parts[k], names)
    ensures Avoids(Join(parts, ", "), names)
  {
    if |parts| > 1 {
      JoinAvoids(parts[1..], names);
      var rest := Join(parts[1..], ", ");
      assert (parts[0] + ", ")[|parts[0]| + 1] == ' ';
      AvoidsJoin(parts[0], ", ", names);
      AvoidsJoin(parts[0] + ", ", rest, names);
    }
  }

  function Count(t: string, c: char): nat {
    if t == "" then 0 else (if t[0] == c then 1 else 0) + Count(t[1..], c)
  }

  lemma {:induction false} CountJoin(a: string, b: string, c: char)
    ensures Count(a + b, c) == Count(a, c) + Count(b, c)
  {
    if a == "" {
      assert a + b == b;
    } else {
      CountJoin(a[1..], b, c);
      assert (a + b)[1..] == a[1..] + b;
    }
  }
}
