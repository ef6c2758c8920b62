/** The regular expressions that the hand-written matchers claim to equal: sequences of characters and starred
    character classes, searched leftmost. */
module Regex {
  import opened Bytes
  import Sequences

  /** `c`, `[^stop]*`, `c*` and `c+`. */
  datatype Atom = Ch(c: char) | NotStar(stop: char) | Star(c: char) | Plus(c: char)

  predicate InClass(a: Atom, x: char) { if a.NotStar? then x != a.stop else x == a.c }

  predicate AtomOk(a: Atom, piece: string) {
    match a
    case Ch(c) => piece == [c]
    case Plus(c) => piece != "" && forall x <- piece :: x == c
    case _ => forall x <- piece :: InClass(a, x)
  }

  function Concat(pieces: seq<string>): string {
    if pieces == [] then "" else pieces[0] + Concat(pieces[1..])
  }

  /** `pieces` is a match of the pattern at the front of `s`: one piece an atom. */
  ghost predicate IsMatch(pat: seq<Atom>, s: string, pieces: seq<string>) {
    && |pieces| == |pat|
    && (forall i :: 0 <= i < |pat| ==> AtomOk(pat[i], pieces[i]))
    && Concat(pieces) <= s
  }

  /** A starred class may stand before a character outside it, and anything may stand behind a character. */
  lemma DeterministicCons(a: Atom, pat: seq<Atom>)
    requires Deterministic(pat) && (a.Ch? || (pat != [] && pat[0].Ch? && !InClass(a, pat[0].c)))
    ensures Deterministic([a] + pat)
  {
    var whole := [a] + pat;
    assert forall i :: 0 < i < |whole| ==> whole[i] == pat[i - 1];
  }

  lemma {:induction false} DeterministicLit(w: string, pat: seq<Atom>)
    requires Deterministic(pat)
    ensures Deterministic(Lit(w) + pat) && (w != "" ==> (Lit(w) + pat)[0] == Ch(w[0]))
  {
    if w == "" {
      assert Lit(w) + pat == pat;
    } else {
      DeterministicLit(w[1..], pat);
      DeterministicCons(Ch(w[0]), Lit(w[1..]) + pat);
      assert Lit(w) + pat == [Ch(w[0])] + (Lit(w[1..]) + pat);
    }
  }

  /** What a regex search captures: the atoms from `lo` to `hi` of the leftmost match. */
  ghost predicate IsLeftmost(pat: seq<Atom>, s: string, p: nat, pieces: seq<string>) {
    && p <= |s|
    && IsMatch(pat, s[p..], pieces)
    && forall q, other :: 0 <= q < p ==> !IsMatch(pat, s[q..], other)
  }

  ghost predicate Captures(pat: seq<Atom>, lo: nat, hi: nat, s: string, r: Option<string>) {
    match r
    case Some(x) =>
      exists p: nat, pieces :: IsLeftmost(pat, s, p, pieces) && lo <= hi <= |pieces| && x == Concat(pieces[lo..hi])
    case None => forall p, pieces :: 0 <= p <= |s| ==> !IsMatch(pat, s[p..], pieces)
  }

  /** Every starred class is followed by a character outside it, so no choice is left to backtracking. */
  predicate Deterministic(pat: seq<Atom>) {
    forall i :: 0 <= i < |pat| && !pat[i].Ch? ==>
      i + 1 < |pat| && pat[i + 1].Ch? && !InClass(pat[i], pat[i + 1].c)
  }

  // ---------- matching by running ----------

  /** The length of the longest prefix of characters in the class. */
  function Run(a: Atom, s: string): (n: nat)
    ensures n <= |s| && (forall i :: 0 <= i < n ==> InClass(a, s[i])) && (n < |s| ==> !InClass(a, s[n]))
  {
    if s != "" && InClass(a, s[0]) then 1 + Run(a, s[1..]) else 0
  }

  function Cons(piece: string, r: Option<seq<string>>): Option<seq<string>> {
    match r case Some(pieces) => Some([piece] + pieces) case None => None
  }

  /** The match at the front of `s`, each class taking all it can. */
  function MatchAt(pat: seq<Atom>, s: string): Option<seq<string>>
    decreases |pat|
  {
    if pat == [] then Some([])
    else match pat[0]
      case Ch(c) => if s != "" && s[0] == c then Cons([c], MatchAt(pat[1..], s[1..])) else None
      case Plus(_) =>
        var n := Run(pat[0], s);
        if n == 0 then None else Cons(s[..n], MatchAt(pat[1..], s[n..]))
      case _ =>
        var n := Run(pat[0], s);
        Cons(s[..n], MatchAt(pat[1..], s[n..]))
  }

  lemma RunIsForced(a: Atom, piece: string, d: char, s: string)
    requires (forall x <- piece :: InClass(a, x)) && !InClass(a, d) && piece + [d] <= s
    ensures Run(a, s) == |piece|
  {
    var n := Run(a, s);
    assert s[|piece|] == (piece + [d])[|piece|] == d;
    assert forall i :: 0 <= i < |piece| ==> s[i] == (piece + [d])[i] == piece[i] && piece[i] in piece;
  }

  /** On a deterministic pattern running finds the only match there is. */
  lemma {:induction false} MatchAtExact(pat: seq<Atom>, s: string, pieces: seq<string>)
    requires Deterministic(pat)
    ensures MatchAt(pat, s) == Some(pieces) <==> IsMatch(pat, s, pieces)
    decreases |pat|
  {
    if MatchAt(pat, s) == Some(pieces) { RunMatches(pat, s, pieces); }
    if IsMatch(pat, s, pieces) { MatchIsRun(pat, s, pieces); }
  }

  lemma {:induction false} RunMatches(pat: seq<Atom>, s: string, pieces: seq<string>)
    requires MatchAt(pat, s) == Some(pieces)
    ensures IsMatch(pat, s, pieces)
    decreases |pat|
  {
    hide MatchAt, AtomOk, IsMatch;
    if pat == [] {
      NothingMatches(s, pieces);
    } else {
      var n := MatchTakes(pat, s, pieces);
      RunMatches(pat[1..], s[n..], pieces[1..]);
      MatchCons(pat, s, n, pieces);
    }
  }

  lemma NothingMatches(s: string, pieces: seq<string>)
    requires MatchAt([], s) == Some(pieces)
    ensures IsMatch([], s, pieces)
  {
  }

  /** The first piece of a match that is found by running. */
  lemma MatchTakes(pat: seq<Atom>, s: string, pieces: seq<string>) returns (n: nat)
    requires pat != [] && MatchAt(pat, s) == Some(pieces)
    ensures pieces != [] && n <= |s| && pieces[0] == s[..n] && AtomOk(pat[0], pieces[0])
    ensures MatchAt(pat[1..], s[n..]) == Some(pieces[1..])
  {
    n := if pat[0].Ch? then 1 else Run(pat[0], s);
    var r := MatchAt(pat[1..], s[n..]);
    if pat[0].Ch? { assert s[..1] == [s[0]]; }
    assert r.Some? && pieces == [s[..n]] + r.value;
  }

  lemma MatchCons(pat: seq<Atom>, s: string, n: nat, pieces: seq<string>)
    requires pat != [] && pieces != [] && n <= |s| && pieces[0] == s[..n] && AtomOk(pat[0], pieces[0])
    requires IsMatch(pat[1..], s[n..], pieces[1..])
    ensures IsMatch(pat, s, pieces)
  {
    hide AtomOk;
    forall i | 0 <= i < |pat| ensures AtomOk(pat[i], pieces[i]) {
      if i > 0 { assert AtomOk(pat[1..][i - 1], pieces[1..][i - 1]); }
    }
    assert s == s[..n] + s[n..];
  }

  lemma {:induction false} MatchIsRun(pat: seq<Atom>, s: string, pieces: seq<string>)
    requires Deterministic(pat) && IsMatch(pat, s, pieces)
    ensures MatchAt(pat, s) == Some(pieces)
    decreases |pat|
  {
    hide AtomOk, Concat, Deterministic, IsMatch;
    if pat == [] {
      NothingToMatch(s, pieces);
    } else {
      MatchSplits(pat, s, pieces);
      var n := |pieces[0]|;
      DeterministicTail(pat);
      MatchIsRun(pat[1..], s[n..], pieces[1..]);
      if !pat[0].Ch? { PieceIsForced(pat, s, pieces); }
      PieceIsTaken(pat, s, pieces);
    }
  }

  lemma NothingToMatch(s: string, pieces: seq<string>)
    requires IsMatch([], s, pieces)
    ensures pieces == []
  {
  }

  /** The first piece of a match, and the rest of it behind. */
  lemma MatchSplits(pat: seq<Atom>, s: string, pieces: seq<string>)
    requires pat != [] && IsMatch(pat, s, pieces)
    ensures pieces != [] && |pieces[0]| <= |s| && s[..|pieces[0]|] == pieces[0] && AtomOk(pat[0], pieces[0])
    ensures IsMatch(pat[1..], s[|pieces[0]|..], pieces[1..])
  {
    hide AtomOk;
    var more := Concat(pieces[1..]);
    assert pieces[0] + more <= s;
    Sequences.FrontOfAppend(pieces[0], more);
    assert s[..|pieces[0] + more|] == pieces[0] + more;
    assert more <= s[|pieces[0]|..];
    forall i | 0 <= i < |pat| - 1 ensures AtomOk(pat[1..][i], pieces[1..][i]) {
      assert AtomOk(pat[i + 1], pieces[i + 1]);
    }
  }

  lemma DeterministicTail(pat: seq<Atom>)
    requires pat != [] && Deterministic(pat)
    ensures Deterministic(pat[1..])
  {
    assert forall i :: 0 <= i < |pat| - 1 ==> pat[1..][i] == pat[i + 1];
  }

  /** A starred class takes exactly its piece: the character behind is outside it. */
  lemma PieceIsForced(pat: seq<Atom>, s: string, pieces: seq<string>)
    requires pat != [] && !pat[0].Ch? && Deterministic(pat) && IsMatch(pat, s, pieces)
    ensures pieces != [] && Run(pat[0], s) == |pieces[0]| && (pat[0].Plus? ==> pieces[0] != "")
  {
    hide Concat;
    MatchSplits(pat, s, pieces);
    var d, rest := pat[1].c, s[|pieces[0]|..];
    MatchSplits(pat[1..], rest, pieces[1..]);
    assert rest[..1] == [d];
    assert s == pieces[0] + rest && pieces[0] + [d] <= s;
    RunIsForced(pat[0], pieces[0], d, s);
  }

  lemma PieceIsTaken(pat: seq<Atom>, s: string, pieces: seq<string>)
    requires pat != [] && pieces != [] && |pieces[0]| <= |s| && s[..|pieces[0]|] == pieces[0]
    requires AtomOk(pat[0], pieces[0]) && MatchAt(pat[1..], s[|pieces[0]|..]) == Some(pieces[1..])
    requires !pat[0].Ch? ==> Run(pat[0], s) == |pieces[0]|
    ensures MatchAt(pat, s) == Some(pieces)
  {
    hide Run;
    Sequences.HeadTail(pieces);
    if pat[0].Ch? { assert s[..1] == [s[0]]; }
  }

  /** The matcher found at `p` what the regex captures, having ruled out every earlier offset. */
  lemma FoundAt(pat: seq<Atom>, lo: nat, hi: nat, s: string, p: nat, pieces: seq<string>)
    requires Deterministic(pat) && p <= |s| && lo <= hi <= |pat|
    requires MatchFrom(pat, s, p) == Some(pieces)
    requires forall q :: 0 <= q < p ==> MatchFrom(pat, s, q).None?
    ensures |pieces| == |pat| && Captures(pat, lo, hi, s, Some(Concat(pieces[lo..hi])))
  {
    MatchAtExact(pat, s[p..], pieces);
    forall q, other | 0 <= q < p ensures !IsMatch(pat, s[q..], other) {
      assert MatchFrom(pat, s, q).None?;
      MatchAtExact(pat, s[q..], other);
    }
    assert IsLeftmost(pat, s, p, pieces);
  }

  lemma FoundNowhere(pat: seq<Atom>, lo: nat, hi: nat, s: string)
    requires Deterministic(pat)
    requires forall q :: 0 <= q <= |s| ==> MatchFrom(pat, s, q).None?
    ensures Captures(pat, lo, hi, s, None)
  {
    forall q, other | 0 <= q <= |s| ensures !IsMatch(pat, s[q..], other) {
      assert MatchFrom(pat, s, q).None?;
      MatchAtExact(pat, s[q..], other);
    }
  }

  /** A capture is determined by the pattern and the text. */
  lemma CaptureIsUnique(pat: seq<Atom>, lo: nat, hi: nat, s: string, a: Option<string>, b: Option<string>)
    requires Deterministic(pat) && Captures(pat, lo, hi, s, a) && Captures(pat, lo, hi, s, b)
    ensures a == b
  {
    hide IsMatch, Deterministic;
    if a.Some? && b.Some? {
      var p: nat, x :| IsLeftmost(pat, s, p, x) && lo <= hi <= |x| && a.value == Concat(x[lo..hi]);
      var q: nat, y :| IsLeftmost(pat, s, q, y) && lo <= hi <= |y| && b.value == Concat(y[lo..hi]);
      assert IsMatch(pat, s[p..], x) && IsMatch(pat, s[q..], y);
      assert p == q;
      MatchAtExact(pat, s[p..], x);
      MatchAtExact(pat, s[p..], y);
    }
  }

  // ---------- literals ----------

  function Lit(w: string): (r: seq<Atom>)
    ensures |r| == |w| && forall i :: 0 <= i < |w| ==> r[i] == Ch(w[i])
  {
    if w == "" then [] else [Ch(w[0])] + Lit(w[1..])
  }

  function Singles(w: string): (r: seq<string>)
    ensures |r| == |w|
  {
    if w == "" then [] else [[w[0]]] + Singles(w[1..])
  }

  function Ahead(pieces: seq<string>, r: Option<seq<string>>): Option<seq<string>> {
    match r case Some(more) => Some(pieces + more) case None => None
  }

  lemma AheadTwice(a: seq<string>, b: seq<string>, r: Option<seq<string>>)
    ensures Ahead(a, Ahead(b, r)) == Ahead(a + b, r)
    ensures Ahead([], r) == r
  {
    if r.Some? {
      assert a + (b + r.value) == a + b + r.value;
      assert [] + r.value == r.value;
    }
  }

  /** A literal matches itself and hands on what follows. */
  lemma {:induction false} LitMatches(w: string, pat: seq<Atom>, s: string)
    ensures MatchAt(Lit(w) + pat, s) == if w <= s then Ahead(Singles(w), MatchAt(pat, s[|w|..])) else None
    decreases |w|
  {
    hide MatchAt;
    if w == "" {
      assert Lit(w) + pat == pat && s[0..] == s;
      AheadTwice([], [], MatchAt(pat, s));
    } else {
      assert Lit(w) + pat == [Ch(w[0])] + (Lit(w[1..]) + pat);
      CharMatches(w[0], Lit(w[1..]) + pat, s);
      if s != "" && s[0] == w[0] {
        LitMatches(w[1..], pat, s[1..]);
        assert w <= s <==> w[1..] <= s[1..];
        if w <= s {
          assert s[1..][|w| - 1..] == s[|w|..];
          AheadTwice([[w[0]]], Singles(w[1..]), MatchAt(pat, s[|w|..]));
        }
      } else {
        assert !(w <= s);
      }
    }
  }

  lemma CharMatches(c: char, pat: seq<Atom>, s: string)
    ensures MatchAt([Ch(c)] + pat, s) == if s != "" && s[0] == c then Ahead([[c]], MatchAt(pat, s[1..])) else None
  {
    assert ([Ch(c)] + pat)[1..] == pat;
  }

  /** The first occurrence of `w` in `s` from `from` on. */
  function Find(s: string, w: string, from: nat): (r: Option<nat>)
    requires from <= |s|
    ensures r.Some? ==> from <= r.value && r.value + |w| <= |s| && w <= s[r.value..]
    ensures r.Some? ==> forall q :: from <= q < r.value ==> !(w <= s[q..])
    ensures r.None? ==> forall q :: from <= q <= |s| ==> !(w <= s[q..])
    decreases |s| - from
  {
    if w <= s[from..] then Some(from)
    else if from == |s| then None
    else Find(s, w, from + 1)
  }

  lemma {:induction false} ConcatAppend(a: seq<string>, b: seq<string>)
    ensures Concat(a + b) == Concat(a) + Concat(b)
  {
    if a == [] {
      assert a + b == b;
    } else {
      assert (a + b)[1..] == a[1..] + b;
      ConcatAppend(a[1..], b);
    }
  }

  lemma ConcatOne(piece: string)
    ensures Concat([piece]) == piece
  {
    assert [piece][1..] == [] && piece + "" == piece;
  }

  lemma {:induction false} ConcatSingles(w: string)
    ensures Concat(Singles(w)) == w
  {
    if w != "" { ConcatSingles(w[1..]); }
  }

  // ---------- matching from an offset ----------

  function MatchFrom(pat: seq<Atom>, s: string, p: nat): Option<seq<string>>
    requires p <= |s|
  {
    MatchAt(pat, s[p..])
  }

  lemma LitFrom(w: string, pat: seq<Atom>, s: string, p: nat)
    requires p <= |s|
    ensures w <= s[p..] ==> p + |w| <= |s|
    ensures MatchFrom(Lit(w) + pat, s, p) ==
            if w <= s[p..] then Ahead(Singles(w), MatchFrom(pat, s, p + |w|)) else None
  {
    LitMatches(w, pat, s[p..]);
    if w <= s[p..] { assert s[p..][|w|..] == s[p + |w|..]; }
  }

  /** Where the run of a class from `p` ends. */
  function RunEnd(a: Atom, s: string, p: nat): (q: nat)
    requires p <= |s|
    ensures p <= q <= |s| && (forall i :: p <= i < q ==> InClass(a, s[i])) && (q < |s| ==> !InClass(a, s[q]))
  {
    var n := Run(a, s[p..]);
    assert forall i :: p <= i < p + n ==> s[i] == s[p..][i - p];
    p + n
  }

  /** The first offset outside the class is where its run ends. */
  lemma RunEndIs(a: Atom, s: string, p: nat, q: nat)
    requires p <= q <= |s| && (forall i :: p <= i < q ==> InClass(a, s[i])) && (q < |s| ==> !InClass(a, s[q]))
    ensures RunEnd(a, s, p) == q
  {
    var e := RunEnd(a, s, p);
    var x, y := if e < |s| then s[e] else 'x', if q < |s| then s[q] else 'x';
  }

  lemma ClassFrom(a: Atom, pat: seq<Atom>, s: string, p: nat)
    requires p <= |s| && !a.Ch?
    ensures var q := RunEnd(a, s, p);
            MatchFrom([a] + pat, s, p) ==
            if a.Plus? && q == p then None else Ahead([s[p..q]], MatchFrom(pat, s, q))
  {
    var q := RunEnd(a, s, p);
    assert ([a] + pat)[1..] == pat;
    assert s[p..][..q - p] == s[p..q] && s[p..][q - p..] == s[q..];
  }

  lemma CharFrom(c: char, pat: seq<Atom>, s: string, p: nat)
    requires p <= |s|
    ensures MatchFrom([Ch(c)] + pat, s, p) ==
            if p < |s| && s[p] == c then Ahead([[c]], MatchFrom(pat, s, p + 1)) else None
  {
    assert ([Ch(c)] + pat)[1..] == pat;
    if p < |s| { assert s[p..][0] == s[p] && s[p..][1..] == s[p + 1..]; }
  }

  lemma EndFrom(s: string, p: nat)
    requires p <= |s|
    ensures MatchFrom([], s, p) == Some([])
  {
  }

  /** A pattern that begins with a literal matches nowhere before the literal's next occurrence. */
  lemma NotBefore(w: string, pat: seq<Atom>, s: string, from: nat)
    requires from <= |s|
    ensures var off := Find(s, w, from);
            forall q :: from <= q <= |s| && (off.Some? ==> q < off.value) ==> MatchFrom(Lit(w) + pat, s, q).None?
  {
    var off := Find(s, w, from);
    forall q | from <= q <= |s| && (off.Some? ==> q < off.value) ensures MatchFrom(Lit(w) + pat, s, q).None? {
      LitFrom(w, pat, s, q);
    }
  }

  /** The run up to `stop` ends at its next occurrence. */
  lemma StopIsFound(stop: char, s: string, from: nat)
    requires from <= |s|
    ensures var off := Find(s, [stop], from);
            RunEnd(NotStar(stop), s, from) == if off.Some? then off.value else |s|
  {
    var off := Find(s, [stop], from);
    var q := if off.Some? then off.value else |s|;
    forall i | from <= i < q ensures InClass(NotStar(stop), s[i]) {
      assert s[i..][0] == s[i] && s[i..] == [s[i]] + s[i + 1..];
    }
    if off.Some? { assert s[q] == s[q..][0]; }
    RunEndIs(NotStar(stop), s, from, q);
  }

  // ---------- one step of a matcher ----------
  // A matcher stands at `p` with `pre` matched and `pat` left; `goal` is the match it is looking for.

  lemma AheadOfNone(pre: seq<string>)
    ensures Ahead(pre, None) == None
  {
  }

  lemma StepLit(w: string, pat: seq<Atom>, s: string, p: nat, pre: seq<string>, goal: Option<seq<string>>)
    requires p <= |s| && goal == Ahead(pre, MatchFrom(Lit(w) + pat, s, p))
    ensures w <= s[p..] ==> p + |w| <= |s|
    ensures goal == if w <= s[p..] then Ahead(pre + Singles(w), MatchFrom(pat, s, p + |w|)) else None
  {
    hide MatchFrom, Lit, Singles, Ahead;
    AheadOfNone(pre);
    LitFrom(w, pat, s, p);
    if w <= s[p..] { AheadTwice(pre, Singles(w), MatchFrom(pat, s, p + |w|)); }
  }

  lemma StepChar(c: char, pat: seq<Atom>, s: string, p: nat, pre: seq<string>, goal: Option<seq<string>>)
    requires p <= |s| && goal == Ahead(pre, MatchFrom([Ch(c)] + pat, s, p))
    ensures goal == if p < |s| && s[p] == c then Ahead(pre + [[c]], MatchFrom(pat, s, p + 1)) else None
  {
    hide MatchFrom;
    CharFrom(c, pat, s, p);
    if p < |s| { AheadTwice(pre, [[c]], MatchFrom(pat, s, p + 1)); }
  }

  lemma StepClass(a: Atom, pat: seq<Atom>, s: string, p: nat, pre: seq<string>, goal: Option<seq<string>>)
    requires p <= |s| && !a.Ch? && goal == Ahead(pre, MatchFrom([a] + pat, s, p))
    ensures var q := RunEnd(a, s, p);
            goal == if a.Plus? && q == p then None else Ahead(pre + [s[p..q]], MatchFrom(pat, s, q))
  {
    hide MatchFrom;
    ClassFrom(a, pat, s, p);
    AheadTwice(pre, [s[p..RunEnd(a, s, p)]], MatchFrom(pat, s, RunEnd(a, s, p)));
  }

  // ---------- what a capture is, told by the text ----------

  /** `r` is what `means` gives at the first place of `s` where it gives anything. */
  ghost predicate IsFirst(s: string, means: (string, string) -> bool, r: Option<string>) {
    match r
    case Some(c) => exists p: nat :: p <= |s| && means(s[p..], c) && forall q: nat, d :: q < p ==> !means(s[q..], d)
    case None => forall p: nat, d :: p <= |s| ==> !means(s[p..], d)
  }

  /** `means` says which texts begin with a match of the pattern, and what is captured in it. */
  ghost predicate Describes(means: (string, string) -> bool, pat: seq<Atom>, lo: nat, hi: nat) {
    forall s, c :: means(s, c) <==> exists pieces :: MatchGives(pat, lo, hi, s, pieces, c)
  }

  ghost predicate MatchGives(pat: seq<Atom>, lo: nat, hi: nat, s: string, pieces: seq<string>, c: string) {
    IsMatch(pat, s, pieces) && lo <= hi <= |pieces| && c == Concat(pieces[lo..hi])
  }

  lemma GivesSome(pat: seq<Atom>, lo: nat, hi: nat, s: string, means: (string, string) -> bool)
    requires lo <= hi <= |pat| && Describes(means, pat, lo, hi)
    ensures (exists d :: means(s, d)) <==> exists pieces :: IsMatch(pat, s, pieces)
  {
    hide Concat;
    if pieces :| IsMatch(pat, s, pieces) {
      var c := Concat(pieces[lo..hi]);
      assert MatchGives(pat, lo, hi, s, pieces, c);
      assert means(s, c);
    }
    if d :| means(s, d) {
      var pieces :| MatchGives(pat, lo, hi, s, pieces, d);
      assert IsMatch(pat, s, pieces);
    }
  }

  /** Then the capture is what it gives first. */
  lemma CapturesFirst(pat: seq<Atom>, lo: nat, hi: nat, s: string, means: (string, string) -> bool, r: Option<string>)
    requires lo <= hi <= |pat| && Describes(means, pat, lo, hi)
    ensures Captures(pat, lo, hi, s, r) <==> IsFirst(s, means, r)
  {
    hide IsMatch, Concat;
    forall p: nat | p <= |s|
      ensures (exists d :: means(s[p..], d)) <==> exists pieces :: IsMatch(pat, s[p..], pieces)
    {
      GivesSome(pat, lo, hi, s[p..], means);
    }
    if r.Some? {
      if IsFirst(s, means, r) {
        var p: nat :| p <= |s| && means(s[p..], r.value) && forall q: nat, d :: q < p ==> !means(s[q..], d);
        var pieces :| MatchGives(pat, lo, hi, s[p..], pieces, r.value);
        assert IsLeftmost(pat, s, p, pieces);
      }
      if Captures(pat, lo, hi, s, r) {
        var p: nat, pieces :|
          IsLeftmost(pat, s, p, pieces) && lo <= hi <= |pieces| && r.value == Concat(pieces[lo..hi]);
        assert MatchGives(pat, lo, hi, s[p..], pieces, r.value);
      }
    }
  }

  /** The pieces fit the atoms one by one. */
  ghost predicate Fits(pat: seq<Atom>, pieces: seq<string>) {
    |pieces| == |pat| && forall i :: 0 <= i < |pat| ==> AtomOk(pat[i], pieces[i])
  }

  lemma {:induction false} SinglesAt(w: string, i: nat)
    requires i < |w|
    ensures Singles(w)[i] == [w[i]]
  {
    if i > 0 { SinglesAt(w[1..], i - 1); }
  }

  lemma LitFits(w: string, pat: seq<Atom>, pieces: seq<string>)
    ensures Fits(Lit(w) + pat, pieces) <==>
              |w| <= |pieces| && pieces == Singles(w) + pieces[|w|..] && Fits(pat, pieces[|w|..])
  {
    hide Singles, Lit, Fits;
    FitsSplits(Lit(w), pat, pieces);
    if |w| <= |pieces| {
      LitAlone(w, pieces[..|w|]);
      assert pieces == pieces[..|w|] + pieces[|w|..];
      assert pieces == Singles(w) + pieces[|w|..] ==> pieces[..|w|] == Singles(w);
    }
  }

  lemma LitAlone(w: string, pieces: seq<string>)
    ensures Fits(Lit(w), pieces) <==> pieces == Singles(w)
  {
    hide Singles, Lit;
    forall i | 0 <= i < |w| ensures Singles(w)[i] == [w[i]] { SinglesAt(w, i); }
    if Fits(Lit(w), pieces) {
      forall i | 0 <= i < |w| ensures pieces[i] == [w[i]] { assert AtomOk(Lit(w)[i], pieces[i]); }
    }
  }

  lemma FitsSplits(a: seq<Atom>, b: seq<Atom>, pieces: seq<string>)
    ensures Fits(a + b, pieces) <==> |a| <= |pieces| && Fits(a, pieces[..|a|]) && Fits(b, pieces[|a|..])
  {
    hide AtomOk;
    if |pieces| == |a + b| {
      var front, rest := pieces[..|a|], pieces[|a|..];
      if Fits(a + b, pieces) {
        forall i | 0 <= i < |a| ensures AtomOk(a[i], front[i]) { assert AtomOk((a + b)[i], pieces[i]); }
        forall i | 0 <= i < |b| ensures AtomOk(b[i], rest[i]) { assert AtomOk((a + b)[|a| + i], pieces[|a| + i]); }
      }
      if Fits(a, front) && Fits(b, rest) {
        forall i | 0 <= i < |a + b| ensures AtomOk((a + b)[i], pieces[i]) {
          if i < |a| { assert AtomOk(a[i], front[i]); } else { assert AtomOk(b[i - |a|], rest[i - |a|]); }
        }
      }
    }
  }

  lemma AtomFits(a: Atom, pat: seq<Atom>, pieces: seq<string>)
    ensures Fits([a] + pat, pieces) <==>
              pieces != [] && AtomOk(a, pieces[0]) && pieces == [pieces[0]] + pieces[1..] && Fits(pat, pieces[1..])
  {
    hide AtomOk;
    FitsSplits([a], pat, pieces);
    if pieces != [] {
      assert pieces[..1] == [pieces[0]];
      assert Fits([a], pieces[..1]) <==> AtomOk(a, pieces[0]);
    }
  }

  lemma NothingFits(pieces: seq<string>)
    ensures Fits([], pieces) <==> pieces == []
  {
  }

  lemma TextOf(w: string, rest: seq<string>)
    ensures Concat(Singles(w) + rest) == w + Concat(rest)
  {
    ConcatAppend(Singles(w), rest);
    ConcatSingles(w);
  }

  lemma TextOfOne(piece: string, rest: seq<string>)
    ensures Concat([piece] + rest) == piece + Concat(rest)
  {
    assert ([piece] + rest)[1..] == rest;
  }
}
