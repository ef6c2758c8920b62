/** Namespace removal: `remove_namespace` of `wsd.rs`, which deletes every match of `[a-zA-Z_][a-zA-Z_0-9-]*:`. */
module Namespace {
  import Text

  predicate IsStart(c: char) { 'a' <= c <= 'z' || 'A' <= c <= 'Z' || c == '_' }

  predicate IsPart(c: char) { IsStart(c) || '0' <= c <= '9' || c == '-' }

  /** The prefix `s[p..q]` is a match: a start, parts, and a colon. */
  predicate IsPrefix(s: string, p: nat, q: nat) {
    && p + 2 <= q <= |s|
    && IsStart(s[p])
    && s[q - 1] == ':'
    && forall i :: p < i < q - 1 ==> IsPart(s[i])
  }

  ghost predicate MatchesAt(s: string, p: nat) { exists q: nat :: IsPrefix(s, p, q) }

  /** The end of the run of parts from `p` on. */
  function PartsEnd(s: string, p: nat): (q: nat)
    requires p <= |s|
    ensures p <= q <= |s| && (forall i :: p <= i < q ==> IsPart(s[i])) && (q < |s| ==> !IsPart(s[q]))
    decreases |s| - p
  {
    if p < |s| && IsPart(s[p]) then PartsEnd(s, p + 1) else p
  }

  /** A match at `p` can only end at the colon behind the run of parts. */
  lemma MatchIsRun(s: string, p: nat)
    requires p <= |s|
    ensures MatchesAt(s, p) <==> p < |s| && IsStart(s[p]) && PartsEnd(s, p) < |s| && s[PartsEnd(s, p)] == ':'
    ensures forall q: nat :: IsPrefix(s, p, q) ==> q == PartsEnd(s, p) + 1
  {
    var e := PartsEnd(s, p);
    if p < |s| && IsStart(s[p]) && e < |s| && s[e] == ':' {
      assert IsPrefix(s, p, e + 1);
    }
    forall q: nat | IsPrefix(s, p, q) ensures q == e + 1 {
      var x, y := s[q - 1], if e < |s| then s[e] else 'x';
    }
  }

  /** What replacing every match by nothing means: from `p` on, delete the leftmost match and go on behind it. */
  ghost function Deleted(s: string, p: nat): string
    requires p <= |s|
    decreases |s| - p
  {
    if p == |s| then ""
    else if MatchesAt(s, p) then
      MatchIsRun(s, p);
      Deleted(s, PartsEnd(s, p) + 1)
    else [s[p]] + Deleted(s, p + 1)
  }

  lemma DeletedStep(s: string, p: nat)
    requires p <= |s|
    ensures p == |s| ==> Deleted(s, p) == ""
    ensures p < |s| && !MatchesAt(s, p) ==> Deleted(s, p) == [s[p]] + Deleted(s, p + 1)
    ensures MatchesAt(s, p) ==> PartsEnd(s, p) < |s| && Deleted(s, p) == Deleted(s, PartsEnd(s, p) + 1)
  {
    MatchIsRun(s, p);
  }

  method RemoveNamespace(value: string) returns (out: string)
    ensures out == Deleted(value, 0)
  {
    hide Deleted, MatchesAt;
    out := "";
    var i := 0;
    while i < |value|
      invariant 0 <= i <= |value|
      invariant out + Deleted(value, i) == Deleted(value, 0)
    {
      MatchIsRun(value, i);
      DeletedStep(value, i);
      if IsStart(value[i]) {
        var j := i;
        while j < |value| && IsPart(value[j])
          invariant i <= j <= |value| && PartsEnd(value, j) == PartsEnd(value, i)
        {
          j := j + 1;
        }
        if j < |value| && value[j] == ':' {
          i := j + 1;
          continue;
        }
        RunIsKept(value, i, j);
        assert out + (value[i..j] + Deleted(value, j)) == out + value[i..j] + Deleted(value, j);
        out := out + value[i..j];
        i := j;
      } else {
        assert out + ([value[i]] + Deleted(value, i + 1)) == out + [value[i]] + Deleted(value, i + 1);
        out := out + [value[i]];
        i := i + 1;
      }
    }
    DeletedStep(value, i);
  }

  /** No match begins inside a run of parts that no colon follows. */
  lemma {:induction false} RunIsKept(s: string, i: nat, j: nat)
    requires i <= j <= |s| && PartsEnd(s, i) == j && (j < |s| ==> s[j] != ':')
    ensures Deleted(s, i) == s[i..j] + Deleted(s, j)
    decreases j - i
  {
    hide Deleted, MatchesAt;
    if i < j {
      MatchIsRun(s, i);
      DeletedStep(s, i);
      RunIsKept(s, i + 1, j);
      assert s[i..j] == [s[i]] + s[i + 1..j];
    }
  }

  // ---------- nothing is left to delete ----------

  /** The result has no match: a kept run is followed in the result by what follows it in the text. */
  lemma {:induction false} NothingLeft(s: string, p: nat)
    requires p <= |s|
    ensures forall k :: 0 <= k <= |Deleted(s, p)| ==> !MatchesAt(Deleted(s, p), k)
    decreases |s| - p
  {
    if p < |s| {
      MatchIsRun(s, p);
      if MatchesAt(s, p) {
        NothingLeft(s, PartsEnd(s, p) + 1);
      } else if IsStart(s[p]) {
        var e := PartsEnd(s, p);
        RunIsKept(s, p, e);
        NothingLeft(s, e);
        KeptRun(s, p, e);
      } else {
        NothingLeft(s, p + 1);
        Extend([s[p]], Deleted(s, p + 1));
      }
    }
  }

  lemma KeptRun(s: string, p: nat, e: nat)
    requires p < e <= |s| && e == PartsEnd(s, p) && (e < |s| ==> s[e] != ':')
    requires Deleted(s, p) == s[p..e] + Deleted(s, e)
    requires forall k :: 0 <= k <= |Deleted(s, e)| ==> !MatchesAt(Deleted(s, e), k)
    ensures forall k :: 0 <= k <= |Deleted(s, p)| ==> !MatchesAt(Deleted(s, p), k)
  {
    var d := Deleted(s, e);
    if e < |s| {
      MatchIsRun(s, e);
      assert d[0] == s[e];
    }
    ExtendRun(s[p..e], d);
  }

  /** A run of parts before a text that begins with neither a part nor a colon adds no match. */
  lemma ExtendRun(run: string, d: string)
    requires forall c <- run :: IsPart(c)
    requires d != "" ==> !IsPart(d[0]) && d[0] != ':'
    requires forall k :: 0 <= k <= |d| ==> !MatchesAt(d, k)
    ensures forall k :: 0 <= k <= |run + d| ==> !MatchesAt(run + d, k)
  {
    var t, n := run + d, |run|;
    forall k | 0 <= k <= |t| ensures !MatchesAt(t, k) {
      if k < n {
        MatchIsRun(t, k);
        assert forall i :: k <= i < n ==> IsPart(t[i]) by {
          forall i | k <= i < n ensures IsPart(t[i]) { assert t[i] == run[i] && run[i] in run; }
        }
        assert n < |t| ==> t[n] == d[0];
      } else {
        SuffixMatch(run, d, k - n);
      }
    }
  }

  lemma {:induction false} PartsEndShifts(a: string, d: string, k: nat)
    requires k <= |d|
    ensures PartsEnd(a + d, |a| + k) == |a| + PartsEnd(d, k)
    decreases |d| - k
  {
    if k < |d| {
      assert (a + d)[|a| + k] == d[k];
      PartsEndShifts(a, d, k + 1);
    }
  }

  /** Matches behind a prefix are the matches of the rest. */
  lemma SuffixMatch(a: string, d: string, k: nat)
    requires k <= |d|
    ensures MatchesAt(a + d, |a| + k) <==> MatchesAt(d, k)
  {
    hide MatchesAt;
    PartsEndShifts(a, d, k);
    MatchIsRun(a + d, |a| + k);
    MatchIsRun(d, k);
    assert forall i :: 0 <= i < |d| ==> (a + d)[|a| + i] == d[i];
  }

  /** A character that begins no name before a text without matches adds none. */
  lemma Extend(c: string, d: string)
    requires |c| == 1 && !IsStart(c[0])
    requires forall k :: 0 <= k <= |d| ==> !MatchesAt(d, k)
    ensures forall k :: 0 <= k <= |c + d| ==> !MatchesAt(c + d, k)
  {
    forall k | 0 <= k <= |c + d| ensures !MatchesAt(c + d, k) {
      if k > 0 { SuffixMatch(c, d, k - 1); }
    }
  }

  lemma {:induction false} NoMatchNoChange(s: string, p: nat)
    requires p <= |s| && forall k :: p <= k <= |s| ==> !MatchesAt(s, k)
    ensures Deleted(s, p) == s[p..]
    decreases |s| - p
  {
    if p < |s| { NoMatchNoChange(s, p + 1); }
  }

  /** After removal no prefix is left, so removing again changes nothing. */
  lemma Idempotent(s: string)
    ensures forall k :: 0 <= k <= |Deleted(s, 0)| ==> !MatchesAt(Deleted(s, 0), k)
    ensures Deleted(Deleted(s, 0), 0) == Deleted(s, 0)
  {
    NothingLeft(s, 0);
    NoMatchNoChange(Deleted(s, 0), 0);
  }

  /** A name begins with a letter or an underscore and goes on with these, digits and hyphens. */
  lemma NameCharacters(c: char)
    ensures IsStart(c) <==> c == '_' || exists k :: 0 <= k < 26 && (c == Text.CAPITALS[k] || c == Text.SMALL[k])
    ensures IsPart(c) <==> IsStart(c) || c in "0123456789-"
  {
    forall k: nat | k < 26 ensures Text.CAPITALS[k] as int == 0x41 + k && Text.SMALL[k] as int == 0x61 + k {
      Text.Alphabets(k);
    }
    if 'A' <= c <= 'Z' { assert c == Text.CAPITALS[c as int - 0x41]; }
    if 'a' <= c <= 'z' { assert c == Text.SMALL[c as int - 0x61]; }
    DigitsAndHyphen(c);
  }

  lemma DigitsAndHyphen(c: char)
    ensures c in "0123456789-" <==> '0' <= c <= '9' || c == '-'
  {
    var n := c as int - '0' as int;
    if 0 <= n <= 9 { assert c == "0123456789-"[n]; }
    assert "0123456789-"[10] == '-';
  }
}
