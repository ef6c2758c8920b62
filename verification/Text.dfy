/** Splitting text at a separator and joining the pieces, and the letters of ASCII. */
module Text {

  /** The pieces of `s` between separators; there is always at least one. */
  function Split<T(==)>(s: seq<T>, sep: T): (pieces: seq<seq<T>>)
    ensures pieces != []
    ensures forall l <- pieces :: sep !in l && forall c <- l :: c in s
  {
    if s == [] then [[]]
    else
      var rest := Split(s[1..], sep);
      assert rest[0] in rest && s[0] in s;
      assert forall c :: c in s[1..] ==> c in s;
      if s[0] == sep then [[]] + rest
      else
        assert forall l :: l in rest[1..] ==> l in rest;
        [[s[0]] + rest[0]] + rest[1..]
  }

  function Join<T>(pieces: seq<seq<T>>, sep: T): seq<T> {
    if pieces == [] then []
    else if |pieces| == 1 then pieces[0]
    else pieces[0] + [sep] + Join(pieces[1..], sep)
  }

  lemma {:induction false} JoinSplit<T>(s: seq<T>, sep: T)
    ensures Join(Split(s, sep), sep) == s
  {
    hide Split, Join;
    if s == [] {
      SplitStep([], sep);
      JoinOne([], sep);
    } else {
      JoinSplit(s[1..], sep);
      var rest := Split(s[1..], sep);
      assert s == [s[0]] + s[1..];
      if s[0] == sep {
        SplitStep(s[1..], sep);
        JoinMore([], rest, sep);
        assert [] + [sep] + s[1..] == [sep] + s[1..];
      } else {
        SplitMore(s[0], s[1..], sep);
        JoinFront(s[0], rest, sep);
      }
    }
  }

  lemma JoinOne<T>(l: seq<T>, sep: T)
    ensures Join([l], sep) == l
  {
  }

  lemma JoinMore<T>(l: seq<T>, rest: seq<seq<T>>, sep: T)
    requires rest != []
    ensures Join([l] + rest, sep) == l + [sep] + Join(rest, sep)
  {
    assert ([l] + rest)[1..] == rest;
  }

  /** One more element in front of the first piece. */
  lemma JoinFront<T>(c: T, pieces: seq<seq<T>>, sep: T)
    requires pieces != []
    ensures Join([[c] + pieces[0]] + pieces[1..], sep) == [c] + Join(pieces, sep)
  {
    hide Join;
    var l, rest := pieces[0], pieces[1..];
    if rest == [] {
      JoinOne(l, sep);
      JoinOne([c] + l, sep);
      assert pieces == [l] && [[c] + l] + rest == [[c] + l];
    } else {
      JoinMore(l, rest, sep);
      JoinMore([c] + l, rest, sep);
      assert pieces == [l] + rest;
      assert [c] + l + [sep] + Join(rest, sep) == [c] + (l + [sep] + Join(rest, sep));
    }
  }

  lemma {:induction false} SplitPiece<T>(l: seq<T>, rest: seq<T>, sep: T)
    requires sep !in l
    ensures Split(l, sep) == [l]
    ensures Split(l + [sep] + rest, sep) == [l] + Split(rest, sep)
  {
    hide Split;
    SplitStep(rest, sep);
    if l == [] {
      assert l + [sep] + rest == [sep] + rest;
    } else {
      assert l[0] in l && forall c :: c in l[1..] ==> c in l;
      SplitPiece(l[1..], rest, sep);
      SplitMore(l[0], l[1..], sep);
      SplitMore(l[0], l[1..] + [sep] + rest, sep);
      assert l + [sep] + rest == [l[0]] + (l[1..] + [sep] + rest) && l == [l[0]] + l[1..];
      var more := [l[1..]] + Split(rest, sep);
      assert more[0] == l[1..] && more[1..] == Split(rest, sep);
    }
  }

  lemma SplitStep<T>(rest: seq<T>, sep: T)
    ensures Split([], sep) == [[]] && Split([sep] + rest, sep) == [[]] + Split(rest, sep)
  {
    assert ([sep] + rest)[1..] == rest;
  }

  lemma SplitMore<T>(c: T, s: seq<T>, sep: T)
    requires c != sep
    ensures Split([c] + s, sep) == [[c] + Split(s, sep)[0]] + Split(s, sep)[1..]
  {
    assert ([c] + s)[1..] == s;
  }

  lemma {:induction false} SplitJoin<T>(pieces: seq<seq<T>>, sep: T)
    requires pieces != [] && forall l <- pieces :: sep !in l
    ensures Split(Join(pieces, sep), sep) == pieces
  {
    hide Split;
    assert pieces[0] in pieces;
    if |pieces| == 1 {
      SplitPiece(pieces[0], [], sep);
      assert pieces == [pieces[0]];
    } else {
      assert forall l :: l in pieces[1..] ==> l in pieces;
      SplitJoin(pieces[1..], sep);
      SplitPiece(pieces[0], Join(pieces[1..], sep), sep);
      assert pieces == [pieces[0]] + pieces[1..];
    }
  }

  lemma {:induction false} JoinAppend<T>(a: seq<seq<T>>, b: seq<seq<T>>, sep: T)
    requires b != []
    ensures Join(a + b, sep) == if a == [] then Join(b, sep) else Join(a, sep) + [sep] + Join(b, sep)
  {
    if a == [] {
      assert a + b == b;
    } else {
      assert (a + b)[1..] == a[1..] + b;
      JoinAppend(a[1..], b, sep);
      if |a| > 1 {
        assert a[0] + [sep] + (Join(a[1..], sep) + [sep] + Join(b, sep))
            == a[0] + [sep] + Join(a[1..], sep) + [sep] + Join(b, sep);
      }
    }
  }

  /** Joining loses no length but what the pieces lose. */
  lemma {:induction false} JoinLength<T>(a: seq<seq<T>>, b: seq<seq<T>>, sep: T)
    requires |a| == |b| && forall k :: 0 <= k < |a| ==> |a[k]| <= |b[k]|
    ensures |Join(a, sep)| <= |Join(b, sep)|
    ensures (exists k :: 0 <= k < |a| && |a[k]| < |b[k]|) ==> |Join(a, sep)| < |Join(b, sep)|
  {
    if |a| > 0 {
      var a', b' := a[1..], b[1..];
      assert forall k :: 0 <= k < |a'| ==> a'[k] == a[k + 1] && b'[k] == b[k + 1];
      JoinLength(a', b', sep);
      if k :| 0 <= k < |a| && |a[k]| < |b[k]| {
        assert k > 0 ==> |a'[k - 1]| < |b'[k - 1]|;
      }
    }
  }

  /** Pieces of no greater lengths that join to the same text are the same pieces. */
  lemma {:induction false} JoinIsInjective<T>(a: seq<seq<T>>, b: seq<seq<T>>, sep: T)
    requires |a| == |b| && forall k :: 0 <= k < |a| ==> |a[k]| <= |b[k]|
    requires Join(a, sep) == Join(b, sep)
    ensures a == b
  {
    if |a| > 1 {
      assert forall k :: 0 <= k < |a| - 1 ==> a[1..][k] == a[k + 1] && b[1..][k] == b[k + 1];
      JoinLength(a[1..], b[1..], sep);
      var s := Join(a, sep);
      assert s == a[0] + ([sep] + Join(a[1..], sep)) && s == b[0] + ([sep] + Join(b[1..], sep));
      assert |a[0]| == |b[0]|;
      assert a[0] == s[..|a[0]|] == b[0];
      assert Join(a[1..], sep) == s[|a[0]| + 1..] == Join(b[1..], sep);
      JoinIsInjective(a[1..], b[1..], sep);
      assert a == [a[0]] + a[1..] && b == [b[0]] + b[1..];
    }
  }

  // ---------- letters ----------

  const CAPITALS := "ABCDEFGHIJKLMNOPQRSTUVWXYZ"
  const SMALL := "abcdefghijklmnopqrstuvwxyz"

  /** The ASCII letters of the two cases stand at the same places of their alphabets. */
  lemma Alphabets(i: nat)
    requires i < 26
    ensures |CAPITALS| == |SMALL| == 26 && CAPITALS[i] as int == 0x41 + i && SMALL[i] as int == 0x61 + i
  {
    assert forall k :: 0 <= k < 9 ==> CAPITALS[k] as int == 0x41 + k && SMALL[k] as int == 0x61 + k;
    assert forall k :: 9 <= k < 18 ==> CAPITALS[k] as int == 0x41 + k && SMALL[k] as int == 0x61 + k;
    assert forall k :: 18 <= k < 26 ==> CAPITALS[k] as int == 0x41 + k && SMALL[k] as int == 0x61 + k;
  }
}
