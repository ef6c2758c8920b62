/** The encoder on unbounded arithmetic, and which inputs survive the u32 arithmetic of the program. */
module PunycodeExact {
  import opened Arithmetic
  import opened Bytes
  import opened Punycode
  import opened Rfc3492
  import Sequences

  /** The deltas still to be written when every code point below `n` is placed. */
  ghost function OuterDeltas(input: seq<CodePoint>, n: nat, delta: nat): seq<nat>
    requires n <= 0x11_0000
    decreases 0x11_0000 - n, |input| + 1
  {
    var h := |Below(input, n)|;
    if h >= |input| then []
    else
      BelowAll(input, n);
      var m := Least(input, n);
      InnerDeltas(input, 0, m, delta + Mul(m - n, h + 1))
  }

  /** The deltas still to be written from index `i` of the pass for `n` on. */
  ghost function InnerDeltas(input: seq<CodePoint>, i: nat, n: CodePoint, delta: nat): seq<nat>
    requires i <= |input|
    decreases 0x11_0000 - n, |input| - i
  {
    if i == |input| then OuterDeltas(input, n + 1, delta + 1)
    else if input[i] == n then [delta] + InnerDeltas(input, i + 1, n, 0)
    else InnerDeltas(input, i + 1, n, if input[i] < n then delta + 1 else delta)
  }

  /** The deltas of section 6.3 of RFC 3492, in order. */
  ghost function Deltas(input: seq<CodePoint>): seq<nat> { OuterDeltas(input, 0x80, 0) }

  /** The digit runs of some deltas, with `h` code points placed and `b` of them basic. */
  ghost function Runs(deltas: seq<nat>, bias: nat, h: nat, b: nat): (r: seq<CodePoint>)
    ensures forall c <- r :: IsDigit(c)
    decreases |deltas|
  {
    if deltas == [] then []
    else VarDigits(deltas[0], 36, bias) + Runs(deltas[1..], Adapt(deltas[0], h + 1, h == b), h + 1, b)
  }

  /** The encoding of section 6.3 of RFC 3492, whatever the size of its deltas. */
  ghost function ExactEncode(input: seq<CodePoint>): seq<CodePoint> {
    var basic := Below(input, 0x80);
    basic + (if basic == [] then [] else [DELIMITER]) + Runs(Deltas(input), 72, |basic|, |basic|)
  }

  ghost predicate Fit(deltas: seq<nat>) { forall d <- deltas :: d <= U32_MAX }

  lemma RunsCons(d: nat, rest: seq<nat>, bias: nat, h: nat, b: nat)
    ensures Runs([d] + rest, bias, h, b) == VarDigits(d, 36, bias) + Runs(rest, Adapt(d, h + 1, h == b), h + 1, b)
    ensures Fit([d] + rest) <==> d <= U32_MAX && Fit(rest)
  {
    hide VarDigits, Adapt;
    assert ([d] + rest)[0] == d && ([d] + rest)[1..] == rest;
    FitCons(d, rest);
  }

  lemma FitCons(d: nat, rest: seq<nat>)
    ensures Fit([d] + rest) <==> d <= U32_MAX && Fit(rest)
  {
    var ds := [d] + rest;
    assert d in ds && forall x: nat :: x in rest ==> x in ds;
    assert forall x: nat :: x in ds ==> x == d || x in rest;
  }

  // ---------- saturation ----------

  function Cap(x: nat): U32 { if x <= U32_MAX then x else U32_MAX }

  lemma CapAdds(delta: nat, a: nat, b: nat)
    ensures SatAdd(Cap(delta), a) == Cap(delta + a)
    ensures SatAdd(Cap(delta), SatMul(a, b)) == Cap(delta + Mul(a, b))
  {
    assert SatMul(a, b) == Cap(Mul(a, b));
  }

  /** When every code point is placed nothing is left to write. */
  lemma NothingLeft(input: seq<CodePoint>, n: nat, b: nat, s: Coder, delta: nat)
    requires n <= 0x11_0000 && s.h == |Below(input, n)| && s.h >= |input|
    ensures Outer(input, n, b, s) == [] == Runs([], s.bias, s.h, b) && OuterDeltas(input, n, delta) == [] && Fit([])
  {
  }

  /** While the deltas fit, the encoder writes their runs. */
  lemma {:induction false} OuterCapped(input: seq<CodePoint>, n: nat, b: nat, s: Coder, delta: nat)
    requires s.h == |Below(input, n)| && n <= 0x11_0000 && s.delta == Cap(delta)
    requires Fit(OuterDeltas(input, n, delta))
    ensures Outer(input, n, b, s) == Runs(OuterDeltas(input, n, delta), s.bias, s.h, b)
    decreases 0x11_0000 - n, |input| + 1
  {
    hide Inner, InnerDeltas, Outer, OuterDeltas, Runs, Mul, SatAdd, SatMul, Cap, Fit, Placed, Least, IsLeast, Reaches,
      Below;
    if s.h >= |input| {
      NothingLeft(input, n, b, s, delta);
    } else {
      OuterJumps(input, n, b, s);
      OuterStarts(input, n, delta);
      var m := Least(input, n);
      CapAdds(delta, m - n, s.h + 1);
      InnerCapped(input, 0, m, b, s.(delta := SatAdd(s.delta, SatMul(m - n, s.h + 1))), delta + Mul(m - n, s.h + 1));
    }
  }

  lemma {:induction false} InnerCapped(input: seq<CodePoint>, i: nat, n: CodePoint, b: nat, s: Coder, delta: nat)
    requires i <= |input| && s.h == |Placed(input, i, n)| && s.delta == Cap(delta)
    requires Fit(InnerDeltas(input, i, n, delta))
    ensures Inner(input, i, n, b, s) == Runs(InnerDeltas(input, i, n, delta), s.bias, s.h, b)
    decreases 0x11_0000 - n, |input| - i
  {
    hide Outer, OuterDeltas, Runs, Fit, Adapt, VarDigits, SatAdd, Below, Placed;
    CapAdds(delta, 1, 0);
    if i == |input| {
      PlacedEnds(input, n);
      OuterCapped(input, n + 1, b, s.(delta := SatAdd(s.delta, 1)), delta + 1);
    } else {
      PlacedStep(input, i, n);
      if input[i] == n {
        var s' := EmitsRun(input, i, n, b, s);
        var rest := InnerDeltas(input, i + 1, n, 0);
        RunsCons(delta, rest, s.bias, s.h, b);
        InnerCapped(input, i + 1, n, b, s', 0);
      } else if input[i] < n {
        InnerCapped(input, i + 1, n, b, s.(delta := SatAdd(s.delta, 1)), delta + 1);
      } else {
        InnerCapped(input, i + 1, n, b, s, delta);
      }
    }
  }

  lemma EmitsRun(input: seq<CodePoint>, i: nat, n: CodePoint, b: nat, s: Coder) returns (s': Coder)
    requires i < |input| && input[i] == n && s.h == |Placed(input, i, n)|
    ensures s'.delta == 0 && s'.h == s.h + 1 == |Placed(input, i + 1, n)|
    ensures s'.bias == Adapt(s.delta, s.h + 1, s.h == b)
    ensures Inner(input, i, n, b, s) == VarDigits(s.delta, 36, s.bias) + Inner(input, i + 1, n, b, s')
  {
    hide Adapt, VarDigits;
    PlacedStep(input, i, n);
    s' := Coder(0, Adapt(s.delta, s.h + 1, s.h == b), s.h + 1);
  }

  // ---------- the exact encoding decodes ----------

  /** The longest input whose deltas all fit a u32. */
  const MAX_POINTS := 3855

  /** `n` jumps to the next code point; the decoder has not moved. */
  lemma Jump(delta: nat, n: nat, m: nat, nd: nat, h: nat, id: nat)
    requires InStep(delta, n, nd, h, 0, id) && n <= m
    ensures InStep(delta + Mul(m - n, h + 1), m, nd, h, 0, id)
  {
    hide Mul;
    MulAdds(m - n, n - nd, h + 1);
  }

  lemma Wrap(delta: nat, n: nat, nd: nat, h: nat, id: nat)
    requires InStep(delta, n, nd, h, h, id)
    ensures InStep(delta + 1, n + 1, nd, h, 0, id)
  {
    hide Mul;
    MulAdds(1, n - nd, h + 1);
    MulEnds(h + 1);
  }

  lemma FreshStep(n: nat, h: nat, pos: nat)
    ensures InStep(0, n, n, h, pos, pos)
  {
    MulEnds(h + 1);
  }

  /** In a short input no delta that is written reaches the saturation bound. */
  lemma SmallDelta(delta: nat, n: nat, nd: nat, h: nat, pos: nat, id: nat)
    requires InStep(delta, n, nd, h, pos, id) && pos <= h < MAX_POINTS && 0x80 <= nd && n < 0x11_0000
    ensures delta <= U32_MAX
  {
    MulGrows(n - nd, 0x10_FFFF - 0x80, h + 1, MAX_POINTS);
  }

  lemma Seen(input: seq<CodePoint>, i: nat, n: nat)
    requires i <= |input|
    ensures |Below(input[..i], n + 1)| <= |Placed(input, i, n)|
    ensures i < |input| && input[i] == n ==> |Placed(input, i, n)| < |input|
  {
    hide Below;
    if i < |input| {
      PlacedStep(input, i, n);
      assert |input[..i]| + |input[i + 1..]| < |input|;
    }
  }

  lemma {:induction false} OuterDecodes(input: seq<CodePoint>, n: nat, delta: nat, bias: nat, b: nat, nd: nat, id: nat)
    requires n <= 0x11_0000 && 0x80 <= nd && b <= |Below(input, n)|
    requires InStep(delta, n, nd, |Below(input, n)|, 0, id) && (id == 0 <==> |Below(input, n)| == b)
    ensures var deltas, h := OuterDeltas(input, n, delta), |Below(input, n)|;
            && Insertions(Runs(deltas, bias, h, b), Below(input, n), nd, id, bias) == Some(input)
            && (|input| <= MAX_POINTS ==> Fit(deltas))
    decreases 0x11_0000 - n, |input| + 1
  {
    hide InnerDeltas, OuterDeltas, InStep, Mul, Runs, Fit, Insertions, Least, IsLeast, Reaches, Placed, Below;
    var h := |Below(input, n)|;
    if h < |input| {
      OuterStarts(input, n, delta);
      var m := Least(input, n);
      Jump(delta, n, m, nd, h, id);
      NothingSeen(input, m + 1);
      InnerDecodes(input, 0, m, delta + Mul(m - n, h + 1), bias, b, nd, id);
    } else {
      AllPlaced(input, n, delta);
      NoRuns(bias, h, b, input, nd, id);
    }
  }

  lemma NothingSeen(input: seq<CodePoint>, n: nat)
    ensures Below(input[..0], n) == []
  {
  }

  lemma AllPlaced(input: seq<CodePoint>, n: nat, delta: nat)
    requires n <= 0x11_0000 && |Below(input, n)| >= |input|
    ensures Below(input, n) == input && OuterDeltas(input, n, delta) == [] && Fit([])
  {
    BelowAll(input, n);
  }

  lemma NoRuns(bias: nat, h: nat, b: nat, out: seq<CodePoint>, nd: nat, id: nat)
    ensures Runs([], bias, h, b) == [] && Insertions([], out, nd, id, bias) == Some(out)
  {
  }

  lemma OuterStarts(input: seq<CodePoint>, n: nat, delta: nat)
    requires n <= 0x11_0000 && |Below(input, n)| < |input|
    ensures Reaches(input, n)
    ensures var m := Least(input, n);
            && n <= m && Placed(input, 0, m) == Below(input, n)
            && OuterDeltas(input, n, delta) == InnerDeltas(input, 0, m, delta + Mul(m - n, |Below(input, n)| + 1))
  {
    hide InnerDeltas, Mul;
    BelowAll(input, n);
    BelowGap(input, n, Least(input, n));
    PlacedEnds(input, Least(input, n));
  }

  /** From any point of a pass, the decoder turns the runs that are left into the input. */
  lemma {:induction false} InnerDecodes(input: seq<CodePoint>, i: nat, n: CodePoint, delta: nat, bias: nat, b: nat,
                                        nd: nat, id: nat)
    requires i <= |input| && 0x80 <= nd && b <= |Placed(input, i, n)|
    requires InStep(delta, n, nd, |Placed(input, i, n)|, |Below(input[..i], n + 1)|, id)
    requires id == 0 <==> |Placed(input, i, n)| == b
    ensures var deltas, h := InnerDeltas(input, i, n, delta), |Placed(input, i, n)|;
            && Insertions(Runs(deltas, bias, h, b), Placed(input, i, n), nd, id, bias) == Some(input)
            && (|input| <= MAX_POINTS ==> Fit(deltas))
    decreases 0x11_0000 - n, |input| - i
  {
    hide OuterDeltas, InStep, Mul, Runs, Insertions, Placed, Fit, Adapt, VarDigits, Below;
    var out, pos := Placed(input, i, n), |Below(input[..i], n + 1)|;
    if i == |input| {
      PlacedEnds(input, n);
      assert input[..i] == input;
      Wrap(delta, n, nd, |out|, id);
      OuterDecodes(input, n + 1, delta + 1, bias, b, nd, id);
    } else {
      PlacedStep(input, i, n);
      if input[i] == n {
        EmitDecodes(input, i, n, delta, bias, b, nd, id);
      } else {
        if input[i] < n { StepsOn(delta, n, nd, |out|, pos, id); }
        InnerDecodes(input, i + 1, n, if input[i] < n then delta + 1 else delta, bias, b, nd, id);
      }
    }
  }

  lemma StepsOn(delta: nat, n: nat, nd: nat, h: nat, pos: nat, id: nat)
    requires InStep(delta, n, nd, h, pos, id)
    ensures InStep(delta + 1, n, nd, h, pos + 1, id)
  {
  }

  /** The step that writes a run: the decoder inserts `n` where the encoder stands. */
  lemma {:induction false} EmitDecodes(input: seq<CodePoint>, i: nat, n: CodePoint, delta: nat, bias: nat, b: nat,
                                       nd: nat, id: nat)
    requires i < |input| && input[i] == n && 0x80 <= nd && b <= |Placed(input, i, n)|
    requires InStep(delta, n, nd, |Placed(input, i, n)|, |Below(input[..i], n + 1)|, id)
    requires id == 0 <==> |Placed(input, i, n)| == b
    ensures var deltas, h := InnerDeltas(input, i, n, delta), |Placed(input, i, n)|;
            && Insertions(Runs(deltas, bias, h, b), Placed(input, i, n), nd, id, bias) == Some(input)
            && (|input| <= MAX_POINTS ==> Fit(deltas))
    decreases 0x11_0000 - n, |input| - i, 0
  {
    hide OuterDeltas, InStep, Mul, Runs, Insertions, Placed, Fit, Adapt, VarDigits, Below, Insert;
    var out, pos := Placed(input, i, n), |Below(input[..i], n + 1)|;
    var h, rest := |out|, InnerDeltas(input, i + 1, n, 0);
    var bias' := Adapt(delta, h + 1, h == b);
    PlacedInserts(input, i, n);
    RunsCons(delta, rest, bias, h, b);
    InsertsOne(delta, bias, out, n, nd, id, pos, Runs(rest, bias', h + 1, b));
    FreshStep(n, h + 1, pos + 1);
    InnerDecodes(input, i + 1, n, 0, bias', b, n, pos + 1);
    Seen(input, i, n);
    if |input| <= MAX_POINTS { SmallDelta(delta, n, nd, h, pos, id); }
  }

  /** Placing `input[i]` inserts it behind the code points seen so far. */
  lemma PlacedInserts(input: seq<CodePoint>, i: nat, n: CodePoint)
    requires i < |input| && input[i] == n
    ensures var out, pos := Placed(input, i, n), |Below(input[..i], n + 1)|;
            && pos <= |out| && Insert(out, pos, n) == Placed(input, i + 1, n)
            && |Placed(input, i + 1, n)| == |out| + 1 && |Below(input[..i + 1], n + 1)| == pos + 1
  {
    hide Below;
    PlacedStep(input, i, n);
    var seen, behind := Below(input[..i], n + 1), Below(input[i + 1..], n);
    assert Placed(input, i, n) == seen + behind && Insert(seen + behind, |seen|, n) == seen + [n] + behind;
  }

  /** Section 6.2 of RFC 3492 undoes the exact encoder on every input, and the deltas of a short input fit. */
  lemma ExactRoundTrip(input: seq<CodePoint>)
    ensures Decode(ExactEncode(input)) == Some(input)
    ensures |input| <= MAX_POINTS ==> Fit(Deltas(input))
  {
    hide Decode, Insertions, OuterDeltas, Runs, InStep, Fit;
    var basic := Below(input, 0x80);
    DecodeParts(basic, Runs(Deltas(input), 72, |basic|, |basic|));
    FreshStep(0x80, |basic|, 0);
    OuterDecodes(input, 0x80, 0, 72, |basic|, 0x80, 0);
  }

  /** While its deltas fit, saturation has no effect on an encoding. */
  lemma FitIsExact(input: seq<CodePoint>)
    requires Fit(Deltas(input))
    ensures Encode(input) == ExactEncode(input)
  {
    hide Outer, OuterDeltas, Runs;
    var b := |Below(input, 0x80)|;
    OuterCapped(input, 0x80, b, Coder(0, 72, b), 0);
  }

  // ---------- a delta that does not fit ----------

  lemma {:induction false} BelowBelow(s: seq<CodePoint>, n: nat, m: nat)
    requires m <= n
    ensures Below(Below(s, n), m) == Below(s, m)
  {
    if s != [] {
      BelowBelow(s[1..], n, m);
      BelowSplit(if s[0] < n then [s[0]] else [], Below(s[1..], n), m);
    }
  }

  lemma BelowInsert(out: seq<CodePoint>, pos: nat, c: CodePoint, m: nat)
    requires pos <= |out|
    ensures Below(Insert(out, pos, c), m) == Below(out[..pos], m) + (if c < m then [c] else []) + Below(out[pos..], m)
    ensures Below(out, m) == Below(out[..pos], m) + Below(out[pos..], m)
  {
    assert out == out[..pos] + out[pos..];
    BelowSplit(out[..pos], out[pos..], m);
    BelowSplit(out[..pos] + [c], out[pos..], m);
    BelowSplit(out[..pos], [c], m);
  }

  /** What the decoder inserts is never below its state: it adds to what stands and keeps what is below. */
  lemma {:induction false} OnlyAdds(s: seq<CodePoint>, out: seq<CodePoint>, n: nat, i: nat, bias: nat, m: nat)
    requires Insertions(s, out, n, i, bias).Some?
    ensures var final := Insertions(s, out, n, i, bias).value;
            && |Below(final, m)| >= |Below(out, m)|
            && (m <= n ==> Below(final, m) == Below(out, m))
    decreases |s|
  {
    hide Below, RfcAdapt, ReadDelta, Mul, Insert, Div, Mod;
    if s != [] {
      var (i', rest) := ReadDelta(s, BASE, bias, 1, i).value;
      var size := |out| + 1;
      var n', pos := n + Div(i', size), Mod(i', size);
      BelowInsert(out, pos, n', m);
      OnlyAdds(rest, Insert(out, pos, n'), n', pos + 1, RfcAdapt(i' - i, size, i == 0), m);
    }
  }

  /** What stands before the decoder's place, up to its code point, stays in front. */
  lemma {:induction false} KeepsFront(s: seq<CodePoint>, out: seq<CodePoint>, n: nat, i: nat, bias: nat)
    requires i <= |out| && Insertions(s, out, n, i, bias).Some?
    ensures Below(out[..i], n + 1) <= Below(Insertions(s, out, n, i, bias).value, n + 1)
    decreases |s|
  {
    hide Below, RfcAdapt, ReadDelta, Mul, Insert, Div, Mod;
    BelowInsert(out, i, 0, n + 1);
    if s != [] {
      var (i', rest) := ReadDelta(s, BASE, bias, 1, i).value;
      var size := |out| + 1;
      var n', pos := n + Div(i', size), Mod(i', size);
      var out', bias' := Insert(out, pos, n'), RfcAdapt(i' - i, size, i == 0);
      if n' > n {
        BelowInsert(out, pos, n', n + 1);
        OnlyAdds(rest, out', n', pos + 1, bias', n + 1);
        assert Below(out', n + 1) == Below(out, n + 1);
        assert Insertions(s, out, n, i, bias) == Insertions(rest, out', n', pos + 1, bias');
      } else {
        NoCarry(i', size);
        InsertedFront(out, i, pos, n);
        KeepsFront(rest, out', n', pos + 1, bias');
      }
    }
  }

  lemma NoCarry(x: nat, m: nat)
    requires m > 0 && Div(x, m) == 0
    ensures Mod(x, m) == x
  {
  }

  lemma InsertedFront(out: seq<CodePoint>, i: nat, pos: nat, n: CodePoint)
    requires i <= pos <= |out|
    ensures |Insert(out, pos, n)| == |out| + 1
    ensures Insert(out, pos, n)[..pos + 1] == out[..pos] + [n]
    ensures Below(out[..i], n + 1) <= Below(Insert(out, pos, n)[..pos + 1], n + 1)
  {
    hide Below;
    var front := Insert(out, pos, n)[..pos + 1];
    assert front == out[..pos] + [n];
    assert front == out[..i] + (out[i..pos] + [n]);
    BelowSplit(out[..i], out[i..pos] + [n], n + 1);
  }

  /** `n'` at `pos'` comes before the encoder's place: a smaller code point, or the same one further in front with a
      smaller one behind it. */
  ghost predicate Before(out: seq<CodePoint>, n': nat, pos': nat, n: nat, pos: nat) {
    pos' <= |out| && (n' < n || (n' == n && pos' < pos <= |out| && out[pos'] < n))
  }

  /** An insertion before the encoder's place is never made good. */
  lemma WrongInsertion(input: seq<CodePoint>, i: nat, n: CodePoint, n': CodePoint, pos': nat,
                       s: seq<CodePoint>, bias: nat)
    requires i <= |input| && Before(Placed(input, i, n), n', pos', n, |Below(input[..i], n + 1)|)
    ensures Insertions(s, Insert(Placed(input, i, n), pos', n'), n', pos' + 1, bias) != Some(input)
  {
    hide Below, Insertions, Insert;
    var out, seen := Placed(input, i, n), Below(input[..i], n + 1);
    var out' := Insert(out, pos', n');
    var r := Insertions(s, out', n', pos' + 1, bias);
    InsertedFront(out, pos', pos', n');
    InputFront(input, i, n);
    if r.Some? {
      if n' < n {
        OnlyAdds(s, out', n', pos' + 1, bias, n);
        BelowInsert(out, pos', n', n);
      } else {
        KeepsFront(s, out', n', pos' + 1, bias);
        AllBelow(input, i, n, pos');
        var front := out[..pos'] + [n];
        assert front <= Below(r.value, n + 1);
        assert Below(r.value, n + 1)[pos'] == front[pos'] == n;
        assert seen[pos'] == out[pos'];
      }
    }
  }

  /** What stands below `n`, and the front of what stands up to `n`, in the input. */
  lemma InputFront(input: seq<CodePoint>, i: nat, n: CodePoint)
    requires i <= |input|
    ensures Below(Placed(input, i, n), n) == Below(input, n)
    ensures Below(input[..i], n + 1) <= Below(input, n + 1)
  {
    hide Below;
    assert input == input[..i] + input[i..];
    BelowSplit(input[..i], input[i..], n + 1);
    BelowSplit(input[..i], input[i..], n);
    BelowSplit(Below(input[..i], n + 1), Below(input[i..], n), n);
    BelowBelow(input[..i], n + 1, n);
    BelowBelow(input[i..], n, n);
  }

  lemma AllBelow(input: seq<CodePoint>, i: nat, n: CodePoint, pos: nat)
    requires i <= |input| && pos <= |Placed(input, i, n)|
    ensures var front := Placed(input, i, n)[..pos] + [n]; Below(front, n + 1) == front
  {
    var out := Placed(input, i, n);
    var front := out[..pos] + [n];
    assert forall c <- out :: c < n + 1;
    forall c | c in front ensures c < n + 1 {
      assert c == n || c in out;
    }
    BelowAll(front, n + 1);
  }

  /** The code points seen since the decoder last inserted `n` are smaller. */
  ghost predicate SmallerSince(seen: seq<CodePoint>, n: nat, nd: nat, id: nat) {
    forall j :: (if nd == n then id else 0) <= j < |seen| ==> seen[j] < n
  }

  /** A delta cut down to `max` leads the decoder to a place before the encoder's. */
  lemma CutDelta(delta: nat, max: nat, n: CodePoint, nd: nat, out: seq<CodePoint>, pos: nat, id: nat)
    returns (n': CodePoint, pos': nat)
    requires InStep(delta, n, nd, |out|, pos, id) && max < delta && pos <= |out|
    requires SmallerSince(out[..pos], n, nd, id)
    ensures InStep(max, n', nd, |out|, pos', id) && Before(out, n', pos', n, pos)
  {
    var h, x := |out|, id + max;
    var q := x / (h + 1);
    pos' := x % (h + 1);
    Divided(x, h + 1);
    if q >= n - nd { MulGrows(n - nd, q, h + 1, h + 1); }
    if q > n - nd {
      MulGrows(n - nd + 1, q, h + 1, h + 1);
      MulAdds(n - nd, 1, h + 1);
      MulEnds(h + 1);
      assert false;
    }
    n' := nd + q;
    if n' == n {
      assert pos' < pos;
      if nd == n { MulEnds(h + 1); }
      assert out[pos'] == out[..pos][pos'];
    }
  }

  /** Once a delta that does not fit is reached, what the encoder writes does not decode to the input. */
  lemma {:induction false} OuterMisfits(input: seq<CodePoint>, n: nat, b: nat, s: Coder, delta: nat, nd: nat, id: nat)
    requires n <= 0x11_0000 && s.h == |Below(input, n)| && s.delta == Cap(delta) && b <= s.h
    requires InStep(delta, n, nd, s.h, 0, id) && (id == 0 <==> s.h == b)
    requires !Fit(OuterDeltas(input, n, delta))
    ensures Insertions(Outer(input, n, b, s), Below(input, n), nd, id, s.bias) != Some(input)
    decreases 0x11_0000 - n, |input| + 1
  {
    hide Inner, InnerDeltas, Outer, OuterDeltas, InStep, Mul, SatAdd, SatMul, Cap, Insertions, Placed, Least, IsLeast,
      Reaches, Fit, Below;
    if s.h >= |input| {
      NothingLeft(input, n, b, s, delta);
    } else {
      OuterJumps(input, n, b, s);
      OuterStarts(input, n, delta);
      var m := Least(input, n);
      CapAdds(delta, m - n, s.h + 1);
      Jump(delta, n, m, nd, s.h, id);
      NothingSeen(input, m + 1);
      var s' := s.(delta := SatAdd(s.delta, SatMul(m - n, s.h + 1)));
      InnerMisfits(input, 0, m, b, s', delta + Mul(m - n, s.h + 1), nd, id);
    }
  }

  lemma {:induction false} InnerMisfits(input: seq<CodePoint>, i: nat, n: CodePoint, b: nat, s: Coder, delta: nat,
                                        nd: nat, id: nat)
    requires i <= |input| && s.h == |Placed(input, i, n)| && s.delta == Cap(delta) && b <= s.h
    requires InStep(delta, n, nd, s.h, |Below(input[..i], n + 1)|, id) && (id == 0 <==> s.h == b)
    requires SmallerSince(Below(input[..i], n + 1), n, nd, id)
    requires !Fit(InnerDeltas(input, i, n, delta))
    ensures Insertions(Inner(input, i, n, b, s), Placed(input, i, n), nd, id, s.bias) != Some(input)
    decreases 0x11_0000 - n, |input| - i
  {
    hide Outer, OuterDeltas, InStep, Mul, Insertions, Placed, Fit, Adapt, VarDigits, Cap, SatAdd, Below;
    var out, seen := Placed(input, i, n), Below(input[..i], n + 1);
    CapAdds(delta, 1, 0);
    if i == |input| {
      PlacedEnds(input, n);
      assert input[..i] == input;
      Wrap(delta, n, nd, |out|, id);
      OuterMisfits(input, n + 1, b, s.(delta := SatAdd(s.delta, 1)), delta + 1, nd, id);
    } else {
      PlacedStep(input, i, n);
      if input[i] == n {
        EmitMisfits(input, i, n, b, s, delta, nd, id);
      } else if input[i] < n {
        StepsOn(delta, n, nd, |out|, |seen|, id);
        InnerMisfits(input, i + 1, n, b, s.(delta := SatAdd(s.delta, 1)), delta + 1, nd, id);
      } else {
        InnerMisfits(input, i + 1, n, b, s, delta, nd, id);
      }
    }
  }

  lemma CapIs(delta: nat)
    ensures Cap(delta) == if delta <= U32_MAX then delta else U32_MAX
  {
  }

  lemma PlacedFront(input: seq<CodePoint>, i: nat, n: CodePoint)
    requires i <= |input|
    ensures var seen := Below(input[..i], n + 1);
            |seen| <= |Placed(input, i, n)| && Placed(input, i, n)[..|seen|] == seen
  {
    hide Below;
    Sequences.FrontOfAppend(Below(input[..i], n + 1), Below(input[i..], n));
  }

  lemma {:induction false} EmitMisfits(input: seq<CodePoint>, i: nat, n: CodePoint, b: nat, s: Coder, delta: nat,
                                       nd: nat, id: nat)
    requires i < |input| && input[i] == n && s.h == |Placed(input, i, n)| && s.delta == Cap(delta) && b <= s.h
    requires InStep(delta, n, nd, s.h, |Below(input[..i], n + 1)|, id) && (id == 0 <==> s.h == b)
    requires SmallerSince(Below(input[..i], n + 1), n, nd, id)
    requires !Fit(InnerDeltas(input, i, n, delta))
    ensures Insertions(Inner(input, i, n, b, s), Placed(input, i, n), nd, id, s.bias) != Some(input)
    decreases 0x11_0000 - n, |input| - i, 0
  {
    hide Outer, OuterDeltas, Inner, InStep, Mul, Insertions, Fit, Adapt, VarDigits, Below, Placed, Cap;
    var out, seen := Placed(input, i, n), Below(input[..i], n + 1);
    var rest := InnerDeltas(input, i + 1, n, 0);
    var s' := EmitsRun(input, i, n, b, s);
    var digits := Inner(input, i + 1, n, b, s');
    CapIs(delta);
    CapIs(0);
    if delta > U32_MAX {
      PlacedFront(input, i, n);
      var n', pos' := CutDelta(delta, U32_MAX, n, nd, out, |seen|, id);
      InsertsOne(s.delta, s.bias, out, n', nd, id, pos', digits);
      WrongInsertion(input, i, n, n', pos', digits, s'.bias);
    } else {
      FitCons(delta, rest);
      PlacedInserts(input, i, n);
      InsertsOne(delta, s.bias, out, n, nd, id, |seen|, digits);
      FreshStep(n, s.h + 1, |seen| + 1);
      InnerMisfits(input, i + 1, n, b, s', 0, n, |seen| + 1);
    }
  }

  /** An input survives the program's encoder, and saturation has no effect on it, exactly when every delta of its
      exact encoding fits a u32. */
  lemma SurvivesExactly(input: seq<CodePoint>)
    ensures Decode(Encode(input)) == Some(input) <==> Fit(Deltas(input))
    ensures Encode(input) == ExactEncode(input) <==> Fit(Deltas(input))
  {
    hide Decode, ExactEncode, Insertions, OuterDeltas, Outer, InStep, Fit;
    ExactRoundTrip(input);
    if Fit(Deltas(input)) {
      FitIsExact(input);
    } else {
      var basic := Below(input, 0x80);
      var s := Coder(0, 72, |basic|);
      DecodeParts(basic, Outer(input, 0x80, |basic|, s));
      FreshStep(0x80, |basic|, 0);
      OuterMisfits(input, 0x80, |basic|, s, 0, 0x80, 0);
    }
  }

  /** Up to 3855 code points saturation has no effect, and section 6.2 of RFC 3492 undoes the encoder. */
  lemma RoundTrip(input: seq<CodePoint>)
    requires |input| <= MAX_POINTS
    ensures Encode(input) == ExactEncode(input) && Decode(Encode(input)) == Some(input)
  {
    hide Decode, Encode, ExactEncode, Fit, Deltas;
    ExactRoundTrip(input);
    FitIsExact(input);
  }

  // ---------- the bound is the largest ----------

  /** `len - 1` letters and then the last code point. */
  ghost function Late(len: nat): (s: seq<CodePoint>)
    requires len > 0
    ensures |s| == len
  {
    seq(len - 1, i => 0x61) + [0x10_FFFF]
  }

  lemma {:induction false} BelowLetters(s: seq<CodePoint>, n: nat)
    requires n > 0x61 && forall c <- s :: c == 0x61
    ensures Below(s, n) == s
  {
    if s != [] {
      assert s[0] in s && forall c: CodePoint :: c in s[1..] ==> c in s;
      BelowLetters(s[1..], n);
    }
  }

  /** Up to the next place of `n` a delta only grows. */
  lemma {:induction false} NextDelta(input: seq<CodePoint>, i: nat, n: CodePoint, delta: nat)
    requires i < |input| && input[|input| - 1] == n
    ensures InnerDeltas(input, i, n, delta) != [] && InnerDeltas(input, i, n, delta)[0] >= delta
    decreases |input| - i
  {
    if input[i] != n { NextDelta(input, i + 1, n, if input[i] < n then delta + 1 else delta); }
  }

  lemma LateDelta(len: nat)
    requires len > 0
    ensures var ds := Deltas(Late(len)); ds != [] && ds[0] >= Mul(0x10_FFFF - 0x80, len)
  {
    hide InnerDeltas, OuterDeltas, Mul, Least, Below, Late, Placed;
    var input, n: CodePoint := Late(len), 0x10_FFFF;
    LateParts(len);
    OuterStarts(input, 0x80, 0);
    NextDelta(input, 0, n, Mul(n - 0x80, len));
  }

  lemma LateParts(len: nat)
    requires len > 0
    ensures var input := Late(len);
            && input[len - 1] == 0x10_FFFF && |Below(input, 0x80)| == len - 1
            && (Reaches(input, 0x80) ==> Least(input, 0x80) == 0x10_FFFF)
  {
    var input, letters := Late(len), Late(len)[..len - 1];
    assert input == letters + [0x10_FFFF];
    BelowLetters(letters, 0x80);
    BelowSplit(letters, [0x10_FFFF], 0x80);
    assert input[len - 1] == 0x10_FFFF;
  }

  /** At every greater length the delta of some input does not fit, and that input is lost. */
  lemma LateIsLost(len: nat)
    requires len > MAX_POINTS
    ensures !Fit(Deltas(Late(len))) && Decode(Encode(Late(len))) != Some(Late(len))
  {
    hide Decode, Encode, Deltas, Mul, Late;
    LateDelta(len);
    TooFar(len);
    var ds := Deltas(Late(len));
    assert ds[0] in ds;
    SurvivesExactly(Late(len));
  }

  lemma TooFar(len: nat)
    requires len > MAX_POINTS
    ensures Mul(0x10_FFFF - 0x80, len) > U32_MAX
  {
    MulGrows(0x10_FFFF - 0x80, 0x10_FFFF - 0x80, MAX_POINTS + 1, len);
  }

  ghost predicate RoundTripsUpTo(len: nat) {
    forall input: seq<CodePoint> :: |input| <= len ==> Decode(Encode(input)) == Some(input)
  }

  /** The round trip holds for all inputs up to a length exactly when that length is at most 3855. */
  lemma RoundTripBound(len: nat)
    ensures RoundTripsUpTo(len) <==> len <= MAX_POINTS
  {
    hide Decode, Encode;
    if len <= MAX_POINTS {
      forall input: seq<CodePoint> | |input| <= len ensures Decode(Encode(input)) == Some(input) {
        RoundTrip(input);
      }
    } else {
      LateIsLost(len);
    }
  }

  // ---------- the length of what is decoded ----------

  /** Whatever its deltas become, an encoding decodes to a text of the input's length, or not at all. */
  lemma {:induction false} OuterKeepsLength(input: seq<CodePoint>, n: nat, b: nat, s: Coder, out: seq<CodePoint>,
                                            nd: nat, id: nat)
    requires n <= 0x11_0000 && s.h == |Below(input, n)| == |out| && b <= s.h && (id == 0 <==> s.h == b)
    ensures var r := Insertions(Outer(input, n, b, s), out, nd, id, s.bias); r.Some? ==> |r.value| == |input|
    decreases 0x11_0000 - n, |input| + 1
  {
    hide Inner, Outer, SatAdd, SatMul, Insertions, Placed, Least, IsLeast, Reaches, Below;
    if s.h >= |input| {
      NothingLeft(input, n, b, s, 0);
      NoRuns(s.bias, s.h, b, out, nd, id);
    } else {
      OuterJumps(input, n, b, s);
      var m := Least(input, n);
      InnerKeepsLength(input, 0, m, b, s.(delta := SatAdd(s.delta, SatMul(m - n, s.h + 1))), out, nd, id);
    }
  }

  lemma {:induction false} InnerKeepsLength(input: seq<CodePoint>, i: nat, n: CodePoint, b: nat, s: Coder,
                                            out: seq<CodePoint>, nd: nat, id: nat)
    requires i <= |input| && s.h == |Placed(input, i, n)| == |out| && b <= s.h && (id == 0 <==> s.h == b)
    ensures var r := Insertions(Inner(input, i, n, b, s), out, nd, id, s.bias); r.Some? ==> |r.value| == |input|
    decreases 0x11_0000 - n, |input| - i
  {
    hide Outer, Insertions, Placed, Below, Adapt, VarDigits, SatAdd, Insert, Div, Mod;
    if i == |input| {
      PlacedEnds(input, n);
      OuterKeepsLength(input, n + 1, b, s.(delta := SatAdd(s.delta, 1)), out, nd, id);
    } else {
      PlacedStep(input, i, n);
      if input[i] == n {
        EmitKeepsLength(input, i, n, b, s, out, nd, id);
      } else {
        var s' := s.(delta := if input[i] < n then SatAdd(s.delta, 1) else s.delta);
        InnerKeepsLength(input, i + 1, n, b, s', out, nd, id);
      }
    }
  }

  lemma {:induction false} EmitKeepsLength(input: seq<CodePoint>, i: nat, n: CodePoint, b: nat, s: Coder,
                                           out: seq<CodePoint>, nd: nat, id: nat)
    requires i < |input| && input[i] == n
    requires s.h == |Placed(input, i, n)| == |out| && b <= s.h && (id == 0 <==> s.h == b)
    ensures var r := Insertions(Inner(input, i, n, b, s), out, nd, id, s.bias); r.Some? ==> |r.value| == |input|
    decreases 0x11_0000 - n, |input| - i, 0
  {
    hide Outer, Inner, Insertions, Placed, Below, Adapt, VarDigits, SatAdd, Insert, Div, Mod;
    var s' := EmitsRun(input, i, n, b, s);
    var n', pos := nd + Div(id + s.delta, |out| + 1), Mod(id + s.delta, |out| + 1);
    InsertsNext(s.delta, s.bias, out, nd, id, Inner(input, i + 1, n, b, s'));
    if n' < 0x11_0000 {
      InsertedFront(out, pos, pos, n');
      InnerKeepsLength(input, i + 1, n, b, s', Insert(out, pos, n'), n', pos + 1);
    }
  }

  lemma DecodedLength(input: seq<CodePoint>)
    ensures Decode(Encode(input)).Some? ==> |Decode(Encode(input)).value| == |input|
  {
    hide Decode, Insertions, Outer;
    var basic := Below(input, 0x80);
    var s := Coder(0, 72, |basic|);
    DecodeParts(basic, Outer(input, 0x80, |basic|, s));
    OuterKeepsLength(input, 0x80, |basic|, s, basic, 0x80, 0);
  }
}
