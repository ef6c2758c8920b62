/** The Punycode encoder of `mdns.rs`, on the u32 arithmetic it uses. */
module Punycode {
  import opened Bytes
  import Arithmetic
  import Sequences

  const HYPHEN: CodePoint := 0x2D

  function SatAdd(a: nat, b: nat): (r: U32)
    ensures a + b <= U32_MAX ==> r == a + b
  {
    if a + b <= U32_MAX then a + b else U32_MAX
  }

  function SatMul(a: nat, b: nat): (r: U32)
    ensures a * b <= U32_MAX ==> r == a * b
  {
    if a * b <= U32_MAX then (assert 0 <= a * b; a * b) else U32_MAX
  }

  function DigitChar(d: nat): (c: CodePoint)
    requires d < 36
    ensures d < 26 ==> 0x61 <= c <= 0x7A
    ensures d >= 26 ==> 0x30 <= c <= 0x39
  {
    d + 22 + (if d < 26 then 75 else 0)
  }

  /** The threshold of the digit at `k`. */
  function Threshold(k: nat, bias: nat): (t: nat)
    ensures 1 <= t <= 26
  {
    if k <= bias then 1 else if k >= bias + 26 then 26 else k - bias
  }

  /** `d` divided by 35 until it is at most 455, with 36 added to `k` at each division. */
  function Damp(d: nat, k: nat): (r: (nat, nat))
    ensures r.0 <= 455
  {
    if d > 455 then Damp(d / 35, k + 36) else (d, k)
  }

  function Scaled(delta: nat, numPoints: nat, firstTime: bool): nat {
    var d := if firstTime then delta / 700 else delta / 2;
    d + Div(d, if numPoints == 0 then 1 else numPoints)
  }

  function Div(d: nat, p: nat): nat
    requires p > 0
  {
    d / p
  }

  function Adapt(delta: nat, numPoints: nat, firstTime: bool): nat {
    var r := Damp(Scaled(delta, numPoints, firstTime), 0);
    r.1 + Slope(r.0)
  }

  function Slope(d: nat): nat { 36 * d / (d + 38) }

  lemma Shrinks(q: nat, t: nat)
    requires 1 <= t <= 26 && t <= q
    ensures 0 <= (q - t) / (36 - t) < q
  {
    Arithmetic.Divided(q - t, 36 - t);
    Arithmetic.MulGrows((q - t) / (36 - t), (q - t) / (36 - t), 1, 36 - t);
    Arithmetic.MulEnds((q - t) / (36 - t));
  }

  /** The digit run that stands for the delta `q`. */
  function VarDigits(q: nat, k: nat, bias: nat): (r: seq<CodePoint>)
    ensures r != [] && forall c <- r :: IsDigit(c)
    decreases q
  {
    var t := Threshold(k, bias);
    if q < t then [DigitChar(q)]
    else
      Shrinks(q, t);
      [DigitChar(t + (q - t) % (36 - t))] + VarDigits((q - t) / (36 - t), k + 36, bias)
  }

  /** A digit as the encoder writes it: lower-case letter or decimal digit. */
  predicate IsDigit(c: CodePoint) { 0x61 <= c <= 0x7A || 0x30 <= c <= 0x39 }

  /** The code points of `s` below `n`, in order. */
  function Below(s: seq<CodePoint>, n: nat): (r: seq<CodePoint>)
    ensures |r| <= |s|
    ensures forall c <- r :: c < n && c in s
  {
    if s == [] then []
    else (if s[0] < n then [s[0]] else []) + Below(s[1..], n)
  }

  ghost predicate Reaches(s: seq<CodePoint>, n: nat) { exists c <- s :: c >= n }

  lemma {:induction false} BelowAll(s: seq<CodePoint>, n: nat)
    ensures |Below(s, n)| == |s| <==> !Reaches(s, n)
    ensures !Reaches(s, n) ==> Below(s, n) == s
  {
    if s != [] {
      BelowAll(s[1..], n);
      assert s == [s[0]] + s[1..];
      assert forall c: CodePoint :: c in s <==> c == s[0] || c in s[1..];
      assert Reaches(s, n) <==> s[0] >= n || Reaches(s[1..], n) by {
        if s[0] >= n { assert s[0] in s; }
      }
    }
  }

  lemma {:induction false} BelowSplit(a: seq<CodePoint>, b: seq<CodePoint>, n: nat)
    ensures Below(a + b, n) == Below(a, n) + Below(b, n)
  {
    if a == [] {
      assert a + b == b;
    } else {
      assert (a + b)[1..] == a[1..] + b;
      BelowSplit(a[1..], b, n);
    }
  }

  /** Raising the bound changes nothing where no code point lies in between. */
  lemma {:induction false} BelowGap(s: seq<CodePoint>, n: nat, m: nat)
    requires n <= m
    requires forall c <- s :: c >= n ==> c >= m
    ensures Below(s, n) == Below(s, m)
  {
    if s != [] {
      assert s[0] in s && forall c: CodePoint :: c in s[1..] ==> c in s;
      BelowGap(s[1..], n, m);
    }
  }

  /** The least code point of `s` that is at least `n`. */
  ghost predicate IsLeast(s: seq<CodePoint>, n: nat, m: nat) {
    m in s && n <= m && forall c <- s :: c >= n ==> m <= c
  }

  /** `delta`, `bias` and `h` of the encoder. */
  datatype Coder = Coder(delta: U32, bias: nat, h: nat)

  /** What the encoder has already placed when it stands at index `i` of the pass for `n`. */
  function Placed(input: seq<CodePoint>, i: nat, n: nat): seq<CodePoint>
    requires i <= |input|
  {
    Below(input[..i], n + 1) + Below(input[i..], n)
  }

  lemma PlacedEnds(input: seq<CodePoint>, n: nat)
    ensures Placed(input, 0, n) == Below(input, n)
    ensures Placed(input, |input|, n) == Below(input, n + 1)
  {
    assert input[..0] == [] && input[0..] == input;
    assert input[..|input|] == input && input[|input|..] == [];
  }

  /** Moving one index on places `n` after the code points seen so far, or nothing. */
  lemma PlacedStep(input: seq<CodePoint>, i: nat, n: nat)
    requires i < |input|
    ensures var seen := Below(input[..i], n + 1);
            && Below(input[..i + 1], n + 1) == seen + (if input[i] <= n then [input[i]] else [])
            && Placed(input, i, n) == seen + (if input[i] < n then [input[i]] else []) + Below(input[i + 1..], n)
            && Placed(input, i + 1, n) == seen + (if input[i] <= n then [input[i]] else []) + Below(input[i + 1..], n)
  {
    assert input[..i + 1] == input[..i] + [input[i]];
    BelowSplit(input[..i], [input[i]], n + 1);
    assert input[i..] == [input[i]] + input[i + 1..];
    BelowSplit([input[i]], input[i + 1..], n);
  }

  /** The value the minimum search returns, for the specification. */
  ghost function Least(s: seq<CodePoint>, n: nat): (m: CodePoint)
    requires Reaches(s, n)
    ensures IsLeast(s, n, m)
  {
    LeastExists(s, n);
    var m: CodePoint :| IsLeast(s, n, m);
    m
  }

  lemma {:induction false} LeastExists(s: seq<CodePoint>, n: nat)
    requires Reaches(s, n)
    ensures exists m: CodePoint :: IsLeast(s, n, m)
  {
    if Reaches(s[1..], n) {
      LeastExists(s[1..], n);
      var m: CodePoint :| IsLeast(s[1..], n, m);
      assert s == [s[0]] + s[1..];
      assert IsLeast(s, n, if n <= s[0] < m then s[0] else m);
    } else {
      assert s == [s[0]] + s[1..];
      assert IsLeast(s, n, s[0]);
    }
  }

  /** The digits from the `while` test on, when every code point below `n` is placed. */
  ghost function Outer(input: seq<CodePoint>, n: nat, b: nat, s: Coder): (r: seq<CodePoint>)
    requires s.h == |Below(input, n)| && n <= 0x11_0000
    ensures forall c <- r :: IsDigit(c)
    decreases 0x11_0000 - n, |input| + 1
  {
    if s.h >= |input| then []
    else
      BelowAll(input, n);
      var m := Least(input, n);
      BelowGap(input, n, m);
      PlacedEnds(input, m);
      Inner(input, 0, m, b, s.(delta := SatAdd(s.delta, SatMul(m - n, s.h + 1))))
  }

  /** The digits from index `i` of the pass for `n` on. */
  ghost function Inner(input: seq<CodePoint>, i: nat, n: CodePoint, b: nat, s: Coder): (r: seq<CodePoint>)
    requires i <= |input| && s.h == |Placed(input, i, n)|
    ensures forall c <- r :: IsDigit(c)
    decreases 0x11_0000 - n, |input| - i
  {
    if i == |input| then
      PlacedEnds(input, n);
      Outer(input, n + 1, b, s.(delta := SatAdd(s.delta, 1)))
    else
      PlacedStep(input, i, n);
      var delta := if input[i] < n then SatAdd(s.delta, 1) else s.delta;
      if input[i] == n then
        VarDigits(delta, 36, s.bias)
        + Inner(input, i + 1, n, b, Coder(0, Adapt(delta, s.h + 1, s.h == b), s.h + 1))
      else Inner(input, i + 1, n, b, s.(delta := delta))
  }

  /** What the encoder computes: the basic part, a delimiter if there is one, and the digits. */
  ghost function Encode(input: seq<CodePoint>): seq<CodePoint> {
    var basic := Below(input, 0x80);
    basic + (if basic == [] then [] else [HYPHEN])
    + Outer(input, 0x80, |basic|, Coder(0, 72, |basic|))
  }

  /** The loops of the encoder. The fallback of its minimum search is never needed. */
  method EncodeLoop(input: seq<CodePoint>) returns (output: seq<CodePoint>)
    ensures output == Encode(input)
  {
    output := BasicPart(input);
    var b := |output|;
    if b > 0 { output := output + [HYPHEN]; }
    ghost var goal := Encode(input);
    var n: nat, delta: U32, bias, h := 0x80, 0, 72, b;
    assert output + Outer(input, n, b, Coder(delta, bias, h)) == goal;
    while h < |input|
      invariant n <= 0x11_0000 && h == |Below(input, n)|
      invariant output + Outer(input, n, b, Coder(delta, bias, h)) == goal
      decreases 0x11_0000 - n
    {
      var digits;
      n, digits, delta, bias, h := Round(input, n, b, delta, bias, h);
      Sequences.Assoc(output, digits, Outer(input, n, b, Coder(delta, bias, h)));
      output := output + digits;
    }
    assert Outer(input, n, b, Coder(delta, bias, h)) == [];
  }

  method BasicPart(input: seq<CodePoint>) returns (output: seq<CodePoint>)
    ensures output == Below(input, 0x80)
  {
    output := [];
    for i := 0 to |input|
      invariant output == Below(input[..i], 0x80)
    {
      assert input[..i + 1] == input[..i] + [input[i]];
      BelowSplit(input[..i], [input[i]], 0x80);
      if input[i] < 0x80 { output := output + [input[i]]; }
    }
    assert input[..|input|] == input;
  }

  /** The body of the `while` loop. */
  method Round(input: seq<CodePoint>, n0: nat, b: nat, delta0: U32, bias0: nat, h0: nat)
    returns (n: nat, digits: seq<CodePoint>, delta: U32, bias: nat, h: nat)
    requires n0 <= 0x11_0000 && h0 == |Below(input, n0)| && h0 < |input|
    ensures n0 < n <= 0x11_0000 && h == |Below(input, n)|
    ensures digits + Outer(input, n, b, Coder(delta, bias, h)) == Outer(input, n0, b, Coder(delta0, bias0, h0))
  {
    hide Inner, Outer, Below, Placed, IsLeast, SatAdd, SatMul, Reaches;
    OuterJumps(input, n0, b, Coder(delta0, bias0, h0));
    var m := MinAtLeast(input, n0);
    delta := SatAdd(delta0, SatMul(m - n0, h0 + 1));
    digits, delta, bias, h := Pass(input, m, b, delta, bias0, h0);
    n := m + 1;
  }

  /** While something is left to place, a round begins at the least code point that is left. */
  lemma OuterJumps(input: seq<CodePoint>, n: nat, b: nat, s: Coder)
    requires s.h == |Below(input, n)| && n <= 0x11_0000 && s.h < |input|
    ensures Reaches(input, n)
    ensures var m := Least(input, n);
            && n <= m && Placed(input, 0, m) == Below(input, n)
            && Outer(input, n, b, s) == Inner(input, 0, m, b, s.(delta := SatAdd(s.delta, SatMul(m - n, s.h + 1))))
  {
    BelowAll(input, n);
    BelowGap(input, n, Least(input, n));
    PlacedEnds(input, Least(input, n));
  }

  /** The pass over the input for the code point `n`, and the increment that closes the round. */
  method Pass(input: seq<CodePoint>, n: CodePoint, b: nat, delta0: U32, bias0: nat, h0: nat)
    returns (digits: seq<CodePoint>, delta: U32, bias: nat, h: nat)
    requires h0 == |Placed(input, 0, n)|
    ensures h == |Below(input, n + 1)|
    ensures digits + Outer(input, n + 1, b, Coder(delta, bias, h)) == Inner(input, 0, n, b, Coder(delta0, bias0, h0))
  {
    digits, delta, bias, h := [], delta0, bias0, h0;
    ghost var goal := Inner(input, 0, n, b, Coder(delta0, bias0, h0));
    for i := 0 to |input|
      invariant h == |Placed(input, i, n)|
      invariant digits + Inner(input, i, n, b, Coder(delta, bias, h)) == goal
    {
      PlacedStep(input, i, n);
      if input[i] < n { delta := SatAdd(delta, 1); }
      if input[i] == n {
        var run := DeltaDigits(delta, bias);
        bias := AdaptBias(delta, h + 1, h == b);
        delta := 0;
        h := h + 1;
        Sequences.Assoc(digits, run, Inner(input, i + 1, n, b, Coder(delta, bias, h)));
        digits := digits + run;
      }
    }
    PlacedEnds(input, n);
    delta := SatAdd(delta, 1);
  }

  method MinAtLeast(input: seq<CodePoint>, n: nat) returns (m: CodePoint)
    requires Reaches(input, n)
    ensures m == Least(input, n)
  {
    var found := false;
    m := 0;
    for i := 0 to |input|
      invariant !found ==> forall j :: 0 <= j < i ==> input[j] < n
      invariant found ==> m in input && n <= m && forall j :: 0 <= j < i && input[j] >= n ==> m <= input[j]
    {
      if input[i] >= n && (!found || input[i] < m) { m, found := input[i], true; }
    }
  }

  method DeltaDigits(delta: nat, bias: nat) returns (digits: seq<CodePoint>)
    ensures digits == VarDigits(delta, 36, bias)
  {
    hide VarDigits, DigitChar, Threshold;
    var q, k := delta, 36;
    digits := [];
    Sequences.Empty(VarDigits(delta, 36, bias));
    while true
      invariant digits + VarDigits(q, k, bias) == VarDigits(delta, 36, bias)
      decreases q
    {
      var t := Threshold(k, bias);
      VarStep(q, k, bias);
      if q < t { break; }
      var d, more := t + (q - t) % (36 - t), (q - t) / (36 - t);
      Sequences.Assoc(digits, [DigitChar(d)], VarDigits(more, k + 36, bias));
      digits := digits + [DigitChar(d)];
      q := more;
      k := k + 36;
    }
    digits := digits + [DigitChar(q)];
  }

  /** One digit of a run. */
  lemma VarStep(q: nat, k: nat, bias: nat)
    ensures var t := Threshold(k, bias);
            if q < t then q < 36 && VarDigits(q, k, bias) == [DigitChar(q)]
            else
              var d, more := t + (q - t) % (36 - t), (q - t) / (36 - t);
              && 0 <= d < 36 && 0 <= more < q
              && VarDigits(q, k, bias) == [DigitChar(d)] + VarDigits(more, k + 36, bias)
  {
    hide Threshold, DigitChar;
    if q >= Threshold(k, bias) { Shrinks(q, Threshold(k, bias)); }
  }

  method AdaptBias(delta: nat, numPoints: nat, firstTime: bool) returns (bias: nat)
    ensures bias == Adapt(delta, numPoints, firstTime)
  {
    var d: nat := Scaled(delta, numPoints, firstTime);
    ghost var goal := Damp(d, 0);
    var k: nat := 0;
    while d > 455
      invariant Damp(d, k) == goal
    {
      d := d / 35;
      k := k + 36;
    }
    bias := k + Slope(d);
  }
}
