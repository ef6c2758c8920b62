/** The decoder of section 6.2 of RFC 3492, and how it reads what the encoder writes. */
module Rfc3492 {
  import opened Bytes
  import Sequences
  import opened Punycode
  import opened Arithmetic

  // Section 5: the parameters of Punycode.
  const BASE := 36
  const TMIN := 1
  const TMAX := 26
  const SKEW := 38
  const DAMP := 700
  const INITIAL_BIAS := 72
  const INITIAL_N := 0x80
  const DELIMITER: CodePoint := 0x2D

  /** Section 6.2: the threshold of the digit at `k`. */
  function RfcThreshold(k: nat, bias: nat): nat {
    if k <= bias + TMIN then TMIN else if k >= bias + TMAX then TMAX else k - bias
  }

  /** Section 6.1: the division loop and the final quotient of the bias adaptation. */
  function RfcDamp(delta: nat, k: nat): nat {
    if delta > (BASE - TMIN) * TMAX / 2 then RfcDamp(delta / (BASE - TMIN), k + BASE)
    else k + (BASE - TMIN + 1) * delta / (delta + SKEW)
  }

  function RfcAdapt(delta: nat, numPoints: nat, firstTime: bool): nat
    requires numPoints > 0
  {
    var d := if firstTime then delta / DAMP else delta / 2;
    RfcDamp(d + Div(d, numPoints), 0)
  }

  lemma {:induction false} DampIsRfc(d: nat, k: nat)
    ensures var r := Damp(d, k); r.1 + Slope(r.0) == RfcDamp(d, k)
  {
    if d > 455 { DampIsRfc(d / 35, k + 36); }
  }

  /** The encoder's threshold and bias adaptation are those of the RFC. */
  lemma EncoderFollowsRfc(k: nat, bias: nat, delta: nat, numPoints: nat, firstTime: bool)
    requires numPoints > 0
    ensures Threshold(k, bias) == RfcThreshold(k, bias)
    ensures Adapt(delta, numPoints, firstTime) == RfcAdapt(delta, numPoints, firstTime)
  {
    DampIsRfc(Scaled(delta, numPoints, firstTime), 0);
  }

  /** Section 5: the value of a digit, in either letter case. */
  function DigitValue(c: CodePoint): (d: Option<nat>)
    ensures d.Some? ==> d.value < 36
  {
    if 0x61 <= c <= 0x7A then Some(c - 0x61)
    else if 0x41 <= c <= 0x5A then Some(c - 0x41)
    else if 0x30 <= c <= 0x39 then Some(c - 0x30 + 26)
    else None
  }

  /** Section 3.3: one variable-length integer added to `i`, and the text after it. */
  function ReadDelta(s: seq<CodePoint>, k: nat, bias: nat, w: nat, i: nat): (r: Option<(nat, seq<CodePoint>)>)
    ensures r.Some? ==> |r.value.1| < |s|
  {
    if s == [] then None
    else match DigitValue(s[0])
      case None => None
      case Some(d) =>
        var t := RfcThreshold(k, bias);
        if d < t then Some((i + Mul(d, w), s[1..]))
        else ReadDelta(s[1..], k + BASE, bias, Mul(w, BASE - t), i + Mul(d, w))
  }

  function Insert(s: seq<CodePoint>, pos: nat, c: CodePoint): seq<CodePoint>
    requires pos <= |s|
  {
    s[..pos] + [c] + s[pos..]
  }

  function Mod(x: nat, m: nat): (r: nat)
    requires m > 0
    ensures r < m
  {
    x % m
  }

  /** The decoding loop: `n` and `i` are the state, `out` what is inserted so far. */
  function Insertions(s: seq<CodePoint>, out: seq<CodePoint>, n: nat, i: nat, bias: nat): Option<seq<CodePoint>>
    decreases |s|
  {
    if s == [] then Some(out)
    else match ReadDelta(s, BASE, bias, 1, i)
      case None => None
      case Some((i', rest)) =>
        var size := |out| + 1;
        var n', pos := n + Div(i', size), Mod(i', size);
        if n' >= 0x11_0000 || i' < i then None
        else Insertions(rest, Insert(out, pos, n'), n', pos + 1, RfcAdapt(i' - i, size, i == 0))
  }

  /** The number of code points before the last delimiter; 0 when there is none. */
  function LastHyphen(s: seq<CodePoint>): (b: nat)
    ensures b <= |s|
    ensures b > 0 ==> b < |s| && s[b] == DELIMITER
  {
    if s == [] then 0
    else if s[|s| - 1] == DELIMITER then |s| - 1
    else LastHyphen(s[..|s| - 1])
  }

  function Decode(s: seq<CodePoint>): Option<seq<CodePoint>> {
    var b := LastHyphen(s);
    if exists c <- s[..b] :: c >= 0x80 then None
    else Insertions(if b > 0 then s[b + 1..] else s, s[..b], INITIAL_N, 0, INITIAL_BIAS)
  }

  // ---------- variable-length integers ----------

  lemma DigitsMatch(d: nat)
    requires d < 36
    ensures DigitValue(DigitChar(d)) == Some(d)
  {
  }

  /** A delta is its low digit plus the rest at the next weight. */
  lemma Weigh(q: nat, t: nat, w: nat)
    requires 1 <= t <= 26 && t <= q
    ensures var d, q' := t + (q - t) % (36 - t), (q - t) / (36 - t);
            Mul(q, w) == Mul(d, w) + Mul(q', Mul(w, 36 - t))
  {
    hide Mul;
    var m := 36 - t;
    Divided(q - t, m);
    MulAdds(t + (q - t) % m, Mul((q - t) / m, m), w);
    Reweigh((q - t) / m, m, w);
  }

  lemma Reweigh(q: nat, m: nat, w: nat)
    ensures Mul(Mul(q, m), w) == Mul(q, Mul(w, m))
  {
    assert (q * m) * w == q * (m * w);
  }

  /** A digit run reads back as its delta, and stops where the run stops whatever follows. */
  lemma {:induction false} RunReadsBack(q: nat, k: nat, bias: nat, w: nat, i: nat, rest: seq<CodePoint>)
    ensures ReadDelta(VarDigits(q, k, bias) + rest, k, bias, w, i) == Some((i + Mul(q, w), rest))
    decreases q
  {
    hide Mul, VarDigits, ReadDelta, DigitChar;
    var t := Threshold(k, bias);
    if q < t {
      LastDigit(q, k, bias);
      ReadLast(q, k, bias, w, i, rest);
    } else {
      var d, q' := SplitsOff(q, k, bias, w);
      var run := VarDigits(q', k + 36, bias);
      RunReadsBack(q', k + 36, bias, Mul(w, 36 - t), i + Mul(d, w), rest);
      ReadMore(d, k, bias, w, i, run + rest);
      assert VarDigits(q, k, bias) + rest == [DigitChar(d)] + (run + rest);
    }
  }

  lemma SplitsOff(q: nat, k: nat, bias: nat, w: nat) returns (d: nat, q': nat)
    requires q >= Threshold(k, bias)
    ensures Threshold(k, bias) <= d < 36 && q' < q
    ensures VarDigits(q, k, bias) == [DigitChar(d)] + VarDigits(q', k + 36, bias)
    ensures Mul(q, w) == Mul(d, w) + Mul(q', Mul(w, 36 - Threshold(k, bias)))
  {
    hide Mul, Threshold, DigitChar, VarDigits;
    var t := Threshold(k, bias);
    VarStep(q, k, bias);
    d, q' := t + (q - t) % (36 - t), (q - t) / (36 - t);
    Weigh(q, t, w);
  }

  lemma ReadLast(d: nat, k: nat, bias: nat, w: nat, i: nat, rest: seq<CodePoint>)
    requires d < Threshold(k, bias)
    ensures ReadDelta([DigitChar(d)] + rest, k, bias, w, i) == Some((i + Mul(d, w), rest))
  {
    hide Mul, DigitChar, DigitValue;
    DigitsMatch(d);
    assert ([DigitChar(d)] + rest)[1..] == rest;
  }

  lemma ReadMore(d: nat, k: nat, bias: nat, w: nat, i: nat, rest: seq<CodePoint>)
    requires Threshold(k, bias) <= d < 36
    ensures ReadDelta([DigitChar(d)] + rest, k, bias, w, i)
         == ReadDelta(rest, k + 36, bias, Mul(w, 36 - Threshold(k, bias)), i + Mul(d, w))
  {
    hide Mul, DigitChar, DigitValue;
    DigitsMatch(d);
    assert ([DigitChar(d)] + rest)[1..] == rest;
  }

  /** Conversely, a lower-case run that reads as `q` is the run the encoder writes for `q`. */
  lemma RunIsUnique(s: seq<CodePoint>, k: nat, bias: nat, q: nat, rest: seq<CodePoint>)
    requires forall c <- s :: IsDigit(c)
    requires ReadDelta(s, k, bias, 1, 0) == Some((q, rest))
    ensures s == VarDigits(q, k, bias) + rest
  {
    hide Mul, VarDigits, ReadDelta;
    var q' := RunIsUniqueAt(s, k, bias, 1, 0);
    RunReadsBack(q', k, bias, 1, 0, rest);
    MulEnds(q');
  }

  lemma {:induction false} RunIsUniqueAt(s: seq<CodePoint>, k: nat, bias: nat, w: nat, i: nat) returns (q: nat)
    requires forall c <- s :: IsDigit(c)
    requires ReadDelta(s, k, bias, w, i).Some?
    ensures var rest := ReadDelta(s, k, bias, w, i).value.1; s == VarDigits(q, k, bias) + rest
    decreases |s|
  {
    hide VarDigits, Mul, ReadDelta, DigitValue, DigitChar, Threshold, RfcThreshold, IsDigit;
    var t := Threshold(k, bias);
    var d := DigitRead(s, k, bias, w, i);
    Sequences.HeadTail(s);
    var rest := ReadDelta(s, k, bias, w, i).value.1;
    if d < t {
      q := d;
      LastDigit(d, k, bias);
    } else {
      assert forall c :: c in s[1..] ==> c in s;
      var q' := RunIsUniqueAt(s[1..], k + 36, bias, Mul(w, 36 - t), i + Mul(d, w));
      q := JoinsOn(d, q', k, bias);
      Sequences.Assoc([s[0]], VarDigits(q', k + 36, bias), rest);
    }
  }

  /** The first digit of a run that is read. */
  lemma DigitRead(s: seq<CodePoint>, k: nat, bias: nat, w: nat, i: nat) returns (d: nat)
    requires (forall c <- s :: IsDigit(c)) && ReadDelta(s, k, bias, w, i).Some?
    ensures s != [] && d < 36 && s[0] == DigitChar(d)
    ensures ReadDelta(s, k, bias, w, i) ==
            if d < Threshold(k, bias) then Some((i + Mul(d, w), s[1..]))
            else ReadDelta(s[1..], k + 36, bias, Mul(w, 36 - Threshold(k, bias)), i + Mul(d, w))
  {
    hide Mul;
    d := DigitValue(s[0]).value;
    assert IsDigit(s[0]) by { assert s[0] in s; }
  }

  lemma LastDigit(d: nat, k: nat, bias: nat)
    requires d < Threshold(k, bias)
    ensures VarDigits(d, k, bias) == [DigitChar(d)]
  {
  }

  lemma JoinsOn(d: nat, q': nat, k: nat, bias: nat) returns (q: nat)
    requires Threshold(k, bias) <= d < 36
    ensures VarDigits(q, k, bias) == [DigitChar(d)] + VarDigits(q', k + 36, bias)
  {
    var t := Threshold(k, bias);
    q := d + Mul(q', 36 - t);
    Quotient(q - t, 36 - t, q', d - t);
  }

  // ---------- decoding in step with an encoder ----------

  /** The delta between the decoder's state and the encoder's place. */
  ghost predicate InStep(delta: nat, n: nat, nd: nat, h: nat, pos: nat, id: nat) {
    nd <= n && delta + id == Mul(n - nd, h + 1) + pos
  }

  lemma StepDecodes(delta: nat, n: nat, nd: nat, h: nat, pos: nat, id: nat)
    requires InStep(delta, n, nd, h, pos, id) && pos <= h
    ensures nd <= n && nd + Div(id + delta, h + 1) == n && Mod(id + delta, h + 1) == pos
  {
    Quotient(id + delta, h + 1, n - nd, pos);
  }

  /** What the decoder does with one run. */
  lemma InsertsNext(delta: nat, bias: nat, out: seq<CodePoint>, nd: nat, id: nat, rest: seq<CodePoint>)
    ensures var n, pos := nd + Div(id + delta, |out| + 1), Mod(id + delta, |out| + 1);
            Insertions(VarDigits(delta, 36, bias) + rest, out, nd, id, bias) ==
            if n >= 0x11_0000 then None
            else Insertions(rest, Insert(out, pos, n), n, pos + 1, Adapt(delta, |out| + 1, id == 0))
  {
    hide Mul, VarDigits, ReadDelta, Adapt, RfcAdapt, Insert, Div, Mod;
    RunReadsBack(delta, 36, bias, 1, id, rest);
    EncoderFollowsRfc(0, 0, delta, |out| + 1, id == 0);
    MulEnds(delta);
  }

  /** A run that is in step inserts its code point in its place. */
  lemma InsertsOne(delta: nat, bias: nat, out: seq<CodePoint>, n: CodePoint, nd: nat, id: nat, pos: nat,
                   rest: seq<CodePoint>)
    requires pos <= |out| && InStep(delta, n, nd, |out|, pos, id)
    ensures Insertions(VarDigits(delta, 36, bias) + rest, out, nd, id, bias)
         == Insertions(rest, Insert(out, pos, n), n, pos + 1, Adapt(delta, |out| + 1, id == 0))
    ensures nd <= n
  {
    hide Insertions, VarDigits, Adapt, Insert, InStep, Div, Mod;
    StepDecodes(delta, n, nd, |out|, pos, id);
    InsertsNext(delta, bias, out, nd, id, rest);
  }

  lemma {:induction false} LastHyphenFound(a: seq<CodePoint>, digits: seq<CodePoint>)
    requires forall c <- digits :: IsDigit(c)
    ensures LastHyphen(a + [HYPHEN] + digits) == |a|
    ensures LastHyphen(digits) == 0
  {
    if digits == [] {
      assert a + [HYPHEN] + digits == a + [HYPHEN];
    } else {
      var s := a + [HYPHEN] + digits;
      var init := digits[..|digits| - 1];
      assert s[..|s| - 1] == a + [HYPHEN] + init;
      assert forall c :: c in init ==> c in digits;
      assert s[|s| - 1] == digits[|digits| - 1] && digits[|digits| - 1] in digits;
      LastHyphenFound(a, init);
    }
  }

  /** Decoding starts from the basic part and the digits. */
  lemma DecodeParts(basic: seq<CodePoint>, digits: seq<CodePoint>)
    requires forall c <- basic :: c < 0x80
    requires forall c <- digits :: IsDigit(c)
    ensures Decode(basic + (if basic == [] then [] else [HYPHEN]) + digits) == Insertions(digits, basic, 0x80, 0, 72)
  {
    hide Insertions, LastHyphen;
    LastHyphenFound(basic, digits);
    if basic == [] {
      assert basic + [] + digits == digits && digits[..0] == basic;
    } else {
      var s := basic + [HYPHEN] + digits;
      assert s[..|basic|] == basic && s[|basic| + 1..] == digits;
    }
  }
}
