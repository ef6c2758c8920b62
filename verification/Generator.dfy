/** The generator of `ports.rs`, SplitMix64: its states run through every 64-bit word, and mixing permutes the words. */
module Generator {
  import Arithmetic
  import opened Mask

  const WORD64 := 0x1_0000_0000_0000_0000

  /** The number without its lowest `s` bits. */
  function ShiftRight(a: nat, s: nat): nat { if s == 0 then a else ShiftRight(a / 2, s - 1) }

  /** A word and its shift to the right, exclusive or. */
  function XorShift(z: nat, s: nat): (r: nat)
    ensures r < WORD64
  {
    WordSize();
    XorBits(64, z, ShiftRight(z, s))
  }

  /** One step of the generator: its new state. */
  function NextState(state: nat): nat { (state + 0x9E37_79B9_7F4A_7C15) % WORD64 }

  /** The number a state yields. */
  function Mixed(state: nat): (r: nat)
    ensures r < WORD64
  {
    var z := XorShift(state, 30) * 0xBF58_476D_1CE4_E5B9 % WORD64;
    var y := XorShift(z, 27) * 0x94D0_49BB_1331_11EB % WORD64;
    XorShift(y, 31)
  }

  /** The state after `i + 1` draws. */
  function Drawn(state: nat, i: nat): nat { if i == 0 then NextState(state) else NextState(Drawn(state, i - 1)) }

  lemma DrawnStep(state: nat, i: nat)
    ensures Drawn(state, i) == NextState(if i == 0 then state else Drawn(state, i - 1))
  {
    hide NextState;
  }

  lemma WordSize()
    ensures Exp2(64) == WORD64
  {
    hide Exp2;
    Doubled(0, 1);
    Doubled(8, 0x100);
    Doubled(16, 0x1_0000);
    Doubled(24, 0x100_0000);
    Doubled(32, 0x1_0000_0000);
    Doubled(40, 0x100_0000_0000);
    Doubled(48, 0x1_0000_0000_0000);
    Doubled(56, 0x100_0000_0000_0000);
  }

  lemma Doubled(k: nat, n: nat)
    requires k == 0 || Exp2(k) == n
    requires k == 0 ==> n == 1
    ensures Exp2(k + 8) == 0x100 * n
  {
    assert Exp2(k + 8) == 2 * Exp2(k + 7) == 4 * Exp2(k + 6) == 8 * Exp2(k + 5) == 16 * Exp2(k + 4);
    assert Exp2(k + 4) == 2 * Exp2(k + 3) == 4 * Exp2(k + 2) == 8 * Exp2(k + 1) == 16 * Exp2(k);
  }

  // ---------- the states ----------

  /** Draw `i` is `i + 1` steps of the odd constant away, modulo the word. */
  lemma {:induction false} DrawnIs(state: nat, i: nat)
    ensures Drawn(state, i) == (state + (i + 1) * 0x9E37_79B9_7F4A_7C15) % WORD64
  {
    hide NextState;
    DrawnStep(state, i);
    if i > 0 {
      DrawnIs(state, i - 1);
      StepOn(state + i * 0x9E37_79B9_7F4A_7C15);
    } else {
      StepOn(state);
    }
  }

  lemma StepOn(x: nat)
    ensures NextState(x % WORD64) == (x + 0x9E37_79B9_7F4A_7C15) % WORD64 == NextState(x)
  {
    var y := x % WORD64 + 0x9E37_79B9_7F4A_7C15;
    MultipleOfWord(x + 0x9E37_79B9_7F4A_7C15, x / WORD64 + y / WORD64, y % WORD64);
  }

  /** Every word is drawn from every state, at one place in each round of 2 to the 64 draws. */
  lemma EveryWordIsDrawn(state: nat, word: nat) returns (i: nat)
    requires state < WORD64 && word < WORD64
    ensures i < WORD64 && Drawn(state, i) == word
    ensures forall j: nat :: j < WORD64 && Drawn(state, j) == word ==> j == i
  {
    hide Drawn;
    i := Steps(state, word);
    forall j: nat | j < WORD64 && Drawn(state, j) == word ensures j == i {
      SameDraw(state, i, j);
    }
  }

  /** The step is odd, so it has an inverse: how many steps lead from a state to a word. */
  lemma Steps(state: nat, word: nat) returns (i: nat)
    requires state < WORD64 && word < WORD64
    ensures i < WORD64 && Drawn(state, i) == word
  {
    hide Drawn, Arithmetic.Mul;
    var d := word + WORD64 - state;
    var x := d * 0xF1DE_83E1_9937_733D;
    var q, r := x / WORD64, x % WORD64;
    Scaled(d, q, r);
    var n := if r == 0 then WORD64 else r;
    i := n - 1;
    DrawnIs(state, i);
    var more := if r == 0 then 0x9E37_79B9_7F4A_7C15 else 0;
    var steps := d * 10771413168148108919 - q * 0x9E37_79B9_7F4A_7C15 + more + 1;
    assert state + n * 0x9E37_79B9_7F4A_7C15 == steps * WORD64 + word;
    MultipleOfWord(state + n * 0x9E37_79B9_7F4A_7C15, steps, word);
  }

  lemma Scaled(d: nat, q: nat, r: nat)
    requires d * 0xF1DE_83E1_9937_733D == q * WORD64 + r
    ensures r * 0x9E37_79B9_7F4A_7C15 == (d * 10771413168148108919 - q * 0x9E37_79B9_7F4A_7C15) * WORD64 + d
  {
  }

  lemma MultipleOfWord(x: nat, q: int, r: nat)
    requires x == q * WORD64 + r && r < WORD64
    ensures x % WORD64 == r
  {
  }

  lemma SameDraw(state: nat, i: nat, j: nat)
    requires i < WORD64 && j < WORD64 && Drawn(state, i) == Drawn(state, j)
    ensures i == j
  {
    hide Drawn;
    DrawnIs(state, i);
    DrawnIs(state, j);
    var a, b := state + (i + 1) * 0x9E37_79B9_7F4A_7C15, state + (j + 1) * 0x9E37_79B9_7F4A_7C15;
    var q := a / WORD64 - b / WORD64;
    assert (i - j) * 0x9E37_79B9_7F4A_7C15 == q * WORD64;
    assert i - j == (q * 0xF1DE_83E1_9937_733D - (i - j) * 10771413168148108919) * WORD64;
  }

  // ---------- mixing ----------

  /** What undoes a shift by at least a third of the word. */
  function Unshift(y: nat, s: nat): (r: nat)
    ensures r < WORD64
  {
    WordSize();
    XorBits(64, XorBits(64, y, ShiftRight(y, s)), ShiftRight(y, 2 * s))
  }

  /** Mixing backwards, with the inverses of the two odd factors. */
  function Unmixed(v: nat): nat {
    var y := Unshift(v, 31) * 0x3196_42B2_D24D_8EC3 % WORD64;
    var z := Unshift(y, 27) * 0x96DE_1B17_3F11_9089 % WORD64;
    Unshift(z, 30)
  }

  /** Bit `i` of a number shifted by `s` is bit `i + s`. */
  lemma {:induction false} BitOfShift(a: nat, s: nat, i: nat)
    ensures Bit(ShiftRight(a, s), i) == Bit(a, i + s)
    decreases s
  {
    if s > 0 { BitOfShift(a / 2, s - 1, i); }
  }

  lemma {:induction false} NoBitAbove(k: nat, a: nat, i: nat)
    requires a < Exp2(k) && i >= k
    ensures !Bit(a, i)
    decreases k
  {
    if k > 0 { NoBitAbove(k - 1, a / 2, i - 1); } else { ZeroBit(i); }
  }

  lemma ShiftBit(z: nat, s: nat, i: nat)
    requires z < WORD64
    ensures Bit(XorShift(z, s), i) <==> Bit(z, i) != Bit(z, i + s)
  {
    hide Exp2, XorBits, Bit, ShiftRight;
    WordSize();
    XorBitAt(64, z, ShiftRight(z, s), i);
    BitOfShift(z, s, i);
    if i >= 64 {
      NoBitAbove(64, z, i);
      NoBitAbove(64, z, i + s);
    }
  }

  lemma UnshiftBit(y: nat, s: nat, i: nat)
    requires y < WORD64
    ensures Bit(Unshift(y, s), i) <==> (Bit(y, i) != Bit(y, i + s)) != Bit(y, i + 2 * s)
  {
    hide Exp2, XorBits, Bit, ShiftRight;
    WordSize();
    XorBitAt(64, XorBits(64, y, ShiftRight(y, s)), ShiftRight(y, 2 * s), i);
    XorBitAt(64, y, ShiftRight(y, s), i);
    BitOfShift(y, s, i);
    BitOfShift(y, 2 * s, i);
    if i >= 64 {
      NoBitAbove(64, y, i);
      NoBitAbove(64, y, i + s);
      NoBitAbove(64, y, i + 2 * s);
    }
  }

  lemma SameWord(a: nat, b: nat)
    requires a < WORD64 && b < WORD64 && forall i :: 0 <= i < 64 ==> Bit(a, i) == Bit(b, i)
    ensures a == b
  {
    hide Exp2, Bit;
    WordSize();
    SameBits(64, a, b);
  }

  lemma ShiftUndone(y: nat, s: nat)
    requires y < WORD64 && 3 * s >= 64
    ensures XorShift(Unshift(y, s), s) == y == Unshift(XorShift(y, s), s)
  {
    hide XorShift, Unshift, Bit, Exp2;
    var u, x := Unshift(y, s), XorShift(y, s);
    var back, again := XorShift(u, s), Unshift(x, s);
    WordSize();
    forall i | 0 <= i < 64 ensures Bit(back, i) == Bit(y, i) && Bit(again, i) == Bit(y, i) {
      NoBitAbove(64, y, i + s + 2 * s);
      ShiftBit(u, s, i);
      UnshiftBit(y, s, i);
      UnshiftBit(y, s, i + s);
      UnshiftBit(x, s, i);
      ShiftBit(y, s, i);
      ShiftBit(y, s, i + s);
      ShiftBit(y, s, i + 2 * s);
      assert i + s + s == i + 2 * s && i + 2 * s + s == i + s + 2 * s;
    }
    SameWord(back, y);
    SameWord(again, y);
  }

  /** A factor and its inverse, in either order. */
  lemma FactorsUndone(x: nat)
    requires x < WORD64
    ensures x * 0xBF58_476D_1CE4_E5B9 % WORD64 * 0x96DE_1B17_3F11_9089 % WORD64 == x
    ensures x * 0x96DE_1B17_3F11_9089 % WORD64 * 0xBF58_476D_1CE4_E5B9 % WORD64 == x
    ensures x * 0x94D0_49BB_1331_11EB % WORD64 * 0x3196_42B2_D24D_8EC3 % WORD64 == x
    ensures x * 0x3196_42B2_D24D_8EC3 % WORD64 * 0x94D0_49BB_1331_11EB % WORD64 == x
  {
    var a, b := x * 0xBF58_476D_1CE4_E5B9, x * 0x96DE_1B17_3F11_9089;
    var c, d := x * 0x94D0_49BB_1331_11EB, x * 0x3196_42B2_D24D_8EC3;
    MultipleOfWord(a % WORD64 * 0x96DE_1B17_3F11_9089,
                   x * 8125545580553827436 - a / WORD64 * 0x96DE_1B17_3F11_9089, x);
    MultipleOfWord(b % WORD64 * 0xBF58_476D_1CE4_E5B9,
                   x * 8125545580553827436 - b / WORD64 * 0xBF58_476D_1CE4_E5B9, x);
    MultipleOfWord(c % WORD64 * 0x3196_42B2_D24D_8EC3,
                   x * 2077064247507883091 - c / WORD64 * 0x3196_42B2_D24D_8EC3, x);
    MultipleOfWord(d % WORD64 * 0x94D0_49BB_1331_11EB,
                   x * 2077064247507883091 - d / WORD64 * 0x94D0_49BB_1331_11EB, x);
  }

  /** Mixing is a bijection on the words: it has an inverse on both sides. */
  lemma MixingIsBijection(word: nat)
    requires word < WORD64
    ensures Unmixed(Mixed(word)) == word
    ensures Unmixed(word) < WORD64 && Mixed(Unmixed(word)) == word
  {
    hide XorShift, Unshift;
    MixedBack(word);
    BackMixed(word);
  }

  lemma MixedBack(word: nat)
    requires word < WORD64
    ensures Unmixed(Mixed(word)) == word
  {
    hide XorShift, Unshift;
    var a := XorShift(word, 30);
    var z := a * 0xBF58_476D_1CE4_E5B9 % WORD64;
    var b := XorShift(z, 27);
    var y := b * 0x94D0_49BB_1331_11EB % WORD64;
    ShiftUndone(y, 31);
    FactorsUndone(b);
    ShiftUndone(z, 27);
    FactorsUndone(a);
    ShiftUndone(word, 30);
  }

  lemma BackMixed(word: nat)
    requires word < WORD64
    ensures Mixed(Unmixed(word)) == word
  {
    hide XorShift, Unshift;
    var a := Unshift(word, 31);
    var y := a * 0x3196_42B2_D24D_8EC3 % WORD64;
    var b := Unshift(y, 27);
    var z := b * 0x96DE_1B17_3F11_9089 % WORD64;
    ShiftUndone(word, 31);
    FactorsUndone(a);
    ShiftUndone(y, 27);
    FactorsUndone(b);
    ShiftUndone(z, 30);
  }

  /** Every 64-bit number is yielded from every state, once in each round. */
  lemma EveryNumberIsYielded(state: nat, number: nat) returns (i: nat)
    requires state < WORD64 && number < WORD64
    ensures i < WORD64 && Mixed(Drawn(state, i)) == number
    ensures forall j: nat :: j < WORD64 && Mixed(Drawn(state, j)) == number ==> j == i
  {
    hide Mixed, Unmixed, Drawn;
    MixingIsBijection(number);
    i := EveryWordIsDrawn(state, Unmixed(number));
    forall j: nat | j < WORD64 && Mixed(Drawn(state, j)) == number ensures j == i {
      DrawnIs(state, j);
      MixingIsBijection(Drawn(state, j));
    }
  }

  // ---------- the published recipe ----------

  /** `r` is the 64-bit `z` with each bit flipped where the bit `s` places above it is set. */
  ghost predicate IsShifted(r: nat, z: nat, s: nat) {
    r < WORD64 && forall i :: 0 <= i < 64 ==> (Bit(r, i) <==> Bit(z, i) != Bit(z, i + s))
  }

  /** The steps of SplitMix64 from a word to the number it yields. */
  ghost predicate Yields(word: nat, number: nat) {
    exists a: nat, b: nat ::
      && IsShifted(a, word, 30)
      && IsShifted(b, a * 0xBF58_476D_1CE4_E5B9 % 0x1_0000_0000_0000_0000, 27)
      && IsShifted(number, b * 0x94D0_49BB_1331_11EB % 0x1_0000_0000_0000_0000, 31)
  }

  lemma ShiftedExactly(r: nat, z: nat, s: nat)
    requires z < WORD64
    ensures IsShifted(r, z, s) <==> r == XorShift(z, s)
  {
    hide XorShift, Bit;
    var x := XorShift(z, s);
    forall i | 0 <= i < 64 ensures Bit(x, i) <==> Bit(z, i) != Bit(z, i + s) { ShiftBit(z, s, i); }
    if IsShifted(r, z, s) {
      forall i | 0 <= i < 64 ensures Bit(r, i) == Bit(x, i) { ShiftBit(z, s, i); }
      SameWord(r, x);
    }
  }

  /** A draw yields one number: that of the state `i + 1` steps on. */
  lemma DrawYieldsExactly(state: nat, i: nat, number: nat)
    ensures Yields((state + (i + 1) * 0x9E37_79B9_7F4A_7C15) % 0x1_0000_0000_0000_0000, number)
       <==> number == Mixed(Drawn(state, i))
  {
    hide IsShifted, XorShift, Drawn;
    DrawnIs(state, i);
    var word := Drawn(state, i);
    var a := XorShift(word, 30);
    var y := a * 0xBF58_476D_1CE4_E5B9 % WORD64;
    var b := XorShift(y, 27);
    var x := b * 0x94D0_49BB_1331_11EB % WORD64;
    ShiftedExactly(a, word, 30);
    ShiftedExactly(b, y, 27);
    ShiftedExactly(number, x, 31);
    if Yields(word, number) {
      var c: nat, d: nat :| && IsShifted(c, word, 30)
                  && IsShifted(d, c * 0xBF58_476D_1CE4_E5B9 % 0x1_0000_0000_0000_0000, 27)
                  && IsShifted(number, d * 0x94D0_49BB_1331_11EB % 0x1_0000_0000_0000_0000, 31);
      ShiftedExactly(c, word, 30);
      ShiftedExactly(d, y, 27);
    }
  }
}
