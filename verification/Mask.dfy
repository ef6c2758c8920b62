/** XOR of octets, and masks with a repeating key. */
module Mask {
  import opened Bytes

  function Exp2(k: nat): (r: nat)
    ensures r >= 1
  {
    if k == 0 then 1 else 2 * Exp2(k - 1)
  }

  /** The exclusive or of the low `k` bits. */
  function XorBits(k: nat, a: nat, b: nat): (r: nat)
    ensures r < Exp2(k)
  {
    if k == 0 then 0 else 2 * XorBits(k - 1, a / 2, b / 2) + (if a % 2 != b % 2 then 1 else 0)
  }

  function Xor(a: Byte, b: Byte): Byte {
    assert Exp2(8) == 2 * Exp2(7) == 4 * Exp2(6) == 8 * Exp2(5) == 16 * Exp2(4) == 32 * Exp2(3) == 64 * Exp2(2);
    XorBits(8, a, b)
  }

  lemma {:induction false} XorBitsTwice(k: nat, a: nat, b: nat)
    requires a < Exp2(k)
    ensures XorBits(k, XorBits(k, a, b), b) == a && XorBits(k, a, 0) == a
  {
    if k > 0 {
      XorBitsTwice(k - 1, a / 2, b / 2);
      var x := XorBits(k, a, b);
      assert x / 2 == XorBits(k - 1, a / 2, b / 2) && x % 2 == if a % 2 != b % 2 then 1 else 0;
    }
  }

  lemma XorTwice(a: Byte, b: Byte)
    ensures Xor(Xor(a, b), b) == a && Xor(a, 0) == a
  {
    hide XorBits;
    assert Exp2(8) == 2 * Exp2(7) == 4 * Exp2(6) == 8 * Exp2(5) == 16 * Exp2(4) == 32 * Exp2(3) == 64 * Exp2(2);
    XorBitsTwice(8, a, b);
  }

  /** The octet of a repeating key at `i`. */
  function KeyAt(key: seq<Byte>, i: nat): Byte
    requires key != []
  {
    key[i % |key|]
  }

  /** The octets masked with a key that repeats. */
  function Masked(s: seq<Byte>, key: seq<Byte>): (r: seq<Byte>)
    requires key != []
    ensures |r| == |s|
    ensures forall i :: 0 <= i < |s| ==> r[i] == Xor(s[i], KeyAt(key, i))
  {
    seq(|s|, i requires 0 <= i < |s| => Xor(s[i], KeyAt(key, i)))
  }

  /** A mask applied twice is no mask, and neither is the key of one zero octet. */
  lemma MaskedTwice(s: seq<Byte>, key: seq<Byte>)
    requires key != []
    ensures Masked(Masked(s, key), key) == s
    ensures Masked(s, [0]) == s
  {
    hide Xor, Masked, KeyAt;
    var twice, none := Masked(Masked(s, key), key), Masked(s, [0]);
    forall i | 0 <= i < |s| ensures twice[i] == s[i] && none[i] == s[i] {
      XorTwice(s[i], KeyAt(key, i));
      ZeroKey(i);
    }
  }

  lemma ZeroKey(i: nat)
    ensures KeyAt([0], i) == 0
  {
    assert i % 1 == 0;
  }

  // ---------- what exclusive or is ----------

  /** Bit `i` of a number, counted from the lowest. */
  function Bit(n: nat, i: nat): bool { if i == 0 then n % 2 == 1 else Bit(n / 2, i - 1) }

  /** A bit of the result is set exactly where the bits of the operands differ, and there are no bits above. */
  lemma {:induction false} XorBitAt(k: nat, a: nat, b: nat, i: nat)
    ensures Bit(XorBits(k, a, b), i) <==> i < k && Bit(a, i) != Bit(b, i)
    decreases k
  {
    if k == 0 {
      ZeroBit(i);
    } else {
      var x := XorBits(k, a, b);
      assert x / 2 == XorBits(k - 1, a / 2, b / 2) && (x % 2 == 1 <==> a % 2 != b % 2);
      if i > 0 { XorBitAt(k - 1, a / 2, b / 2, i - 1); }
    }
  }

  lemma {:induction false} ZeroBit(i: nat)
    ensures !Bit(0, i)
  {
    if i > 0 { ZeroBit(i - 1); }
  }

  /** Numbers of `k` bits are equal when their bits are. */
  lemma {:induction false} SameBits(k: nat, a: nat, b: nat)
    requires a < Exp2(k) && b < Exp2(k) && forall i :: 0 <= i < k ==> Bit(a, i) == Bit(b, i)
    ensures a == b
  {
    if k > 0 {
      assert Bit(a, 0) == Bit(b, 0);
      forall i | 0 <= i < k - 1 ensures Bit(a / 2, i) == Bit(b / 2, i) {
        assert Bit(a, i + 1) == Bit(b, i + 1);
      }
      SameBits(k - 1, a / 2, b / 2);
    }
  }

  /** `cipher` is `plain` with each bit flipped where the repeating key has its bit set. */
  ghost predicate IsMaskOf(cipher: seq<Byte>, plain: seq<Byte>, key: seq<Byte>)
    requires key != []
  {
    |cipher| == |plain| && forall i :: 0 <= i < |plain| ==> Differ(cipher[i], plain[i], key[i % |key|])
  }

  /** Two octets differ from each other in the bits of `b`. */
  ghost predicate Differ(c: Byte, a: Byte, b: Byte) {
    forall bit :: 0 <= bit < 8 ==> (Bit(c, bit) <==> Bit(a, bit) != Bit(b, bit))
  }

  lemma XorIs(c: Byte, a: Byte, b: Byte)
    ensures c == Xor(a, b) <==> Differ(c, a, b)
  {
    hide XorBits, Bit;
    var x := Xor(a, b);
    assert x == XorBits(8, a, b);
    hide Xor;
    forall bit | 0 <= bit < 8 ensures Bit(x, bit) <==> Bit(a, bit) != Bit(b, bit) { XorBitAt(8, a, b, bit); }
    assert Differ(x, a, b);
    if Differ(c, a, b) {
      EightBits();
      assert forall bit :: 0 <= bit < 8 ==> Bit(c, bit) == Bit(x, bit);
      SameBits(8, c, x);
    }
  }

  lemma EightBits()
    ensures Exp2(8) == 256
  {
    assert Exp2(8) == 2 * Exp2(7) == 4 * Exp2(6) == 8 * Exp2(5) == 16 * Exp2(4) == 32 * Exp2(3) == 64 * Exp2(2);
  }

  /** The masked octets are the ones whose bits differ from the plain ones exactly as the key says. */
  lemma MaskExactly(cipher: seq<Byte>, plain: seq<Byte>, key: seq<Byte>)
    requires key != []
    ensures IsMaskOf(cipher, plain, key) <==> cipher == Masked(plain, key)
  {
    hide Xor, Differ, Masked;
    if |cipher| == |plain| {
      var masked := Masked(plain, key);
      forall i | 0 <= i < |plain| ensures cipher[i] == masked[i] <==> Differ(cipher[i], plain[i], key[i % |key|]) {
        XorIs(cipher[i], plain[i], key[i % |key|]);
      }
      if IsMaskOf(cipher, plain, key) {
        assert forall i :: 0 <= i < |plain| ==> cipher[i] == masked[i];
      }
    }
  }

  /** The loop over the octets from `start` on, in place. */
  method MaskFrom(buf: array<Byte>, start: nat, key: seq<Byte>)
    requires start <= buf.Length && key != []
    modifies buf
    ensures buf[..start] == old(buf[..start]) && buf[start..] == Masked(old(buf[start..]), key)
  {
    hide Xor, Masked, KeyAt;
    ghost var was := buf[..];
    for i := start to buf.Length
      invariant buf[..start] == was[..start] && buf[i..] == was[i..]
      invariant forall j :: start <= j < i ==> buf[j] == Xor(was[j], KeyAt(key, j - start))
    {
      buf[i] := Xor(buf[i], KeyAt(key, i - start));
    }
    var tail := was[start..];
    assert forall j :: 0 <= j < |tail| ==> buf[start..][j] == buf[start + j] == Xor(tail[j], KeyAt(key, j));
    assert buf[start..] == Masked(tail, key);
  }
}
