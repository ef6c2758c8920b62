/** Octets, code points and machine integers shared by the whole model. */
module Bytes {

  datatype Option<+T> = None | Some(value: T)

  datatype Result<+T, +E> = Ok(value: T) | Err(error: E)

  type Byte = x: int | 0 <= x < 0x100
  type CodePoint = x: int | 0 <= x < 0x11_0000
  type U16 = x: int | 0 <= x < 0x1_0000
  type U32 = x: int | 0 <= x < 0x1_0000_0000

  const U32_MAX: U32 := 0xFFFF_FFFF

  /** The big-endian pair of octets of a 16-bit number, and back. */
  function Word(high: Byte, low: Byte): U16 {
    var h: int, l: int := high, low;
    h * 0x100 + l
  }

  function Be16(n: U16): seq<Byte> { [n / 0x100, n % 0x100] }

  function Be32(n: U32): seq<Byte> { Be16(n / 0x1_0000) + Be16(n % 0x1_0000) }

  /** `data` holds `text` at `p`. */
  predicate At(data: seq<Byte>, p: nat, text: seq<Byte>) {
    p + |text| <= |data| && data[p..p + |text|] == text
  }

  lemma AtEnd(data: seq<Byte>, p: nat, text: seq<Byte>)
    requires At(data, p, text)
    ensures p + |text| <= |data|
  {
  }

  lemma AtIndex(data: seq<Byte>, p: nat, text: seq<Byte>, i: nat)
    requires At(data, p, text) && i < |text|
    ensures p + i < |data| && data[p + i] == text[i]
  {
    assert data[p..p + |text|][i] == data[p + i];
  }

  /** What stands at `p` up to the end of the data, taken apart. */
  lemma TailSplit(data: seq<Byte>, p: nat, a: seq<Byte>, b: seq<Byte>)
    requires p <= |data| && data[p..] == a + b
    ensures At(data, p, a) && p + |a| <= |data| && data[p + |a|..] == b
  {
    assert data[p..p + |a|] == data[p..][..|a|] && data[p + |a|..] == data[p..][|a|..];
  }

  lemma SliceSplit(data: seq<Byte>, p: nat, q: nat, end: nat)
    requires p <= q <= end <= |data|
    ensures data[p..end] == data[p..q] + data[q..end] && data[p..] == data[p..q] + data[q..]
  {
  }

  lemma AtSplit(data: seq<Byte>, p: nat, a: seq<Byte>, b: seq<Byte>)
    ensures At(data, p, a + b) <==> At(data, p, a) && At(data, p + |a|, b)
  {
    if p + |a| + |b| <= |data| {
      var whole := data[p..p + |a + b|];
      assert whole[..|a|] == data[p..p + |a|] && whole[|a|..] == data[p + |a|..p + |a| + |b|];
      assert (a + b)[..|a|] == a && (a + b)[|a|..] == b;
      assert whole == whole[..|a|] + whole[|a|..];
    }
  }
}
