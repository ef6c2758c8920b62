/** The Foscam answer: `parse` of `foscam.rs`, with its cyclic mask. */
module Foscam {
  import opened Bytes
  import Mask

  const MAGIC: seq<Byte> := [0x4D, 0x4F, 0x5F, 0x49]
  const HEADER_SIZE := 0x17
  const ANSWER_SIZE := 0x57

  datatype Report = Report(serial: seq<Byte>, ip: seq<Byte>, deviceType: Byte)

  /** The bytes before the first zero. */
  function CString(s: seq<Byte>): (r: seq<Byte>)
    ensures r <= s && 0 !in r
    ensures |r| < |s| ==> s[|r|] == 0
  {
    if s == [] || s[0] == 0 then [] else [s[0]] + CString(s[1..])
  }

  /** The fields of an answer in the clear. */
  function Fields(buf: seq<Byte>): Report
    requires |buf| >= ANSWER_SIZE
  {
    Report(CString(buf[0x17..0x24]), buf[0x39..0x3D], buf[0x49])
  }

  /** The answer with everything behind the header masked by the eight bytes at 7. */
  function Unmasked(data: seq<Byte>): (r: seq<Byte>)
    requires |data| >= ANSWER_SIZE
    ensures |r| == |data|
  {
    data[..HEADER_SIZE] + Mask.Masked(data[HEADER_SIZE..], data[0x07..0x0F])
  }

  function Parsed(data: seq<Byte>): Option<Report> {
    if |data| < ANSWER_SIZE || data[..4] != MAGIC then None
    else Some(Fields(if data[6] != 0 then Unmasked(data) else data))
  }

  method Parse(data: seq<Byte>) returns (r: Option<Report>)
    ensures r == Parsed(data)
  {
    if |data| < ANSWER_SIZE { return None; }
    var buf := new Byte[|data|](i requires 0 <= i < |data| => data[i]);
    assert buf[..] == data;
    if buf[..4] != MAGIC { return None; }
    if buf[6] != 0 {
      var key := buf[0x07..0x0F];
      assert buf[..HEADER_SIZE] == data[..HEADER_SIZE] && buf[HEADER_SIZE..] == data[HEADER_SIZE..];
      Mask.MaskFrom(buf, HEADER_SIZE, key);
      assert buf[..] == buf[..HEADER_SIZE] + buf[HEADER_SIZE..] == Unmasked(data);
    }
    return Some(Fields(buf[..]));
  }

  // ---------- what an answer says ----------

  /** `plain` is the answer with its mask taken off: from 0x17 on the bits of the cyclic eight-byte key at 7, if the
      flag at 6 is set. */
  ghost predicate Opens(data: seq<Byte>, plain: seq<Byte>) {
    && |plain| == |data| >= 0x57 && plain[..0x17] == data[..0x17]
    && (if data[6] == 0 then plain[0x17..] == data[0x17..]
        else Mask.IsMaskOf(data[0x17..], plain[0x17..], data[7..15]))
  }

  /** An answer in the clear that says these three things; a serial of less than 13 bytes ends at a zero. */
  predicate Says(plain: seq<Byte>, r: Report) {
    && |plain| >= 0x57
    && r.serial <= plain[0x17..0x24] && 0 !in r.serial && (|r.serial| == 13 || plain[0x17 + |r.serial|] == 0)
    && r.ip == plain[0x39..0x3D] && r.deviceType == plain[0x49]
  }

  /** Every answer of full size has exactly one opened form. */
  lemma OpensOnce(data: seq<Byte>) returns (plain: seq<Byte>)
    requires |data| >= 0x57
    ensures Opens(data, plain) && forall other :: Opens(data, other) ==> other == plain
  {
    hide Mask.Masked, Mask.IsMaskOf;
    plain := if data[6] != 0 then Unmasked(data) else data;
    OpenedIs(data, plain);
    forall other | Opens(data, other) ensures other == plain {
      OpenedIs(data, other);
    }
  }

  lemma OpenedIs(data: seq<Byte>, plain: seq<Byte>)
    requires |data| >= 0x57
    ensures Opens(data, plain) <==> plain == if data[6] != 0 then Unmasked(data) else data
  {
    hide Mask.Masked, Mask.IsMaskOf;
    var key, open := data[7..15], Unmasked(data);
    Parts(data, data);
    Parts(data, open);
    Mask.MaskedTwice(data[0x17..], key);
    Mask.MaskExactly(data[0x17..], open[0x17..], key);
    if |plain| == |data| {
      Parts(data, plain);
      Mask.MaskExactly(data[0x17..], plain[0x17..], key);
      Mask.MaskedTwice(plain[0x17..], key);
    }
  }

  lemma Parts(data: seq<Byte>, plain: seq<Byte>)
    requires |data| == |plain| >= 0x57
    ensures plain == plain[..0x17] + plain[0x17..]
    ensures Unmasked(data)[..0x17] == data[..0x17] && Unmasked(data)[0x17..] == Mask.Masked(data[0x17..], data[7..15])
  {
    hide Mask.Masked;
  }

  /** An answer is reported if and only if it has 0x57 bytes and its magic is MO_I, and what is reported is what its
      opened form says. */
  lemma AnswerExactly(data: seq<Byte>, plain: seq<Byte>, r: Report)
    requires Opens(data, plain)
    ensures Parsed(data) == Some(r) <==> data[..4] == [0x4D, 0x4F, 0x5F, 0x49] && Says(plain, r)
  {
    hide Unmasked, CString, Mask.IsMaskOf;
    OpenedIs(data, plain);
    CStringIs(plain[0x17..0x24], r.serial);
  }

  lemma ShortIsDropped(data: seq<Byte>)
    ensures Parsed(data).Some? <==> |data| >= 0x57 && data[..4] == [0x4D, 0x4F, 0x5F, 0x49]
  {
    hide Unmasked, CString;
  }

  /** The bytes before the first zero are the zero-free front that a zero ends. */
  lemma {:induction false} CStringIs(s: seq<Byte>, r: seq<Byte>)
    ensures r == CString(s) <==> r <= s && 0 !in r && (|r| == |s| || s[|r|] == 0)
  {
    if s != [] && s[0] != 0 && r != [] && r[0] == s[0] {
      CStringIs(s[1..], r[1..]);
      assert s == [s[0]] + s[1..] && r == [r[0]] + r[1..];
      assert 0 !in r <==> 0 !in r[1..];
      assert r <= s <==> r[1..] <= s[1..];
    }
  }

  /** An answer under a key: the flag is set, the key stands at 7, and what is behind the header is masked. */
  ghost predicate IsCiphered(data: seq<Byte>, plain: seq<Byte>, key: seq<Byte>) {
    && |data| == |plain| >= 0x57 && |key| == 8
    && data[..6] == plain[..6] && data[6] != 0 && data[7..15] == key && data[15..0x17] == plain[15..0x17]
    && Mask.IsMaskOf(data[0x17..], plain[0x17..], key)
  }

  /** For every key and flag, a ciphered answer reports what the plain answer reports with its flag clear. */
  lemma MaskIsTransparent(data: seq<Byte>, plain: seq<Byte>, key: seq<Byte>)
    requires IsCiphered(data, plain, key)
    ensures Parsed(data) == Parsed(plain[6 := 0])
  {
    hide Unmasked, CString, Mask.IsMaskOf;
    var open := data[..0x17] + plain[0x17..];
    assert open[0x17..] == plain[0x17..] && open[..0x17] == data[..0x17];
    OpenedIs(data, open);
    assert data[..4] == data[..6][..4] && plain[..4] == plain[..6][..4] && plain[6 := 0][..4] == plain[..4];
    SameBody(open, plain[6 := 0]);
  }

  /** The fields lie behind the header. */
  lemma SameBody(a: seq<Byte>, b: seq<Byte>)
    requires |a| == |b| >= ANSWER_SIZE && a[HEADER_SIZE..] == b[HEADER_SIZE..]
    ensures Fields(a) == Fields(b)
  {
    assert forall i :: HEADER_SIZE <= i < |a| ==> a[i] == a[HEADER_SIZE..][i - HEADER_SIZE] == b[i];
    assert a[0x17..0x24] == b[0x17..0x24] && a[0x39..0x3D] == b[0x39..0x3D];
  }

  /** A serial of up to 13 bytes without a zero, padded with zeros, is reported as it is. */
  lemma {:induction false} CStringOfPadded(s: seq<Byte>, zeros: seq<Byte>)
    requires 0 !in s && forall z <- zeros :: z == 0
    ensures CString(s + zeros) == s
  {
    if s == [] {
      assert s + zeros == zeros;
      if zeros != [] { assert zeros[0] in zeros; }
    } else {
      assert s[0] in s && forall c :: c in s[1..] ==> c in s;
      assert (s + zeros)[1..] == s[1..] + zeros;
      CStringOfPadded(s[1..], zeros);
      assert s == [s[0]] + s[1..];
    }
  }
}
