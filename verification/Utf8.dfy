/** Text as the program holds it: its UTF-8 bytes, here one character for each byte. */
module Utf8 {
  predicate IsAscii(s: string) { forall c <- s :: c as int < 0x80 }

  predicate IsContinuation(b: char) { 0x80 <= b as int < 0xC0 }

  /** Where a text may be sliced: `is_char_boundary` of a string slice. */
  predicate IsBoundary(s: string, i: nat) { i == 0 || i == |s| || (i < |s| && !IsContinuation(s[i])) }

  /** No continuation byte stands first or behind an ASCII byte. */
  predicate WellFormed(s: string) {
    forall i :: 0 <= i < |s| && IsContinuation(s[i]) ==> i > 0 && s[i - 1] as int >= 0x80
  }

  function Byte(b: int): char
    requires 0 <= b < 0x100
  {
    b as char
  }

  /** The bytes of one character. */
  function EncodeChar(c: char): (r: string)
    ensures r != "" && !IsContinuation(r[0]) && forall i :: 0 < i < |r| ==> IsContinuation(r[i])
    ensures |r| > 1 ==> forall b <- r :: b as int >= 0x80
  {
    var n := c as int;
    if n < 0x80 then [c]
    else if n < 0x800 then [Byte(0xC0 + n / 0x40), Byte(0x80 + n % 0x40)]
    else if n < 0x1_0000 then [Byte(0xE0 + n / 0x1000), Byte(0x80 + n / 0x40 % 0x40), Byte(0x80 + n % 0x40)]
    else
      [Byte(0xF0 + n / 0x4_0000), Byte(0x80 + n / 0x1000 % 0x40), Byte(0x80 + n / 0x40 % 0x40), Byte(0x80 + n % 0x40)]
  }

  function Encode(text: string): string { if text == "" then "" else EncodeChar(text[0]) + Encode(text[1..]) }

  lemma {:induction false} EncodeIsWellFormed(text: string)
    ensures WellFormed(Encode(text)) && IsBoundary(Encode(text), 0)
    ensures Encode(text) != "" ==> !IsContinuation(Encode(text)[0])
  {
    hide EncodeChar;
    if text != "" {
      var first, rest := EncodeChar(text[0]), Encode(text[1..]);
      EncodeIsWellFormed(text[1..]);
      var s := first + rest;
      forall i | 0 <= i < |s| && IsContinuation(s[i]) ensures i > 0 && s[i - 1] as int >= 0x80 {
        if i < |first| {
          assert s[i] == first[i] && s[i - 1] == first[i - 1] && first[i - 1] in first;
        } else {
          assert s[i] == rest[i - |first|];
        }
      }
    }
  }

  /** The boundaries of an encoded text are the places between its characters. */
  lemma {:induction false} BoundaryExactly(text: string, i: nat)
    ensures IsBoundary(Encode(text), i) <==> exists k :: 0 <= k <= |text| && |Encode(text[..k])| == i
  {
    hide EncodeChar;
    if text == "" {
      assert text[..0] == "" && Encode(text[..0]) == "";
    } else {
      var first, rest := EncodeChar(text[0]), text[1..];
      EncodeIsWellFormed(rest);
      PrefixLengths(text);
      if i == 0 {
        assert |Encode(text[..0])| == 0;
      } else if i < |first| {
        assert Encode(text)[i] == first[i];
      } else {
        BoundaryExactly(rest, i - |first|);
        var j := i - |first|;
        assert j < |Encode(rest)| ==> Encode(text)[i] == Encode(rest)[j];
        assert IsBoundary(Encode(text), i) <==> IsBoundary(Encode(rest), j);
        if IsBoundary(Encode(rest), j) {
          var k :| 0 <= k <= |rest| && |Encode(rest[..k])| == j;
          assert |Encode(text[..k + 1])| == i;
        }
        if k :| 0 <= k <= |text| && |Encode(text[..k])| == i {
          assert k > 0 && |Encode(rest[..k - 1])| == j;
        }
      }
    }
  }

  lemma PrefixLengths(text: string)
    requires text != ""
    ensures |Encode(text[..0])| == 0
    ensures forall k :: 0 < k <= |text| ==> |Encode(text[..k])| == |EncodeChar(text[0])| + |Encode(text[1..][..k - 1])|
  {
    forall k | 0 < k <= |text|
      ensures |Encode(text[..k])| == |EncodeChar(text[0])| + |Encode(text[1..][..k - 1])|
    {
      assert text[..k][0] == text[0] && text[..k][1..] == text[1..][..k - 1];
    }
  }

  /** Behind an ASCII byte a text may be sliced, and an ASCII text anywhere. */
  lemma AsciiBoundary(s: string, i: nat)
    requires WellFormed(s) && i <= |s| && (IsAscii(s) || (i > 0 && s[i - 1] as int < 0x80))
    ensures IsBoundary(s, i)
  {
    if i < |s| { assert s[i] in s; }
  }

  /** ASCII text and then one character. */
  lemma AsciiThenOne(s: string, c: char)
    requires IsAscii(s)
    ensures WellFormed(s + EncodeChar(c))
  {
    hide EncodeChar;
    var t := EncodeChar(c);
    var whole := s + t;
    forall i | 0 <= i < |whole|
      ensures IsContinuation(whole[i]) ==> i > 0 && whole[i - 1] as int >= 0x80
    {
      if i < |s| { assert whole[i] == s[i] && s[i] in s; } else { Behind(s, t, i); }
    }
  }

  lemma Behind(s: string, t: string, i: nat)
    requires |s| <= i < |s + t| && (forall b <- t :: |t| > 1 ==> b as int >= 0x80)
    ensures (s + t)[i] == t[i - |s|]
    ensures i > |s| ==> (s + t)[i - 1] as int >= 0x80
  {
    if i > |s| { assert (s + t)[i - 1] == t[i - 1 - |s|] && t[i - 1 - |s|] in t; }
  }
}
