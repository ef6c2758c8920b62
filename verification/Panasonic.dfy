/** The Panasonic answer: `parse` of `panasonic.rs`. */
module Panasonic {
  import opened Bytes
  import Sequences

  const HEADER_SIZE := 52
  const TLV_START := 53
  const TLV_IPV4: U16 := 0x0020
  const TLV_FULLNAME: U16 := 0x00A7
  const TLV_SHORTNAME: U16 := 0x00A8

  datatype Pair = Pair(key: U16, value: seq<Byte>)

  /** What a packet reports; an address has 4 or 16 bytes. */
  datatype Report = Report(mac: seq<Byte>, model: seq<Byte>, ip: seq<Byte>)

  predicate HasKey(tlv: seq<Pair>, key: U16) { exists t <- tlv :: t.key == key }

  /** The list with a pair pushed unless its key is already there. */
  function Pushed(tlv: seq<Pair>, t: Pair): seq<Pair> { if HasKey(tlv, t.key) then tlv else tlv + [t] }

  /** The loop from `i` on: it stops four bytes before the end, or at a value that would reach it. */
  function Walk(data: seq<Byte>, i: nat, tlv: seq<Pair>): seq<Pair>
    decreases |data| - i
  {
    if i >= |data| - 4 then tlv
    else
      var length := Word(data[i + 2], data[i + 3]);
      if i + 4 + length >= |data| then tlv
      else Walk(data, i + 4 + length, Pushed(tlv, Pair(Word(data[i], data[i + 1]), data[i + 4..i + 4 + length])))
  }

  /** The first value of a key. */
  function Get(tlv: seq<Pair>, key: U16): Option<seq<Byte>> {
    if tlv == [] then None else if tlv[0].key == key then Some(tlv[0].value) else Get(tlv[1..], key)
  }

  function Finish(mac: seq<Byte>, tlv: seq<Pair>): Option<Report> {
    var full := Get(tlv, TLV_FULLNAME);
    var model := if full.Some? then full else Get(tlv, TLV_SHORTNAME);
    match (model, Get(tlv, TLV_IPV4))
    case (Some(m), Some(ip)) => if |ip| in {4, 16} then Some(Report(mac, m, ip)) else None
    case _ => None
  }

  function Parsed(data: seq<Byte>): Option<Report> {
    if |data| <= HEADER_SIZE then None else Finish(data[6..12], Walk(data, TLV_START, []))
  }

  method Parse(data: seq<Byte>) returns (r: Option<Report>)
    ensures r == Parsed(data)
  {
    hide Word, Finish, Walk, HasKey;
    if |data| <= HEADER_SIZE { return None; }
    var tlv: seq<Pair>, i: nat := [], TLV_START;
    while i < |data| - 4
      invariant Walk(data, i, tlv) == Walk(data, TLV_START, [])
    {
      WalkStep(data, i, tlv);
      var key, length := Word(data[i], data[i + 1]), Word(data[i + 2], data[i + 3]);
      i := i + 4;
      if i + length >= |data| { break; }
      if !HasKey(tlv, key) { tlv := tlv + [Pair(key, data[i..i + length])]; }
      i := i + length;
    }
    if i >= |data| - 4 { WalkEnds(data, i, tlv); }
    return Finish(data[6..12], tlv);
  }

  lemma WalkEnds(data: seq<Byte>, i: nat, tlv: seq<Pair>)
    requires i >= |data| - 4
    ensures Walk(data, i, tlv) == tlv
  {
  }

  lemma WalkStep(data: seq<Byte>, i: nat, tlv: seq<Pair>)
    requires i < |data| - 4
    ensures var key, length := Word(data[i], data[i + 1]), Word(data[i + 2], data[i + 3]);
            Walk(data, i, tlv) ==
            if i + 4 + length >= |data| then tlv
            else Walk(data, i + 4 + length, Pushed(tlv, Pair(key, data[i + 4..i + 4 + length])))
  {
  }

  // ---------- the encoder ----------

  predicate Valid(t: Pair) { |t.value| < 0x1_0000 }

  function Encode(t: Pair): (r: seq<Byte>)
    requires Valid(t)
    ensures |r| == 4 + |t.value|
  {
    Be16(t.key) + Be16(|t.value|) + t.value
  }

  function EncodeAll(ts: seq<Pair>): seq<Byte>
    requires forall t <- ts :: Valid(t)
  {
    if ts == [] then [] else Encode(ts[0]) + EncodeAll(ts[1..])
  }

  function PushAll(tlv: seq<Pair>, ts: seq<Pair>): seq<Pair>
    decreases |ts|
  {
    if ts == [] then tlv else PushAll(Pushed(tlv, ts[0]), ts[1..])
  }

  lemma PairIsWalked(data: seq<Byte>, p: nat, t: Pair, tlv: seq<Pair>)
    requires Valid(t) && At(data, p, Encode(t))
    ensures Walk(data, p, tlv) ==
            if p + |Encode(t)| == |data| then tlv else Walk(data, p + |Encode(t)|, Pushed(tlv, t))
  {
    hide Pushed;
    var next := p + |Encode(t)|;
    var s := data[p..next];
    assert data[p] == s[0] && data[p + 1] == s[1] && data[p + 2] == s[2] && data[p + 3] == s[3];
    assert data[p + 4..next] == s[4..] == t.value;
  }

  /** What the loop does not read: at most four bytes, or a pair whose value reaches the end of the packet. */
  predicate Unread(tail: seq<Byte>) { |tail| <= 4 || 4 + Word(tail[2], tail[3]) >= |tail| }

  lemma WalkStops(data: seq<Byte>, p: nat, tlv: seq<Pair>)
    requires p <= |data| && Unread(data[p..])
    ensures Walk(data, p, tlv) == tlv
  {
    if p < |data| - 4 { assert data[p..][2] == data[p + 2] && data[p..][3] == data[p + 3]; }
  }

  /** With something unread behind the list the loop visits exactly the list. */
  lemma {:induction false} WalkVisits(data: seq<Byte>, p: nat, ts: seq<Pair>, tail: seq<Byte>, tlv: seq<Pair>)
    requires (forall t <- ts :: Valid(t)) && tail != [] && Unread(tail)
    requires p <= |data| && data[p..] == EncodeAll(ts) + tail
    ensures Walk(data, p, tlv) == PushAll(tlv, ts)
    decreases |ts|
  {
    hide Walk, Pushed, Encode, Unread, At;
    if ts == [] {
      assert EncodeAll(ts) + tail == tail;
      WalkStops(data, p, tlv);
    } else {
      var t, rest := ts[0], ts[1..];
      assert t in ts && forall x :: x in rest ==> x in ts;
      var next := p + |Encode(t)|;
      assert data[p..] == Encode(t) + (EncodeAll(rest) + tail);
      TailSplit(data, p, Encode(t), EncodeAll(rest) + tail);
      PairIsWalked(data, p, t, tlv);
      WalkVisits(data, next, rest, tail, Pushed(tlv, t));
    }
  }

  /** Whatever the packet, the loop visits an encoded list in front of something it does not read. */
  lemma {:induction false} WalkIsEncoding(data: seq<Byte>, p: nat, tlv: seq<Pair>)
    returns (ts: seq<Pair>, tail: seq<Byte>)
    requires p <= |data|
    ensures (forall t <- ts :: Valid(t)) && Unread(tail) && data[p..] == EncodeAll(ts) + tail
    ensures Walk(data, p, tlv) == PushAll(tlv, ts)
    decreases |data| - p
  {
    hide Pushed, Encode, EncodeAll, PushAll, Walk, Word;
    if p >= |data| - 4 || p + 4 + Word(data[p + 2], data[p + 3]) >= |data| {
      ts, tail := [], data[p..];
      if p < |data| - 4 { assert tail[2] == data[p + 2] && tail[3] == data[p + 3]; }
      NothingEncoded(tlv);
      Sequences.Empty(tail);
      WalkStops(data, p, tlv);
    } else {
      var length := Word(data[p + 2], data[p + 3]);
      var next := p + 4 + length;
      var t := Pair(Word(data[p], data[p + 1]), data[p + 4..next]);
      PairIsEncoded(data, p, t);
      var rest;
      rest, tail := WalkIsEncoding(data, next, Pushed(tlv, t));
      ts := [t] + rest;
      EncodeCons(t, rest);
      PushCons(tlv, t, rest);
      SliceSplit(data, p, next, |data|);
      Sequences.Assoc(Encode(t), EncodeAll(rest), tail);
      WalkStep(data, p, tlv);
    }
  }

  lemma NothingEncoded(tlv: seq<Pair>)
    ensures EncodeAll([]) == [] && PushAll(tlv, []) == tlv
  {
  }

  lemma EncodeCons(t: Pair, rest: seq<Pair>)
    requires Valid(t) && forall x <- rest :: Valid(x)
    ensures (forall x <- [t] + rest :: Valid(x)) && EncodeAll([t] + rest) == Encode(t) + EncodeAll(rest)
  {
    hide Encode;
    Sequences.Cons(t, rest);
  }

  lemma PushCons(tlv: seq<Pair>, t: Pair, rest: seq<Pair>)
    ensures PushAll(tlv, [t] + rest) == PushAll(Pushed(tlv, t), rest)
  {
    hide Pushed;
    Sequences.Cons(t, rest);
  }

  lemma PairIsEncoded(data: seq<Byte>, p: nat, t: Pair)
    requires p + 4 + |t.value| <= |data| && |t.value| == Word(data[p + 2], data[p + 3])
    requires t == Pair(Word(data[p], data[p + 1]), data[p + 4..p + 4 + |t.value|])
    ensures Valid(t) && data[p..p + 4 + |t.value|] == Encode(t)
  {
    assert Be16(t.key) == [data[p], data[p + 1]] && Be16(|t.value|) == [data[p + 2], data[p + 3]];
  }

  // ---------- the first value of each key wins ----------

  lemma {:induction false} GetPushed(tlv: seq<Pair>, t: Pair, key: U16)
    ensures Get(tlv, key).Some? <==> HasKey(tlv, key)
    ensures Get(tlv + [t], key) == if Get(tlv, key).Some? then Get(tlv, key) else Get([t], key)
  {
    if tlv == [] {
      assert tlv + [t] == [t];
    } else {
      assert (tlv + [t])[1..] == tlv[1..] + [t];
      GetPushed(tlv[1..], t, key);
      assert tlv == [tlv[0]] + tlv[1..];
    }
  }

  lemma {:induction false} PushAllKeepsFirst(tlv: seq<Pair>, ts: seq<Pair>, key: U16)
    ensures Get(PushAll(tlv, ts), key) == if Get(tlv, key).Some? then Get(tlv, key) else Get(ts, key)
    decreases |ts|
  {
    if ts != [] {
      GetPushed(tlv, ts[0], key);
      PushAllKeepsFirst(Pushed(tlv, ts[0]), ts[1..], key);
    }
  }

  /** What a list reports: the first full name, or else the first short name, and the first address, of 4 or 16
      bytes. */
  function ReportOf(mac: seq<Byte>, ts: seq<Pair>): Option<Report> {
    var ip := Get(ts, 0x0020);
    var name := if Get(ts, 0x00A7).Some? then Get(ts, 0x00A7) else Get(ts, 0x00A8);
    if name.None? || ip.None? || (|ip.value| != 4 && |ip.value| != 16) then None
    else Some(Report(mac, name.value, ip.value))
  }

  lemma VisitedReport(data: seq<Byte>, ts: seq<Pair>)
    requires |data| > HEADER_SIZE && Walk(data, TLV_START, []) == PushAll([], ts)
    ensures Parsed(data) == ReportOf(data[6..12], ts)
  {
    hide Walk, PushAll;
    PushAllKeepsFirst([], ts, TLV_FULLNAME);
    PushAllKeepsFirst([], ts, TLV_SHORTNAME);
    PushAllKeepsFirst([], ts, TLV_IPV4);
  }

  /** With something unread behind its list a packet reports the first value of each key of the list. */
  lemma PacketReports(head: seq<Byte>, ts: seq<Pair>, tail: seq<Byte>)
    requires |head| == 53 && (forall t <- ts :: Valid(t)) && tail != [] && Unread(tail)
    ensures Parsed(head + EncodeAll(ts) + tail) == ReportOf(head[6..12], ts)
  {
    hide Walk, PushAll, ReportOf, Parsed, EncodeAll, Unread;
    var data := head + EncodeAll(ts) + tail;
    assert data == head + (EncodeAll(ts) + tail);
    assert data[TLV_START..] == EncodeAll(ts) + tail && data[6..12] == head[6..12];
    WalkVisits(data, TLV_START, ts, tail, []);
    VisitedReport(data, ts);
  }

  /** With nothing behind its list a packet misses the last pair: the loop takes it for something it does not read. */
  lemma LastPairIsMissed(head: seq<Byte>, ts: seq<Pair>, last: Pair)
    requires |head| == 53 && (forall t <- ts :: Valid(t)) && Valid(last)
    ensures Parsed(head + EncodeAll(ts) + Encode(last)) == ReportOf(head[6..12], ts)
  {
    hide Parsed, EncodeAll;
    var e := Encode(last);
    assert e[2..4] == Be16(|last.value|) && Word(e[2], e[3]) == |last.value|;
    PacketReports(head, ts, e);
  }

  lemma ShortIsDropped(data: seq<Byte>)
    ensures |data| <= 52 ==> Parsed(data) == None
  {
  }

  /** Every packet longer than its header is a head, an encoded list and something unread, and reports that list. */
  lemma ReportsArePackets(data: seq<Byte>) returns (ts: seq<Pair>, tail: seq<Byte>)
    requires |data| > 52
    ensures (forall t <- ts :: Valid(t)) && Unread(tail)
    ensures data == data[..53] + EncodeAll(ts) + tail
    ensures Parsed(data) == ReportOf(data[6..12], ts)
  {
    hide Walk, PushAll, EncodeAll, Unread, Parsed;
    ts, tail := WalkIsEncoding(data, TLV_START, []);
    VisitedReport(data, ts);
    assert data == data[..TLV_START] + data[TLV_START..];
  }
}
