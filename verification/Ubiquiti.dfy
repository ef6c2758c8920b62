/** The Ubiquiti answer: `parse` of `ubiquiti.rs`. */
module Ubiquiti {
  import opened Bytes

  const HEADER_SIZE := 4
  const TLV_NULL: U16 := 0x0000
  const TLV_MAC1: U16 := 0x0001
  const TLV_MAC_IPV4: U16 := 0x0002
  const TLV_MODEL1: U16 := 0x000C
  const TLV_MAC2: U16 := 0x0013
  const TLV_MODEL2: U16 := 0x0015

  /** What a packet reports; without a model it is "unknown", without an address the sender's. */
  datatype Report = Report(mac: seq<Byte>, model: Option<seq<Byte>>, ip: Option<seq<Byte>>)

  datatype Fields = Fields(mac: Option<seq<Byte>>, ip: Option<seq<Byte>>, model: Option<seq<Byte>>)

  const NOTHING := Fields(None, None, None)

  function OrElse(a: Option<seq<Byte>>, b: seq<Byte>): Option<seq<Byte>> { if a.Some? then a else Some(b) }

  /** The `match` on one element of a type other than null. */
  function Visit(f: Fields, vtype: U16, value: seq<Byte>): Fields {
    if vtype in {TLV_MAC1, TLV_MAC2} && |value| == 6 && f.mac.None? then f.(mac := Some(value))
    else if vtype == TLV_MAC_IPV4 && |value| == 10 then
      f.(mac := OrElse(f.mac, value[..6]), ip := OrElse(f.ip, value[6..]))
    else if vtype in {TLV_MODEL1, TLV_MODEL2} && f.model.None? && value != [] then f.(model := Some(value))
    else f
  }

  function Finish(f: Fields): Option<Report> {
    match f.mac case Some(mac) => Some(Report(mac, f.model, f.ip)) case None => None
  }

  /** The loop from `pos` on; the type is little-endian. */
  function Walk(data: seq<Byte>, pos: nat, f: Fields): Option<Fields>
    decreases |data| - pos
  {
    if pos >= |data| then Some(f)
    else if pos + 3 >= |data| then None
    else
      var vtype, next := Word(data[pos + 1], data[pos]), pos + 3 + data[pos + 2];
      if next > |data| || vtype == TLV_NULL then None
      else Walk(data, next, Visit(f, vtype, data[pos + 3..next]))
  }

  /** The magic is not tested; the size in the header must be exact. */
  function Parsed(data: seq<Byte>): Option<Report> {
    if |data| < HEADER_SIZE || Word(data[2], data[3]) != |data| - HEADER_SIZE then None
    else match Walk(data, HEADER_SIZE, NOTHING)
      case Some(f) => Finish(f)
      case None => None
  }

  method Parse(data: seq<Byte>) returns (r: Option<Report>)
    ensures r == Parsed(data)
  {
    if |data| < HEADER_SIZE { return None; }
    if Word(data[2], data[3]) != |data| - HEADER_SIZE { return None; }
    var f, pos: nat := NOTHING, HEADER_SIZE;
    while pos < |data|
      invariant Walk(data, pos, f) == Walk(data, HEADER_SIZE, NOTHING)
      decreases |data| - pos
    {
      if pos + 3 >= |data| { return None; }
      var vtype := Word(data[pos + 1], data[pos]);
      var size := data[pos + 2];
      pos := pos + 3;
      if pos + size > |data| { return None; }
      var value := data[pos..pos + size];
      pos := pos + size;
      if vtype == TLV_NULL { return None; }
      f := Visit(f, vtype, value);
    }
    return Finish(f);
  }

  // ---------- the encoder ----------

  datatype Element = Element(vtype: U16, value: seq<Byte>) {
    predicate Valid() { |value| < 0x100 }
  }

  function Encode(e: Element): (r: seq<Byte>)
    requires e.Valid()
    ensures |r| == 3 + |e.value|
  {
    [e.vtype % 0x100, e.vtype / 0x100, |e.value|] + e.value
  }

  function EncodeAll(es: seq<Element>): seq<Byte>
    requires forall e <- es :: e.Valid()
  {
    if es == [] then [] else Encode(es[0]) + EncodeAll(es[1..])
  }

  predicate HasNull(es: seq<Element>) { exists e <- es :: e.vtype == 0x0000 }

  /** The list ends in a value of no bytes. */
  predicate EndsBare(es: seq<Element>) { es != [] && es[|es| - 1].value == [] }

  function VisitAll(f: Fields, es: seq<Element>): Fields
    decreases |es|
  {
    if es == [] then f else VisitAll(Visit(f, es[0].vtype, es[0].value), es[1..])
  }

  lemma ElementIsWalked(data: seq<Byte>, p: nat, e: Element, f: Fields)
    requires e.Valid() && At(data, p, Encode(e))
    ensures var next := p + |Encode(e)|;
            Walk(data, p, f) ==
            if p + 3 == |data| || e.vtype == TLV_NULL then None else Walk(data, next, Visit(f, e.vtype, e.value))
  {
    hide Visit;
    var next := p + |Encode(e)|;
    assert data[p] == data[p..next][0] && data[p + 1] == data[p..next][1] && data[p + 2] == data[p..next][2];
    assert data[p + 3..next] == data[p..next][3..] == e.value;
  }

  lemma WalkEnds(data: seq<Byte>, p: nat, f: Fields)
    ensures p >= |data| ==> Walk(data, p, f) == Some(f)
  {
  }

  /** The loop visits exactly the encoded list; a null type or a bare end drops the packet. */
  lemma {:induction false} WalkVisits(data: seq<Byte>, p: nat, es: seq<Element>, f: Fields)
    requires forall e <- es :: e.Valid()
    requires At(data, p, EncodeAll(es)) && p + |EncodeAll(es)| == |data|
    ensures Walk(data, p, f) == if EndsBare(es) || HasNull(es) then None else Some(VisitAll(f, es))
    decreases |es|
  {
    hide Walk, Visit, Encode;
    if es == [] {
      WalkEnds(data, p, f);
    } else {
      var e, rest := es[0], es[1..];
      assert e in es && forall x :: x in rest ==> x in es;
      assert forall x :: x in es ==> x == e || x in rest;
      AtSplit(data, p, Encode(e), EncodeAll(rest));
      ElementIsWalked(data, p, e, f);
      assert rest != [] ==> |EncodeAll(rest)| >= 3 && es[|es| - 1] == rest[|rest| - 1];
      WalkVisits(data, p + |Encode(e)|, rest, Visit(f, e.vtype, e.value));
    }
  }

  // ---------- the first suitable value wins ----------

  /** The MAC an element offers. */
  function Mac(e: Element): Option<seq<Byte>> {
    if e.vtype in {0x0001, 0x0013} && |e.value| == 6 then Some(e.value)
    else if e.vtype == 0x0002 && |e.value| == 10 then Some(e.value[..6])
    else None
  }

  function Address(e: Element): Option<seq<Byte>> {
    if e.vtype == 0x0002 && |e.value| == 10 then Some(e.value[6..]) else None
  }

  function Model(e: Element): Option<seq<Byte>> {
    if e.vtype in {0x000C, 0x0015} && e.value != [] then Some(e.value) else None
  }

  /** The first offer in the list. */
  function First(es: seq<Element>, offer: Element -> Option<seq<Byte>>): Option<seq<Byte>> {
    if es == [] then None else if offer(es[0]).Some? then offer(es[0]) else First(es[1..], offer)
  }

  function Or(a: Option<seq<Byte>>, b: Option<seq<Byte>>): Option<seq<Byte>> { if a.Some? then a else b }

  lemma {:induction false} VisitsKeepFirst(f: Fields, es: seq<Element>)
    ensures VisitAll(f, es)
         == Fields(Or(f.mac, First(es, Mac)), Or(f.ip, First(es, Address)), Or(f.model, First(es, Model)))
    decreases |es|
  {
    if es != [] {
      VisitsKeepFirst(Visit(f, es[0].vtype, es[0].value), es[1..]);
    }
  }

  /** What a list reports: the first MAC, without which there is no report, the first model and the first address. */
  function ReportOf(es: seq<Element>): Option<Report> {
    match First(es, Mac) case Some(mac) => Some(Report(mac, First(es, Model), First(es, Address))) case None => None
  }

  /** A packet of the right size reports what its list reports, unless the list has a null type or ends in an empty
      value. */
  lemma PacketReports(magic: seq<Byte>, es: seq<Element>)
    requires |magic| == 2 && (forall e <- es :: e.Valid()) && |EncodeAll(es)| < 0x1_0000
    ensures Parsed(magic + Be16(|EncodeAll(es)|) + EncodeAll(es)) ==
            if EndsBare(es) || HasNull(es) then None else ReportOf(es)
  {
    hide Walk, Visit;
    var body := EncodeAll(es);
    var data := magic + Be16(|body|) + body;
    assert data[2] == |body| / 0x100 && data[3] == |body| % 0x100;
    assert data[HEADER_SIZE..|data|] == body;
    WalkVisits(data, HEADER_SIZE, es, NOTHING);
    VisitsKeepFirst(NOTHING, es);
  }

  /** Whatever the loop accepts is an encoded list. */
  lemma {:induction false} WalkIsEncoding(data: seq<Byte>, p: nat, f: Fields) returns (es: seq<Element>)
    requires p <= |data| && Walk(data, p, f).Some?
    ensures (forall e <- es :: e.Valid()) && data[p..] == EncodeAll(es)
    decreases |data| - p
  {
    hide Visit;
    if p == |data| {
      es := [];
    } else {
      var next := p + 3 + data[p + 2];
      var e := Element(Word(data[p + 1], data[p]), data[p + 3..next]);
      var rest := WalkIsEncoding(data, next, Visit(f, e.vtype, e.value));
      es := [e] + rest;
      assert es[1..] == rest;
      assert data[p..next] == Encode(e);
      assert data[p..] == data[p..next] + data[next..];
    }
  }

  /** Every packet that reports something is an encoded list behind an exact size. */
  lemma ReportsArePackets(data: seq<Byte>) returns (es: seq<Element>)
    requires Parsed(data).Some?
    ensures (forall e <- es :: e.Valid()) && |EncodeAll(es)| < 0x1_0000
    ensures data == data[..2] + Be16(|EncodeAll(es)|) + EncodeAll(es)
  {
    hide Walk, EncodeAll;
    es := WalkIsEncoding(data, HEADER_SIZE, NOTHING);
    var n := |data| - HEADER_SIZE;
    assert Word(data[2], data[3]) == n && Be16(n) == [data[2], data[3]];
    assert data == data[..2] + [data[2], data[3]] + data[HEADER_SIZE..];
  }
}
