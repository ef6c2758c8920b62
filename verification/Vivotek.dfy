/** The Vivotek answer: `parse` of `vivotek.rs`. */
module Vivotek {
  import opened Bytes

  const MAGIC: seq<Byte> := [0x4A, 0x5D, 0x8F, 0x1C]
  const HEADER_SIZE := 5
  const TLV_NULL: Byte := 0x00
  const TLV_MAC: Byte := 0x02
  const TLV_IP: Byte := 0x03
  const TLV_TYPE04: Byte := 0x04
  const TLV_SHORT_NAME: Byte := 0x09

  /** What a packet reports; an address has 4 or 16 bytes, a MAC 6, and no MAC is reported as none. */
  datatype Report = Report(mac: Option<seq<Byte>>, model: seq<Byte>, ip: seq<Byte>)

  datatype Fields = Fields(mac: Option<seq<Byte>>, model: seq<Byte>, ip: Option<seq<Byte>>)

  const NOTHING := Fields(None, [], None)

  /** The `match` on one element; none drops the packet. */
  function Visit(f: Fields, vtype: Byte, value: seq<Byte>): Option<Fields> {
    if vtype == TLV_NULL then None
    else if vtype == TLV_IP then if |value| in {4, 16} then Some(f.(ip := Some(value))) else None
    else if vtype == TLV_MAC then if |value| < 6 then None else Some(f.(mac := Some(value[..6])))
    else if vtype == TLV_SHORT_NAME then Some(f.(model := value))
    else Some(f)
  }

  function Finish(f: Fields): Option<Report> {
    match f.ip case Some(ip) => Some(Report(f.mac, f.model, ip)) case None => None
  }

  /** The loop from `position` on. */
  function Walk(data: seq<Byte>, position: nat, f: Fields): Option<Fields>
    decreases |data| - position
  {
    if position >= |data| then Some(f)
    else if position + 2 >= |data| then None
    else
      var vtype, size := data[position], data[position + 1];
      if vtype == TLV_TYPE04 then Walk(data, position + 2, f)
      else if position + 2 + size > |data| then None
      else match Visit(f, vtype, data[position + 2..position + 2 + size])
        case None => None
        case Some(g) => Walk(data, position + 2 + size, g)
  }

  function Parsed(data: seq<Byte>): Option<Report> {
    if |data| < HEADER_SIZE || data[1..5] != MAGIC then None
    else match Walk(data, HEADER_SIZE, NOTHING)
      case Some(f) => Finish(f)
      case None => None
  }

  method Parse(data: seq<Byte>) returns (r: Option<Report>)
    ensures r == Parsed(data)
  {
    if |data| < HEADER_SIZE || data[1..5] != MAGIC { return None; }
    var f, position: nat := NOTHING, HEADER_SIZE;
    while position < |data|
      invariant Walk(data, position, f) == Walk(data, HEADER_SIZE, NOTHING)
      decreases |data| - position
    {
      if position + 2 >= |data| { return None; }
      var vtype, size := data[position], data[position + 1];
      position := position + 2;
      if vtype == TLV_TYPE04 { continue; }
      if position + size > |data| { return None; }
      var value := data[position..position + size];
      position := position + size;
      match Visit(f, vtype, value) {
        case None => return None;
        case Some(g) => f := g;
      }
    }
    return Finish(f);
  }

  // ---------- the encoder ----------

  /** An element: a typed value, or the type 0x04 whose second byte is its whole value. */
  datatype Element = Value(vtype: Byte, value: seq<Byte>) | Type04(byte: Byte) {
    predicate Valid() { Value? ==> vtype != 0x04 && |value| < 0x100 }
  }

  /** An element of two bytes, with nothing behind its header. */
  predicate IsBare(e: Element) { e.Type04? || e.value == [] }

  function Encode(e: Element): (r: seq<Byte>)
    requires e.Valid()
    ensures |r| >= 2 && (|r| == 2 <==> IsBare(e))
  {
    match e case Value(t, v) => [t, |v|] + v case Type04(b) => [0x04, b]
  }

  function EncodeAll(es: seq<Element>): seq<Byte>
    requires forall e <- es :: e.Valid()
  {
    if es == [] then [] else Encode(es[0]) + EncodeAll(es[1..])
  }

  function VisitAll(f: Fields, es: seq<Element>): Option<Fields>
    decreases |es|
  {
    if es == [] then Some(f)
    else match es[0]
      case Type04(_) => VisitAll(f, es[1..])
      case Value(t, v) => match Visit(f, t, v) case None => None case Some(g) => VisitAll(g, es[1..])
  }

  /** The list ends in an element of two bytes. */
  predicate EndsBare(es: seq<Element>) { es != [] && IsBare(es[|es| - 1]) }

  lemma WalkEnds(data: seq<Byte>, p: nat, f: Fields)
    ensures p >= |data| ==> Walk(data, p, f) == Some(f)
  {
  }

  lemma ElementIsWalked(data: seq<Byte>, p: nat, e: Element, f: Fields)
    requires e.Valid() && At(data, p, Encode(e))
    ensures var next := p + |Encode(e)|;
            Walk(data, p, f) ==
            if p + 2 == |data| then None
            else match e
              case Type04(_) => Walk(data, next, f)
              case Value(t, v) => match Visit(f, t, v) case None => None case Some(g) => Walk(data, next, g)
  {
    var next := p + |Encode(e)|;
    assert data[p] == data[p..next][0] && data[p + 1] == data[p..next][1];
    if e.Value? {
      assert data[p + 2..next] == data[p..next][2..] == e.value;
    }
  }

  /** The loop visits exactly the encoded list; a list that ends in a bare header is dropped. */
  lemma {:induction false} WalkVisits(data: seq<Byte>, p: nat, es: seq<Element>, f: Fields)
    requires forall e <- es :: e.Valid()
    requires At(data, p, EncodeAll(es)) && p + |EncodeAll(es)| == |data|
    ensures Walk(data, p, f) == if EndsBare(es) then None else VisitAll(f, es)
    decreases |es|
  {
    hide Walk, Visit, At, Encode, IsBare;
    if es == [] {
      WalkEnds(data, p, f);
    } else {
      var e, rest := es[0], es[1..];
      assert e in es && forall x :: x in rest ==> x in es;
      var next := p + |Encode(e)|;
      AtSplit(data, p, Encode(e), EncodeAll(rest));
      ElementIsWalked(data, p, e, f);
      assert rest != [] ==> |EncodeAll(rest)| >= 2 && es[|es| - 1] == rest[|rest| - 1];
      match e
      case Type04(_) => WalkVisits(data, next, rest, f);
      case Value(t, v) =>
        match Visit(f, t, v) {
          case None =>
          case Some(g) => WalkVisits(data, next, rest, g);
        }
    }
  }

  /** Whatever the loop accepts is such a list. */
  lemma {:induction false} WalkIsEncoding(data: seq<Byte>, p: nat, f: Fields) returns (es: seq<Element>)
    requires p <= |data| && Walk(data, p, f).Some?
    ensures (forall e <- es :: e.Valid()) && data[p..] == EncodeAll(es) && !EndsBare(es)
    decreases |data| - p
  {
    hide Walk, Visit, Encode, IsBare;
    if p == |data| {
      es := [];
    } else {
      var e, g := WalkedElement(data, p, f);
      var next := p + |Encode(e)|;
      var rest := WalkIsEncoding(data, next, g);
      es := [e] + rest;
      assert es[1..] == rest;
      assert data[p..] == data[p..next] + data[next..];
      assert rest == [] ==> data[next..] == [];
    }
  }

  lemma WalkedElement(data: seq<Byte>, p: nat, f: Fields) returns (e: Element, g: Fields)
    requires p < |data| && Walk(data, p, f).Some?
    ensures e.Valid() && At(data, p, Encode(e)) && Walk(data, p + |Encode(e)|, g).Some?
    ensures p + |Encode(e)| == |data| ==> !IsBare(e)
  {
    hide Walk, Visit, Encode, IsBare;
    WalkStep(data, p, f);
    var t, n := data[p], data[p + 1];
    if t == TLV_TYPE04 {
      e, g := Type04(n), f;
    } else {
      var v := data[p + 2..p + 2 + n];
      e, g := Value(t, v), Visit(f, t, v).value;
    }
    ElementStands(data, p, e);
  }

  lemma ElementStands(data: seq<Byte>, p: nat, e: Element)
    requires p + 2 < |data|
    requires match e
             case Type04(b) => data[p] == TLV_TYPE04 && b == data[p + 1]
             case Value(t, v) =>
               && t == data[p] != TLV_TYPE04 && |v| == data[p + 1] && p + 2 + |v| <= |data|
               && v == data[p + 2..p + 2 + |v|]
    ensures e.Valid() && At(data, p, Encode(e))
    ensures |Encode(e)| == if e.Type04? then 2 else 2 + |e.value|
    ensures p + |Encode(e)| == |data| ==> !IsBare(e)
  {
    assert data[p..p + 2] == [data[p], data[p + 1]];
    if e.Value? { SliceSplit(data, p, p + 2, p + 2 + |e.value|); }
  }

  lemma WalkStep(data: seq<Byte>, p: nat, f: Fields)
    requires p < |data| && Walk(data, p, f).Some?
    ensures p + 2 < |data|
    ensures var t, n := data[p], data[p + 1];
            if t == TLV_TYPE04 then Walk(data, p, f) == Walk(data, p + 2, f)
            else
              && p + 2 + n <= |data| && Visit(f, t, data[p + 2..p + 2 + n]).Some?
              && Walk(data, p, f) == Walk(data, p + 2 + n, Visit(f, t, data[p + 2..p + 2 + n]).value)
  {
    hide Visit;
  }

  // ---------- the last value wins ----------

  /** The last value of a type. */
  function LastValue(es: seq<Element>, vtype: Byte): Option<seq<Byte>> {
    if es == [] then None
    else
      var e := es[|es| - 1];
      if e.Value? && e.vtype == vtype then Some(e.value) else LastValue(es[..|es| - 1], vtype)
  }

  predicate Rejecting(e: Element) {
    && e.Value?
    && (e.vtype == 0x00 || (e.vtype == 0x03 && |e.value| !in {4, 16}) || (e.vtype == 0x02 && |e.value| < 6))
  }

  lemma {:induction false} VisitSnoc(f: Fields, es: seq<Element>, e: Element)
    ensures VisitAll(f, es + [e]) ==
            match VisitAll(f, es)
            case None => None
            case Some(g) => if e.Type04? then Some(g) else Visit(g, e.vtype, e.value)
    decreases |es|
  {
    if es == [] {
      assert es + [e] == [e];
    } else {
      assert (es + [e])[1..] == es[1..] + [e];
      match es[0]
      case Type04(_) => VisitSnoc(f, es[1..], e);
      case Value(t, v) => if Visit(f, t, v).Some? { VisitSnoc(Visit(f, t, v).value, es[1..], e); }
    }
  }

  function LastFields(es: seq<Element>): Fields {
    var mac := LastValue(es, 0x02);
    var model := LastValue(es, 0x09);
    Fields(if mac.Some? && |mac.value| >= 6 then Some(mac.value[..6]) else None,
           if model.Some? then model.value else [],
           LastValue(es, 0x03))
  }

  /** A visit fails exactly at a rejecting element, and otherwise keeps the last value of each type. */
  lemma {:induction false} VisitsKeepLast(es: seq<Element>)
    ensures VisitAll(NOTHING, es) == if exists e <- es :: Rejecting(e) then None else Some(LastFields(es))
  {
    hide VisitAll, LastFields, Visit, Rejecting;
    if es == [] {
      NothingVisited();
    } else {
      var before, e := es[..|es| - 1], es[|es| - 1];
      assert es == before + [e];
      VisitsKeepLast(before);
      VisitSnoc(NOTHING, before, e);
      LastVisit(before, e);
      assert (exists x <- es :: Rejecting(x)) <==> (exists x <- before :: Rejecting(x)) || Rejecting(e);
    }
  }

  lemma NothingVisited()
    ensures VisitAll(NOTHING, []) == Some(NOTHING) && LastFields([]) == NOTHING
  {
  }

  lemma LastVisit(before: seq<Element>, e: Element)
    ensures (if e.Type04? then Some(LastFields(before)) else Visit(LastFields(before), e.vtype, e.value))
         == if Rejecting(e) then None else Some(LastFields(before + [e]))
  {
    LastStep(before, e, TLV_MAC);
    LastStep(before, e, TLV_SHORT_NAME);
    LastStep(before, e, TLV_IP);
  }

  lemma LastStep(before: seq<Element>, e: Element, vtype: Byte)
    ensures LastValue(before + [e], vtype) ==
            if e.Value? && e.vtype == vtype then Some(e.value) else LastValue(before, vtype)
  {
    assert (before + [e])[..|before|] == before;
  }

  /** What a list reports: the last address, without which there is no report, the first six bytes of the last MAC, and
      the last short name. */
  function ReportOf(es: seq<Element>): Option<Report> {
    match LastValue(es, 0x03)
    case None => None
    case Some(ip) =>
      var mac, name := LastValue(es, 0x02), LastValue(es, 0x09);
      Some(Report(if mac.Some? && |mac.value| >= 6 then Some(mac.value[..6]) else None,
                  if name.Some? then name.value else [], ip))
  }

  /** A packet reports exactly what its list reports, unless the list has a rejecting element or ends in a bare
      header. */
  lemma PacketReports(session: Byte, es: seq<Element>)
    requires forall e <- es :: e.Valid()
    ensures Parsed([session, 0x4A, 0x5D, 0x8F, 0x1C] + EncodeAll(es)) ==
            if EndsBare(es) || (exists e <- es :: Rejecting(e)) then None else ReportOf(es)
  {
    assert [session, 0x4A, 0x5D, 0x8F, 0x1C] == [session] + MAGIC;
    var data := [session] + MAGIC + EncodeAll(es);
    assert data[1..5] == MAGIC && data[HEADER_SIZE..] == EncodeAll(es);
    assert data[HEADER_SIZE..|data|] == data[HEADER_SIZE..];
    WalkVisits(data, HEADER_SIZE, es, NOTHING);
    VisitsKeepLast(es);
  }

  /** Every packet that reports something is such a packet. */
  lemma ReportsArePackets(data: seq<Byte>) returns (es: seq<Element>)
    requires Parsed(data).Some?
    ensures (forall e <- es :: e.Valid()) && data == [data[0], 0x4A, 0x5D, 0x8F, 0x1C] + EncodeAll(es)
  {
    hide Walk, Encode;
    es := WalkIsEncoding(data, HEADER_SIZE, NOTHING);
    hide *;
    assert data[..5] == [data[0]] + data[1..5] == [data[0]] + [0x4A, 0x5D, 0x8F, 0x1C];
    assert data == data[..5] + data[5..];
  }
}
