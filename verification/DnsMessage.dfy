/** The answer parser of `mdns.rs`: `parse_txt`, `parse_srv` and `parse_dns`. */
module DnsMessage {
  import opened Bytes
  import opened DnsName

  datatype DnsError =
    | PacketTooShort | QuestionOverflow | U16Overflow | U32Overflow | RdataOutOfBounds
    | BadName(error: NameError)

  datatype RData =
    | A(address: seq<Byte>)
    | Aaaa(address: seq<Byte>)
    | Ptr(name: seq<Byte>)
    | Txt(strings: seq<seq<Byte>>)
    | Srv(priority: U16, weight: U16, port: U16, target: seq<Byte>)

  datatype Answer = Answer(rrtype: U16, name: seq<Byte>, data: RData)

  const HEADER_SIZE := 12
  const TYPE_A: U16 := 1
  const TYPE_PTR: U16 := 12
  const TYPE_TXT: U16 := 16
  const TYPE_AAAA: U16 := 28
  const TYPE_SRV: U16 := 33

  function U16At(data: seq<Byte>, p: nat): U16
    requires p + 2 <= |data|
  {
    Word(data[p], data[p + 1])
  }

  function Zeros(n: nat): (r: seq<Byte>)
    ensures |r| == n
  {
    seq(n, i => 0)
  }

  function Smaller(a: nat, b: nat): nat { if a <= b then a else b }

  /** The strings of a TXT record; a last lone byte is never read as a length. */
  function ParseTxt(data: seq<Byte>, pos: nat, remaining: nat): seq<seq<Byte>>
    decreases remaining
  {
    if remaining > 1 && pos + 1 < |data| then
      var n := Smaller(data[pos], Smaller(remaining - 1, |data| - pos - 1));
      [data[pos + 1..pos + 1 + n]] + ParseTxt(data, pos + 1 + n, remaining - 1 - n)
    else []
  }

  method ParseTxtLoop(data: seq<Byte>, start: nat, rdlen: U16) returns (out: seq<seq<Byte>>)
    ensures out == ParseTxt(data, start, rdlen)
  {
    hide ParseTxt;
    out := [];
    var remaining: nat, pos: nat := rdlen, start;
    while remaining > 1 && pos + 1 < |data|
      invariant out + ParseTxt(data, pos, remaining) == ParseTxt(data, start, rdlen)
      decreases remaining
    {
      var s := ReadString(data, pos, remaining);
      TxtGoesOn(data, pos, remaining, s);
      assert out + ([s] + ParseTxt(data, pos + 1 + |s|, remaining - 1 - |s|))
          == out + [s] + ParseTxt(data, pos + 1 + |s|, remaining - 1 - |s|);
      pos := pos + 1 + |s|;
      remaining := remaining - 1 - |s|;
      out := out + [s];
    }
    TxtEnds(data, pos, remaining);
    assert out + [] == out;
  }

  lemma TxtGoesOn(data: seq<Byte>, pos: nat, remaining: nat, s: seq<Byte>)
    requires remaining > 1 && pos + 1 < |data|
    requires var n := Smaller(data[pos], Smaller(remaining - 1, |data| - pos - 1)); s == data[pos + 1..pos + 1 + n]
    ensures |s| <= remaining - 1
    ensures ParseTxt(data, pos, remaining) == [s] + ParseTxt(data, pos + 1 + |s|, remaining - 1 - |s|)
  {
  }

  lemma TxtEnds(data: seq<Byte>, pos: nat, remaining: nat)
    requires remaining <= 1 || pos + 1 >= |data|
    ensures ParseTxt(data, pos, remaining) == []
  {
  }

  /** The inner loop: one string, cut short by the end of the record or of the data. */
  method ReadString(data: seq<Byte>, from: nat, left: nat) returns (s: seq<Byte>)
    requires left > 1 && from + 1 < |data|
    ensures var n := Smaller(data[from], Smaller(left - 1, |data| - from - 1)); s == data[from + 1..from + 1 + n]
  {
    var pos, remaining, len: nat := from + 1, left - 1, data[from];
    s := [];
    while len > 0 && remaining > 0 && pos < |data|
      invariant pos == from + 1 + |s| <= |data| && remaining == left - 1 - |s| && len == data[from] - |s|
      invariant s == data[from + 1..pos]
    {
      s := s + [data[pos]];
      pos := pos + 1;
      remaining := remaining - 1;
      len := len - 1;
    }
  }

  /** The SRV fields; a target that does not read as a name becomes the empty name. */
  function ParseSrv(data: seq<Byte>, pos: nat, rdlen: nat): RData
    requires pos + rdlen <= |data|
  {
    if rdlen < 6 then Srv(0, 0, 0, [])
    else
      var target := match ReadName(data, pos + 6, MAX_REDIRECTS, [])
                    case Ok((name, _)) => name
                    case Err(_) => [];
      Srv(U16At(data, pos), U16At(data, pos + 2), U16At(data, pos + 4), target)
  }

  /** The record data of a type; none for an unknown type. */
  function ParseData(data: seq<Byte>, rrtype: U16, pos: nat, rdlen: nat): Result<Option<RData>, DnsError>
    requires pos + rdlen <= |data|
  {
    if rrtype == TYPE_A then Ok(Some(A(if rdlen != 4 then Zeros(4) else data[pos..pos + 4])))
    else if rrtype == TYPE_AAAA then Ok(Some(Aaaa(if rdlen != 16 then Zeros(16) else data[pos..pos + 16])))
    else if rrtype == TYPE_PTR then
      match ReadName(data, pos, MAX_REDIRECTS, [])
      case Err(e) => Err(BadName(e))
      case Ok((name, _)) => Ok(Some(Ptr(name)))
    else if rrtype == TYPE_TXT then Ok(Some(Txt(ParseTxt(data, pos, rdlen))))
    else if rrtype == TYPE_SRV then Ok(Some(ParseSrv(data, pos, rdlen)))
    else Ok(None)
  }

  /** The fixed fields behind an owner name: the type, the data's position and its length. */
  function ParseFixed(data: seq<Byte>, p: nat): (r: Result<(U16, nat, U16), DnsError>)
    ensures r.Ok? ==> p < r.value.1 && r.value.1 + r.value.2 <= |data|
  {
    if p + 4 > |data| then Err(U16Overflow)
    else if p + 8 > |data| then Err(U32Overflow)
    else if p + 10 > |data| then Err(U16Overflow)
    else
      var rdlen := U16At(data, p + 8);
      if p + 10 + rdlen > |data| then Err(RdataOutOfBounds) else Ok((U16At(data, p), p + 10, rdlen))
  }

  function Prepend(answers: seq<Answer>, r: Result<seq<Answer>, DnsError>): Result<seq<Answer>, DnsError> {
    match r
    case Ok(rest) => Ok(answers + rest)
    case Err(e) => Err(e)
  }

  /** The record at `pos` and the position behind it; none for an unknown type. */
  function ParseRecord(data: seq<Byte>, pos: nat): Result<Option<(Answer, nat)>, DnsError> {
    match ReadName(data, pos, MAX_REDIRECTS, [])
    case Err(e) => Err(BadName(e))
    case Ok((name, p)) =>
      match ParseFixed(data, p)
      case Err(e) => Err(e)
      case Ok((rrtype, start, rdlen)) =>
        match ParseData(data, rrtype, start, rdlen)
        case Err(e) => Err(e)
        case Ok(None) => Ok(None)
        case Ok(Some(d)) => Ok(Some((Answer(rrtype, name, d), start + rdlen)))
  }

  /** At most `count` records from `pos`: up to the end of the data or the first unknown type. */
  function ParseRecords(data: seq<Byte>, pos: nat, count: nat): Result<seq<Answer>, DnsError>
    decreases count
  {
    if count == 0 || pos >= |data| then Ok([])
    else match ParseRecord(data, pos)
      case Err(e) => Err(e)
      case Ok(None) => Ok([])
      case Ok(Some((answer, next))) => Prepend([answer], ParseRecords(data, next, count - 1))
  }

  /** The position behind `count` questions. */
  function ParseQuestions(data: seq<Byte>, pos: nat, count: nat): Result<nat, DnsError>
    decreases count
  {
    if count == 0 then Ok(pos)
    else if pos >= |data| then Err(QuestionOverflow)
    else match ReadName(data, pos, MAX_REDIRECTS, [])
      case Err(e) => Err(BadName(e))
      case Ok((_, p)) => if p + 4 > |data| then Err(U16Overflow) else ParseQuestions(data, p + 4, count - 1)
  }

  function ParseDns(data: seq<Byte>): Result<seq<Answer>, DnsError> {
    if |data| <= HEADER_SIZE then Err(PacketTooShort)
    else match ParseQuestions(data, HEADER_SIZE, U16At(data, 4))
      case Err(e) => Err(e)
      case Ok(pos) => ParseRecords(data, pos, U16At(data, 6) + U16At(data, 8) + U16At(data, 10))
  }

  /** A big-endian read that moves on only when it succeeds. */
  method Rd16(data: seq<Byte>, pos: nat) returns (r: Result<U16, DnsError>, next: nat)
    ensures pos + 2 > |data| ==> r == Err(U16Overflow) && next == pos
    ensures pos + 2 <= |data| ==> r == Ok(U16At(data, pos)) && next == pos + 2
  {
    if pos + 2 > |data| { return Err(U16Overflow), pos; }
    return Ok(Word(data[pos], data[pos + 1])), pos + 2;
  }

  method Rd32(data: seq<Byte>, pos: nat) returns (r: Result<U32, DnsError>, next: nat)
    ensures pos + 4 > |data| ==> r == Err(U32Overflow) && next == pos
    ensures pos + 4 <= |data| ==>
              r == Ok(U16At(data, pos) * 0x1_0000 + U16At(data, pos + 2)) && next == pos + 4
  {
    if pos + 4 > |data| { return Err(U32Overflow), pos; }
    return Ok(Word(data[pos], data[pos + 1]) * 0x1_0000 + Word(data[pos + 2], data[pos + 3])), pos + 4;
  }

  method SkipQuestions(data: seq<Byte>, qd: U16) returns (r: Result<nat, DnsError>)
    ensures r == ParseQuestions(data, HEADER_SIZE, qd)
  {
    var pos: nat := HEADER_SIZE;
    for i := 0 to qd
      invariant ParseQuestions(data, pos, qd - i) == ParseQuestions(data, HEADER_SIZE, qd)
    {
      if pos >= |data| { return Err(QuestionOverflow); }
      var name := ReadNameLoop(data, pos, MAX_REDIRECTS);
      if name.Err? { return Err(BadName(name.error)); }
      pos := name.value.1;
      var field;
      field, pos := Rd16(data, pos);
      if field.Err? { return Err(field.error); }
      field, pos := Rd16(data, pos);
      if field.Err? { return Err(field.error); }
    }
    return Ok(pos);
  }

  /** The record data, by the `match` on the type. */
  method ReadData(data: seq<Byte>, rrtype: U16, pos: nat, rdlen: U16) returns (r: Result<Option<RData>, DnsError>)
    requires pos + rdlen <= |data|
    ensures r == ParseData(data, rrtype, pos, rdlen)
  {
    if rrtype == TYPE_A {
      r := Ok(Some(A(if rdlen != 4 then Zeros(4) else data[pos..pos + 4])));
    } else if rrtype == TYPE_AAAA {
      r := Ok(Some(Aaaa(if rdlen != 16 then Zeros(16) else data[pos..pos + 16])));
    } else if rrtype == TYPE_PTR {
      var name := ReadNameLoop(data, pos, MAX_REDIRECTS);
      if name.Err? { return Err(BadName(name.error)); }
      r := Ok(Some(Ptr(name.value.0)));
    } else if rrtype == TYPE_TXT {
      var strings := ParseTxtLoop(data, pos, rdlen);
      r := Ok(Some(Txt(strings)));
    } else if rrtype == TYPE_SRV {
      var srv := ReadSrv(data, pos, rdlen);
      r := Ok(Some(srv));
    } else {
      r := Ok(None);
    }
  }

  method ReadSrv(data: seq<Byte>, pos: nat, rdlen: U16) returns (r: RData)
    requires pos + rdlen <= |data|
    ensures r == ParseSrv(data, pos, rdlen)
  {
    if rdlen < 6 { return Srv(0, 0, 0, []); }
    var priority := Word(data[pos], data[pos + 1]);
    var weight := Word(data[pos + 2], data[pos + 3]);
    var port := Word(data[pos + 4], data[pos + 5]);
    var name := ReadNameLoop(data, pos + 6, MAX_REDIRECTS);
    var target := if name.Ok? then name.value.0 else [];
    return Srv(priority, weight, port, target);
  }

  method ParseDnsLoop(data: seq<Byte>) returns (r: Result<seq<Answer>, DnsError>)
    ensures r == ParseDns(data)
  {
    hide ParseQuestions, ParseRecords, U16At;
    if |data| <= HEADER_SIZE { return Err(PacketTooShort); }
    var qd, total := ReadCounts(data);
    var questions := SkipQuestions(data, qd);
    if questions.Err? { return Err(questions.error); }
    r := ReadRecords(data, questions.value, total);
  }

  /** The header: the number of questions, and of the records of all three sections. */
  method ReadCounts(data: seq<Byte>) returns (qd: U16, total: nat)
    requires |data| > HEADER_SIZE
    ensures qd == U16At(data, 4) && total == U16At(data, 6) + U16At(data, 8) + U16At(data, 10)
  {
    hide U16At;
    var questions, answers, authorities, additionals, h;
    questions, h := Rd16(data, 4);
    answers, h := Rd16(data, h);
    authorities, h := Rd16(data, h);
    additionals, h := Rd16(data, h);
    var an: int, ns: int, ar: int := answers.value, authorities.value, additionals.value;
    return questions.value, an + ns + ar;
  }

  /** The loop over the records of all three sections. */
  method ReadRecords(data: seq<Byte>, start: nat, total: nat) returns (r: Result<seq<Answer>, DnsError>)
    ensures r == ParseRecords(data, start, total)
  {
    hide ParseRecord;
    var pos: nat, answers: seq<Answer> := start, [];
    ghost var goal := ParseRecords(data, start, total);
    assert goal.Ok? ==> [] + goal.value == goal.value;
    for i := 0 to total
      invariant Prepend(answers, ParseRecords(data, pos, total - i)) == goal
    {
      if pos >= |data| { break; }
      var record := ReadRecord(data, pos);
      if record.Err? { return Err(record.error); }
      if record.value.None? {
        assert answers + [] == answers;
        return Ok(answers);
      }
      var (answer, next) := record.value.value;
      PrependTwice(answers, answer, ParseRecords(data, next, total - i - 1));
      pos := next;
      answers := answers + [answer];
    }
    assert answers + [] == answers;
    return Ok(answers);
  }

  method ReadRecord(data: seq<Byte>, pos: nat) returns (r: Result<Option<(Answer, nat)>, DnsError>)
    ensures r == ParseRecord(data, pos)
  {
    hide ReadName, ParseData;
    var name := ReadNameLoop(data, pos, MAX_REDIRECTS);
    if name.Err? { return Err(BadName(name.error)); }
    var p := name.value.1;
    var rrtype, field, ttl, rdlen;
    rrtype, p := Rd16(data, p);
    if rrtype.Err? { return Err(rrtype.error); }
    field, p := Rd16(data, p);
    if field.Err? { return Err(field.error); }
    ttl, p := Rd32(data, p);
    if ttl.Err? { return Err(ttl.error); }
    rdlen, p := Rd16(data, p);
    if rdlen.Err? { return Err(rdlen.error); }
    if p + rdlen.value > |data| { return Err(RdataOutOfBounds); }
    var end := p + rdlen.value;
    var rdata := ReadData(data, rrtype.value, p, rdlen.value);
    if rdata.Err? { return Err(rdata.error); }
    if rdata.value.None? { return Ok(None); }
    return Ok(Some((Answer(rrtype.value, name.value.0, rdata.value.value), end)));
  }

  lemma PrependTwice(answers: seq<Answer>, answer: Answer, r: Result<seq<Answer>, DnsError>)
    ensures Prepend(answers, Prepend([answer], r)) == Prepend(answers + [answer], r)
  {
    assert r.Ok? ==> answers + ([answer] + r.value) == answers + [answer] + r.value;
  }
}
