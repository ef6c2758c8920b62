/** When a packet is accepted and what it answers, told by its bytes and by the names that walks spell. */
module DnsAccept {
  import opened Bytes
  import opened DnsMessage
  import DnsName

  /** The two bytes at `p`, the first the higher. */
  function Number(data: seq<Byte>, p: nat): nat
    requires p + 2 <= |data|
  {
    var high: int, low: int := data[p], data[p + 1];
    256 * high + low
  }

  /** A walk from `p` spells the name within 15 redirects, and its field ends at `end`. */
  ghost predicate Names(data: seq<Byte>, p: nat, name: seq<Byte>, end: nat) {
    exists path :: DnsName.Denotes(data, p, path, name, end)
  }

  lemma NamesExactly(data: seq<Byte>, p: nat)
    ensures forall name: seq<Byte>, end: nat ::
              Names(data, p, name, end) <==> DnsName.ReadName(data, p, DnsName.MAX_REDIRECTS, []) == Ok((name, end))
  {
    hide DnsName.ReadName, DnsName.Denotes;
    forall name: seq<Byte>, end: nat
      ensures Names(data, p, name, end) <==> DnsName.ReadName(data, p, DnsName.MAX_REDIRECTS, []) == Ok((name, end))
    {
      DnsName.ReadNameExact(data, p, name, end);
    }
  }

  ghost predicate Named(data: seq<Byte>, p: nat, name: seq<Byte>) { exists end: nat :: Names(data, p, name, end) }

  ghost predicate Nameless(data: seq<Byte>, p: nat) { forall name: seq<Byte>, end: nat :: !Names(data, p, name, end) }

  // ---------- questions ----------

  /** A name and four bytes more, all inside the packet. */
  ghost predicate SkipsQuestion(data: seq<Byte>, p: nat, next: nat) {
    next <= |data| && exists name: seq<Byte>, end: nat :: Names(data, p, name, end) && next == end + 4
  }

  ghost predicate Questions(data: seq<Byte>, places: seq<nat>) {
    places != [] && forall i :: 0 <= i < |places| - 1 ==> SkipsQuestion(data, places[i], places[i + 1])
  }

  lemma QuestionIs(data: seq<Byte>, p: nat, next: nat)
    ensures SkipsQuestion(data, p, next) <==>
              var r := DnsName.ReadName(data, p, DnsName.MAX_REDIRECTS, []);
              r.Ok? && r.value.1 + 4 == next <= |data|
  {
    hide Names, DnsName.ReadName;
    NamesExactly(data, p);
  }

  lemma {:induction false} QuestionsExactly(data: seq<Byte>, p: nat, count: nat, end: nat)
    ensures ParseQuestions(data, p, count) == Ok(end)
       <==> exists places :: Questions(data, places) && |places| == count + 1 && places[0] == p && places[count] == end
    decreases count
  {
    hide DnsName.ReadName, SkipsQuestion;
    if count == 0 {
      if p == end { assert Questions(data, [p]); }
    } else {
      var r := DnsName.ReadName(data, p, DnsName.MAX_REDIRECTS, []);
      if r.Ok? && r.value.1 + 4 <= |data| {
        var next := r.value.1 + 4;
        QuestionIs(data, p, next);
        QuestionsExactly(data, next, count - 1, end);
        if ParseQuestions(data, p, count) == Ok(end) {
          var rest :| Questions(data, rest) && |rest| == count && rest[0] == next && rest[count - 1] == end;
          var places := [p] + rest;
          assert forall i :: 0 < i <= count ==> places[i] == rest[i - 1];
          assert Questions(data, places);
        }
      }
      if places :| Questions(data, places) && |places| == count + 1 && places[0] == p && places[count] == end {
        QuestionIs(data, p, places[1]);
        var rest := places[1..];
        assert forall i :: 0 <= i < count ==> rest[i] == places[i + 1];
        assert Questions(data, rest);
        QuestionsExactly(data, places[1], count - 1, end);
      }
    }
  }

  // ---------- records ----------

  /** An owner name, and behind it the type, six bytes, and the length of data that lies inside the packet. */
  ghost predicate Heads(data: seq<Byte>, p: nat, name: seq<Byte>, rrtype: nat, start: nat, rdlen: nat) {
    && 10 <= start <= |data| && Names(data, p, name, start - 10)
    && rrtype == Number(data, start - 10) && rdlen == Number(data, start - 2) && start + rdlen <= |data|
  }

  /** The strings from `p` to `end`, each behind its length and cut at the end; a lone last byte is no string. */
  predicate Strings(data: seq<Byte>, p: nat, end: nat, strings: seq<seq<Byte>>)
    requires end <= |data|
    decreases |strings|
  {
    if strings == [] then end <= p + 1
    else
      var s := strings[0];
      && p + 1 < end
      && |s| == (if p + 1 + data[p] <= end then data[p] else end - p - 1)
      && s == data[p + 1..p + 1 + |s|]
      && Strings(data, p + 1 + |s|, end, strings[1..])
  }

  /** What the data of a record says under its type. */
  ghost predicate Says(data: seq<Byte>, rrtype: nat, start: nat, rdlen: nat, d: RData)
    requires start + rdlen <= |data|
  {
    match d
    case A(a) => rrtype == 1 && a == if rdlen == 4 then data[start..start + 4] else [0, 0, 0, 0]
    case Aaaa(a) => rrtype == 28 && a == if rdlen == 16 then data[start..start + 16] else seq(16, i => 0)
    case Ptr(name) => rrtype == 12 && Named(data, start, name)
    case Txt(strings) => rrtype == 16 && Strings(data, start, start + rdlen, strings)
    case Srv(priority, weight, port, target) =>
      && rrtype == 33
      && (if rdlen < 6 then priority == weight == port == 0 && target == []
          else
            && priority == Number(data, start) && weight == Number(data, start + 2) && port == Number(data, start + 4)
            && (Named(data, start + 6, target) || (target == [] && Nameless(data, start + 6))))
  }

  /** A whole record of a known type: its answer, and where the next one begins. */
  ghost predicate Gives(data: seq<Byte>, p: nat, a: Answer, next: nat) {
    exists start: nat, rdlen: U16 ::
      && Heads(data, p, a.name, a.rrtype, start, rdlen) && Says(data, a.rrtype, start, rdlen, a.data)
      && next == start + rdlen
  }

  /** A whole record of a type that is not known. */
  ghost predicate Stops(data: seq<Byte>, p: nat) {
    exists name: seq<Byte>, rrtype: U16, start: nat, rdlen: U16 ::
      Heads(data, p, name, rrtype, start, rdlen) && rrtype !in {1, 12, 16, 28, 33}
  }

  lemma NumberIs(data: seq<Byte>, p: nat)
    requires p + 2 <= |data|
    ensures Number(data, p) == U16At(data, p)
  {
  }

  lemma HeadsExactly(data: seq<Byte>, p: nat, name: seq<Byte>, rrtype: U16, start: nat, rdlen: U16)
    ensures Heads(data, p, name, rrtype, start, rdlen) <==>
              var r := DnsName.ReadName(data, p, DnsName.MAX_REDIRECTS, []);
              r.Ok? && r.value.0 == name && ParseFixed(data, r.value.1) == Ok((rrtype, start, rdlen))
  {
    hide DnsName.ReadName, Names, U16At, Number;
    NamesExactly(data, p);
    if 10 <= start <= |data| {
      NumberIs(data, start - 10);
      NumberIs(data, start - 2);
    }
  }

  lemma {:induction false} StringsExactly(data: seq<Byte>, p: nat, remaining: nat, strings: seq<seq<Byte>>)
    requires p + remaining <= |data|
    ensures Strings(data, p, p + remaining, strings) <==> strings == ParseTxt(data, p, remaining)
    decreases remaining
  {
    hide ParseTxt;
    if remaining > 1 {
      var n := Smaller(data[p], Smaller(remaining - 1, |data| - p - 1));
      var s := data[p + 1..p + 1 + n];
      TxtGoesOn(data, p, remaining, s);
      if strings != [] {
        StringsExactly(data, p + 1 + n, remaining - 1 - n, strings[1..]);
        assert strings == [strings[0]] + strings[1..];
      }
    } else {
      TxtEnds(data, p, remaining);
    }
  }

  lemma SrvExactly(data: seq<Byte>, start: nat, rdlen: nat, d: RData)
    requires start + rdlen <= |data|
    ensures Says(data, 33, start, rdlen, d) <==> d == ParseSrv(data, start, rdlen)
  {
    hide DnsName.ReadName, Names, U16At, Number;
    if rdlen >= 6 {
      NamesExactly(data, start + 6);
      NumberIs(data, start);
      NumberIs(data, start + 2);
      NumberIs(data, start + 4);
    }
  }

  lemma SaysExactly(data: seq<Byte>, rrtype: U16, start: nat, rdlen: U16, d: RData)
    requires start + rdlen <= |data|
    ensures Says(data, rrtype, start, rdlen, d) <==> ParseData(data, rrtype, start, rdlen) == Ok(Some(d))
    ensures rrtype !in {1, 12, 16, 28, 33} <==> ParseData(data, rrtype, start, rdlen) == Ok(None)
  {
    hide DnsName.ReadName, Names, ParseTxt, ParseSrv, Strings;
    NamesExactly(data, start);
    if d.Txt? { StringsExactly(data, start, rdlen, d.strings); }
    if rrtype == 33 { SrvExactly(data, start, rdlen, d); }
    assert Zeros(4) == [0, 0, 0, 0] && Zeros(16) == seq(16, i => 0);
  }

  lemma RecordExactly(data: seq<Byte>, p: nat, a: Answer, next: nat)
    ensures Gives(data, p, a, next) <==> ParseRecord(data, p) == Ok(Some((a, next)))
    ensures Stops(data, p) <==> ParseRecord(data, p) == Ok(None)
  {
    hide DnsName.ReadName, ParseFixed, ParseData, Heads, Says;
    var r := DnsName.ReadName(data, p, DnsName.MAX_REDIRECTS, []);
    if r.Ok? && ParseFixed(data, r.value.1).Ok? {
      var (rrtype, start, rdlen) := ParseFixed(data, r.value.1).value;
      HeadsExactly(data, p, r.value.0, rrtype, start, rdlen);
      SaysExactly(data, rrtype, start, rdlen, a.data);
      if ParseRecord(data, p) == Ok(Some((a, next))) {
        assert Heads(data, p, a.name, a.rrtype, start, rdlen) && Says(data, a.rrtype, start, rdlen, a.data);
      }
      if ParseRecord(data, p) == Ok(None) {
        assert Heads(data, p, r.value.0, rrtype, start, rdlen);
      }
    }
    if Gives(data, p, a, next) { GivenIsParsed(data, p, a, next); }
    if Stops(data, p) { StopIsParsed(data, p); }
  }

  lemma GivenIsParsed(data: seq<Byte>, p: nat, a: Answer, next: nat)
    requires Gives(data, p, a, next)
    ensures ParseRecord(data, p) == Ok(Some((a, next)))
  {
    hide DnsName.ReadName, ParseFixed, ParseData, Says, Names;
    var start: nat, rdlen: U16 :|
      && Heads(data, p, a.name, a.rrtype, start, rdlen) && Says(data, a.rrtype, start, rdlen, a.data)
      && next == start + rdlen;
    HeadsExactly(data, p, a.name, a.rrtype, start, rdlen);
    SaysExactly(data, a.rrtype, start, rdlen, a.data);
  }

  lemma StopIsParsed(data: seq<Byte>, p: nat)
    requires Stops(data, p)
    ensures ParseRecord(data, p) == Ok(None)
  {
    hide DnsName.ReadName, ParseFixed, ParseData, Says, Names;
    var name: seq<Byte>, rrtype: U16, start: nat, rdlen: U16 :|
      Heads(data, p, name, rrtype, start, rdlen) && rrtype !in {1, 12, 16, 28, 33};
    HeadsExactly(data, p, name, rrtype, start, rdlen);
    SaysExactly(data, rrtype, start, rdlen, Txt([]));
  }

  /** Whole records one behind the other, and the answers they give. */
  ghost predicate Chain(data: seq<Byte>, places: seq<nat>, answers: seq<Answer>) {
    && |places| == |answers| + 1
    && forall i :: 0 <= i < |answers| ==> places[i] < |data| && Gives(data, places[i], answers[i], places[i + 1])
  }

  /** A chain that ends with the count, at the end of the packet, or before a whole record of an unknown type. */
  ghost predicate Layout(data: seq<Byte>, count: nat, places: seq<nat>, answers: seq<Answer>) {
    && Chain(data, places, answers) && |answers| <= count
    && var last := places[|answers|];
       |answers| == count || last >= |data| || Stops(data, last)
  }

  lemma ChainTail(data: seq<Byte>, places: seq<nat>, answers: seq<Answer>)
    requires answers != [] && Chain(data, places, answers)
    ensures Chain(data, places[1..], answers[1..])
    ensures places[0] < |data| && Gives(data, places[0], answers[0], places[1])
  {
    hide Gives;
    assert forall i :: 0 <= i < |answers| - 1 ==> answers[1..][i] == answers[i + 1];
    assert forall i :: 0 <= i < |answers| ==> places[1..][i] == places[i + 1];
  }

  lemma ChainCons(data: seq<Byte>, p: nat, a: Answer, places: seq<nat>, answers: seq<Answer>)
    requires Chain(data, places, answers) && p < |data| && Gives(data, p, a, places[0])
    ensures Chain(data, [p] + places, [a] + answers)
  {
    hide Gives;
    var ps, all := [p] + places, [a] + answers;
    assert forall i :: 0 < i < |all| ==> all[i] == answers[i - 1];
    assert forall i :: 0 < i < |ps| ==> ps[i] == places[i - 1];
  }

  lemma {:induction false} LayoutIsParsed(data: seq<Byte>, count: nat, places: seq<nat>, answers: seq<Answer>)
    requires Layout(data, count, places, answers)
    ensures ParseRecords(data, places[0], count) == Ok(answers)
    decreases |answers|
  {
    hide ParseRecord, Gives, Stops;
    if answers == [] {
      RecordExactly(data, places[0], Answer(0, [], Txt([])), 0);
    } else {
      ChainTail(data, places, answers);
      RecordExactly(data, places[0], answers[0], places[1]);
      LayoutIsParsed(data, count - 1, places[1..], answers[1..]);
      assert answers == [answers[0]] + answers[1..];
    }
  }

  lemma {:induction false} ParsedHasLayout(data: seq<Byte>, p: nat, count: nat) returns (places: seq<nat>)
    requires ParseRecords(data, p, count).Ok?
    ensures Layout(data, count, places, ParseRecords(data, p, count).value) && places[0] == p
    decreases count
  {
    hide ParseRecord, Gives, Stops;
    places := [p];
    if count > 0 && p < |data| {
      match ParseRecord(data, p).value
      case None => RecordExactly(data, p, Answer(0, [], Txt([])), 0);
      case Some((a, next)) =>
        RecordExactly(data, p, a, next);
        var rest := ParsedHasLayout(data, next, count - 1);
        var answers := ParseRecords(data, next, count - 1).value;
        ChainCons(data, p, a, rest, answers);
        assert ([p] + rest)[|answers| + 1] == rest[|answers|];
        places := [p] + rest;
    }
  }

  /** A packet is accepted with some answers if and only if it is longer than its header, its questions are whole, and
      from behind them whole records give these answers, up to the count of all three sections, the end of the packet or
      the first whole record of an unknown type. */
  lemma AcceptedExactly(data: seq<Byte>, answers: seq<Answer>)
    ensures ParseDns(data) == Ok(answers) <==>
              && |data| > 12
              && exists ends, places ::
                   && Questions(data, ends) && |ends| == Number(data, 4) + 1 && ends[0] == 12
                   && Layout(data, Number(data, 6) + Number(data, 8) + Number(data, 10), places, answers)
                   && places != [] && places[0] == ends[|ends| - 1]
  {
    hide ParseQuestions, ParseRecords, Questions, Layout, U16At, Number;
    if |data| > 12 {
      NumberIs(data, 4);
      NumberIs(data, 6);
      NumberIs(data, 8);
      NumberIs(data, 10);
      var qd, count := Number(data, 4), Number(data, 6) + Number(data, 8) + Number(data, 10);
      if ParseDns(data) == Ok(answers) {
        var p := ParseQuestions(data, 12, qd).value;
        QuestionsExactly(data, 12, qd, p);
        var ends :| Questions(data, ends) && |ends| == qd + 1 && ends[0] == 12 && ends[qd] == p;
        var places := ParsedHasLayout(data, p, count);
        LayoutStarts(data, count, places, answers);
      }
      if ends, places :| Questions(data, ends) && |ends| == qd + 1 && ends[0] == 12
                         && Layout(data, count, places, answers) && places != [] && places[0] == ends[|ends| - 1] {
        QuestionsExactly(data, 12, qd, ends[qd]);
        LayoutIsParsed(data, count, places, answers);
      }
    }
  }

  lemma LayoutStarts(data: seq<Byte>, count: nat, places: seq<nat>, answers: seq<Answer>)
    requires Layout(data, count, places, answers)
    ensures places != []
  {
  }

  /** Whole records followed, before the count is reached and inside the packet, by one that is not whole are an error:
      none of their answers is given. */
  lemma {:induction false} BrokenRecordIsError(data: seq<Byte>, count: nat, places: seq<nat>, answers: seq<Answer>)
    requires Chain(data, places, answers) && |answers| < count && places[|answers|] < |data|
    requires !Stops(data, places[|answers|]) && forall a, next :: !Gives(data, places[|answers|], a, next)
    ensures ParseRecords(data, places[0], count).Err?
    decreases |answers|
  {
    hide ParseRecord, Gives, Stops;
    if answers == [] {
      RecordExactly(data, places[0], Answer(0, [], Txt([])), 0);
      match ParseRecord(data, places[0])
      case Ok(Some((a, next))) => RecordExactly(data, places[0], a, next);
      case _ =>
    } else {
      ChainTail(data, places, answers);
      RecordExactly(data, places[0], answers[0], places[1]);
      BrokenRecordIsError(data, count - 1, places[1..], answers[1..]);
    }
  }

  /** The whole questions and whole records at the front of a packet, and behind them, before the count is reached, a
      record that is not whole. */
  ghost predicate BreaksOff(data: seq<Byte>, ends: seq<nat>, places: seq<nat>, answers: seq<Answer>) {
    && |data| > 12
    && Questions(data, ends) && |ends| == Number(data, 4) + 1 && ends[0] == 12
    && Chain(data, places, answers) && places[0] == ends[|ends| - 1]
    && |answers| < Number(data, 6) + Number(data, 8) + Number(data, 10)
    && var last := places[|answers|];
       last < |data| && !Stops(data, last) && forall a, next :: !Gives(data, last, a, next)
  }

  /** One broken record is enough: the packet is an error. */
  lemma BrokenPacketIsError(data: seq<Byte>, ends: seq<nat>, places: seq<nat>, answers: seq<Answer>)
    requires BreaksOff(data, ends, places, answers)
    ensures ParseDns(data).Err?
  {
    hide ParseQuestions, ParseRecords, Questions, Chain, Gives, Stops, U16At, Number;
    NumberIs(data, 4);
    NumberIs(data, 6);
    NumberIs(data, 8);
    NumberIs(data, 10);
    ChainStarts(data, places, answers);
    QuestionsExactly(data, 12, Number(data, 4), ends[|ends| - 1]);
    BrokenRecordIsError(data, Number(data, 6) + Number(data, 8) + Number(data, 10), places, answers);
  }

  lemma ChainStarts(data: seq<Byte>, places: seq<nat>, answers: seq<Answer>)
    requires Chain(data, places, answers)
    ensures |places| == |answers| + 1
  {
  }
}
