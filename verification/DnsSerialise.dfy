/** The message writer that `mdns.rs` does not have, and what its messages parse to. */
module DnsSerialise {
  import opened Bytes
  import Text
  import opened DnsName
  import opened DnsWire
  import opened DnsMessage

  /** Record data as written. Names may end in a pointer, addresses may have a wrong length, an SRV record may be too
      short for its fields, and `Other` has a type the parser does not know. */
  datatype WireData =
    | WireA(address: seq<Byte>)
    | WireAaaa(address: seq<Byte>)
    | WirePtr(name: WireName)
    | WireTxt(strings: seq<seq<Byte>>)
    | WireSrv(priority: U16, weight: U16, port: U16, target: WireName)
    | ShortSrv(bytes: seq<Byte>)
    | Other(rrtype: U16, bytes: seq<Byte>)

  datatype WireRecord = WireRecord(owner: WireName, rrclass: U16, ttl: U32, data: WireData)
  datatype Question = Question(name: WireName, qtype: U16, qclass: U16)
  datatype Message =
    Message(id: U16, flags: U16, questions: seq<Question>, answerCount: U16, authorityCount: U16,
            additionalCount: U16, records: seq<WireRecord>)

  function TypeOf(d: WireData): U16 {
    match d
    case WireA(_) => 1
    case WireAaaa(_) => 28
    case WirePtr(_) => 12
    case WireTxt(_) => 16
    case WireSrv(_, _, _, _) => 33
    case ShortSrv(_) => 33
    case Other(t, _) => t
  }

  function EmitTxt(strings: seq<seq<Byte>>): seq<Byte>
    requires forall s <- strings :: |s| < 0x100
  {
    if strings == [] then [] else [|strings[0]|] + strings[0] + EmitTxt(strings[1..])
  }

  predicate WritableData(d: WireData) {
    match d
    case WireA(a) => |a| < 0x1_0000
    case WireAaaa(a) => |a| < 0x1_0000
    case WirePtr(n) => n.Writable() && |EmitName(n)| < 0x1_0000
    case WireTxt(ss) => (forall s <- ss :: |s| < 0x100) && |EmitTxt(ss)| < 0x1_0000
    case WireSrv(_, _, _, n) => n.Writable() && |EmitName(n)| + 6 < 0x1_0000
    case ShortSrv(b) => |b| < 6
    case Other(t, b) => t !in {1, 12, 16, 28, 33} && |b| < 0x1_0000
  }

  function EmitData(d: WireData): (r: seq<Byte>)
    requires WritableData(d)
    ensures |r| < 0x1_0000
  {
    match d
    case WireA(a) => a
    case WireAaaa(a) => a
    case WirePtr(n) => EmitName(n)
    case WireTxt(ss) => EmitTxt(ss)
    case WireSrv(p, w, port, n) => Be16(p) + Be16(w) + Be16(port) + EmitName(n)
    case ShortSrv(b) => b
    case Other(_, b) => b
  }

  predicate WritableRecord(r: WireRecord) { r.owner.Writable() && WritableData(r.data) }

  function Fixed(r: WireRecord): (s: seq<Byte>)
    requires WritableRecord(r)
    ensures |s| == 10
  {
    Be16(TypeOf(r.data)) + Be16(r.rrclass) + Be32(r.ttl) + Be16(|EmitData(r.data)|)
  }

  function EmitRecord(r: WireRecord): seq<Byte>
    requires WritableRecord(r)
  {
    EmitName(r.owner) + (Fixed(r) + EmitData(r.data))
  }

  function EmitRecords(rs: seq<WireRecord>): seq<Byte>
    requires forall r <- rs :: WritableRecord(r)
  {
    if rs == [] then [] else EmitRecord(rs[0]) + EmitRecords(rs[1..])
  }

  function EmitQuestions(qs: seq<Question>): seq<Byte>
    requires forall q <- qs :: q.name.Writable()
  {
    if qs == [] then []
    else EmitName(qs[0].name) + (Be16(qs[0].qtype) + Be16(qs[0].qclass)) + EmitQuestions(qs[1..])
  }

  predicate WritableMessage(m: Message) {
    && |m.questions| < 0x1_0000
    && (forall q <- m.questions :: q.name.Writable())
    && (forall r <- m.records :: WritableRecord(r))
  }

  function EmitHeader(m: Message): (s: seq<Byte>)
    requires WritableMessage(m)
    ensures |s| == HEADER_SIZE
  {
    Be16(m.id) + Be16(m.flags) + Be16(|m.questions|)
    + Be16(m.answerCount) + Be16(m.authorityCount) + Be16(m.additionalCount)
  }

  function Emit(m: Message): seq<Byte>
    requires WritableMessage(m)
  {
    EmitHeader(m) + (EmitQuestions(m.questions) + EmitRecords(m.records))
  }

  // ---------- what a message says ----------

  /** A TXT record loses its last string when that string is empty, and nothing else. */
  function TxtSeen(strings: seq<seq<Byte>>): seq<seq<Byte>> {
    if strings != [] && strings[|strings| - 1] == [] then strings[..|strings| - 1] else strings
  }

  /** The data a record stands for inside `data`: an address of the wrong length is all zeros, a short SRV record is
      empty; none for an unknown type or a PTR that does not resolve. */
  function DataMeaning(data: seq<Byte>, d: WireData): Option<RData> {
    match d
    case WireA(a) => Some(A(if |a| == 4 then a else Zeros(4)))
    case WireAaaa(a) => Some(Aaaa(if |a| == 16 then a else Zeros(16)))
    case WirePtr(n) => (match Meaning(data, n) case Some(name) => Some(Ptr(name)) case None => None)
    case WireTxt(ss) => Some(Txt(TxtSeen(ss)))
    case WireSrv(p, w, port, n) =>
      Some(Srv(p, w, port, match Meaning(data, n) case Some(name) => name case None => []))
    case ShortSrv(_) => Some(Srv(0, 0, 0, []))
    case Other(_, _) => None
  }

  function AnswerOf(data: seq<Byte>, r: WireRecord): Answer
    requires Resolves(data, r) && !r.data.Other?
  {
    Answer(TypeOf(r.data), Meaning(data, r.owner).value, DataMeaning(data, r.data).value)
  }

  /** The answers among the first `count` records, up to the first of an unknown type. */
  function AnswersOf(data: seq<Byte>, rs: seq<WireRecord>, count: nat): seq<Answer>
    requires forall r <- rs :: Resolves(data, r)
    decreases count
  {
    if count == 0 || rs == [] || rs[0].data.Other? then []
    else
      assert rs[0] in rs && Resolves(data, rs[0]);
      [AnswerOf(data, rs[0])] + AnswersOf(data, rs[1..], count - 1)
  }

  lemma AnswersStep(data: seq<Byte>, rs: seq<WireRecord>, count: nat)
    requires forall r <- rs :: Resolves(data, r)
    ensures count == 0 || rs == [] ==> AnswersOf(data, rs, count) == []
    ensures count > 0 && rs != [] ==>
              && (forall r <- rs[1..] :: Resolves(data, r)) && Resolves(data, rs[0])
              && AnswersOf(data, rs, count) ==
                 if rs[0].data.Other? then [] else [AnswerOf(data, rs[0])] + AnswersOf(data, rs[1..], count - 1)
  {
    hide AnswerOf, Resolves;
    if rs != [] { assert rs[0] in rs && forall r :: r in rs[1..] ==> r in rs; }
  }

  /** Every owner and PTR name resolves; an SRV target need not. */
  predicate Resolves(data: seq<Byte>, r: WireRecord) {
    Meaning(data, r.owner).Some? && (r.data.Other? || DataMeaning(data, r.data).Some?)
  }

  // ---------- reading back what is written ----------

  lemma Be16At(data: seq<Byte>, p: nat, n: U16)
    requires At(data, p, Be16(n))
    ensures U16At(data, p) == n
  {
    assert data[p] == data[p..p + 2][0] == n / 0x100 && data[p + 1] == data[p..p + 2][1] == n % 0x100;
  }

  lemma {:induction false} TxtIsRead(data: seq<Byte>, p: nat, strings: seq<seq<Byte>>)
    requires (forall s <- strings :: |s| < 0x100) && At(data, p, EmitTxt(strings))
    ensures ParseTxt(data, p, |EmitTxt(strings)|) == TxtSeen(strings)
    decreases |strings|
  {
    hide ParseTxt, At;
    if strings == [] {
      assert ParseTxt(data, p, 0) == [] by { TxtEnds(data, p, 0); }
    } else {
      var s, rest := strings[0], EmitTxt(strings[1..]);
      assert s in strings && forall t :: t in strings[1..] ==> t in strings;
      assert EmitTxt(strings) == ([|s|] + s) + rest;
      AtSplit(data, p, [|s|] + s, rest);
      AtEnd(data, p + 1 + |s|, rest);
      StringIsRead(data, p, s, |rest|);
      TxtIsRead(data, p + 1 + |s|, strings[1..]);
      TxtSeenStep(strings);
    }
  }

  lemma StringIsRead(data: seq<Byte>, p: nat, s: seq<Byte>, more: nat)
    requires |s| < 0x100 && At(data, p, [|s|] + s) && p + 1 + |s| + more <= |data|
    ensures ParseTxt(data, p, 1 + |s| + more) ==
            if s == [] && more == 0 then [] else [s] + ParseTxt(data, p + 1 + |s|, more)
  {
    AtSplit(data, p, [|s|], s);
    assert data[p] == data[p..p + 1][0] == |s|;
  }

  lemma TxtSeenStep(strings: seq<seq<Byte>>)
    requires strings != [] && forall s <- strings :: |s| < 0x100
    ensures var s, rest := strings[0], strings[1..];
            && (forall t <- rest :: |t| < 0x100)
            && TxtSeen(strings) == if s == [] && EmitTxt(rest) == [] then [] else [s] + TxtSeen(rest)
  {
    assert strings == [strings[0]] + strings[1..];
    assert forall t :: t in strings[1..] ==> t in strings;
  }

  lemma SrvIsRead(data: seq<Byte>, p: nat, d: WireData)
    requires d.WireSrv? && WritableData(d) && At(data, p, EmitData(d))
    ensures Some(ParseSrv(data, p, |EmitData(d)|)) == DataMeaning(data, d)
  {
    hide ReadName, EmitName;
    var a, b, c, n := Be16(d.priority), Be16(d.weight), Be16(d.port), EmitName(d.target);
    AtSplit(data, p, a + b + c, n);
    AtSplit(data, p, a + b, c);
    AtSplit(data, p, a, b);
    Be16At(data, p, d.priority);
    Be16At(data, p + 2, d.weight);
    Be16At(data, p + 4, d.port);
    NameIsRead(data, p + 6, d.target);
  }

  lemma ShortSrvIsRead(data: seq<Byte>, p: nat, d: WireData)
    requires d.ShortSrv? && WritableData(d) && At(data, p, EmitData(d))
    ensures Some(ParseSrv(data, p, |EmitData(d)|)) == DataMeaning(data, d)
  {
  }

  lemma DataIsRead(data: seq<Byte>, p: nat, d: WireData)
    requires WritableData(d) && At(data, p, EmitData(d)) && (d.Other? || DataMeaning(data, d).Some?)
    ensures ParseData(data, TypeOf(d), p, |EmitData(d)|) == Ok(DataMeaning(data, d))
  {
    hide ReadName, ParseTxt, ParseSrv, EmitTxt, EmitName;
    match d
    case WireA(_) =>
    case WireAaaa(_) =>
    case WirePtr(n) => NameIsRead(data, p, n);
    case WireTxt(ss) => TxtIsRead(data, p, ss);
    case WireSrv(_, _, _, _) => SrvIsRead(data, p, d);
    case ShortSrv(_) => ShortSrvIsRead(data, p, d);
    case Other(_, _) =>
  }

  lemma FixedIsRead(data: seq<Byte>, p: nat, r: WireRecord)
    requires WritableRecord(r) && At(data, p, Fixed(r) + EmitData(r.data))
    ensures ParseFixed(data, p) == Ok((TypeOf(r.data), p + 10, |EmitData(r.data)|))
  {
    hide EmitData, TypeOf;
    var a, b, c, d := Be16(TypeOf(r.data)), Be16(r.rrclass), Be32(r.ttl), Be16(|EmitData(r.data)|);
    AtSplit(data, p, Fixed(r), EmitData(r.data));
    AtSplit(data, p, a + b + c, d);
    AtSplit(data, p, a + b, c);
    AtSplit(data, p, a, b);
    Be16At(data, p, TypeOf(r.data));
    Be16At(data, p + 8, |EmitData(r.data)|);
  }

  lemma RecordIsRead(data: seq<Byte>, p: nat, r: WireRecord)
    requires WritableRecord(r) && Resolves(data, r) && At(data, p, EmitRecord(r))
    ensures ParseRecord(data, p) ==
            if r.data.Other? then Ok(None)
            else Ok(Some((AnswerOf(data, r), p + |EmitRecord(r)|)))
  {
    hide ReadName, ParseFixed, ParseData, EmitName, EmitData, Meaning;
    var q := p + |EmitName(r.owner)|;
    AtSplit(data, p, EmitName(r.owner), Fixed(r) + EmitData(r.data));
    AtSplit(data, q, Fixed(r), EmitData(r.data));
    NameIsRead(data, p, r.owner);
    FixedIsRead(data, q, r);
    DataIsRead(data, q + 10, r.data);
  }

  /** Records read in order; reading stops at the count, at an unknown type or at the end of the data. */
  lemma {:induction false} RecordsAreRead(data: seq<Byte>, p: nat, rs: seq<WireRecord>, count: nat)
    requires forall r <- rs :: WritableRecord(r) && Resolves(data, r)
    requires At(data, p, EmitRecords(rs)) && p + |EmitRecords(rs)| == |data|
    ensures ParseRecords(data, p, count) == Ok(AnswersOf(data, rs, count))
    decreases |rs|
  {
    hide ParseRecord, EmitRecord, Resolves, WritableRecord;
    if rs != [] && count > 0 {
      var r := rs[0];
      assert r in rs && forall t :: t in rs[1..] ==> t in rs;
      AtSplit(data, p, EmitRecord(r), EmitRecords(rs[1..]));
      RecordNotEmpty(r);
      RecordIsRead(data, p, r);
      RecordsAreRead(data, p + |EmitRecord(r)|, rs[1..], count - 1);
    }
  }

  lemma RecordNotEmpty(r: WireRecord)
    requires WritableRecord(r)
    ensures EmitRecord(r) != []
  {
  }

  lemma {:induction false} QuestionsAreRead(data: seq<Byte>, p: nat, qs: seq<Question>)
    requires forall q <- qs :: q.name.Writable() && Meaning(data, q.name).Some?
    requires At(data, p, EmitQuestions(qs))
    ensures ParseQuestions(data, p, |qs|) == Ok(p + |EmitQuestions(qs)|)
    decreases |qs|
  {
    hide ReadName, EmitName, Meaning, At;
    if qs != [] {
      var q, rest := qs[0], EmitQuestions(qs[1..]);
      var fields := Be16(q.qtype) + Be16(q.qclass);
      assert q in qs && forall t :: t in qs[1..] ==> t in qs;
      AtSplit(data, p, EmitName(q.name) + fields, rest);
      AtSplit(data, p, EmitName(q.name), fields);
      AtEnd(data, p, EmitName(q.name) + fields);
      NameIsRead(data, p, q.name);
      QuestionsAreRead(data, p + |EmitName(q.name)| + 4, qs[1..]);
    }
  }

  /** Every pointer in the message that has to resolve does so inside the message itself. */
  predicate SelfContained(m: Message)
    requires WritableMessage(m)
  {
    && (forall q <- m.questions :: Meaning(Emit(m), q.name).Some?)
    && (forall r <- m.records :: Resolves(Emit(m), r))
  }

  function Total(m: Message): nat { m.answerCount + m.authorityCount + m.additionalCount }

  /** A written message parses to what its records say. Its names may be compressed in any way that resolves. */
  lemma MessageIsRead(m: Message)
    requires WritableMessage(m) && SelfContained(m) && |m.questions| + |m.records| > 0
    ensures ParseDns(Emit(m)) == Ok(AnswersOf(Emit(m), m.records, Total(m)))
  {
    hide Meaning, Resolves, WritableRecord, AnswersOf, ParseQuestions, ParseRecords, EmitQuestions, EmitRecords;
    var data, h := Emit(m), EmitHeader(m);
    var qs, rs := EmitQuestions(m.questions), EmitRecords(m.records);
    assert data[0..|data|] == data;
    AtSplit(data, 0, h, qs + rs);
    AtSplit(data, HEADER_SIZE, qs, rs);
    HeaderIsRead(data, m);
    QuestionsAreRead(data, HEADER_SIZE, m.questions);
    RecordsAreRead(data, HEADER_SIZE + |qs|, m.records, Total(m));
    BodyNotEmpty(m);
  }

  lemma BodyNotEmpty(m: Message)
    requires WritableMessage(m) && |m.questions| + |m.records| > 0
    ensures |Emit(m)| > HEADER_SIZE
  {
    if m.records != [] { assert m.records[0] in m.records; RecordNotEmpty(m.records[0]); }
  }

  lemma HeaderIsRead(data: seq<Byte>, m: Message)
    requires WritableMessage(m) && At(data, 0, EmitHeader(m))
    ensures U16At(data, 4) == |m.questions| && U16At(data, 6) + U16At(data, 8) + U16At(data, 10) == Total(m)
  {
    var f := [Be16(m.id), Be16(m.flags), Be16(|m.questions|), Be16(m.answerCount), Be16(m.authorityCount)];
    AtSplit(data, 0, f[0] + f[1] + f[2] + f[3] + f[4], Be16(m.additionalCount));
    AtSplit(data, 0, f[0] + f[1] + f[2] + f[3], f[4]);
    AtSplit(data, 0, f[0] + f[1] + f[2], f[3]);
    AtSplit(data, 0, f[0] + f[1], f[2]);
    Be16At(data, 4, |m.questions|);
    Be16At(data, 6, m.answerCount);
    Be16At(data, 8, m.authorityCount);
    Be16At(data, 10, m.additionalCount);
  }

  // ---------- round trip ----------

  /** A name written out in full; the root has no labels. */
  function Plain(name: seq<Byte>): WireName { WireName(if name == [] then [] else Text.Split(name, DOT), None) }

  lemma PlainMeans(data: seq<Byte>, name: seq<Byte>)
    ensures Meaning(data, Plain(name)) == Some(name)
  {
    Text.JoinSplit(name, DOT);
  }

  function WireDataOf(d: RData): WireData {
    match d
    case A(a) => WireA(a)
    case Aaaa(a) => WireAaaa(a)
    case Ptr(n) => WirePtr(Plain(n))
    case Txt(ss) => WireTxt(ss)
    case Srv(p, w, port, n) => WireSrv(p, w, port, Plain(n))
  }

  function Written(a: Answer, rrclass: U16, ttl: U32): WireRecord {
    WireRecord(Plain(a.name), rrclass, ttl, WireDataOf(a.data))
  }

  /** An answer that fits a record, under its own type; a TXT list must not end in an empty string. */
  predicate Serialisable(a: Answer) {
    && Plain(a.name).Writable()
    && WritableData(WireDataOf(a.data))
    && a.rrtype == TypeOf(WireDataOf(a.data))
    && (a.data.A? ==> |a.data.address| == 4)
    && (a.data.Aaaa? ==> |a.data.address| == 16)
    && (a.data.Txt? ==> TxtSeen(a.data.strings) == a.data.strings)
  }

  function WrittenAll(answers: seq<Answer>, rrclass: U16, ttl: U32): (rs: seq<WireRecord>)
    ensures |rs| == |answers|
  {
    if answers == [] then [] else [Written(answers[0], rrclass, ttl)] + WrittenAll(answers[1..], rrclass, ttl)
  }

  lemma WrittenSays(data: seq<Byte>, a: Answer, rrclass: U16, ttl: U32)
    requires Serialisable(a)
    ensures var r := Written(a, rrclass, ttl);
            && WritableRecord(r) && Resolves(data, r) && !r.data.Other?
            && AnswerOf(data, r) == a
  {
    hide Meaning, Plain;
    PlainMeans(data, a.name);
    match a.data
    case Ptr(n) => PlainMeans(data, n);
    case Srv(_, _, _, n) => PlainMeans(data, n);
    case _ =>
  }

  lemma {:induction false} WrittenAnswers(data: seq<Byte>, answers: seq<Answer>, rrclass: U16, ttl: U32,
                                          tail: seq<WireRecord>, count: nat)
    requires forall a <- answers :: Serialisable(a)
    requires forall r <- tail :: Resolves(data, r)
    requires tail == [] || tail[0].data.Other?
    ensures var rs := WrittenAll(answers, rrclass, ttl) + tail;
            && (forall r <- rs :: Resolves(data, r))
            && AnswersOf(data, rs, count) == answers[..if count < |answers| then count else |answers|]
    decreases |answers|
  {
    hide Resolves, Written, WrittenAll, Serialisable, AnswerOf, AnswersOf;
    var rs := WrittenAll(answers, rrclass, ttl) + tail;
    if answers == [] {
      assert rs == tail;
      AnswersStep(data, tail, count);
    } else {
      var a, r, rest := answers[0], Written(answers[0], rrclass, ttl), answers[1..];
      var more := WrittenAll(rest, rrclass, ttl) + tail;
      assert a in answers && forall b :: b in rest ==> b in answers;
      WrittenStep(answers, rrclass, ttl);
      assert rs == [r] + more && rs[0] == r && rs[1..] == more;
      WrittenSays(data, a, rrclass, ttl);
      WrittenAnswers(data, rest, rrclass, ttl, tail, if count == 0 then 0 else count - 1);
      AnswersStep(data, rs, count);
      FirstOnes(answers, count);
    }
  }

  lemma WrittenStep(answers: seq<Answer>, rrclass: U16, ttl: U32)
    requires answers != []
    ensures WrittenAll(answers, rrclass, ttl)
         == [Written(answers[0], rrclass, ttl)] + WrittenAll(answers[1..], rrclass, ttl)
  {
  }

  lemma FirstOnes(answers: seq<Answer>, count: nat)
    requires answers != []
    ensures var rest, n := answers[1..], if count < |answers| then count else |answers|;
            answers[..n] ==
            if count == 0 then [] else [answers[0]] + rest[..if count - 1 < |rest| then count - 1 else |rest|]
  {
  }

  /** Answers written behind any questions parse back in order: all of them, or the header's count of them,
      or those before a first record of an unknown type. */
  lemma RoundTrip(m: Message, answers: seq<Answer>, rrclass: U16, ttl: U32, tail: seq<WireRecord>)
    requires WritableMessage(m) && |m.questions| + |m.records| > 0
    requires m.records == WrittenAll(answers, rrclass, ttl) + tail
    requires forall a <- answers :: Serialisable(a)
    requires forall q <- m.questions :: q.name.target.None?
    requires forall r <- tail :: Resolves(Emit(m), r)
    requires tail == [] || tail[0].data.Other?
    ensures ParseDns(Emit(m)) == Ok(answers[..if Total(m) < |answers| then Total(m) else |answers|])
  {
    WrittenAnswers(Emit(m), answers, rrclass, ttl, tail, Total(m));
    MessageIsRead(m);
  }

  // ---------- compression ----------

  /** `w` is `plain`, or `plain` with a non-empty suffix replaced by a pointer that reads as that suffix. */
  predicate Shortens(data: seq<Byte>, plain: WireName, w: WireName) {
    && plain.target.None?
    && (w == plain
        || (&& w.target.Some?
            && |w.labels| < |plain.labels|
            && w.labels == plain.labels[..|w.labels|]
            && ReadName(data, w.target.value, MAX_REDIRECTS - 1, []).Ok?
            && ReadName(data, w.target.value, MAX_REDIRECTS - 1, []).value.0
               == Text.Join(plain.labels[|w.labels|..], DOT)))
  }

  predicate ShortensData(data: seq<Byte>, plain: WireData, d: WireData) {
    match (plain, d)
    case (WirePtr(n), WirePtr(n')) => Shortens(data, n, n')
    case (WireSrv(p, w, port, n), WireSrv(p', w', port', n')) =>
      p == p' && w == w' && port == port' && Shortens(data, n, n')
    case _ => plain == d && !d.WirePtr? && !d.WireSrv?
  }

  predicate ShortensRecord(data: seq<Byte>, plain: WireRecord, r: WireRecord) {
    Shortens(data, plain.owner, r.owner) && ShortensData(data, plain.data, r.data)
  }

  lemma ShortenedMeans(data: seq<Byte>, other: seq<Byte>, plain: WireName, w: WireName)
    requires plain.Writable() && Shortens(data, plain, w)
    ensures Meaning(data, w) == Meaning(other, plain) == Some(Text.Join(plain.labels, DOT))
  {
    if w != plain {
      var prefix, suffix := w.labels, plain.labels[|w.labels|..];
      assert prefix + suffix == plain.labels;
      SuffixByPointer(data, prefix, suffix, w.target.value);
    }
  }

  lemma ShortenedSays(data: seq<Byte>, other: seq<Byte>, plain: WireRecord, r: WireRecord)
    requires WritableRecord(plain) && ShortensRecord(data, plain, r)
    ensures Resolves(data, r) && Resolves(other, plain) && (r.data.Other? <==> plain.data.Other?)
    ensures !r.data.Other? ==> AnswerOf(data, r) == AnswerOf(other, plain)
  {
    hide Meaning, Shortens, EmitName;
    ShortenedMeans(data, other, plain.owner, r.owner);
    match (plain.data, r.data)
    case (WirePtr(n), WirePtr(n')) => ShortenedMeans(data, other, n, n');
    case (WireSrv(_, _, _, n), WireSrv(_, _, _, n')) => ShortenedMeans(data, other, n, n');
    case _ =>
  }

  lemma ShortenedResolve(data: seq<Byte>, other: seq<Byte>, plain: seq<WireRecord>, rs: seq<WireRecord>)
    requires |plain| == |rs| && forall p <- plain :: WritableRecord(p)
    requires forall i :: 0 <= i < |rs| ==> ShortensRecord(data, plain[i], rs[i])
    ensures (forall r <- rs :: Resolves(data, r)) && (forall p <- plain :: Resolves(other, p))
  {
    hide ShortensRecord, Resolves, WritableRecord;
    forall i | 0 <= i < |rs| ensures Resolves(data, rs[i]) && Resolves(other, plain[i]) {
      ShortenedSays(data, other, plain[i], rs[i]);
    }
  }

  lemma {:induction false} ShortenedAnswers(data: seq<Byte>, other: seq<Byte>, plain: seq<WireRecord>,
                                            rs: seq<WireRecord>, count: nat)
    requires |plain| == |rs| && forall p <- plain :: WritableRecord(p)
    requires forall i :: 0 <= i < |rs| ==> ShortensRecord(data, plain[i], rs[i])
    requires (forall r <- rs :: Resolves(data, r)) && (forall p <- plain :: Resolves(other, p))
    ensures AnswersOf(data, rs, count) == AnswersOf(other, plain, count)
    decreases |rs|
  {
    hide ShortensRecord, Resolves, WritableRecord, AnswerOf, AnswersOf;
    AnswersStep(data, rs, count);
    AnswersStep(other, plain, count);
    if rs != [] && count > 0 {
      var rest, rest' := plain[1..], rs[1..];
      assert forall i :: 0 <= i < |rest'| ==> rest[i] == plain[i + 1] && rest'[i] == rs[i + 1];
      assert plain[0] in plain && forall p :: p in rest ==> p in plain;
      ShortenedSays(data, other, plain[0], rs[0]);
      ShortenedAnswers(data, other, rest, rest', count - 1);
    }
  }

  /** Compressing any of the names of a message, each by a pointer that resolves in the compressed message,
      leaves the parsed answers as they were. */
  lemma CompressionIsTransparent(plain: Message, m: Message)
    requires WritableMessage(plain) && WritableMessage(m) && |m.questions| + |m.records| > 0
    requires |plain.questions| == |m.questions| && |plain.records| == |m.records| && Total(plain) == Total(m)
    requires forall q <- plain.questions :: q.name.target.None?
    requires forall q <- m.questions :: Meaning(Emit(m), q.name).Some?
    requires forall i :: 0 <= i < |m.records| ==> ShortensRecord(Emit(m), plain.records[i], m.records[i])
    ensures ParseDns(Emit(m)).Ok? && ParseDns(Emit(m)) == ParseDns(Emit(plain))
  {
    hide WritableRecord, ShortensRecord, Emit, ParseDns;
    ShortenedResolve(Emit(m), Emit(plain), plain.records, m.records);
    ShortenedAnswers(Emit(m), Emit(plain), plain.records, m.records, Total(m));
    MessageIsRead(m);
    MessageIsRead(plain);
  }
}
