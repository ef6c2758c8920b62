/** The converse of the message round trip: what any accepted packet answers, some written message answers too. */
module DnsRewrite {
  import opened Bytes
  import opened DnsMessage
  import opened DnsName
  import opened DnsSerialise
  import opened DnsWire
  import Text

  /** Where every message with clear flags holds a zero byte: a pointer to it reads as the empty name. */
  const ROOT := 2

  /** A written name for `name`: its labels, which may hold dots, and a pointer to the root when a dot is left over. */
  ghost predicate Spells(w: WireName, name: seq<Byte>) {
    && w.Writable()
    && (w.target == None || (w.target == Some(ROOT) && w.labels != []))
    && name == Text.Join(w.labels, DOT) + (if w.target == None then [] else [DOT])
  }

  lemma SpelledMeans(data: seq<Byte>, w: WireName, name: seq<Byte>)
    requires Spells(w, name) && |data| > ROOT && data[ROOT] == 0
    ensures Meaning(data, w) == Some(name)
  {
    hide ReadName, Text.Join;
    ReadsRoot(data);
    var text := Text.Join(w.labels, DOT);
    if w.target.Some? { assert text + [DOT] + [] == name; } else { assert text + [] == text; }
  }

  lemma ReadsRoot(data: seq<Byte>)
    requires |data| > ROOT && data[ROOT] == 0
    ensures ReadName(data, ROOT, MAX_REDIRECTS - 1, []) == Ok(([], ROOT + 1))
  {
  }

  // ---------- names ----------

  ghost predicate Prefix(acc: seq<Byte>, labels: seq<Label>) {
    Readable(labels) && acc == Text.Join(labels, DOT) && (labels == [] <==> acc == [])
  }

  lemma PrefixGrows(acc: seq<Byte>, labels: seq<Label>, l: Label)
    requires Prefix(acc, labels) && 1 <= |l| <= MAX_LABEL
    ensures Prefix(Extended(acc, l), labels + [l])
  {
    Text.JoinAppend(labels, [l], DOT);
    assert Text.Join([l], DOT) == l;
  }

  /** Any name that is read, with `acc` read before it, can be written. */
  lemma {:induction false} ReadIsSpelled(data: seq<Byte>, p: nat, budget: nat, acc: seq<Byte>, labels: seq<Label>)
    returns (w: WireName)
    requires ReadName(data, p, budget, acc).Ok? && Prefix(acc, labels)
    ensures Spells(w, ReadName(data, p, budget, acc).value.0)
    decreases budget, |data| - p
  {
    hide Text.Join, Prefix;
    if data[p] == 0 {
      w := WireName(labels, None);
      PrefixSpells(acc, labels);
    } else if IsPointer(data[p]) {
      var target := Target(data[p], data[p + 1]);
      NoPrefix();
      var rest := ReadIsSpelled(data, target, budget - 1, [], []);
      w := Onto(acc, labels, rest, ReadName(data, target, budget - 1, []).value.0);
    } else {
      var l := data[p + 1..Next(data, p)];
      LabelIsRead(data, p, budget, acc);
      PrefixGrows(acc, labels, l);
      w := ReadIsSpelled(data, Next(data, p), budget, Extended(acc, l), labels + [l]);
    }
  }

  lemma NoPrefix()
    ensures Prefix([], [])
  {
  }

  lemma PrefixSpells(acc: seq<Byte>, labels: seq<Label>)
    requires Prefix(acc, labels)
    ensures Spells(WireName(labels, None), acc)
  {
    assert acc + [] == acc;
  }

  /** The labels in front of a name that is read through a pointer. */
  lemma Onto(acc: seq<Byte>, labels: seq<Label>, rest: WireName, name: seq<Byte>) returns (w: WireName)
    requires Prefix(acc, labels) && Spells(rest, name)
    ensures Spells(w, (if acc == [] then [] else acc + [DOT]) + name)
  {
    if labels == [] {
      w := rest;
      assert [] + name == name;
    } else if rest.labels == [] {
      w := WireName(labels, Some(ROOT));
      assert acc + [DOT] + name == acc + [DOT];
    } else {
      w := WireName(labels + rest.labels, rest.target);
      Text.JoinAppend(labels, rest.labels, DOT);
      var dot := if rest.target == None then [] else [DOT];
      assert acc + [DOT] + (Text.Join(rest.labels, DOT) + dot) == acc + [DOT] + Text.Join(rest.labels, DOT) + dot;
    }
  }

  lemma {:induction false} LabelsSize(labels: seq<Label>)
    ensures |EmitLabels(labels)| <= |Text.Join(labels, DOT)| + 1
  {
    if |labels| > 1 { LabelsSize(labels[1..]); }
  }

  lemma NameSize(w: WireName, name: seq<Byte>)
    requires Spells(w, name)
    ensures |EmitName(w)| <= |name| + 2
  {
    hide EmitLabels, Text.Join;
    LabelsSize(w.labels);
  }

  // ---------- record data ----------

  /** The longest name that is sure to fit the data of a record. */
  const MAX_NAME := 0xFFF7

  predicate NameFits(d: RData) {
    match d
    case Ptr(name) => |name| <= MAX_NAME
    case Srv(_, _, _, target) => |target| <= MAX_NAME
    case _ => true
  }

  /** Data that can be written, has the type, and says `d` in every message with clear flags. */
  ghost predicate Says(x: WireData, rrtype: U16, d: RData) {
    && WritableData(x) && !x.Other? && TypeOf(x) == rrtype
    && forall data: seq<Byte> :: |data| > ROOT && data[ROOT] == 0 ==> DataMeaning(data, x) == Some(d)
  }

  lemma {:induction false} TxtSize(data: seq<Byte>, pos: nat, remaining: nat)
    ensures var ss := ParseTxt(data, pos, remaining);
            && (forall s <- ss :: |s| < 0x100)
            && |EmitTxt(ss)| <= remaining
            && (ss != [] && ss[|ss| - 1] == [] ==> |EmitTxt(ss)| < remaining)
    decreases remaining
  {
    hide EmitTxt, ParseTxt;
    NoStrings();
    if remaining > 1 && pos + 1 < |data| {
      var n := Smaller(data[pos], Smaller(remaining - 1, |data| - pos - 1));
      var s := data[pos + 1..pos + 1 + n];
      TxtGoesOn(data, pos, remaining, s);
      TxtSize(data, pos + 1 + n, remaining - 1 - n);
      TxtStep(s, ParseTxt(data, pos + 1 + n, remaining - 1 - n));
    } else {
      TxtEnds(data, pos, remaining);
    }
  }

  lemma NoStrings()
    ensures EmitTxt([]) == []
  {
  }

  lemma TxtStep(s: seq<Byte>, rest: seq<seq<Byte>>)
    requires |s| < 0x100 && forall t <- rest :: |t| < 0x100
    ensures forall t <- [s] + rest :: |t| < 0x100
    ensures |EmitTxt([s] + rest)| == 1 + |s| + |EmitTxt(rest)|
    ensures ([s] + rest)[|rest|] == if rest == [] then s else rest[|rest| - 1]
  {
    assert ([s] + rest)[1..] == rest;
  }

  lemma {:induction false} EmitTxtAppend(ss: seq<seq<Byte>>)
    requires forall s <- ss :: |s| < 0x100
    ensures (forall s <- ss + [[]] :: |s| < 0x100) && EmitTxt(ss + [[]]) == EmitTxt(ss) + [0]
  {
    if ss == [] {
      assert ss + [[]] == [[]];
    } else {
      assert ss[0] in ss && forall s :: s in ss[1..] ==> s in ss;
      EmitTxtAppend(ss[1..]);
      assert (ss + [[]])[1..] == ss[1..] + [[]];
    }
  }

  /** Strings that are read can be written; one more empty string saves a last empty one. */
  lemma TxtRewritten(data: seq<Byte>, pos: nat, rdlen: U16) returns (x: WireData)
    ensures Says(x, TYPE_TXT, Txt(ParseTxt(data, pos, rdlen)))
  {
    hide EmitTxt, ParseTxt, TxtSeen, Says;
    var ss := ParseTxt(data, pos, rdlen);
    TxtSize(data, pos, rdlen);
    x := WireTxt(ss);
    SeenStrings(ss);
    if ss != [] && ss[|ss| - 1] == [] {
      EmitTxtAppend(ss);
      x := WireTxt(ss + [[]]);
    }
    TxtSays(x, ss);
  }

  lemma SeenStrings(ss: seq<seq<Byte>>)
    ensures TxtSeen(ss + [[]]) == ss
    ensures ss == [] || ss[|ss| - 1] != [] ==> TxtSeen(ss) == ss
  {
  }

  lemma TxtSays(x: WireData, ss: seq<seq<Byte>>)
    requires x.WireTxt? && WritableData(x) && TxtSeen(x.strings) == ss
    ensures Says(x, TYPE_TXT, Txt(ss))
  {
    hide EmitTxt, TxtSeen;
  }

  lemma NameRewritten(data: seq<Byte>, pos: nat) returns (w: WireName)
    requires ReadName(data, pos, MAX_REDIRECTS, []).Ok?
    ensures Spells(w, ReadName(data, pos, MAX_REDIRECTS, []).value.0)
  {
    hide ReadName, Spells;
    NoPrefix();
    w := ReadIsSpelled(data, pos, MAX_REDIRECTS, [], []);
  }

  lemma PtrRewritten(data: seq<Byte>, pos: nat) returns (x: WireData)
    requires ReadName(data, pos, MAX_REDIRECTS, []).Ok? && |ReadName(data, pos, MAX_REDIRECTS, []).value.0| <= MAX_NAME
    ensures Says(x, TYPE_PTR, Ptr(ReadName(data, pos, MAX_REDIRECTS, []).value.0))
  {
    hide ReadName, Spells, EmitName, Meaning;
    var name := ReadName(data, pos, MAX_REDIRECTS, []).value.0;
    var w := NameRewritten(data, pos);
    WritableName(w, name);
    x := WirePtr(w);
    forall d: seq<Byte> | |d| > ROOT && d[ROOT] == 0 ensures Meaning(d, w) == Some(name) { SpelledMeans(d, w, name); }
  }

  lemma WritableName(w: WireName, name: seq<Byte>)
    requires Spells(w, name)
    ensures w.Writable() && |EmitName(w)| <= |name| + 2
  {
    NameSize(w, name);
  }

  lemma SrvRewritten(data: seq<Byte>, pos: nat, rdlen: nat) returns (x: WireData)
    requires pos + rdlen <= |data| && NameFits(ParseSrv(data, pos, rdlen))
    ensures Says(x, TYPE_SRV, ParseSrv(data, pos, rdlen))
  {
    hide ReadName, Spells, EmitName, Meaning;
    if rdlen < 6 {
      x := ShortSrv([]);
    } else {
      var target := ParseSrv(data, pos, rdlen).target;
      var w := WireName([], None);
      if ReadName(data, pos + 6, MAX_REDIRECTS, []).Ok? {
        w := NameRewritten(data, pos + 6);
      } else {
        NoPrefix();
        PrefixSpells([], []);
      }
      WritableName(w, target);
      x := WireSrv(U16At(data, pos), U16At(data, pos + 2), U16At(data, pos + 4), w);
      forall d: seq<Byte> | |d| > ROOT && d[ROOT] == 0 ensures Meaning(d, w) == Some(target) {
        SpelledMeans(d, w, target);
      }
    }
  }

  lemma DataRewritten(data: seq<Byte>, rrtype: U16, pos: nat, rdlen: U16) returns (x: WireData)
    requires pos + rdlen <= |data| && ParseData(data, rrtype, pos, rdlen).Ok?
    requires ParseData(data, rrtype, pos, rdlen).value.Some?
    requires NameFits(ParseData(data, rrtype, pos, rdlen).value.value)
    ensures Says(x, rrtype, ParseData(data, rrtype, pos, rdlen).value.value)
  {
    hide ReadName, ParseTxt, ParseSrv, Meaning;
    if rrtype == TYPE_A {
      x := WireA(ParseData(data, rrtype, pos, rdlen).value.value.address);
    } else if rrtype == TYPE_AAAA {
      x := WireAaaa(ParseData(data, rrtype, pos, rdlen).value.value.address);
    } else if rrtype == TYPE_PTR {
      x := PtrRewritten(data, pos);
    } else if rrtype == TYPE_TXT {
      x := TxtRewritten(data, pos, rdlen);
    } else {
      x := SrvRewritten(data, pos, rdlen);
    }
  }

  // ---------- records and messages ----------

  /** A record that answers `a` in every message with clear flags. */
  ghost predicate Answers(r: WireRecord, a: Answer) { Spells(r.owner, a.name) && Says(r.data, a.rrtype, a.data) }

  ghost predicate AnswersAll(rs: seq<WireRecord>, answers: seq<Answer>) {
    |rs| == |answers| && forall i :: 0 <= i < |rs| ==> Answers(rs[i], answers[i])
  }

  lemma RecordRewritten(data: seq<Byte>, pos: nat) returns (r: WireRecord)
    requires ParseRecord(data, pos).Ok? && ParseRecord(data, pos).value.Some?
    requires NameFits(ParseRecord(data, pos).value.value.0.data)
    ensures Answers(r, ParseRecord(data, pos).value.value.0)
  {
    hide ReadName, ParseFixed, ParseData, Spells, Says;
    var p := ReadName(data, pos, MAX_REDIRECTS, []).value.1;
    var (rrtype, start, rdlen) := ParseFixed(data, p).value;
    var owner := NameRewritten(data, pos);
    var x := DataRewritten(data, rrtype, start, rdlen);
    r := WireRecord(owner, 0, 0, x);
  }

  lemma {:induction false} RecordsRewritten(data: seq<Byte>, pos: nat, count: nat) returns (rs: seq<WireRecord>)
    requires ParseRecords(data, pos, count).Ok?
    requires forall a <- ParseRecords(data, pos, count).value :: NameFits(a.data)
    ensures AnswersAll(rs, ParseRecords(data, pos, count).value) && |rs| <= count
    decreases count
  {
    hide ParseRecord, Answers, NameFits;
    rs := [];
    if count > 0 && pos < |data| && ParseRecord(data, pos).value.Some? {
      var (a, next) := ParseRecord(data, pos).value.value;
      var rest := ParseRecords(data, next, count - 1).value;
      assert ParseRecords(data, pos, count).value == [a] + rest;
      assert a in [a] + rest && forall b :: b in rest ==> b in [a] + rest;
      var r := RecordRewritten(data, pos);
      var more := RecordsRewritten(data, next, count - 1);
      rs := [r] + more;
    }
  }

  lemma RecordAnswers(data: seq<Byte>, r: WireRecord, a: Answer)
    requires Answers(r, a) && |data| > ROOT && data[ROOT] == 0
    ensures WritableRecord(r) && Resolves(data, r) && !r.data.Other? && AnswerOf(data, r) == a
  {
    hide Spells, Meaning, DataMeaning, WritableData;
    SpelledMeans(data, r.owner, a.name);
    OwnerWritable(r.owner, a.name);
  }

  lemma OwnerWritable(w: WireName, name: seq<Byte>)
    requires Spells(w, name)
    ensures w.Writable()
  {
  }

  lemma {:induction false} AllAnswer(data: seq<Byte>, rs: seq<WireRecord>, answers: seq<Answer>, count: nat)
    requires AnswersAll(rs, answers) && |rs| <= count && |data| > ROOT && data[ROOT] == 0
    ensures forall r <- rs :: WritableRecord(r) && Resolves(data, r)
    ensures AnswersOf(data, rs, count) == answers
    decreases |rs|
  {
    hide Answers, WritableRecord, Resolves, AnswerOf, AnswersOf;
    if rs != [] {
      RecordAnswers(data, rs[0], answers[0]);
      AllAnswer(data, rs[1..], answers[1..], count - 1);
      assert rs == [rs[0]] + rs[1..] && answers == [answers[0]] + answers[1..];
    }
    AnswersStep(data, rs, count);
  }

  /** Every packet that is accepted parses to the answers of a written message, unless a name in its record data is
      longer than record data can be. */
  lemma ParsedIsWritten(data: seq<Byte>) returns (m: Message)
    requires ParseDns(data).Ok? && forall a <- ParseDns(data).value :: NameFits(a.data)
    ensures WritableMessage(m) && |m.records| == |ParseDns(data).value|
    ensures ParseDns(Emit(m)) == ParseDns(data)
  {
    hide ParseRecords, ParseQuestions, AnswersAll, NameFits, Resolves, WritableRecord, AnswersOf, ReadName;
    var pos := ParseQuestions(data, HEADER_SIZE, U16At(data, 4)).value;
    var count := U16At(data, 6) + U16At(data, 8) + U16At(data, 10);
    var rs := RecordsRewritten(data, pos, count);
    var root := WireName([], None);
    m := Message(0, 0, [Question(root, 0, 0)], U16At(data, 6), U16At(data, 8), U16At(data, 10), rs);
    MessageAnswers(m, ParseDns(data).value);
  }

  lemma MessageAnswers(m: Message, answers: seq<Answer>)
    requires m.flags == 0 && m.questions == [Question(WireName([], None), 0, 0)]
    requires AnswersAll(m.records, answers) && |m.records| <= Total(m)
    ensures WritableMessage(m) && ParseDns(Emit(m)) == Ok(answers) && |m.records| == |answers|
  {
    hide AnswersAll, Resolves, WritableRecord, AnswersOf, ReadName, EmitRecords, ParseDns, EmitName;
    SameSize(m.records, answers);
    AllWritable(m.records, answers);
    var data := Emit(m);
    assert data[ROOT] == EmitHeader(m)[ROOT] == 0;
    AllAnswer(data, m.records, answers, Total(m));
    assert Meaning(data, m.questions[0].name) == Some([]);
    MessageIsRead(m);
  }

  lemma SameSize(rs: seq<WireRecord>, answers: seq<Answer>)
    requires AnswersAll(rs, answers)
    ensures |rs| == |answers|
  {
  }

  lemma AllWritable(rs: seq<WireRecord>, answers: seq<Answer>)
    requires AnswersAll(rs, answers)
    ensures forall r <- rs :: WritableRecord(r)
  {
    hide AnswersAll, WritableRecord;
    AllAnswer([0, 0, 0], rs, answers, |rs|);
  }
}
