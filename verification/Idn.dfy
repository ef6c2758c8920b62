/** The ASCII form of a domain (`idn_ascii`) and the query built from it (`build_query`). */
module Idn {
  import opened Bytes
  import Sequences
  import opened Text
  import opened Punycode
  import opened Rfc3492
  import Exact = PunycodeExact
  import opened DnsName
  import opened DnsWire
  import DnsMessage
  import opened DnsSerialise

  /** The letters `xn--`. */
  const XN: seq<Byte> := [0x78, 0x6E, 0x2D, 0x2D]

  /** The prefix of an encoded label, after section 5 of RFC 3490. */
  const ACE: seq<Byte> := ['x' as int, 'n' as int, '-' as int, '-' as int]

  function LowerChar(c: CodePoint): CodePoint { if 0x41 <= c <= 0x5A then c + 0x20 else c }

  function Lower(s: seq<CodePoint>): (r: seq<CodePoint>)
    ensures |r| == |s| && forall i :: 0 <= i < |s| ==> r[i] == LowerChar(s[i])
  {
    seq(|s|, i requires 0 <= i < |s| => LowerChar(s[i]))
  }

  predicate IsAscii(s: seq<CodePoint>) { forall c <- s :: c < 0x80 }

  function AsByte(c: CodePoint): Byte
    requires c < 0x80
  {
    c
  }

  function AsBytes(s: seq<CodePoint>): (r: seq<Byte>)
    requires IsAscii(s)
    ensures r == s
  {
    seq(|s|, i requires 0 <= i < |s| => assert s[i] in s; AsByte(s[i]))
  }

  lemma EncodeIsAscii(l: seq<CodePoint>)
    ensures IsAscii(Encode(l))
    ensures forall c <- Encode(l) :: c in l || c == HYPHEN || IsDigit(c)
  {
  }

  ghost function IdnLabel(l: seq<CodePoint>): seq<Byte> {
    EncodeIsAscii(l);
    if IsAscii(l) then AsBytes(l) else XN + AsBytes(Encode(l))
  }

  /** An ASCII label is kept, and any other becomes the prefix and its encoding. */
  lemma IdnLabelIs(l: seq<CodePoint>)
    ensures IdnLabel(l) == if forall c <- l :: c < 128 then l else ACE + Encode(l)
  {
    hide Encode;
    EncodeIsAscii(l);
  }

  /** A domain is put in lower case: capital letters become the small letters at their places, and nothing else
      changes. */
  lemma LowerIsPartner(s: seq<CodePoint>, i: nat)
    requires i < |s|
    ensures |Lower(s)| == |s|
    ensures forall k :: 0 <= k < 26 && s[i] == CAPITALS[k] as int ==> Lower(s)[i] == SMALL[k] as int
    ensures (forall k :: 0 <= k < 26 ==> s[i] != CAPITALS[k] as int) ==> Lower(s)[i] == s[i]
  {
    forall k: nat | k < 26
      ensures CAPITALS[k] as int == 0x41 + k && SMALL[k] as int == 0x61 + k
    {
      Alphabets(k);
    }
    if 0x41 <= s[i] <= 0x5A { assert s[i] == CAPITALS[s[i] - 0x41] as int; }
  }

  ghost function IdnLabels(ls: seq<seq<CodePoint>>): (r: seq<Label>)
    ensures |r| == |ls| && forall i :: 0 <= i < |ls| ==> r[i] == IdnLabel(ls[i])
  {
    seq(|ls|, i requires 0 <= i < |ls| => IdnLabel(ls[i]))
  }

  ghost function LowerLabels(domain: seq<CodePoint>): seq<seq<CodePoint>> { Split<CodePoint>(Lower(domain), DOT) }

  ghost function IdnAscii(domain: seq<CodePoint>): seq<Byte> { Join(IdnLabels(LowerLabels(domain)), DOT) }

  method IdnAsciiLoop(domain: seq<CodePoint>) returns (r: seq<Byte>)
    ensures r == IdnAscii(domain)
  {
    var labels := Split<CodePoint>(Lower(domain), DOT);
    var mapped: seq<Label> := [];
    for i := 0 to |labels|
      invariant mapped == IdnLabels(labels[..i])
    {
      var l := labels[i];
      assert labels[..i + 1] == labels[..i] + [l];
      if IsAscii(l) {
        mapped := mapped + [AsBytes(l)];
      } else {
        var encoded := EncodeLoop(l);
        EncodeIsAscii(l);
        mapped := mapped + [XN + AsBytes(encoded)];
      }
    }
    assert labels[..|labels|] == labels;
    r := Join(mapped, DOT);
  }

  ghost function QueryHeader(): seq<Byte> { [0, 0, 0, 0, 0, 1, 0, 0, 0, 0, 0, 0] }

  ghost function BuildQuery(domain: seq<CodePoint>, qtype: U16): seq<Byte> {
    QueryHeader() + EncodeName(IdnAscii(domain)) + Be16(qtype) + Be16(1)
  }

  method BuildQueryBytes(domain: seq<CodePoint>, qtype: U16) returns (out: seq<Byte>)
    ensures out == BuildQuery(domain, qtype)
  {
    var ascii := IdnAsciiLoop(domain);
    var name := EncodeNameLoop(ascii);
    out := DnsMessage.Zeros(DnsMessage.HEADER_SIZE);
    out := out[5 := 1];
    assert out == QueryHeader();
    out := out + name;
    out := out + Be16(qtype);
    out := out + Be16(1);
  }

  // ---------- the labels of the ASCII form ----------

  lemma IdnLabelHasNoDot(l: seq<CodePoint>)
    requires DOT !in l
    ensures DOT !in IdnLabel(l)
  {
    EncodeIsAscii(l);
  }

  /** The pieces join to the same text whether they are read as bytes or as code points. */
  lemma {:induction false} JoinBytes(ls: seq<Label>)
    ensures Join<Byte>(ls, DOT) == Join<CodePoint>(ls, DOT)
  {
    if ls != [] { JoinBytes(ls[1..]); }
  }

  lemma IdnSplits(domain: seq<CodePoint>)
    ensures Split<Byte>(IdnAscii(domain), DOT) == IdnLabels(LowerLabels(domain))
    ensures Split<CodePoint>(IdnAscii(domain), DOT) == IdnLabels(LowerLabels(domain))
  {
    hide IdnLabel, Split;
    var ls := LowerLabels(domain);
    var mapped := IdnLabels(ls);
    forall l | l in mapped ensures DOT !in l {
      var i :| 0 <= i < |mapped| && mapped[i] == l;
      assert ls[i] in ls;
      IdnLabelHasNoDot(ls[i]);
    }
    SplitJoin<Byte>(mapped, DOT);
    SplitJoin<CodePoint>(mapped, DOT);
    JoinBytes(mapped);
  }

  predicate IsLower(s: seq<CodePoint>) { forall c <- s :: !(0x41 <= c <= 0x5A) }

  lemma LowerIsLower(s: seq<CodePoint>)
    ensures IsLower(Lower(s))
    ensures IsLower(s) ==> Lower(s) == s
  {
    forall i | 0 <= i < |s| ensures s[i] in s && !(0x41 <= Lower(s)[i] <= 0x5A) {
    }
  }

  lemma IdnLabelIsLower(l: seq<CodePoint>)
    requires IsLower(l)
    ensures IsLower(IdnLabel(l))
  {
    EncodeIsAscii(l);
  }

  lemma {:induction false} JoinIsLower(ls: seq<Label>)
    requires forall l <- ls :: IsLower(l)
    ensures IsLower(Join(ls, DOT))
  {
    if ls != [] {
      assert ls[0] in ls && forall l :: l in ls[1..] ==> l in ls;
      JoinIsLower(ls[1..]);
    }
  }

  /** The ASCII form of an ASCII form is itself. */
  lemma Idempotent(domain: seq<CodePoint>)
    ensures IdnAscii(IdnAscii(domain)) == IdnAscii(domain)
  {
    hide IdnLabel, IsLower, Split;
    var d, ls := IdnAscii(domain), LowerLabels(domain);
    var mapped := IdnLabels(ls);
    LowerIsLower(domain);
    forall i | 0 <= i < |mapped| ensures IsLower(mapped[i]) && IdnLabel(mapped[i]) == mapped[i] {
      assert ls[i] in ls;
      SubsetIsLower(ls[i], Lower(domain));
      IdnLabelIsLower(ls[i]);
      IdnLabelStays(ls[i]);
    }
    JoinIsLower(mapped);
    LowerIsLower(d);
    IdnSplits(domain);
    assert IdnLabels(mapped) == mapped;
    assert LowerLabels(d) == mapped;
  }

  lemma SubsetIsLower(l: seq<CodePoint>, s: seq<CodePoint>)
    requires IsLower(s) && forall c <- l :: c in s
    ensures IsLower(l)
  {
  }

  lemma IdnLabelStays(l: seq<CodePoint>)
    ensures IdnLabel(IdnLabel(l)) == IdnLabel(l)
  {
    hide Encode;
    EncodeIsAscii(l);
    var m := IdnLabel(l);
    assert forall c: CodePoint :: c in m ==> c < 0x80;
  }

  // ---------- undoing the mapping ----------

  ghost function UndoLabel(l: seq<Byte>): Option<seq<CodePoint>> {
    if ACE <= l then Decode(l[|ACE|..]) else Some(l)
  }

  ghost function UndoLabels(ls: seq<Label>): Option<seq<seq<CodePoint>>> {
    if ls == [] then Some([])
    else match (UndoLabel(ls[0]), UndoLabels(ls[1..]))
      case (Some(l), Some(rest)) => Some([l] + rest)
      case _ => None
  }

  /** The domain an ASCII form stands for: every `xn--` label decoded. */
  ghost function IdnUnicode(domain: seq<Byte>): Option<seq<CodePoint>> {
    match UndoLabels(Split(domain, DOT))
    case Some(ls) => Some(Join<CodePoint>(ls, DOT))
    case None => None
  }

  lemma {:induction false} InsertionsLength(s: seq<CodePoint>, out: seq<CodePoint>, n: nat, i: nat, bias: nat)
    ensures Insertions(s, out, n, i, bias).Some? ==> |Insertions(s, out, n, i, bias).value| <= |out| + |s|
    decreases |s|
  {
    hide RfcAdapt, ReadDelta;
    if s != [] {
      match ReadDelta(s, BASE, bias, 1, i)
      case None =>
      case Some((i', rest)) =>
        var size := |out| + 1;
        var n', pos := n + Div(i', size), Mod(i', size);
        if n' < 0x11_0000 && i' >= i {
          InsertionsLength(rest, Insert(out, pos, n'), n', pos + 1, RfcAdapt(i' - i, size, i == 0));
        }
    }
  }

  lemma DecodeLength(s: seq<CodePoint>)
    ensures Decode(s).Some? ==> |Decode(s).value| <= |s|
  {
    hide Insertions, LastHyphen;
    var b := LastHyphen(s);
    InsertionsLength(if b > 0 then s[b + 1..] else s, s[..b], 0x80, 0, 72);
  }

  predicate LooksEncoded(l: seq<CodePoint>) { ACE <= l }

  /** What a label must be to come back: an ASCII label must not look encoded, and the deltas of any other must fit. */
  ghost predicate Returns(l: seq<CodePoint>) { if IsAscii(l) then !LooksEncoded(l) else Exact.Fit(Exact.Deltas(l)) }

  /** Undoing the mapping of a label gives the label exactly when it returns, and never a longer one. */
  lemma LabelUndone(l: seq<CodePoint>)
    ensures UndoLabel(IdnLabel(l)) == Some(l) <==> Returns(l)
    ensures var u := UndoLabel(IdnLabel(l)); u.Some? ==> |u.value| <= |l|
  {
    hide Decode, Encode, Exact.Fit, Exact.Deltas;
    if IsAscii(l) {
      if ACE <= l { DecodeLength(l[|ACE|..]); }
    } else {
      EncodeIsAscii(l);
      assert IdnLabel(l)[|ACE|..] == Encode(l);
      Exact.SurvivesExactly(l);
      Exact.DecodedLength(l);
    }
  }

  /** `us` is what undoing leaves of `ls`. */
  ghost predicate AllUndone(us: seq<seq<CodePoint>>, ls: seq<seq<CodePoint>>) {
    |us| == |ls| && forall i :: 0 <= i < |ls| ==> |us[i]| <= |ls[i]| && (us[i] == ls[i] <==> Returns(ls[i]))
  }

  lemma {:induction false} LabelsUndone(ls: seq<seq<CodePoint>>)
    ensures var us := UndoLabels(IdnLabels(ls));
            && (us.Some? ==> AllUndone(us.value, ls))
            && (us.None? ==> exists l <- ls :: !Returns(l))
    decreases |ls|
  {
    hide UndoLabel, UndoLabels, IdnLabel, IdnLabels, Returns, AllUndone;
    if ls == [] {
      NoLabelUndone();
    } else {
      var l, rest := ls[0], ls[1..];
      UndoStep(ls);
      LabelUndone(l);
      LabelsUndone(rest);
      assert l in ls && forall m :: m in rest ==> m in ls;
      var u, us := UndoLabel(IdnLabel(l)), UndoLabels(IdnLabels(rest));
      if u.Some? && us.Some? { UndoneCons(u.value, us.value, ls); }
    }
  }

  lemma NoLabelUndone()
    ensures UndoLabels(IdnLabels([])) == Some([]) && AllUndone([], [])
  {
  }

  lemma UndoStep(ls: seq<seq<CodePoint>>)
    requires ls != []
    ensures UndoLabels(IdnLabels(ls)) ==
            match (UndoLabel(IdnLabel(ls[0])), UndoLabels(IdnLabels(ls[1..])))
            case (Some(l), Some(rest)) => Some([l] + rest)
            case _ => None
  {
    hide UndoLabel, IdnLabel;
    assert IdnLabels(ls)[1..] == IdnLabels(ls[1..]);
  }

  lemma UndoneCons(u: seq<CodePoint>, us: seq<seq<CodePoint>>, ls: seq<seq<CodePoint>>)
    requires ls != [] && |u| <= |ls[0]| && (u == ls[0] <==> Returns(ls[0])) && AllUndone(us, ls[1..])
    ensures AllUndone([u] + us, ls)
  {
    hide Returns;
    assert forall i :: 0 < i < |ls| ==> ([u] + us)[i] == us[i - 1] && ls[i] == ls[1..][i - 1];
  }

  /** The mapping of a domain can be undone exactly when every label returns. */
  lemma UndoneExactly(domain: seq<CodePoint>)
    ensures IdnUnicode(IdnAscii(domain)) == Some(Lower(domain)) <==> forall l <- LowerLabels(domain) :: Returns(l)
  {
    hide UndoLabels, IdnLabel, Returns, Split, Join, IdnAscii;
    var ls := LowerLabels(domain);
    IdnSplits(domain);
    LabelsUndone(ls);
    JoinSplit<CodePoint>(Lower(domain), DOT);
    var us := UndoLabels(IdnLabels(ls));
    if us.Some? {
      if Join<CodePoint>(us.value, DOT) == Join<CodePoint>(ls, DOT) {
        JoinIsInjective<CodePoint>(us.value, ls, DOT);
      }
      SameLabels(us.value, ls);
    }
  }

  lemma SameLabels(us: seq<seq<CodePoint>>, ls: seq<seq<CodePoint>>)
    requires AllUndone(us, ls)
    ensures us == ls <==> forall l <- ls :: Returns(l)
  {
    hide Returns;
    if us == ls {
      assert forall i :: 0 <= i < |ls| ==> us[i] == ls[i];
    } else {
      var i :| 0 <= i < |ls| && us[i] != ls[i];
      assert ls[i] in ls;
    }
  }

  /** In particular when no label has more than 3855 code points and no ASCII label looks encoded. */
  lemma ShortDomainReturns(domain: seq<CodePoint>)
    requires forall l <- LowerLabels(domain) :: |l| <= Exact.MAX_POINTS
    ensures IdnUnicode(IdnAscii(domain)) == Some(Lower(domain))
       <==> forall l <- LowerLabels(domain) :: IsAscii(l) ==> !LooksEncoded(l)
  {
    hide IdnUnicode, IdnAscii, LowerLabels, Lower, Exact.Fit, Exact.Deltas;
    UndoneExactly(domain);
    forall l | l in LowerLabels(domain) ensures Exact.Fit(Exact.Deltas(l)) { Exact.ExactRoundTrip(l); }
  }

  // ---------- the query on the wire ----------

  /** The question name of a query reads back, up to four bytes before the end of the packet, exactly when
      every label of the ASCII form has 1 to 191 bytes. */
  lemma QueryNameExact(domain: seq<CodePoint>, qtype: U16)
    ensures var pkt := BuildQuery(domain, qtype);
            |pkt| >= 4 &&
            (ReadName(pkt, DnsMessage.HEADER_SIZE, MAX_REDIRECTS, []) == Ok((IdnAscii(domain), |pkt| - 4))
             <==> Readable(Split(IdnAscii(domain), DOT)))
  {
    hide ReadName, IdnAscii;
    var pkt, name := BuildQuery(domain, qtype), EncodeName(IdnAscii(domain));
    assert pkt[DnsMessage.HEADER_SIZE..DnsMessage.HEADER_SIZE + |name|] == name;
    EncodeNameExact(pkt, DnsMessage.HEADER_SIZE, IdnAscii(domain));
  }

  /** Reading the question name of a query and undoing the mapping gives the domain in lower case, for labels of a
      length that can be read, exactly when every label returns. */
  lemma QueryUndone(domain: seq<CodePoint>, qtype: U16)
    requires Readable(Split(IdnAscii(domain), DOT))
    ensures match ReadName(BuildQuery(domain, qtype), DnsMessage.HEADER_SIZE, MAX_REDIRECTS, [])
            case Ok((name, end)) =>
              && end == |BuildQuery(domain, qtype)| - 4
              && (IdnUnicode(name) == Some(Lower(domain)) <==> forall l <- LowerLabels(domain) :: Returns(l))
            case Err(_) => false
  {
    hide ReadName, IdnAscii, IdnUnicode, BuildQuery, LowerLabels, Returns, Lower;
    QueryNameExact(domain, qtype);
    UndoneExactly(domain);
  }

  /** A query has one question and nothing else in its header, and ends with the type and the class IN. */
  lemma QueryFrame(domain: seq<CodePoint>, qtype: U16)
    ensures var pkt := BuildQuery(domain, qtype);
            && |pkt| == 12 + |EncodeName(IdnAscii(domain))| + 4
            && pkt[..12] == [0, 0, 0, 0, 0, 1, 0, 0, 0, 0, 0, 0]
            && pkt[|pkt| - 4..] == [qtype / 256, qtype % 256, 0, 1]
  {
    hide IdnAscii, EncodeName;
    var pkt := BuildQuery(domain, qtype);
    assert pkt[|pkt| - 4..] == Be16(qtype) + Be16(1);
  }

  /** A query parses as a message without answers. */
  lemma QueryParses(domain: seq<CodePoint>, qtype: U16)
    requires Readable(Split(IdnAscii(domain), DOT))
    ensures DnsMessage.ParseDns(BuildQuery(domain, qtype)) == Ok([])
  {
    hide DnsMessage.ParseDns, IdnAscii, Split, Emit, BuildQuery;
    var name := WireName(Split(IdnAscii(domain), DOT), None);
    var m := Message(0, 0, [Question(name, qtype, 1)], 0, 0, 0, []);
    assert name.Writable() && WritableMessage(m);
    QueryIsMessage(domain, qtype, m);
    MessageIsRead(m);
  }

  lemma QueryIsMessage(domain: seq<CodePoint>, qtype: U16, m: Message)
    requires WritableMessage(m)
    requires m == Message(0, 0, [Question(WireName(Split(IdnAscii(domain), DOT), None), qtype, 1)], 0, 0, 0, [])
    ensures Emit(m) == BuildQuery(domain, qtype)
  {
    hide IdnAscii, Split, EmitQuestions, EmitHeader, EmitRecords, EmitLabels;
    var q := m.questions[0];
    assert q in m.questions;
    OneQuestion(q);
    QueryHeaderIs(m);
    var name := EncodeName(IdnAscii(domain));
    Sequences.Empty(EmitQuestions(m.questions));
    Sequences.Assoc(QueryHeader(), name, Be16(qtype) + Be16(1));
    Sequences.Assoc(QueryHeader() + name, Be16(qtype), Be16(1));
  }

  lemma OneQuestion(q: Question)
    requires q.name.Writable()
    ensures EmitQuestions([q]) == EmitName(q.name) + (Be16(q.qtype) + Be16(q.qclass)) && EmitRecords([]) == []
  {
    hide EmitName, Be16;
    assert [q][1..] == [];
    Sequences.Empty(EmitName(q.name) + (Be16(q.qtype) + Be16(q.qclass)));
  }

  lemma QueryHeaderIs(m: Message)
    requires WritableMessage(m) && |m.questions| == 1
    requires m.id == m.flags == m.answerCount == m.authorityCount == m.additionalCount == 0
    ensures EmitHeader(m) == QueryHeader()
  {
  }
}
