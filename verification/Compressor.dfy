/** A writer that compresses names as it goes, and its agreement with the plain writer. */
module Compressor {
  import opened Bytes
  import opened Sequences
  import opened DnsName
  import opened DnsWire
  import opened DnsSerialise
  import DnsMessage
  import Text

  /** Where a list of labels can be read, and the redirects that takes. */
  datatype Place = Place(pos: nat, redirects: nat)

  type Dictionary = map<seq<Label>, Place>

  /** The most redirects of a place that a pointer may lead to: one more is the reader's limit of fifteen. */
  const MAX_CHAIN := MAX_REDIRECTS - 2

  /** The labels are read at `p` with at most so many redirects. */
  predicate Reads(data: seq<Byte>, p: nat, redirects: nat, labels: seq<Label>) {
    var r := ReadName(data, p, redirects + 1, []);
    r.Ok? && r.value.0 == Text.Join(labels, DOT)
  }

  ghost predicate Holds(data: seq<Byte>, d: Dictionary) {
    forall s <- d ::
      s != [] && d[s].pos < 0x4000 && d[s].redirects <= MAX_CHAIN && Reads(data, d[s].pos, d[s].redirects, s)
  }

  /** The dictionary with the first `written` suffixes of labels standing at `pos`, as far as a pointer reaches and
      unless they take too many redirects. */
  function Learn(labels: seq<Label>, written: nat, pos: nat, redirects: nat, d: Dictionary): Dictionary
    requires written <= |labels|
  {
    if written == 0 then d
    else
      var rest := Learn(labels[1..], written - 1, pos + 1 + |labels[0]|, redirects, d);
      if pos < 0x4000 && redirects <= MAX_CHAIN then rest[labels := Place(pos, redirects)] else rest
  }

  /** How many labels come before the longest known suffix; all of them when none is known. */
  function Unknown(labels: seq<Label>, d: Dictionary): (k: nat)
    ensures k <= |labels|
    ensures k < |labels| ==> labels[k..] in d
  {
    if labels == [] || labels in d then 0 else 1 + Unknown(labels[1..], d)
  }

  /** A name at `pos`: its longest known suffix as a pointer, if there is one; what stands in front is remembered. */
  function CompressName(n: WireName, pos: nat, d: Dictionary): (WireName, Dictionary) {
    var k := Unknown(n.labels, d);
    if k < |n.labels| then
      var place := d[n.labels[k..]];
      (WireName(n.labels[..k], Some(place.pos)), Learn(n.labels, k, pos, place.redirects + 1, d))
    else (n, Learn(n.labels, k, pos, 0, d))
  }

  function CompressData(x: WireData, pos: nat, d: Dictionary): (WireData, Dictionary) {
    match x
    case WirePtr(n) => var (n', d') := CompressName(n, pos, d); (WirePtr(n'), d')
    case WireSrv(p, w, port, n) => var (n', d') := CompressName(n, pos + 6, d); (WireSrv(p, w, port, n'), d')
    case _ => (x, d)
  }

  /** A record whose names have no pointer. */
  predicate IsPlain(r: WireRecord) {
    && r.owner.target.None?
    && (r.data.WirePtr? ==> r.data.name.target.None?)
    && (r.data.WireSrv? ==> r.data.target.target.None?)
  }

  // ---------- what stays readable ----------

  lemma PrefixAt(data: seq<Byte>, whole: seq<Byte>, p: nat, q: nat)
    requires data <= whole && p <= q <= |data|
    ensures whole[p..q] == data[p..q]
  {
  }

  /** A name that is read is read the same in every longer packet and with a larger budget. */
  lemma {:induction false} StillReads(data: seq<Byte>, whole: seq<Byte>, p: nat, b: nat, budget: nat, acc: seq<Byte>)
    requires data <= whole && b <= budget && ReadName(data, p, b, acc).Ok?
    ensures ReadName(whole, p, budget, acc) == ReadName(data, p, b, acc)
    decreases b, |data| - p
  {
    assert whole[p] == data[p];
    if data[p] == 0 {
    } else if IsPointer(data[p]) {
      assert whole[p + 1] == data[p + 1];
      StillReads(data, whole, Target(data[p], data[p + 1]), b - 1, budget - 1, []);
    } else {
      var end := p + 1 + data[p];
      PrefixAt(data, whole, p + 1, end);
      LabelIsRead(data, p, b, acc);
      LabelIsRead(whole, p, budget, acc);
      StillReads(data, whole, end, b, budget, Extended(acc, data[p + 1..end]));
    }
  }

  lemma HoldsOn(data: seq<Byte>, whole: seq<Byte>, d: Dictionary)
    requires Holds(data, d) && data <= whole
    ensures Holds(whole, d)
  {
    hide ReadName, Text.Join;
    forall s | s in d ensures Reads(whole, d[s].pos, d[s].redirects, s) {
      StillReads(data, whole, d[s].pos, d[s].redirects + 1, d[s].redirects + 1, []);
    }
  }

  // ---------- names ----------

  /** How a written name goes on behind its labels: not at all, or at a place that reads as `rest`. */
  predicate Ends(data: seq<Byte>, w: WireName, rest: seq<Label>, redirects: nat) {
    match w.target
    case None => rest == [] && redirects == 0
    case Some(t) => t < 0x4000 && rest != [] && redirects > 0 && Reads(data, t, redirects - 1, rest)
  }

  /** What is read behind the labels of a name. */
  lemma EndIsReached(data: seq<Byte>, q: nat, w: WireName, rest: seq<Label>, redirects: nat, acc: seq<Byte>)
    requires Ends(data, w, rest, redirects) && acc != []
    requires At(data, q, if w.target == None then [0] else [0xC0 + w.target.value / 0x100, w.target.value % 0x100])
    ensures var r := ReadName(data, q, redirects + 1, acc);
            r.Ok? && r.value.0 == if rest == [] then acc else acc + [DOT] + Text.Join(rest, DOT)
  {
    hide At, Text.Join;
    match w.target
    case None => AtIndex(data, q, [0], 0);
    case Some(t) =>
      AtIndex(data, q, [0xC0 + t / 0x100, t % 0x100], 0);
      AtIndex(data, q, [0xC0 + t / 0x100, t % 0x100], 1);
      assert Target(data[q], data[q + 1]) == t;
  }

  /** A name that stands at `p` reads as its labels and what it goes on with. */
  lemma NameReads(data: seq<Byte>, p: nat, w: WireName, rest: seq<Label>, redirects: nat)
    requires w.Writable() && w.labels != [] && At(data, p, EmitName(w)) && Ends(data, w, rest, redirects)
    ensures Reads(data, p, redirects, w.labels + rest)
  {
    hide ReadName, At, Text.Join, EmitLabels, Spread, Ends;
    var labels := w.labels;
    var tail := if w.target == None then [0] else [0xC0 + w.target.value / 0x100, w.target.value % 0x100];
    AtSplit(data, p, EmitLabels(labels), tail);
    LabelsAreRead(data, p, labels, redirects + 1, []);
    assert forall l <- labels :: l != [];
    SpreadJoins([], labels);
    EndIsReached(data, p + |EmitLabels(labels)|, w, rest, redirects, Spread([], labels));
    if rest == [] { Empty(labels); } else { Text.JoinAppend(labels, rest, DOT); }
  }

  lemma OneMoreHolds(data: seq<Byte>, labels: seq<Label>, place: Place, d: Dictionary)
    requires Holds(data, d) && labels != [] && place.pos < 0x4000 && place.redirects <= MAX_CHAIN
    requires Reads(data, place.pos, place.redirects, labels)
    ensures Holds(data, d[labels := place])
  {
    hide Reads;
  }

  lemma NameSteps(w: WireName, l: Label, rest: seq<Label>)
    requires w.Writable() && w.labels == [l] + rest
    ensures w.(labels := rest).Writable() && EmitName(w) == ([|l|] + l) + EmitName(w.(labels := rest))
  {
    hide EmitLabels;
    assert l in w.labels && forall m :: m in rest ==> m in w.labels;
    LabelsStep(l, rest);
    var tail := if w.target == None then [0] else [0xC0 + w.target.value / 0x100, w.target.value % 0x100];
    Assoc([|l|] + l, EmitLabels(rest), tail);
  }

  lemma LabelsStep(l: Label, rest: seq<Label>)
    requires |l| < 0x100
    ensures EmitLabels([l] + rest) == ([|l|] + l) + EmitLabels(rest)
  {
    Cons(l, rest);
  }

  lemma {:induction false} LearnHolds(data: seq<Byte>, w: WireName, rest: seq<Label>, pos: nat, redirects: nat,
                                      d: Dictionary)
    requires Holds(data, d) && w.Writable() && At(data, pos, EmitName(w)) && Ends(data, w, rest, redirects)
    ensures Holds(data, Learn(w.labels + rest, |w.labels|, pos, redirects, d))
    decreases |w.labels|
  {
    hide At, Holds, Ends, EmitName, Reads;
    var labels := w.labels + rest;
    if w.labels != [] {
      var l, more := w.labels[0], w.labels[1..];
      var w' := w.(labels := more);
      HeadTail(w.labels);
      NameSteps(w, l, more);
      TailOfAppend(w.labels, rest);
      AtSplit(data, pos, [|l|] + l, EmitName(w'));
      EndsAlike(data, w, w', rest, redirects);
      LearnHolds(data, w', rest, pos + 1 + |l|, redirects, d);
      if pos < 0x4000 && redirects <= MAX_CHAIN {
        NameReads(data, pos, w, rest, redirects);
        OneMoreHolds(data, labels, Place(pos, redirects), Learn(more + rest, |more|, pos + 1 + |l|, redirects, d));
      }
    }
  }

  lemma EndsAlike(data: seq<Byte>, w: WireName, w': WireName, rest: seq<Label>, redirects: nat)
    requires w'.target == w.target && Ends(data, w, rest, redirects)
    ensures Ends(data, w', rest, redirects)
  {
  }

  /** A compressed name is no longer than the plain one, can be written, means the same in every packet that goes on
      from here, and keeps the dictionary true. */
  lemma NameCompresses(data: seq<Byte>, n: WireName, d: Dictionary)
    requires Holds(data, d) && n.target.None? && n.Writable()
    ensures var (w, d') := CompressName(n, |data|, d);
            && w.Writable() && |EmitName(w)| <= |EmitName(n)|
            && Holds(data + EmitName(w), d')
            && forall whole :: data <= whole ==> Shortens(whole, n, w)
  {
    hide Shortens, Holds, EmitName, Reads, Learn;
    if Unknown(n.labels, d) < |n.labels| {
      KnownCompresses(data, n, d);
    } else {
      NewCompresses(data, n, d);
    }
  }

  lemma KnownCompresses(data: seq<Byte>, n: WireName, d: Dictionary)
    requires Holds(data, d) && n.target.None? && n.Writable() && Unknown(n.labels, d) < |n.labels|
    ensures var (w, d') := CompressName(n, |data|, d);
            && w.Writable() && |EmitName(w)| <= |EmitName(n)|
            && Holds(data + EmitName(w), d')
            && forall whole :: data <= whole ==> Shortens(whole, n, w)
  {
    hide Shortens, Holds, EmitName, Ends, Reads, Learn, Unknown;
    var k := Unknown(n.labels, d);
    var rest := n.labels[k..];
    var w := WireName(n.labels[..k], Some(d[rest].pos));
    PointerFits(data, n, d, k);
    assert n.labels == w.labels + rest;
    KnownEnds(data, data + EmitName(w), d, w, rest);
    NewNameHolds(data, w, rest, d[rest].redirects + 1, d);
    forall x | data <= x ensures Shortens(x, n, w) { KnownShortens(data, x, n, w, d); }
  }

  lemma NewCompresses(data: seq<Byte>, n: WireName, d: Dictionary)
    requires Holds(data, d) && n.target.None? && n.Writable() && Unknown(n.labels, d) == |n.labels|
    ensures var (w, d') := CompressName(n, |data|, d);
            && w.Writable() && |EmitName(w)| <= |EmitName(n)|
            && Holds(data + EmitName(w), d')
            && forall whole :: data <= whole ==> Shortens(whole, n, w)
  {
    hide Shortens, Holds, EmitName, Ends, Reads, Learn, Unknown;
    Empty(n.labels);
    PlainEnds(data + EmitName(n), n);
    NewNameHolds(data, n, [], 0, d);
    forall x | data <= x ensures Shortens(x, n, n) { PlainShortens(x, n); }
  }

  lemma PlainEnds(data: seq<Byte>, n: WireName)
    requires n.target.None?
    ensures Ends(data, n, [], 0)
  {
  }

  lemma KnownEnds(data: seq<Byte>, whole: seq<Byte>, d: Dictionary, w: WireName, rest: seq<Label>)
    requires Holds(data, d) && data <= whole && rest in d && w.target == Some(d[rest].pos)
    ensures Ends(whole, w, rest, d[rest].redirects + 1)
  {
    hide Reads;
    HoldsOn(data, whole, d);
  }

  lemma PointerFits(data: seq<Byte>, n: WireName, d: Dictionary, k: nat)
    requires Holds(data, d) && n.target.None? && n.Writable() && k < |n.labels| && n.labels[k..] in d
    ensures var w := WireName(n.labels[..k], Some(d[n.labels[k..]].pos));
            w.Writable() && |EmitName(w)| <= |EmitName(n)|
  {
    hide EmitLabels, Reads;
    var prefix, suffix := n.labels[..k], n.labels[k..];
    assert n.labels == prefix + suffix;
    EmitAppend(prefix, suffix);
    EmitNotEmpty(suffix);
  }

  lemma {:induction false} EmitNotEmpty(labels: seq<Label>)
    requires Readable(labels) && labels != []
    ensures |EmitLabels(labels)| >= 2
  {
    assert labels[0] in labels;
  }

  lemma NewNameHolds(data: seq<Byte>, w: WireName, rest: seq<Label>, redirects: nat, d: Dictionary)
    requires Holds(data, d) && w.Writable() && Ends(data + EmitName(w), w, rest, redirects)
    ensures Holds(data + EmitName(w), Learn(w.labels + rest, |w.labels|, |data|, redirects, d))
  {
    hide Holds, EmitName, Ends;
    var whole := data + EmitName(w);
    assert whole[|data|..|data| + |EmitName(w)|] == EmitName(w);
    HoldsOn(data, whole, d);
    LearnHolds(whole, w, rest, |data|, redirects, d);
  }

  lemma PlainShortens(data: seq<Byte>, n: WireName)
    requires n.target.None?
    ensures Shortens(data, n, n)
  {
  }

  /** A pointer to a known place reads as the suffix, within the reader's redirects. */
  lemma KnownShortens(data: seq<Byte>, whole: seq<Byte>, n: WireName, w: WireName, d: Dictionary)
    requires Holds(data, d) && data <= whole && n.target.None? && n.Writable()
    requires w.target.Some? && |w.labels| < |n.labels| && w.labels == n.labels[..|w.labels|]
    requires n.labels[|w.labels|..] in d && w.target.value == d[n.labels[|w.labels|..]].pos
    ensures Shortens(whole, n, w)
  {
    hide ReadName, Text.Join;
    var s := n.labels[|w.labels|..];
    StillReads(data, whole, d[s].pos, d[s].redirects + 1, MAX_REDIRECTS - 1, []);
  }

  // ---------- records ----------

  function CompressRecord(r: WireRecord, pos: nat, d: Dictionary): (WireRecord, Dictionary)
    requires CompressName(r.owner, pos, d).0.Writable()
  {
    var (owner, d1) := CompressName(r.owner, pos, d);
    var (data, d2) := CompressData(r.data, pos + |EmitName(owner)| + 10, d1);
    (r.(owner := owner, data := data), d2)
  }

  lemma DataCompresses(out: seq<Byte>, x: WireData, d: Dictionary)
    requires Holds(out, d) && WritableData(x)
    requires (x.WirePtr? ==> x.name.target.None?) && (x.WireSrv? ==> x.target.target.None?)
    ensures var (y, d') := CompressData(x, |out|, d);
            && WritableData(y) && |EmitData(y)| <= |EmitData(x)|
            && Holds(out + EmitData(y), d')
            && forall whole :: out <= whole && At(whole, |out|, EmitData(y)) ==> ShortensData(whole, x, y)
  {
    hide CompressName, EmitName, Shortens, At, Holds;
    match x
    case WirePtr(n) => NameCompresses(out, n, d);
    case WireSrv(p, w, port, n) => TargetCompresses(out, Be16(p) + Be16(w) + Be16(port), n, d);
    case _ => HoldsOn(out, out + EmitData(x), d);
  }

  /** The name behind the fields of an SRV record. */
  lemma TargetCompresses(out: seq<Byte>, fields: seq<Byte>, n: WireName, d: Dictionary)
    requires Holds(out, d) && n.target.None? && n.Writable()
    ensures var (w, d') := CompressName(n, |out| + |fields|, d);
            && w.Writable() && |EmitName(w)| <= |EmitName(n)|
            && Holds(out + (fields + EmitName(w)), d')
            && forall whole :: out <= whole && At(whole, |out|, fields + EmitName(w)) ==> Shortens(whole, n, w)
  {
    hide CompressName, EmitName, Shortens, At, Holds;
    HoldsOn(out, out + fields, d);
    NameCompresses(out + fields, n, d);
    var w := CompressName(n, |out| + |fields|, d).0;
    assert out + (fields + EmitName(w)) == out + fields + EmitName(w);
    forall whole | out <= whole && At(whole, |out|, fields + EmitName(w)) ensures out + fields <= whole {
      AtSplit(whole, |out|, fields, EmitName(w));
      PrefixGrows(out, fields, whole);
    }
  }

  lemma PrefixGrows(a: seq<Byte>, b: seq<Byte>, whole: seq<Byte>)
    requires a <= whole && At(whole, |a|, b)
    ensures a + b <= whole
  {
    assert whole == a + whole[|a|..] && whole[|a|..][..|b|] == b;
    assert whole[..|a| + |b|] == a + b;
  }

  /** A compressed record says what the plain record says in every message that holds it, and is no longer. */
  lemma RecordCompresses(out: seq<Byte>, r: WireRecord, d: Dictionary)
    requires Holds(out, d) && IsPlain(r) && WritableRecord(r)
    ensures CompressName(r.owner, |out|, d).0.Writable()
    ensures var (r', d') := CompressRecord(r, |out|, d);
            && WritableRecord(r') && |EmitRecord(r')| <= |EmitRecord(r)|
            && Holds(out + EmitRecord(r'), d')
            && forall whole :: out + EmitRecord(r') <= whole ==> ShortensRecord(whole, r, r')
  {
    hide CompressName, CompressData, EmitName, EmitData, Holds, Shortens, ShortensData, Fixed, WritableData;
    NameCompresses(out, r.owner, d);
    var (owner, d1) := CompressName(r.owner, |out|, d);
    var r' := CompressRecord(r, |out|, d).0;
    DataStaysWritable(out, r, d);
    var head := EmitName(owner) + Fixed(r');
    assert out + head == out + EmitName(owner) + Fixed(r');
    HoldsOn(out + EmitName(owner), out + EmitName(owner) + Fixed(r'), d1);
    DataCompresses(out + head, r.data, d1);
    assert EmitRecord(r') == head + EmitData(r'.data);
    assert out + EmitRecord(r') == out + head + EmitData(r'.data);
    forall whole | out + EmitRecord(r') <= whole ensures ShortensRecord(whole, r, r') {
      PrefixParts(out + head, EmitData(r'.data), whole);
      PrefixParts(out, head, whole);
    }
  }

  lemma DataStaysWritable(out: seq<Byte>, r: WireRecord, d: Dictionary)
    requires Holds(out, d) && IsPlain(r) && WritableRecord(r)
    ensures CompressName(r.owner, |out|, d).0.Writable()
    ensures WritableRecord(CompressRecord(r, |out|, d).0)
  {
    hide CompressName, EmitName, Holds, Shortens, ShortensData;
    NameCompresses(out, r.owner, d);
    var (owner, d1) := CompressName(r.owner, |out|, d);
    var pad := out + EmitName(owner) + seq(10, i => 0);
    HoldsOn(out + EmitName(owner), pad, d1);
    DataCompresses(pad, r.data, d1);
  }

  lemma PrefixParts(a: seq<Byte>, b: seq<Byte>, whole: seq<Byte>)
    requires a + b <= whole
    ensures a <= whole && At(whole, |a|, b)
  {
    assert whole[..|a + b|] == a + b;
    assert a == whole[..|a|] && whole[|a|..|a| + |b|] == (a + b)[|a|..];
  }

  // ---------- whole messages ----------

  predicate PlainRecord(r: WireRecord) { IsPlain(r) && WritableRecord(r) }

  /** The records from `out` on, compressed one after the other; `out` is what is written before them. */
  ghost function CompressRecords(rs: seq<WireRecord>, out: seq<Byte>, d: Dictionary): (r: seq<WireRecord>)
    requires Holds(out, d) && forall r <- rs :: PlainRecord(r)
    ensures |r| == |rs| && forall x <- r :: WritableRecord(x)
    decreases |rs|
  {
    if rs == [] then []
    else
      assert rs[0] in rs && PlainRecord(rs[0]);
      assert forall x :: x in rs[1..] ==> x in rs;
      RecordCompresses(out, rs[0], d);
      var (first, d') := CompressRecord(rs[0], |out|, d);
      [first] + CompressRecords(rs[1..], out + EmitRecord(first), d')
  }

  lemma FirstCompresses(rs: seq<WireRecord>, out: seq<Byte>, d: Dictionary)
    returns (first: WireRecord, d': Dictionary, rest: seq<WireRecord>)
    requires Holds(out, d) && rs != [] && forall r <- rs :: PlainRecord(r)
    ensures WritableRecord(rs[0]) && WritableRecord(first) && |EmitRecord(first)| <= |EmitRecord(rs[0])|
    ensures Holds(out + EmitRecord(first), d') && forall r <- rs[1..] :: PlainRecord(r)
    ensures rest == CompressRecords(rs[1..], out + EmitRecord(first), d')
    ensures CompressRecords(rs, out, d) == [first] + rest
    ensures forall whole :: out + EmitRecord(first) <= whole ==> ShortensRecord(whole, rs[0], first)
  {
    hide Holds, WritableRecord, IsPlain, CompressRecord, ShortensRecord, EmitRecord;
    assert rs[0] in rs && PlainRecord(rs[0]);
    assert forall x :: x in rs[1..] ==> x in rs;
    RecordCompresses(out, rs[0], d);
    var step := CompressRecord(rs[0], |out|, d);
    first, d' := step.0, step.1;
    rest := CompressRecords(rs[1..], out + EmitRecord(first), d');
  }

  lemma EmitRecordsCons(r: WireRecord, rest: seq<WireRecord>)
    requires WritableRecord(r) && forall x <- rest :: WritableRecord(x)
    ensures EmitRecords([r] + rest) == EmitRecord(r) + EmitRecords(rest)
  {
    assert ([r] + rest)[1..] == rest;
  }

  lemma {:induction false} RecordsCompress(rs: seq<WireRecord>, out: seq<Byte>, d: Dictionary)
    requires Holds(out, d) && forall r <- rs :: PlainRecord(r)
    ensures var rs' := CompressRecords(rs, out, d);
            && (forall r <- rs :: WritableRecord(r))
            && |EmitRecords(rs')| <= |EmitRecords(rs)|
            && forall i :: 0 <= i < |rs| ==> ShortensRecord(out + EmitRecords(rs'), rs[i], rs'[i])
    decreases |rs|
  {
    hide Holds, WritableRecord, IsPlain, ShortensRecord, EmitRecord, EmitRecords, CompressRecords;
    assert forall r :: r in rs ==> PlainRecord(r) && WritableRecord(r);
    if rs == [] {
      assert CompressRecords(rs, out, d) == rs;
    } else {
      var first, d', rest := FirstCompresses(rs, out, d);
      RecordsCompress(rs[1..], out + EmitRecord(first), d');
      EmitRecordsCons(first, rest);
      EmitRecordsCons(rs[0], rs[1..]);
      assert rs == [rs[0]] + rs[1..];
      var rs' := CompressRecords(rs, out, d);
      var whole := out + EmitRecords(rs');
      assert whole == out + EmitRecord(first) + EmitRecords(rest);
      forall i | 0 <= i < |rs| ensures ShortensRecord(whole, rs[i], rs'[i]) {
        if i > 0 { assert rs[i] == rs[1..][i - 1] && rs'[i] == rest[i - 1]; }
      }
    }
  }

  /** The questions from `out` on, compressed one after the other, and the dictionary behind them. */
  ghost function CompressQuestions(qs: seq<Question>, out: seq<Byte>, d: Dictionary): (r: (seq<Question>, Dictionary))
    requires Holds(out, d) && forall q <- qs :: PlainQuestion(q)
    ensures |r.0| == |qs| && (forall q <- r.0 :: q.name.Writable()) && Holds(out + EmitQuestions(r.0), r.1)
    decreases |qs|
  {
    hide Holds, CompressName, EmitName;
    if qs == [] then
      Empty(out);
      ([], d)
    else
      assert qs[0] in qs && PlainQuestion(qs[0]);
      assert forall q :: q in qs[1..] ==> q in qs;
      NameCompresses(out, qs[0].name, d);
      var (name, d1) := CompressName(qs[0].name, |out|, d);
      var first := qs[0].(name := name);
      QuestionGrows(out, first, d1);
      var (rest, d2) := CompressQuestions(qs[1..], out + EmitQuestion(first), d1);
      EmitQuestionsCons(first, rest);
      Assoc(out, EmitQuestion(first), EmitQuestions(rest));
      ([first] + rest, d2)
  }

  predicate PlainQuestion(q: Question) { q.name.target.None? && q.name.Writable() }

  function EmitQuestion(q: Question): seq<Byte>
    requires q.name.Writable()
  {
    EmitName(q.name) + (Be16(q.qtype) + Be16(q.qclass))
  }

  lemma EmitQuestionsCons(q: Question, rest: seq<Question>)
    requires q.name.Writable() && forall x <- rest :: x.name.Writable()
    ensures (forall x <- [q] + rest :: x.name.Writable())
    ensures EmitQuestions([q] + rest) == EmitQuestion(q) + EmitQuestions(rest)
  {
    hide EmitName;
    Cons(q, rest);
  }

  lemma QuestionGrows(out: seq<Byte>, q: Question, d: Dictionary)
    requires q.name.Writable() && Holds(out + EmitName(q.name), d)
    ensures Holds(out + EmitQuestion(q), d) && out + EmitName(q.name) <= out + EmitQuestion(q)
  {
    hide Holds, EmitName;
    Assoc(out, EmitName(q.name), Be16(q.qtype) + Be16(q.qclass));
    HoldsOn(out + EmitName(q.name), out + EmitQuestion(q), d);
  }

  ghost predicate AllShorten(data: seq<Byte>, plain: seq<Question>, qs: seq<Question>) {
    |plain| == |qs| && forall i :: 0 <= i < |qs| ==> Shortens(data, plain[i].name, qs[i].name)
  }

  lemma AllShortenCons(data: seq<Byte>, plain: seq<Question>, qs: seq<Question>)
    requires plain != [] && qs != [] && Shortens(data, plain[0].name, qs[0].name)
    requires AllShorten(data, plain[1..], qs[1..])
    ensures AllShorten(data, plain, qs)
  {
    hide Shortens;
    forall i | 0 <= i < |qs| ensures Shortens(data, plain[i].name, qs[i].name) {
      if i > 0 { assert plain[i] == plain[1..][i - 1] && qs[i] == qs[1..][i - 1]; }
    }
  }

  lemma {:induction false} QuestionsCompress(qs: seq<Question>, out: seq<Byte>, d: Dictionary)
    requires Holds(out, d) && forall q <- qs :: PlainQuestion(q)
    ensures var qs' := CompressQuestions(qs, out, d).0;
            && (forall q <- qs :: q.name.Writable())
            && |EmitQuestions(qs')| <= |EmitQuestions(qs)|
            && forall whole :: out + EmitQuestions(qs') <= whole ==> AllShorten(whole, qs, qs')
    decreases |qs|
  {
    hide Holds, CompressName, EmitName, EmitQuestion, EmitQuestions, CompressQuestions, Shortens, PlainQuestion;
    hide AllShorten;
    assert forall q :: q in qs ==> q.name.Writable() by { QuestionsWritable(qs); }
    if qs == [] {
      NoQuestions(out, d);
      forall whole ensures AllShorten(whole, qs, []) { NoneShorten(whole); }
    } else {
      var first, d1, rest := FirstQuestion(qs, out, d);
      var out' := out + EmitQuestion(first);
      QuestionsCompress(qs[1..], out', d1);
      EmitQuestionsCons(first, rest);
      HeadTail(qs);
      EmitQuestionsCons(qs[0], qs[1..]);
      Assoc(out, EmitQuestion(first), EmitQuestions(rest));
      var qs' := CompressQuestions(qs, out, d).0;
      Cons(first, rest);
      forall whole | out + EmitQuestions(qs') <= whole ensures AllShorten(whole, qs, qs') {
        Shorter(out', EmitQuestions(rest), whole);
        AllShortenCons(whole, qs, qs');
      }
    }
  }

  lemma NoneShorten(data: seq<Byte>)
    ensures AllShorten(data, [], [])
  {
  }

  lemma Shorter(a: seq<Byte>, b: seq<Byte>, whole: seq<Byte>)
    requires a + b <= whole
    ensures a <= whole
  {
    FrontOfAppend(a, b);
  }

  lemma QuestionsWritable(qs: seq<Question>)
    requires forall q <- qs :: PlainQuestion(q)
    ensures forall q <- qs :: q.name.Writable()
  {
  }

  lemma NoQuestions(out: seq<Byte>, d: Dictionary)
    requires Holds(out, d)
    ensures CompressQuestions([], out, d).0 == [] && EmitQuestions([]) == []
  {
    hide Holds;
  }

  lemma FirstQuestion(qs: seq<Question>, out: seq<Byte>, d: Dictionary)
    returns (first: Question, d': Dictionary, rest: seq<Question>)
    requires Holds(out, d) && qs != [] && forall q <- qs :: PlainQuestion(q)
    ensures first.name.Writable() && qs[0].name.Writable() && |EmitQuestion(first)| <= |EmitQuestion(qs[0])|
    ensures Holds(out + EmitQuestion(first), d') && forall q <- qs[1..] :: PlainQuestion(q)
    ensures rest == CompressQuestions(qs[1..], out + EmitQuestion(first), d').0
    ensures CompressQuestions(qs, out, d).0 == [first] + rest
    ensures forall whole :: out + EmitQuestion(first) <= whole ==> Shortens(whole, qs[0].name, first.name)
  {
    hide Holds, CompressName, EmitName, Shortens;
    assert qs[0] in qs && PlainQuestion(qs[0]);
    assert forall q :: q in qs[1..] ==> q in qs;
    NameCompresses(out, qs[0].name, d);
    var step := CompressName(qs[0].name, |out|, d);
    first, d' := qs[0].(name := step.0), step.1;
    QuestionGrows(out, first, d');
    rest := CompressQuestions(qs[1..], out + EmitQuestion(first), d').0;
  }

  predicate PlainMessage(m: Message) {
    && |m.questions| < 0x1_0000
    && (forall q <- m.questions :: PlainQuestion(q))
    && (forall r <- m.records :: PlainRecord(r))
  }

  lemma NothingHeld(data: seq<Byte>)
    ensures Holds(data, map[])
  {
  }

  /** The message with its questions and records compressed against all that stands before them. */
  ghost function Compress(m: Message): (c: Message)
    requires PlainMessage(m)
  {
    var header := EmitHeader(m.(records := []));
    NothingHeld(header);
    var (questions, d) := CompressQuestions(m.questions, header, map[]);
    m.(questions := questions, records := CompressRecords(m.records, header + EmitQuestions(questions), d))
  }

  /** Compressing a message as it is written is undone by the parser: it says the same in no more bytes. */
  lemma CompressedParsesAlike(m: Message)
    requires PlainMessage(m) && |m.questions| + |m.records| > 0
    ensures WritableMessage(m) && WritableMessage(Compress(m))
    ensures |Emit(Compress(m))| <= |Emit(m)|
    ensures DnsMessage.ParseDns(Emit(Compress(m))).Ok?
    ensures DnsMessage.ParseDns(Emit(Compress(m))) == DnsMessage.ParseDns(Emit(m))
  {
    hide EmitRecord, WritableRecord, IsPlain, CompressRecords, CompressQuestions, EmitRecords, EmitQuestions,
      ShortensRecord, Shortens, PlainQuestion, Holds, Meaning;
    hide DnsMessage.ParseDns;
    QuestionsWritable(m.questions);
    var c := Compress(m);
    var header := EmitHeader(m.(records := []));
    NothingHeld(header);
    var (questions, d) := CompressQuestions(m.questions, header, map[]);
    var out := header + EmitQuestions(questions);
    assert forall r :: r in m.records ==> PlainRecord(r) && WritableRecord(r);
    QuestionsCompress(m.questions, header, map[]);
    RecordsCompress(m.records, out, d);
    assert EmitHeader(c) == EmitHeader(m) == header by { SameHeader(m, c); }
    Assoc(header, EmitQuestions(questions), EmitRecords(c.records));
    assert Emit(c) == out + EmitRecords(c.records);
    forall i | 0 <= i < |m.questions|
      ensures m.questions[i].name.target.None? && Meaning(Emit(c), questions[i].name).Some?
    {
      assert AllShorten(Emit(c), m.questions, questions);
      assert m.questions[i] in m.questions;
      QuestionMeans(Emit(c), m.questions[i], questions[i]);
    }
    CompressionIsTransparent(m, c);
  }

  lemma SameHeader(m: Message, c: Message)
    requires WritableMessage(m) && WritableMessage(c) && WritableMessage(m.(records := []))
    requires c == m.(questions := c.questions, records := c.records) && |c.questions| == |m.questions|
    ensures EmitHeader(c) == EmitHeader(m) == EmitHeader(m.(records := []))
  {
  }

  lemma QuestionMeans(data: seq<Byte>, plain: Question, q: Question)
    requires PlainQuestion(plain) && Shortens(data, plain.name, q.name)
    ensures plain.name.target.None? && Meaning(data, q.name).Some?
  {
    hide Shortens, Meaning;
    ShortenedMeans(data, data, plain.name, q.name);
  }
}
