/** Writing names: `encode_name` of `mdns.rs`, and names that end in a compression pointer. */
module DnsWire {
  import opened Bytes
  import Sequences
  import opened DnsName
  import opened Text

  type Label = seq<Byte>

  /** The longest label the reader takes as a label; its two top bits are not both set. */
  const MAX_LABEL := 191

  predicate Readable(labels: seq<Label>) { forall l <- labels :: 1 <= |l| <= MAX_LABEL }

  // ---------- labels on the wire ----------

  /** Each label behind its length, cast to a byte. */
  function EmitLabels(labels: seq<Label>): seq<Byte> {
    if labels == [] then [] else [|labels[0]| % 0x100] + labels[0] + EmitLabels(labels[1..])
  }

  function EncodeName(domain: seq<Byte>): seq<Byte> { EmitLabels(Split(domain, DOT)) + [0] }

  lemma {:induction false} EmitAppend(a: seq<Label>, b: seq<Label>)
    ensures EmitLabels(a + b) == EmitLabels(a) + EmitLabels(b)
  {
    if a == [] {
      assert a + b == b;
    } else {
      assert (a + b)[1..] == a[1..] + b;
      EmitAppend(a[1..], b);
    }
  }

  method EncodeNameLoop(domain: seq<Byte>) returns (out: seq<Byte>)
    ensures out == EncodeName(domain)
  {
    hide Split, EmitLabels;
    var labels := Split(domain, DOT);
    out := [];
    Sequences.Whole(labels);
    NothingEmitted();
    for i := 0 to |labels|
      invariant out == EmitLabels(labels[..i])
    {
      var b := labels[i];
      EmitOne(labels[..i], b);
      Sequences.Longer(labels, i);
      out := out + [|b| % 0x100];
      out := out + b;
    }
    out := out + [0];
  }

  lemma NothingEmitted()
    ensures EmitLabels([]) == []
  {
  }

  lemma EmitOne(labels: seq<Label>, b: Label)
    ensures EmitLabels(labels + [b]) == EmitLabels(labels) + [|b| % 0x100] + b
  {
    hide EmitLabels;
    EmitAppend(labels, [b]);
    assert EmitLabels([b]) == [|b| % 0x100] + b by { EmitSingle(b); }
    Sequences.Assoc(EmitLabels(labels), [|b| % 0x100], b);
  }

  lemma EmitSingle(b: Label)
    ensures EmitLabels([b]) == [|b| % 0x100] + b
  {
    assert [b][1..] == [];
    Sequences.Empty([|b| % 0x100] + b);
  }

  /** `acc` followed by all the labels. */
  function Spread(acc: seq<Byte>, labels: seq<Label>): seq<Byte>
    decreases |labels|
  {
    if labels == [] then acc else Spread(Extended(acc, labels[0]), labels[1..])
  }

  lemma {:induction false} SpreadJoins(acc: seq<Byte>, labels: seq<Label>)
    requires labels != [] && forall l <- labels :: l != []
    ensures Spread(acc, labels) == Joined(acc, Join(labels, DOT)) != []
    decreases |labels|
  {
    hide Spread, Join, Extended;
    var l, rest := labels[0], labels[1..];
    assert l in labels;
    Sequences.HeadTail(labels);
    SpreadStep(acc, l, rest);
    JoinedIs(acc, Join(labels, DOT));
    if rest == [] {
      JoinOne(l, DOT);
      assert labels == [l];
    } else {
      assert forall m :: m in rest ==> m in labels;
      SpreadJoins(Extended(acc, l), rest);
      JoinedIs(Extended(acc, l), Join(rest, DOT));
      JoinExtends(acc, l, rest);
    }
  }

  lemma SpreadStep(acc: seq<Byte>, l: Label, rest: seq<Label>)
    ensures Spread(acc, [l] + rest) == Spread(Extended(acc, l), rest)
    ensures rest == [] ==> Spread(acc, [l] + rest) == Extended(acc, l)
  {
    hide Extended;
    Sequences.Cons(l, rest);
  }

  lemma JoinedIs(acc: seq<Byte>, more: seq<Byte>)
    ensures Joined(acc, more) == Extended(acc, more)
    ensures more != [] ==> Extended(acc, more) != []
  {
    Sequences.Empty(more);
  }

  /** The reader runs over written labels and goes on behind them. */
  lemma {:induction false} LabelsAreRead(data: seq<Byte>, p: nat, labels: seq<Label>, budget: nat, acc: seq<Byte>)
    requires Readable(labels) && At(data, p, EmitLabels(labels))
    ensures ReadName(data, p, budget, acc) == ReadName(data, p + |EmitLabels(labels)|, budget, Spread(acc, labels))
    decreases |labels|
  {
    hide ReadName, At, Extended;
    if labels != [] {
      var l, rest := labels[0], EmitLabels(labels[1..]);
      assert l in labels && forall m :: m in labels[1..] ==> m in labels;
      var first := [|l|] + l;
      assert EmitLabels(labels) == first + rest;
      AtSplit(data, p, first, rest);
      OneLabelIsRead(data, p, l, budget, acc);
      LabelsAreRead(data, p + |first|, labels[1..], budget, Extended(acc, l));
    }
  }

  lemma OneLabelIsRead(data: seq<Byte>, p: nat, l: Label, budget: nat, acc: seq<Byte>)
    requires 1 <= |l| <= MAX_LABEL && At(data, p, [|l|] + l)
    ensures ReadName(data, p, budget, acc) == ReadName(data, p + 1 + |l|, budget, Extended(acc, l))
  {
    AtSplit(data, p, [|l|], l);
    AtIndex(data, p, [|l|], 0);
    LabelIsRead(data, p, budget, acc);
  }

  /** A name as written: labels, then a zero byte or a pointer. */
  datatype WireName = WireName(labels: seq<Label>, target: Option<nat>) {
    predicate Writable() { Readable(labels) && (target.Some? ==> target.value < 0x4000) }
  }

  function EmitName(w: WireName): (r: seq<Byte>)
    requires w.Writable()
  {
    EmitLabels(w.labels) + match w.target
      case None => [0]
      case Some(t) => [0xC0 + t / 0x100, t % 0x100]
  }

  /** The name a written name stands for inside `data`; none when its pointer does not resolve. */
  function Meaning(data: seq<Byte>, w: WireName): Option<seq<Byte>> {
    match w.target
    case None => Some(Join(w.labels, DOT))
    case Some(t) =>
      match ReadName(data, t, MAX_REDIRECTS - 1, [])
      case Err(_) => None
      case Ok((rest, _)) => Some(if w.labels == [] then rest else Join(w.labels, DOT) + [DOT] + rest)
  }

  /** A written name reads as its meaning and is an error exactly when it has none. */
  lemma NameIsRead(data: seq<Byte>, p: nat, w: WireName)
    requires w.Writable() && At(data, p, EmitName(w))
    ensures match Meaning(data, w)
            case Some(name) => ReadName(data, p, MAX_REDIRECTS, []) == Ok((name, p + |EmitName(w)|))
            case None => ReadName(data, p, MAX_REDIRECTS, []).Err?
  {
    hide ReadName, EmitLabels, Join, Spread, At;
    var wire, labels := EmitLabels(w.labels), w.labels;
    var tail := if w.target.None? then [0] else [0xC0 + w.target.value / 0x100, w.target.value % 0x100];
    AtSplit(data, p, wire, tail);
    LabelsAreRead(data, p, labels, MAX_REDIRECTS, []);
    if labels != [] {
      assert forall l <- labels :: l != [];
      SpreadJoins([], labels);
    }
    NoLabels(labels);
    var q := p + |wire|;
    AtIndex(data, q, tail, 0);
    if w.target.Some? {
      AtIndex(data, q, tail, 1);
      PointerIsRead(data, q, w.target.value, Join(labels, DOT));
    } else {
      ZeroIsRead(data, q, Join(labels, DOT));
    }
  }

  lemma NoLabels(labels: seq<Label>)
    ensures labels == [] ==> Spread([], labels) == [] == Join(labels, DOT)
  {
  }

  lemma ZeroIsRead(data: seq<Byte>, q: nat, acc: seq<Byte>)
    requires q < |data| && data[q] == 0
    ensures ReadName(data, q, MAX_REDIRECTS, acc) == Ok((acc, q + 1))
  {
  }

  lemma PointerIsRead(data: seq<Byte>, q: nat, t: nat, acc: seq<Byte>)
    requires t < 0x4000 && q + 1 < |data| && data[q] == 0xC0 + t / 0x100 && data[q + 1] == t % 0x100
    ensures match ReadName(data, t, MAX_REDIRECTS - 1, [])
            case Ok((rest, _)) =>
              ReadName(data, q, MAX_REDIRECTS, acc) == Ok((if acc == [] then rest else acc + [DOT] + rest, q + 2))
            case Err(_) => ReadName(data, q, MAX_REDIRECTS, acc).Err?
  {
    assert Target(data[q], data[q + 1]) == t;
    var nested := ReadName(data, t, MAX_REDIRECTS - 1, []);
    if nested.Ok? {
      assert [] + nested.value.0 == nested.value.0;
    }
  }

  /** Writing any suffix of a name as a pointer to a place that reads as that suffix keeps its meaning. */
  lemma SuffixByPointer(data: seq<Byte>, prefix: seq<Label>, suffix: seq<Label>, t: nat)
    requires Readable(prefix + suffix) && suffix != []
    requires ReadName(data, t, MAX_REDIRECTS - 1, []).Ok?
    requires ReadName(data, t, MAX_REDIRECTS - 1, []).value.0 == Join(suffix, DOT)
    ensures Meaning(data, WireName(prefix, Some(t))) == Some(Join(prefix + suffix, DOT))
  {
    JoinAppend(prefix, suffix, DOT);
  }

  // ---------- which domains survive ----------

  lemma AccIsKept(data: seq<Byte>, p: nat, budget: nat, acc: seq<Byte>)
    requires ReadName(data, p, budget, acc).Ok?
    ensures acc <= ReadName(data, p, budget, acc).value.0
    decreases budget, |data| - p
  {
    if data[p] != 0 && !IsPointer(data[p]) {
      LabelIsRead(data, p, budget, acc);
      AccIsKept(data, Next(data, p), budget, Extended(acc, data[p + 1..Next(data, p)]));
    }
  }

  /** After a label the name either stops or goes on with a dot. */
  lemma DotFollows(data: seq<Byte>, p: nat, budget: nat, acc: seq<Byte>)
    requires acc != [] && ReadName(data, p, budget, acc).Ok?
    ensures var name := ReadName(data, p, budget, acc).value.0; name == acc || acc + [DOT] <= name
  {
    if data[p] != 0 && !IsPointer(data[p]) {
      LabelIsRead(data, p, budget, acc);
      AccIsKept(data, Next(data, p), budget, Extended(acc, data[p + 1..Next(data, p)]));
    }
  }

  /** A label that is empty or longer than 191 bytes is never read as itself up to its own end. */
  lemma BadLabel(data: seq<Byte>, q: nat, l: Label, acc: seq<Byte>, full: seq<Byte>, end: nat)
    requires !(1 <= |l| <= MAX_LABEL) && DOT !in l
    requires At(data, q, [|l| % 0x100] + l) && end >= q + |l| + 2 && Extended(acc, l) <= full
    ensures ReadName(data, q, MAX_REDIRECTS, acc) != Ok((full, end))
  {
    hide ReadName, At, Extended;
    AtSplit(data, q, [|l| % 0x100], l);
    AtIndex(data, q, [|l| % 0x100], 0);
    var b := data[q];
    if b == 0 {
      ZeroIsRead(data, q, acc);
    } else if b < 0xC0 {
      CutLabel(data, q, l, b, acc, full);
    } else if ReadName(data, q, MAX_REDIRECTS, acc).Ok? {
      PointerEnds(data, q, acc);
    }
  }

  lemma PointerEnds(data: seq<Byte>, q: nat, acc: seq<Byte>)
    requires q < |data| && IsPointer(data[q]) && ReadName(data, q, MAX_REDIRECTS, acc).Ok?
    ensures ReadName(data, q, MAX_REDIRECTS, acc).value.1 == q + 2
  {
  }

  /** A label cut to the low byte of its length: the name has a dot inside it. */
  lemma CutLabel(data: seq<Byte>, q: nat, l: Label, b: Byte, acc: seq<Byte>, full: seq<Byte>)
    requires q < |data| && data[q] == b && 0 < b < 0xC0 && b < |l| && DOT !in l
    requires At(data, q + 1, l) && Extended(acc, l) <= full
    ensures ReadName(data, q, MAX_REDIRECTS, acc).Ok? ==> ReadName(data, q, MAX_REDIRECTS, acc).value.0 != full
  {
    hide ReadName, Extended;
    assert data[q + 1..q + 1 + b] == data[q + 1..q + 1 + |l|][..b] == l[..b];
    var acc' := Extended(acc, l[..b]);
    LabelIsRead(data, q, MAX_REDIRECTS, acc);
    ExtendedAt(acc, l, b);
    if ReadName(data, q + 1 + b, MAX_REDIRECTS, acc').Ok? {
      DotFollows(data, q + 1 + b, MAX_REDIRECTS, acc');
      assert full[|acc'|] == Extended(acc, l)[|acc'|];
    }
  }

  /** Behind the first `b` bytes of a label comes another of its bytes, no dot. */
  lemma ExtendedAt(acc: seq<Byte>, l: Label, b: nat)
    requires 0 < b < |l| && DOT !in l
    ensures var acc' := Extended(acc, l[..b]);
            acc' != [] && |acc'| < |Extended(acc, l)| && Extended(acc, l)[|acc'|] != DOT
  {
    var front := if acc == [] then [] else acc + [DOT];
    assert (front + l)[|front| + b] == l[b] && l[b] in l;
  }

  lemma JoinStarts(acc: seq<Byte>, labels: seq<Label>)
    requires labels != []
    ensures Extended(acc, labels[0]) <= Extended(acc, Join(labels, DOT))
  {
  }

  lemma JoinExtends(acc: seq<Byte>, l: Label, rest: seq<Label>)
    requires l != [] && rest != []
    ensures Extended(Extended(acc, l), Join(rest, DOT)) == Extended(acc, Join([l] + rest, DOT))
  {
    hide Join;
    var front := if acc == [] then [] else acc + [DOT];
    JoinMore(l, rest, DOT);
    Sequences.Assoc(front, l + [DOT], Join(rest, DOT));
    Sequences.Assoc(front, l, [DOT]);
  }

  lemma {:induction false} Misread(data: seq<Byte>, q: nat, labels: seq<Label>, acc: seq<Byte>)
    requires labels != [] && !Readable(labels) && forall l <- labels :: DOT !in l
    requires At(data, q, EmitLabels(labels) + [0])
    ensures ReadName(data, q, MAX_REDIRECTS, acc)
         != Ok((Extended(acc, Join(labels, DOT)), q + |EmitLabels(labels)| + 1))
    decreases |labels|
  {
    hide ReadName, At, Join, Extended;
    var l, rest := labels[0], labels[1..];
    var first := [|l| % 0x100] + l;
    assert l in labels && forall m :: m in rest ==> m in labels;
    assert EmitLabels(labels) + [0] == first + (EmitLabels(rest) + [0]);
    AtSplit(data, q, first, EmitLabels(rest) + [0]);
    if 1 <= |l| <= MAX_LABEL {
      assert labels == [l] + rest;
      assert rest != [] && !Readable(rest);
      OneLabelIsRead(data, q, l, MAX_REDIRECTS, acc);
      Misread(data, q + |first|, rest, Extended(acc, l));
      JoinExtends(acc, l, rest);
    } else {
      JoinStarts(acc, labels);
      BadLabel(data, q, l, acc, Extended(acc, Join(labels, DOT)), q + |EmitLabels(labels)| + 1);
    }
  }

  /** An encoded domain reads back, up to its end, exactly when every label has 1 to 191 bytes. */
  lemma EncodeNameExact(data: seq<Byte>, p: nat, domain: seq<Byte>)
    requires At(data, p, EncodeName(domain))
    ensures ReadName(data, p, MAX_REDIRECTS, []) == Ok((domain, p + |EncodeName(domain)|))
       <==> Readable(Split(domain, DOT))
  {
    hide ReadName, Split, Join, EmitLabels, At, Readable;
    var labels := Split(domain, DOT);
    JoinSplit(domain, DOT);
    if Readable(labels) {
      NameIsRead(data, p, WireName(labels, None));
    } else {
      Misread(data, p, labels, []);
      assert Extended([], domain) == domain;
    }
  }
}
