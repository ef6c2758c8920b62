/** The CyberPower answer: the cursor reads and the masked tail of `cyberpower.rs`. */
module CyberPower {
  import opened Bytes
  import opened Sequences
  import Mask

  /** What the reads consume: a number of octets, or a length octet and that many. */
  datatype Field = Fixed(n: nat) | Str

  /** magic, key, hash, and two numbers, in the clear. */
  const HEAD := [Fixed(1), Fixed(1), Str, Fixed(4), Fixed(4)]

  /** octet, MAC, octet, address, mask, gateway, version, name, location, user, octet, uptime, masked. */
  const TAIL :=
    [Fixed(1), Fixed(6), Fixed(1), Fixed(4), Fixed(4), Fixed(4), Fixed(4), Str, Str, Str, Fixed(1), Fixed(4)]

  datatype Report = Report(mac: seq<Byte>, ip: seq<Byte>, name: seq<Byte>)

  /** One read: the value and the position behind it; none past the end. */
  function ReadField(data: seq<Byte>, pos: nat, f: Field): (r: Option<(seq<Byte>, nat)>)
    ensures r.Some? ==> r.value.1 <= |data|
    ensures r.Some? && f.Fixed? ==> |r.value.0| == f.n
  {
    match f
    case Fixed(n) => if pos + n > |data| then None else Some((data[pos..pos + n], pos + n))
    case Str =>
      if pos >= |data| then None
      else
        var end := pos + 1 + data[pos];
        if end > |data| then None else Some((data[pos + 1..end], end))
  }

  function ReadFields(data: seq<Byte>, pos: nat, fs: seq<Field>): (r: Option<(seq<seq<Byte>>, nat)>)
    requires pos <= |data|
    ensures r.Some? ==> r.value.1 <= |data| && |r.value.0| == |fs|
    decreases |fs|
  {
    if fs == [] then Some(([], pos))
    else match ReadField(data, pos, fs[0])
      case None => None
      case Some((v, next)) =>
        match ReadFields(data, next, fs[1..])
        case None => None
        case Some((vs, end)) => Some(([v] + vs, end))
  }

  /** The data with everything from `pos` on masked. */
  function Unmasked(data: seq<Byte>, pos: nat, key: Byte): seq<Byte>
    requires pos <= |data|
  {
    data[..pos] + Mask.Masked(data[pos..], [key])
  }

  /** What the unmasked fields report. */
  function Reported(tail: Option<(seq<seq<Byte>>, nat)>): Option<Report>
    requires tail.Some? ==> |tail.value.0| == |TAIL|
  {
    match tail case None => None case Some((vs, _)) => Some(Report(vs[1], vs[3], vs[7]))
  }

  function Parsed(data: seq<Byte>): Option<Report> {
    match ReadFields(data, 0, HEAD)
    case None => None
    case Some((head, pos)) =>
      HeadStarts(data, HEAD);
      Reported(ReadFields(Unmasked(data, pos, head[1][0]), pos, TAIL))
  }

  // ---------- the cursor reads ----------
  // Each read returns its value and the position behind it; past the end it returns none.

  method ReadU8(data: seq<Byte>, pos: nat) returns (r: Option<Byte>, next: nat)
    ensures ReadField(data, pos, Fixed(1)) == match r case Some(b) => Some(([b], next)) case None => None
  {
    if pos >= |data| { return None, pos; }
    assert data[pos..pos + 1] == [data[pos]];
    return Some(data[pos]), pos + 1;
  }

  method ReadU32(data: seq<Byte>, pos: nat) returns (r: Option<U32>, next: nat)
    ensures ReadField(data, pos, Fixed(4)) == match r case Some(n) => Some((Be32(n), next)) case None => None
  {
    if pos + 3 >= |data| { return None, pos; }
    var high: int, low: int := Word(data[pos], data[pos + 1]), Word(data[pos + 2], data[pos + 3]);
    WordBytes(data[pos], data[pos + 1]);
    WordBytes(data[pos + 2], data[pos + 3]);
    Be32Halves(high, low);
    assert data[pos..pos + 4] == [data[pos], data[pos + 1]] + [data[pos + 2], data[pos + 3]];
    return Some(high * 0x1_0000 + low), pos + 4;
  }

  lemma WordBytes(high: Byte, low: Byte)
    ensures Be16(Word(high, low)) == [high, low]
  {
  }

  lemma Be32Halves(high: U16, low: U16)
    ensures Be32(high * 0x1_0000 + low) == Be16(high) + Be16(low)
  {
  }

  method ReadMac(data: seq<Byte>, pos: nat) returns (r: Option<seq<Byte>>, next: nat)
    ensures ReadField(data, pos, Fixed(6)) == match r case Some(mac) => Some((mac, next)) case None => None
  {
    var end := pos + 6;
    if end > |data| { return None, pos; }
    return Some(data[pos..end]), end;
  }

  method ReadString(data: seq<Byte>, pos: nat) returns (r: Option<seq<Byte>>, next: nat)
    ensures ReadField(data, pos, Str) == match r case Some(s) => Some((s, next)) case None => None
  {
    if pos >= |data| { return None, pos; }
    var len := data[pos];
    next := pos + 1;
    var end := next + len;
    if end > |data| { return None, next; }
    return Some(data[next..end]), end;
  }

  /** The fields still to be read behind those in `vs`. */
  function Then(vs: seq<seq<Byte>>, data: seq<Byte>, pos: nat, fs: seq<Field>): Option<(seq<seq<Byte>>, nat)>
    requires pos <= |data|
  {
    match ReadFields(data, pos, fs) case Some((more, end)) => Some((vs + more, end)) case None => None
  }

  /** One read of a field list. */
  lemma StepRead(vs: seq<seq<Byte>>, data: seq<Byte>, pos: nat, fs: seq<Field>, k: nat)
    requires pos <= |data| && k < |fs|
    ensures Then(vs, data, pos, fs[k..]) ==
            match ReadField(data, pos, fs[k])
            case None => None
            case Some((v, next)) => Then(vs + [v], data, next, fs[k + 1..])
  {
    hide ReadField;
    assert fs[k..][0] == fs[k] && fs[k..][1..] == fs[k + 1..];
    match ReadField(data, pos, fs[k])
    case None =>
    case Some((v, next)) =>
      match ReadFields(data, next, fs[k + 1..])
      case None =>
      case Some((more, _)) => Assoc(vs, [v], more);
  }

  lemma StartRead(data: seq<Byte>, pos: nat, fs: seq<Field>)
    requires pos <= |data|
    ensures Then([], data, pos, fs[0..]) == ReadFields(data, pos, fs)
  {
    hide ReadFields;
    assert fs[0..] == fs;
    if ReadFields(data, pos, fs).Some? { Empty(ReadFields(data, pos, fs).value.0); }
  }

  lemma EndRead(vs: seq<seq<Byte>>, data: seq<Byte>, pos: nat, fs: seq<Field>)
    requires pos <= |data|
    ensures Then(vs, data, pos, fs[|fs|..]) == Some((vs, pos))
  {
    Empty(vs);
  }

  /** The five reads in the clear: the key and the position behind them. */
  method ReadHead(data: seq<Byte>) returns (key: Option<Byte>, pos: nat)
    ensures match ReadFields(data, 0, HEAD)
            case None => key == None
            case Some((vs, end)) => key.Some? && vs[1] == [key.value] && pos == end
  {
    hide ReadField, Then, ReadFields;
    StartRead(data, 0, HEAD);
    ghost var vs: seq<seq<Byte>> := [];
    var magic, hash, word;
    StepRead(vs, data, 0, HEAD, 0);
    magic, pos := ReadU8(data, 0);
    if magic.None? { return None, pos; }
    vs := vs + [[magic.value]];
    StepRead(vs, data, pos, HEAD, 1);
    key, pos := ReadU8(data, pos);
    if key.None? { return None, pos; }
    vs := vs + [[key.value]];
    StepRead(vs, data, pos, HEAD, 2);
    hash, pos := ReadString(data, pos);
    if hash.None? { return None, pos; }
    vs := vs + [hash.value];
    StepRead(vs, data, pos, HEAD, 3);
    word, pos := ReadU32(data, pos);
    if word.None? { return None, pos; }
    vs := vs + [Be32(word.value)];
    StepRead(vs, data, pos, HEAD, 4);
    word, pos := ReadU32(data, pos);
    if word.None? { return None, pos; }
    vs := vs + [Be32(word.value)];
    EndRead(vs, data, pos, HEAD);
  }

  /** The reads of the unmasked fields up to the address, and then the others. */
  method ReadTail(buf: seq<Byte>, start: nat) returns (r: Option<Report>)
    requires start <= |buf|
    ensures r == Reported(ReadFields(buf, start, TAIL))
  {
    hide ReadField, Then, ReadFields;
    StartRead(buf, start, TAIL);
    ghost var vs: seq<seq<Byte>> := [];
    var byte, mac, ip;
    var pos: nat := start;
    StepRead(vs, buf, pos, TAIL, 0);
    byte, pos := ReadU8(buf, pos);
    if byte.None? { return None; }
    vs := vs + [[byte.value]];
    StepRead(vs, buf, pos, TAIL, 1);
    mac, pos := ReadMac(buf, pos);
    if mac.None? { return None; }
    vs := vs + [mac.value];
    StepRead(vs, buf, pos, TAIL, 2);
    byte, pos := ReadU8(buf, pos);
    if byte.None? { return None; }
    vs := vs + [[byte.value]];
    StepRead(vs, buf, pos, TAIL, 3);
    ip, pos := ReadU32(buf, pos);
    if ip.None? { return None; }
    vs := vs + [Be32(ip.value)];
    var name := ReadNetwork(buf, pos, vs, ReadFields(buf, start, TAIL));
    if name.None? { return None; }
    return Some(Report(mac.value, Be32(ip.value), name.value));
  }

  /** The mask, the gateway and the version, and then the strings. */
  method ReadNetwork(buf: seq<Byte>, start: nat, ghost before: seq<seq<Byte>>,
                     ghost goal: Option<(seq<seq<Byte>>, nat)>)
    returns (name: Option<seq<Byte>>)
    requires start <= |buf| && |before| == 4 && goal == Then(before, buf, start, TAIL[4..])
    ensures match goal
            case None => name == None
            case Some((vs, _)) => |vs| == 12 && before <= vs && name == Some(vs[7])
  {
    hide ReadField, Then, ReadFields;
    ghost var vs := before;
    var word;
    var pos: nat := start;
    StepRead(vs, buf, pos, TAIL, 4);
    word, pos := ReadU32(buf, pos);
    if word.None? { return None; }
    vs := vs + [Be32(word.value)];
    StepRead(vs, buf, pos, TAIL, 5);
    word, pos := ReadU32(buf, pos);
    if word.None? { return None; }
    vs := vs + [Be32(word.value)];
    StepRead(vs, buf, pos, TAIL, 6);
    word, pos := ReadU32(buf, pos);
    if word.None? { return None; }
    vs := vs + [Be32(word.value)];
    name := ReadStrings(buf, pos, vs, goal);
  }

  /** The three strings, of which the first is the name, and the two reads that close the packet. */
  method ReadStrings(buf: seq<Byte>, start: nat, ghost before: seq<seq<Byte>>,
                     ghost goal: Option<(seq<seq<Byte>>, nat)>)
    returns (name: Option<seq<Byte>>)
    requires start <= |buf| && |before| == 7 && goal == Then(before, buf, start, TAIL[7..])
    ensures match goal
            case None => name == None
            case Some((vs, _)) => |vs| == 12 && before <= vs && name == Some(vs[7])
  {
    hide ReadField, Then, ReadFields;
    ghost var vs := before;
    var s, byte, word;
    var pos: nat := start;
    StepRead(vs, buf, pos, TAIL, 7);
    name, pos := ReadString(buf, pos);
    if name.None? { return None; }
    vs := vs + [name.value];
    StepRead(vs, buf, pos, TAIL, 8);
    s, pos := ReadString(buf, pos);
    if s.None? { return None; }
    vs := vs + [s.value];
    StepRead(vs, buf, pos, TAIL, 9);
    s, pos := ReadString(buf, pos);
    if s.None? { return None; }
    vs := vs + [s.value];
    StepRead(vs, buf, pos, TAIL, 10);
    byte, pos := ReadU8(buf, pos);
    if byte.None? { return None; }
    vs := vs + [[byte.value]];
    StepRead(vs, buf, pos, TAIL, 11);
    word, pos := ReadU32(buf, pos);
    if word.None? { return None; }
    vs := vs + [Be32(word.value)];
    EndRead(vs, buf, pos, TAIL);
  }

  method Parse(data: seq<Byte>) returns (r: Option<Report>)
    ensures r == Parsed(data)
  {
    hide ReadFields, Unmasked, Reported, HEAD, TAIL, Parsed;
    KeyIsRead(data);
    var key, pos := ReadHead(data);
    if key.None? { return None; }
    var buf := new Byte[|data|](i requires 0 <= i < |data| => data[i]);
    assert buf[..pos] == data[..pos] && buf[pos..] == data[pos..];
    Mask.MaskFrom(buf, pos, [key.value]);
    assert buf[..] == buf[..pos] + buf[pos..] == data[..pos] + Mask.Masked(data[pos..], [key.value]);
    UnmaskedIs(data, pos, key.value);
    r := ReadTail(buf[..], pos);
  }

  lemma UnmaskedIs(data: seq<Byte>, pos: nat, key: Byte)
    requires pos <= |data|
    ensures Unmasked(data, pos, key) == data[..pos] + Mask.Masked(data[pos..], [key])
  {
  }

  /** The head of a packet has its key octet at 1, and the rest parses under it. */
  lemma KeyIsRead(data: seq<Byte>)
    ensures match ReadFields(data, 0, HEAD)
            case None => Parsed(data) == None
            case Some((head, pos)) =>
              && 2 <= |data| && |head| > 1 && head[1] == [data[1]]
              && Parsed(data) == Reported(ReadFields(Unmasked(data, pos, data[1]), pos, TAIL))
  {
    hide ReadFields, Unmasked, Reported;
    HeadStarts(data, HEAD);
  }

  // ---------- the serialiser ----------

  predicate Fits(v: seq<Byte>, f: Field) { match f case Fixed(n) => |v| == n case Str => |v| < 0x100 }

  function WriteField(v: seq<Byte>, f: Field): seq<Byte>
    requires Fits(v, f)
  {
    match f case Fixed(_) => v case Str => [|v|] + v
  }

  predicate AllFit(vs: seq<seq<Byte>>, fs: seq<Field>) {
    |vs| == |fs| && forall i :: 0 <= i < |fs| ==> Fits(vs[i], fs[i])
  }

  function WriteFields(vs: seq<seq<Byte>>, fs: seq<Field>): seq<Byte>
    requires AllFit(vs, fs)
  {
    if fs == [] then [] else WriteField(vs[0], fs[0]) + WriteFields(vs[1..], fs[1..])
  }

  lemma FieldReads(data: seq<Byte>, pos: nat, v: seq<Byte>, f: Field, rest: seq<Byte>)
    requires Fits(v, f) && pos <= |data| && data[pos..] == WriteField(v, f) + rest
    ensures ReadField(data, pos, f) == Some((v, pos + |WriteField(v, f)|))
    ensures data[pos + |WriteField(v, f)|..] == rest
  {
    var w := WriteField(v, f);
    assert data[pos..][..|w|] == w && data[pos..][|w|..] == rest;
    if f.Fixed? {
      assert data[pos..pos + |v|] == data[pos..][..|w|];
    } else {
      assert data[pos] == data[pos..][0] == |v|;
      assert data[pos + 1..pos + 1 + |v|] == data[pos..][1..|w|] == v;
    }
  }

  lemma {:induction false} FieldsRead(data: seq<Byte>, pos: nat, vs: seq<seq<Byte>>, fs: seq<Field>, rest: seq<Byte>)
    requires AllFit(vs, fs) && pos <= |data| && data[pos..] == WriteFields(vs, fs) + rest
    ensures ReadFields(data, pos, fs) == Some((vs, pos + |WriteFields(vs, fs)|))
    decreases |fs|
  {
    hide ReadField, WriteField;
    if fs != [] {
      var more := WriteFields(vs[1..], fs[1..]) + rest;
      assert data[pos..] == WriteField(vs[0], fs[0]) + more;
      FieldReads(data, pos, vs[0], fs[0], more);
      FieldsRead(data, pos + |WriteField(vs[0], fs[0])|, vs[1..], fs[1..], rest);
      assert vs == [vs[0]] + vs[1..];
    }
  }

  /** The contents of a packet, by name. */
  datatype Contents =
    Contents(magic: Byte, key: Byte, hash: seq<Byte>, number: seq<Byte>, uptime: seq<Byte>, byte1: Byte, mac: seq<Byte>,
             byte2: Byte, ip: seq<Byte>, mask: seq<Byte>, gateway: seq<Byte>, version: seq<Byte>, name: seq<Byte>,
             location: seq<Byte>, user: seq<Byte>, byte3: Byte, uptime2: seq<Byte>)
  {
    predicate Valid() {
      && |hash| < 0x100 && |name| < 0x100 && |location| < 0x100 && |user| < 0x100 && |mac| == 6
      && |number| == |uptime| == |ip| == |mask| == |gateway| == |version| == |uptime2| == 4
    }
  }

  function Head(c: Contents): seq<Byte>
    requires c.Valid()
  {
    [c.magic] + ([c.key] + (([|c.hash|] + c.hash) + (c.number + c.uptime)))
  }

  /** The three strings and what closes the packet. */
  function Strings(c: Contents): seq<Byte>
    requires c.Valid()
  {
    ([|c.name|] + c.name) + (([|c.location|] + c.location) + (([|c.user|] + c.user) + ([c.byte3] + c.uptime2)))
  }

  function Tail(c: Contents): seq<Byte>
    requires c.Valid()
  {
    [c.byte1] + (c.mac + ([c.byte2] + (c.ip + (c.mask + (c.gateway + (c.version + Strings(c)))))))
  }

  /** A packet: the clear head, then the tail and whatever follows it under the key the head carries. */
  function Packet(c: Contents, rest: seq<Byte>): seq<Byte>
    requires c.Valid()
  {
    Head(c) + Mask.Masked(Tail(c) + rest, [c.key])
  }

  function HeadValues(c: Contents): seq<seq<Byte>> { [[c.magic], [c.key], c.hash, c.number, c.uptime] }

  function TailValues(c: Contents): seq<seq<Byte>> {
    [[c.byte1], c.mac, [c.byte2], c.ip, c.mask, c.gateway, c.version, c.name, c.location, c.user, [c.byte3], c.uptime2]
  }

  lemma WriteCons(v: seq<Byte>, vs: seq<seq<Byte>>, f: Field, fs: seq<Field>)
    requires Fits(v, f) && AllFit(vs, fs)
    ensures AllFit([v] + vs, [f] + fs)
    ensures WriteFields([v] + vs, [f] + fs) == WriteField(v, f) + WriteFields(vs, fs)
  {
    assert ([v] + vs)[1..] == vs && ([f] + fs)[1..] == fs;
  }

  /** Writing the fields from the one at `k` on. */
  lemma WriteFrom(vs: seq<seq<Byte>>, fs: seq<Field>, k: nat)
    requires AllFit(vs, fs) && k < |fs|
    ensures AllFit(vs[k..], fs[k..]) && AllFit(vs[k + 1..], fs[k + 1..])
    ensures WriteFields(vs[k..], fs[k..]) == WriteField(vs[k], fs[k]) + WriteFields(vs[k + 1..], fs[k + 1..])
  {
    assert vs[k..] == [vs[k]] + vs[k + 1..] && fs[k..] == [fs[k]] + fs[k + 1..];
    WriteCons(vs[k], vs[k + 1..], fs[k], fs[k + 1..]);
  }

  lemma HeadIsWritten(c: Contents)
    requires c.Valid()
    ensures AllFit(HeadValues(c), HEAD) && WriteFields(HeadValues(c), HEAD) == Head(c)
  {
    hide WriteFields;
    var vs, fs := HeadValues(c), HEAD;
    WriteFrom(vs, fs, 0);
    WriteFrom(vs, fs, 1);
    WriteFrom(vs, fs, 2);
    WriteFrom(vs, fs, 3);
    WriteFrom(vs, fs, 4);
    WriteNothing(vs[5..], fs[5..]);
    assert vs[0..] == vs && fs[0..] == fs && c.uptime + [] == c.uptime;
  }

  lemma WriteNothing(vs: seq<seq<Byte>>, fs: seq<Field>)
    requires AllFit(vs, fs) && fs == []
    ensures WriteFields(vs, fs) == []
  {
  }

  lemma TailIsWritten(c: Contents)
    requires c.Valid()
    ensures AllFit(TailValues(c), TAIL) && WriteFields(TailValues(c), TAIL) == Tail(c)
  {
    hide WriteFields, AllFit, Strings;
    var vs, fs := TailValues(c), TAIL;
    TailFits(c);
    AddressesAreWritten(c);
    WriteFrom(vs, fs, 2);
    WriteFrom(vs, fs, 1);
    WriteFrom(vs, fs, 0);
    assert vs[0..] == vs && fs[0..] == fs;
  }

  lemma AddressesAreWritten(c: Contents)
    requires c.Valid()
    ensures AllFit(TailValues(c)[3..], TAIL[3..])
    ensures WriteFields(TailValues(c)[3..], TAIL[3..]) == c.ip + (c.mask + (c.gateway + (c.version + Strings(c))))
  {
    hide WriteFields, AllFit, Strings;
    var vs, fs := TailValues(c), TAIL;
    TailFits(c);
    StringsAreWritten(c);
    WriteFrom(vs, fs, 6);
    WriteFrom(vs, fs, 5);
    WriteFrom(vs, fs, 4);
    WriteFrom(vs, fs, 3);
  }

  lemma StringsAreWritten(c: Contents)
    requires c.Valid()
    ensures AllFit(TailValues(c)[7..], TAIL[7..]) && WriteFields(TailValues(c)[7..], TAIL[7..]) == Strings(c)
  {
    hide WriteFields, AllFit;
    var vs, fs := TailValues(c), TAIL;
    TailFits(c);
    WriteFrom(vs, fs, 11);
    WriteNothing(vs[12..], fs[12..]);
    assert c.uptime2 + [] == c.uptime2;
    WriteFrom(vs, fs, 10);
    WriteFrom(vs, fs, 9);
    WriteFrom(vs, fs, 8);
    WriteFrom(vs, fs, 7);
  }

  lemma TailFits(c: Contents)
    requires c.Valid()
    ensures AllFit(TailValues(c), TAIL)
  {
  }

  /** A packet of some contents: its head in the clear, then its tail and whatever follows it with the bits of the key
      octet flipped. */
  ghost predicate IsPacket(data: seq<Byte>, c: Contents, rest: seq<Byte>) {
    && c.Valid() && Head(c) <= data
    && Mask.IsMaskOf(data[|Head(c)|..], Tail(c) + rest, [c.key])
  }

  lemma PacketIs(data: seq<Byte>, c: Contents, rest: seq<Byte>)
    requires c.Valid()
    ensures IsPacket(data, c, rest) <==> data == Packet(c, rest)
  {
    hide Head, Tail, Mask.Masked, Mask.IsMaskOf;
    FrontOfAppend(Head(c), Mask.Masked(Tail(c) + rest, [c.key]));
    if Head(c) <= data {
      Mask.MaskExactly(data[|Head(c)|..], Tail(c) + rest, [c.key]);
      assert data == Head(c) + data[|Head(c)|..];
    }
  }

  /** Under every key, a packet reports the MAC, the address and the name that were written. */
  lemma PacketReports(data: seq<Byte>, c: Contents, rest: seq<Byte>)
    requires IsPacket(data, c, rest)
    ensures Parsed(data) == Some(Report(c.mac, c.ip, c.name))
  {
    hide ReadFields, WriteFields, Head, Tail, Mask.Masked, Mask.IsMaskOf, Unmasked, Parsed, HEAD, TAIL;
    PacketIs(data, c, rest);
    HeadIsWritten(c);
    TailIsWritten(c);
    var clear, plain := Head(c), Tail(c) + rest;
    var masked := Mask.Masked(plain, [c.key]);
    assert data[0..] == clear + masked && data[|clear|..] == masked && data[..|clear|] == clear;
    FieldsRead(data, 0, HeadValues(c), HEAD, masked);
    KeyIsRead(data);
    Mask.MaskedTwice(plain, [c.key]);
    UnmaskedIs(data, |clear|, c.key);
    var open := Unmasked(data, |clear|, c.key);
    assert open[|clear|..] == plain;
    FieldsRead(open, |clear|, TailValues(c), TAIL, rest);
  }

  lemma FieldWritten(data: seq<Byte>, pos: nat, f: Field)
    requires ReadField(data, pos, f).Some?
    ensures var (v, next) := ReadField(data, pos, f).value;
            Fits(v, f) && pos <= next <= |data| && data[pos..next] == WriteField(v, f)
  {
    if f.Str? {
      var end := pos + 1 + data[pos];
      SliceSplit(data, pos, pos + 1, end);
      assert data[pos..pos + 1] == [data[pos]];
    }
  }

  /** Fields that are read are fields that were written. */
  lemma {:induction false} FieldsWritten(data: seq<Byte>, pos: nat, fs: seq<Field>)
    requires pos <= |data| && ReadFields(data, pos, fs).Some?
    ensures var (vs, end) := ReadFields(data, pos, fs).value;
            AllFit(vs, fs) && pos <= end <= |data| && data[pos..end] == WriteFields(vs, fs)
    decreases |fs|
  {
    hide ReadField, WriteField, WriteFields, Fits;
    if fs == [] {
      WriteNothing([], fs);
      assert data[pos..pos] == [];
    } else {
      var (v, next) := ReadField(data, pos, fs[0]).value;
      FieldWritten(data, pos, fs[0]);
      FieldsWritten(data, next, fs[1..]);
      var (vs, end) := ReadFields(data, next, fs[1..]).value;
      HeadTail(fs);
      WriteCons(v, vs, fs[0], fs[1..]);
      SliceSplit(data, pos, next, end);
    }
  }

  /** The contents that some field values spell. */
  function ContentsOf(vs: seq<seq<Byte>>, ws: seq<seq<Byte>>): Contents
    requires AllFit(vs, HEAD) && AllFit(ws, TAIL)
  {
    assert Fits(vs[0], HEAD[0]) && Fits(vs[1], HEAD[1]);
    assert Fits(ws[0], TAIL[0]) && Fits(ws[2], TAIL[2]) && Fits(ws[10], TAIL[10]);
    Contents(vs[0][0], vs[1][0], vs[2], vs[3], vs[4], ws[0][0], ws[1], ws[2][0], ws[3], ws[4], ws[5], ws[6], ws[7],
             ws[8], ws[9], ws[10][0], ws[11])
  }

  lemma ContentsSpell(vs: seq<seq<Byte>>, ws: seq<seq<Byte>>)
    requires AllFit(vs, HEAD) && AllFit(ws, TAIL)
    ensures var c := ContentsOf(vs, ws); c.Valid() && HeadValues(c) == vs && TailValues(c) == ws
  {
    assert forall i :: 0 <= i < |HEAD| ==> Fits(vs[i], HEAD[i]);
    assert forall i :: 0 <= i < |TAIL| ==> Fits(ws[i], TAIL[i]);
    OneOctet(vs[0]);
    OneOctet(vs[1]);
    OneOctet(ws[0]);
    OneOctet(ws[2]);
    OneOctet(ws[10]);
  }

  lemma OneOctet(v: seq<Byte>)
    ensures |v| == 1 ==> v == [v[0]]
  {
  }

  /** Every packet that reports something is such a packet, and reports its MAC, address and name. */
  lemma ReportsArePackets(data: seq<Byte>) returns (c: Contents, rest: seq<Byte>)
    requires Parsed(data).Some?
    ensures IsPacket(data, c, rest) && Parsed(data) == Some(Report(c.mac, c.ip, c.name))
  {
    hide ReadFields, WriteFields, Head, Tail, Unmasked, Parsed, HEAD, TAIL, AllFit, Mask.Masked, Mask.IsMaskOf;
    KeyIsRead(data);
    var (vs, pos) := ReadFields(data, 0, HEAD).value;
    FieldsWritten(data, 0, HEAD);
    var open := Unmasked(data, pos, data[1]);
    UnmaskedIs(data, pos, data[1]);
    var (ws, end) := ReadFields(open, pos, TAIL).value;
    FieldsWritten(open, pos, TAIL);
    rest := open[end..];
    c := ContentsOf(vs, ws);
    ContentsSpell(vs, ws);
    HeadIsWritten(c);
    TailIsWritten(c);
    KeyOfHead(vs, ws);
    SliceSplit(open, pos, end, |open|);
    Mask.MaskedTwice(data[pos..], [data[1]]);
    assert open[pos..] == Mask.Masked(data[pos..], [data[1]]) == Tail(c) + rest;
    assert data == data[0..pos] + data[pos..];
    PacketIs(data, c, rest);
    PacketReports(data, c, rest);
  }

  lemma KeyOfHead(vs: seq<seq<Byte>>, ws: seq<seq<Byte>>)
    requires AllFit(vs, HEAD) && AllFit(ws, TAIL)
    ensures [ContentsOf(vs, ws).key] == vs[1]
  {
    ContentsSpell(vs, ws);
  }

  /** On every packet, well formed or not: with the tail unmasked and the key octet cleared it reports the same. */
  lemma MaskIsTransparent(data: seq<Byte>)
    requires ReadFields(data, 0, HEAD).Some?
    ensures var (head, pos) := ReadFields(data, 0, HEAD).value;
            |head[1]| == 1 && 2 <= pos && Parsed(Unmasked(data, pos, head[1][0])[1 := 0]) == Parsed(data)
  {
    hide ReadFields, Unmasked, Parsed, Reported, HEAD, TAIL, Mask.Masked;
    var (head, pos) := ReadFields(data, 0, HEAD).value;
    HeadShape();
    KeyIsRead(data);
    ClearedHead(data, data, HEAD);
    var open := Unmasked(data, pos, data[1]);
    OpenAgrees(data, pos, data[1]);
    var plain := open[1 := 0];
    ClearedHead(data, plain, HEAD);
    KeyIsRead(plain);
    ZeroKeyOpens(plain, pos);
    TailIgnoresHead(plain, open, pos, TAIL);
  }

  lemma HeadShape()
    ensures |HEAD| == 5 && HEAD[0] == HEAD[1] == Fixed(1)
  {
  }

  lemma OpenAgrees(data: seq<Byte>, pos: nat, key: Byte)
    requires pos <= |data|
    ensures |Unmasked(data, pos, key)| == |data|
    ensures forall i :: 0 <= i < pos ==> Unmasked(data, pos, key)[i] == data[i]
  {
  }

  lemma ZeroKeyOpens(data: seq<Byte>, pos: nat)
    requires pos <= |data|
    ensures Unmasked(data, pos, 0) == data
  {
    hide Mask.Masked;
    Mask.MaskedTwice(data[pos..], [0]);
    SliceSplit(data, 0, pos, |data|);
    assert data[0..pos] == data[..pos] && data[0..] == data;
  }

  /** The key octet and the octets behind the head do not move the head's fields. */
  lemma ClearedHead(data: seq<Byte>, other: seq<Byte>, fs: seq<Field>)
    requires |fs| >= 2 && fs[0] == fs[1] == Fixed(1) && ReadFields(data, 0, fs).Some? && |other| == |data|
    requires forall i :: 0 <= i < ReadFields(data, 0, fs).value.1 && i != 1 ==> other[i] == data[i]
    ensures var (head, pos) := ReadFields(data, 0, fs).value;
            2 <= pos && head[1] == [data[1]] && ReadFields(other, 0, fs) == Some((head[1 := [other[1]]], pos))
  {
    hide ReadFields;
    HeadStarts(data, fs);
    HeadStarts(other, fs);
    var rest := ReadFields(data, 2, fs[2..]);
    SameReads(data, data, 2, fs[2..]);
    SameReads(data, other, 2, fs[2..]);
    Replaced(data[0], data[1], other[1], rest.value.0);
  }

  lemma Replaced(a: Byte, b: Byte, c: Byte, vs: seq<seq<Byte>>)
    ensures ([[a], [b]] + vs)[1 := [c]] == [[a], [c]] + vs
  {
  }

  /** Two fields of one octet each, read first. */
  lemma HeadStarts(data: seq<Byte>, fs: seq<Field>)
    requires |fs| >= 2 && fs[0] == fs[1] == Fixed(1)
    ensures ReadFields(data, 0, fs) ==
            if |data| < 2 then None
            else match ReadFields(data, 2, fs[2..])
              case None => None
              case Some((vs, end)) => Some(([[data[0]], [data[1]]] + vs, end))
  {
    hide ReadFields;
    DropDrop(fs, 1, 1);
    OneByteReads(data, 0, fs);
    if |data| > 0 { OneByteReads(data, 1, fs[1..]); }
    if |data| >= 2 && ReadFields(data, 2, fs[2..]).Some? {
      TwoFields([data[0]], [data[1]], ReadFields(data, 2, fs[2..]).value.0);
    }
  }

  lemma TwoFields(a: seq<Byte>, b: seq<Byte>, vs: seq<seq<Byte>>)
    ensures [a] + ([b] + vs) == [a, b] + vs
  {
    Assoc([a], [b], vs);
    assert [a] + [b] == [a, b];
  }

  lemma OneByteReads(data: seq<Byte>, pos: nat, fs: seq<Field>)
    requires pos <= |data| && fs != [] && fs[0] == Fixed(1)
    ensures ReadFields(data, pos, fs) ==
            if pos == |data| then None
            else match ReadFields(data, pos + 1, fs[1..])
              case None => None
              case Some((vs, end)) => Some(([[data[pos]]] + vs, end))
  {
    hide ReadFields;
    ReadsOn(data, pos, fs);
    if pos < |data| { assert data[pos..pos + 1] == [data[pos]]; }
  }

  lemma ReadsOn(data: seq<Byte>, pos: nat, fs: seq<Field>)
    requires pos <= |data| && fs != []
    ensures ReadFields(data, pos, fs) ==
            match ReadField(data, pos, fs[0])
            case None => None
            case Some((v, next)) =>
              match ReadFields(data, next, fs[1..])
              case None => None
              case Some((vs, end)) => Some(([v] + vs, end))
  {
    hide ReadField;
  }

  lemma {:induction false} SameReads(a: seq<Byte>, b: seq<Byte>, pos: nat, fs: seq<Field>)
    requires pos <= |a| == |b| && ReadFields(a, pos, fs).Some?
    requires forall i :: pos <= i < ReadFields(a, pos, fs).value.1 ==> a[i] == b[i]
    ensures ReadFields(b, pos, fs) == ReadFields(a, pos, fs)
    ensures pos <= ReadFields(a, pos, fs).value.1
    decreases |fs|
  {
    if fs != [] {
      var (v, next) := ReadField(a, pos, fs[0]).value;
      SameReads(a, a, next, fs[1..]);
      SameRead(a, b, pos, fs[0]);
      SameReads(a, b, next, fs[1..]);
    }
  }

  lemma SameRead(a: seq<Byte>, b: seq<Byte>, pos: nat, f: Field)
    requires pos <= |a| == |b| && ReadField(a, pos, f).Some?
    requires forall i :: pos <= i < ReadField(a, pos, f).value.1 ==> a[i] == b[i]
    ensures ReadField(b, pos, f) == ReadField(a, pos, f) && pos <= ReadField(a, pos, f).value.1
  {
    var next := ReadField(a, pos, f).value.1;
    var from := if f.Fixed? then pos else pos + 1;
    assert a[from..next] == b[from..next];
  }

  /** Reads from `pos` on see nothing before it. */
  lemma {:induction false} TailIgnoresHead(a: seq<Byte>, b: seq<Byte>, pos: nat, fs: seq<Field>)
    requires pos <= |a| == |b| && forall i :: pos <= i < |a| ==> a[i] == b[i]
    ensures ReadFields(a, pos, fs) == ReadFields(b, pos, fs)
    decreases |fs|
  {
    if fs != [] {
      if ReadField(a, pos, fs[0]).Some? {
        SameRead(a, b, pos, fs[0]);
        TailIgnoresHead(a, b, ReadField(a, pos, fs[0]).value.1, fs[1..]);
      } else {
        assert ReadField(b, pos, fs[0]).None?;
      }
    }
  }
}
