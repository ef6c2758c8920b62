/** The capture file of `pcap.rs`. */
module Pcap {
  import opened Bytes

  /** An endpoint; only the IPv4 form has a place in the file. */
  datatype Endpoint = V4(address: seq<Byte>, port: U16) | V6(address: seq<Byte>, port: U16)

  predicate ValidEndpoint(e: Endpoint) { |e.address| == (if e.V4? then 4 else 16) }

  /** A packet to record: seconds and microseconds since the epoch, endpoints and payload. */
  datatype Packet = Packet(seconds: nat, micros: nat, src: Endpoint, dst: Endpoint, payload: seq<Byte>) {
    predicate Valid() { ValidEndpoint(src) && ValidEndpoint(dst) && micros < 1_000_000 }
  }

  const GLOBAL_HEADER: seq<Byte> :=
    [0xD4, 0xC3, 0xB2, 0xA1, 0x02, 0x00, 0x04, 0x00, 0, 0, 0, 0, 0, 0, 0, 0, 0xDC, 0x05, 0, 0, 1, 0, 0, 0]

  /** The longest payload whose frame length fits 16 bits. */
  const MAX_PAYLOAD := 65493

  function Le32(n: U32): seq<Byte> { [n % 0x100, n / 0x100 % 0x100, n / 0x1_0000 % 0x100, n / 0x100_0000] }

  function Wrap16(n: nat): U16 { n % 0x1_0000 }

  function UdpLen(payload: nat): U16 { Wrap16(8 + Wrap16(payload)) }
  function IpLen(payload: nat): U16 { Wrap16(20 + UdpLen(payload)) }

  /** The length of the Ethernet frame, in the wrapping 16-bit sums of the writer. */
  function FrameLen(payload: nat): U16 { Wrap16(14 + IpLen(payload)) }

  function Ethernet(p: Packet): (r: seq<Byte>)
    requires p.Valid()
    ensures |r| == 14 && r[12..14] == [8, 0] && r[0..6] == MacOf(p.dst) && r[6..12] == MacOf(p.src)
  {
    [2, 0, 0] + p.dst.address[1..4] + [2, 0, 0] + p.src.address[1..4] + Be16(0x0800)
  }

  function Ipv4(p: Packet): (r: seq<Byte>)
    requires p.Valid()
    ensures |r| == 20 && r[0] == 0x45 && r[8] == 254 && r[9] == 17 && r[2..4] == Be16(IpLen(|p.payload|))
    ensures r[1] == 0 && r[4..8] == [0, 0, 0, 0] && r[10..12] == [0, 0]
    ensures r[12..16] == p.src.address[..4] && r[16..20] == p.dst.address[..4]
  {
    [0x45, 0] + Be16(IpLen(|p.payload|)) + Be16(0) + Be16(0) + [254, 17] + Be16(0)
    + p.src.address[..4] + p.dst.address[..4]
  }

  function Udp(p: Packet): (r: seq<Byte>)
    requires p.Valid()
    ensures |r| == 8
    ensures r[0..2] == Be16(p.src.port) && r[2..4] == Be16(p.dst.port) && r[4..6] == Be16(UdpLen(|p.payload|))
    ensures r[6..8] == [0, 0]
  {
    Be16(p.src.port) + Be16(p.dst.port) + Be16(UdpLen(|p.payload|)) + Be16(0)
  }

  /** Ethernet, IPv4 and UDP headers and the payload. */
  function Frame(p: Packet): seq<Byte>
    requires p.Valid()
  {
    Ethernet(p) + Ipv4(p) + Udp(p) + p.payload
  }

  /** The record header, then the frame. */
  function Record(p: Packet): seq<Byte>
    requires p.Valid()
  {
    var len := FrameLen(|p.payload|);
    Le32(p.seconds % 0x1_0000_0000) + Le32(p.micros) + Le32(len) + Le32(len) + Frame(p)
  }

  predicate Recorded(p: Packet) { p.src.V4? && p.dst.V4? }

  /** How a write ends: complete, or with an error after some bytes, always short of all of them. */
  datatype Write = Complete | Broken(kept: nat)

  function Reaching(rec: seq<Byte>, w: Write): (r: seq<Byte>)
    ensures r <= rec && (r == rec <==> w.Complete? || rec == [])
  {
    match w
    case Complete => rec
    case Broken(kept) => if kept < |rec| then rec[..kept] else rec[..if rec == [] then 0 else |rec| - 1]
  }

  /** The writer; the bytes that have reached the disk stand for its file. */
  class PcapWriter {
    var file: seq<Byte>
    var count: nat

    constructor ()
      ensures file == GLOBAL_HEADER && count == 0
    {
      file := GLOBAL_HEADER;
      count := 0;
    }

    method AppendUdp(p: Packet, w: Write) returns (r: Option<nat>)
      requires p.Valid()
      modifies this
      ensures file == old(file) + (if Recorded(p) then Reaching(Record(p), w) else [])
      ensures count == old(count) + (if Recorded(p) && w.Complete? then 1 else 0)
      ensures r == if Recorded(p) && w.Complete? then Some(count) else None
    {
      hide Record, Reaching;
      if !(p.src.V4? && p.dst.V4?) { return None; }
      var rec := BuildRecord(p);
      file := file + Reaching(rec, w);
      if w.Broken? { return None; }
      count := count + 1;
      return Some(count);
    }
  }

  /** The buffer of a record, built step by step. */
  method BuildRecord(p: Packet) returns (rec: seq<Byte>)
    requires p.Valid()
    ensures rec == Record(p)
  {
    hide Wrap16, Le32, Be16, Ethernet, Ipv4, Udp, MacOf;
    var n := |p.payload|;
    var udpLen: nat := Wrap16(8 + Wrap16(n));
    var ipLen: nat := Wrap16(20 + udpLen);
    var frameLen := Wrap16(14 + ipLen);
    rec := Le32(p.seconds % 0x1_0000_0000);
    rec := rec + Le32(p.micros);
    rec := rec + Le32(frameLen);
    rec := rec + Le32(frameLen);
    var frame := BuildFrame(p, ipLen, udpLen);
    rec := rec + frame;
  }

  method BuildFrame(p: Packet, ipLen: U16, udpLen: U16) returns (frame: seq<Byte>)
    requires p.Valid() && ipLen == IpLen(|p.payload|) && udpLen == UdpLen(|p.payload|)
    ensures frame == Frame(p)
  {
    hide IpLen, UdpLen, Be16;
    frame := [2, 0, 0] + p.dst.address[1..4];
    frame := frame + [2, 0, 0] + p.src.address[1..4];
    frame := frame + Be16(0x0800);
    assert frame == Ethernet(p);
    var ip := [0x45, 0] + Be16(ipLen) + Be16(0) + Be16(0) + [254, 17] + Be16(0);
    ip := ip + p.src.address[..4] + p.dst.address[..4];
    assert ip == Ipv4(p);
    var udp := Be16(p.src.port) + Be16(p.dst.port) + Be16(udpLen) + Be16(0);
    frame := frame + ip + udp + p.payload;
  }

  // ---------- the reader ----------

  /** What a reader of the file sees of a packet. */
  datatype Captured =
    Captured(seconds: U32, micros: U32, dstMac: seq<Byte>, srcMac: seq<Byte>, service: Byte, id: U16, fragment: U16,
             ttl: Byte, ipSum: U16, src: seq<Byte>, srcPort: U16, dst: seq<Byte>, dstPort: U16, udpSum: U16,
             payload: seq<Byte>)

  /** What the global header of a file says. */
  datatype FileHeader = FileHeader(major: U16, minor: U16, zone: U32, sigfigs: U32, snapLen: U32, linkType: U32)

  function FromLe32(s: seq<Byte>): U32
    requires |s| == 4
  {
    var a: int, b: int, c: int, d: int := s[0], s[1], s[2], s[3];
    a + 0x100 * b + 0x1_0000 * c + 0x100_0000 * d
  }

  /** An IPv4 UDP frame whose length fields agree with its size. */
  predicate IsUdpFrame(f: seq<Byte>) {
    && |f| >= 42 && f[12..14] == [8, 0] && f[14] == 0x45 && f[23] == 17
    && Word(f[16], f[17]) == |f| - 14 && Word(f[38], f[39]) == |f| - 34
  }

  function ReadRecord(s: seq<Byte>): (r: Option<(Captured, seq<Byte>)>)
    ensures r.Some? ==> |r.value.1| < |s|
  {
    if |s| < 16 || FromLe32(s[8..12]) != FromLe32(s[12..16]) then None
    else
      var end := 16 + FromLe32(s[8..12]);
      if end > |s| || !IsUdpFrame(s[16..end]) then None
      else
        var f := s[16..end];
        Some((Captured(FromLe32(s[0..4]), FromLe32(s[4..8]), f[0..6], f[6..12], f[15], Word(f[18], f[19]),
                       Word(f[20], f[21]), f[22], Word(f[24], f[25]), f[26..30], Word(f[34], f[35]), f[30..34],
                       Word(f[36], f[37]), Word(f[40], f[41]), f[42..]),
              s[end..]))
  }

  function ReadRecords(s: seq<Byte>): Option<seq<Captured>>
    decreases |s|
  {
    if s == [] then Some([])
    else match ReadRecord(s)
      case None => None
      case Some((c, rest)) =>
        match ReadRecords(rest)
        case Some(cs) => Some([c] + cs)
        case None => None
  }

  /** The header of a little-endian file: its magic number is 0xA1B2C3D4. */
  function ReadHeader(file: seq<Byte>): Option<FileHeader> {
    if |file| < 24 || FromLe32(file[0..4]) != 0xA1B2_C3D4 then None
    else
      Some(FileHeader(Word(file[5], file[4]), Word(file[7], file[6]), FromLe32(file[8..12]), FromLe32(file[12..16]),
                      FromLe32(file[16..20]), FromLe32(file[20..24])))
  }

  /** A file of version 2.4 in universal time whose link type is Ethernet. */
  function ReadFile(file: seq<Byte>): Option<seq<Captured>> {
    match ReadHeader(file)
    case Some(FileHeader(2, 4, 0, 0, _, 1)) => ReadRecords(file[24..])
    case _ => None
  }

  /** The MAC made up for an endpoint: 02:00:00 and the last three octets of its address. */
  function MacOf(e: Endpoint): seq<Byte>
    requires ValidEndpoint(e)
  {
    [2, 0, 0] + e.address[1..4]
  }

  function Seen(p: Packet): Captured
    requires p.Valid()
  {
    Captured(p.seconds % 0x1_0000_0000, p.micros, [2, 0, 0] + p.dst.address[1..4], [2, 0, 0] + p.src.address[1..4], 0,
             0, 0, 254, 0, p.src.address[..4], p.src.port, p.dst.address[..4], p.dst.port, 0, p.payload)
  }

  /** The header that is written: version 2.4, 1500 bytes a frame, Ethernet. */
  lemma HeaderReads(file: seq<Byte>)
    requires GLOBAL_HEADER <= file
    ensures ReadHeader(file) == Some(FileHeader(2, 4, 0, 0, 1500, 1))
    ensures |GLOBAL_HEADER| == 24 && ReadFile(file) == ReadRecords(file[24..])
  {
    hide ReadRecords, FromLe32;
    HeaderNumbers(file);
    assert forall i :: 4 <= i < 8 ==> file[i] == GLOBAL_HEADER[i];
  }

  lemma HeaderNumbers(file: seq<Byte>)
    requires GLOBAL_HEADER <= file
    ensures |GLOBAL_HEADER| == 24 && FromLe32(file[0..4]) == 0xA1B2_C3D4
    ensures FromLe32(file[8..12]) == 0 == FromLe32(file[12..16])
    ensures FromLe32(file[16..20]) == 1500 && FromLe32(file[20..24]) == 1
  {
    hide FromLe32;
    var h := GLOBAL_HEADER;
    assert forall i :: 0 <= i < 24 ==> file[i] == h[i];
    FourBytes(file, 0);
    FourBytes(file, 8);
    FourBytes(file, 12);
    FourBytes(file, 16);
    FourBytes(file, 20);
  }

  lemma FourBytes(s: seq<Byte>, i: nat)
    requires i + 4 <= |s|
    ensures FromLe32(s[i..i + 4])
         == s[i] as int + 0x100 * s[i + 1] as int + 0x1_0000 * s[i + 2] as int + 0x100_0000 * s[i + 3] as int
  {
    assert s[i..i + 4] == [s[i], s[i + 1], s[i + 2], s[i + 3]];
  }

  lemma Le32Reads(n: U32)
    ensures FromLe32(Le32(n)) == n
  {
    Shift(n, 1);
    Shift(n, 0x100);
    Shift(n, 0x1_0000);
    LastByte(n);
    LastByte(n / 0x100);
    LastByte(n / 0x1_0000);
  }

  lemma LastByte(n: nat)
    ensures n == n % 0x100 + 0x100 * (n / 0x100) && n / 0x100 >= 0
  {
  }

  lemma Shift(n: nat, m: nat)
    requires m in {1, 0x100, 0x1_0000}
    ensures n / m / 0x100 == n / (m * 0x100)
  {
  }

  /** The stated frame length is the real one exactly up to 65493 bytes of payload. */
  lemma LengthsExact(p: Packet)
    requires p.Valid()
    ensures |Frame(p)| == 42 + |p.payload|
    ensures FrameLen(|p.payload|) == |Frame(p)| <==> |p.payload| <= MAX_PAYLOAD
    ensures |p.payload| <= MAX_PAYLOAD ==>
              IpLen(|p.payload|) == 28 + |p.payload| && UdpLen(|p.payload|) == 8 + |p.payload|
  {
    hide Ethernet, Ipv4, Udp;
    LengthSums(|p.payload|);
  }

  lemma LengthSums(n: nat)
    ensures FrameLen(n) <= 0xFFFF
    ensures n <= MAX_PAYLOAD ==> FrameLen(n) == 42 + n && IpLen(n) == 28 + n && UdpLen(n) == 8 + n
    ensures n > MAX_PAYLOAD ==> FrameLen(n) < 42 + n
  {
    hide Wrap16;
    if n <= MAX_PAYLOAD {
      WrapFits(n);
      WrapFits(8 + n);
      WrapFits(28 + n);
      WrapFits(42 + n);
    }
  }

  lemma WrapFits(n: nat)
    requires n < 0x1_0000
    ensures Wrap16(n) == n
  {
  }

  /** The parts of a frame at their offsets. */
  lemma FrameParts(p: Packet)
    requires p.Valid()
    ensures var f, n := Frame(p), |p.payload|;
            && |f| == 42 + n
            && f[0..6] == MacOf(p.dst) && f[6..12] == MacOf(p.src)
            && f[12..14] == [8, 0] && f[14] == 0x45 && f[22] == 254 && f[23] == 17
            && f[16..18] == Be16(IpLen(n)) && f[38..40] == Be16(UdpLen(n))
            && f[26..30] == p.src.address[..4] && f[30..34] == p.dst.address[..4]
            && f[34..36] == Be16(p.src.port) && f[36..38] == Be16(p.dst.port) && f[42..] == p.payload
            && f[15] == 0 && f[18..22] == [0, 0, 0, 0] && f[24..26] == [0, 0] && f[40..42] == [0, 0]
  {
    hide Ethernet, Ipv4, Udp, IpLen, UdpLen, Be16, MacOf;
    var f, e, i, u := Frame(p), Ethernet(p), Ipv4(p), Udp(p);
    assert f[0..6] == e[0..6] && f[6..12] == e[6..12];
    assert f[12..14] == e[12..14] && f[14] == i[0] && f[22] == i[8] && f[23] == i[9] && f[16..18] == i[2..4];
    assert f[26..30] == i[12..16] && f[30..34] == i[16..20];
    assert f[34..36] == u[0..2] && f[36..38] == u[2..4] && f[38..40] == u[4..6];
    assert f[42..] == p.payload;
    assert f[15] == i[1] && f[18..22] == i[4..8] && f[24..26] == i[10..12] && f[40..42] == u[6..8];
  }

  lemma WordReads(s: seq<Byte>, i: nat, n: U16)
    requires i + 2 <= |s| && s[i..i + 2] == Be16(n)
    ensures Word(s[i], s[i + 1]) == n
  {
    assert s[i] == s[i..i + 2][0] && s[i + 1] == s[i..i + 2][1];
  }

  lemma FrameReads(p: Packet)
    requires p.Valid()
    ensures var f := Frame(p);
            && (|p.payload| <= MAX_PAYLOAD ==> IsUdpFrame(f))
            && Word(f[34], f[35]) == p.src.port && Word(f[36], f[37]) == p.dst.port
            && Word(f[18], f[19]) == Word(f[20], f[21]) == Word(f[24], f[25]) == Word(f[40], f[41]) == 0
  {
    hide Frame;
    FrameParts(p);
    LengthsExact(p);
    var f, n := Frame(p), |p.payload|;
    WordReads(f, 16, IpLen(n));
    WordReads(f, 38, UdpLen(n));
    WordReads(f, 34, p.src.port);
    WordReads(f, 36, p.dst.port);
    assert f[18] == f[18..22][0] && f[19] == f[18..22][1] && f[20] == f[18..22][2] && f[21] == f[18..22][3];
    assert f[24] == f[24..26][0] && f[25] == f[24..26][1] && f[40] == f[40..42][0] && f[41] == f[40..42][1];
  }

  lemma RecordParts(p: Packet, rest: seq<Byte>)
    requires p.Valid()
    ensures var s, len := Record(p) + rest, FrameLen(|p.payload|);
            && |Record(p)| == 16 + |Frame(p)|
            && s[0..4] == Le32(p.seconds % 0x1_0000_0000) && s[4..8] == Le32(p.micros)
            && s[8..12] == Le32(len) && s[12..16] == Le32(len)
            && s[16..16 + |Frame(p)|] == Frame(p) && s[16 + |Frame(p)|..] == rest
  {
    hide Frame, FrameLen;
  }

  lemma RecordReads(p: Packet, rest: seq<Byte>)
    requires p.Valid() && |p.payload| <= MAX_PAYLOAD
    ensures ReadRecord(Record(p) + rest) == Some((Seen(p), rest))
  {
    hide Frame, Record, IsUdpFrame, FromLe32, Le32;
    var len := FrameLen(|p.payload|);
    RecordParts(p, rest);
    LengthsExact(p);
    FrameParts(p);
    FrameReads(p);
    Le32Reads(len);
    Le32Reads(p.seconds % 0x1_0000_0000);
    Le32Reads(p.micros);
  }

  lemma LongRecord(p: Packet, rest: seq<Byte>)
    requires p.Valid() && |p.payload| > MAX_PAYLOAD
    ensures var r := ReadRecord(Record(p) + rest); r.Some? ==> |r.value.0.payload| < |p.payload|
  {
    hide Frame, FromLe32, Le32, Record;
    RecordParts(p, rest);
    LengthsExact(p);
    Le32Reads(FrameLen(|p.payload|));
  }

  // ---------- whole runs ----------

  /** A call and how its write ends. */
  datatype Call = Call(packet: Packet, write: Write)

  predicate Written(c: Call) { Recorded(c.packet) && c.write.Complete? }

  /** What a call adds to the file. */
  function Added(c: Call): seq<Byte>
    requires c.packet.Valid()
  {
    if Recorded(c.packet) then Reaching(Record(c.packet), c.write) else []
  }

  /** The file and the count after a run of calls. */
  function After(calls: seq<Call>): (seq<Byte>, nat)
    requires forall c <- calls :: c.packet.Valid()
  {
    if calls == [] then (GLOBAL_HEADER, 0)
    else
      var c, before := calls[|calls| - 1], After(calls[..|calls| - 1]);
      assert c in calls;
      (before.0 + Added(c), before.1 + (if Written(c) then 1 else 0))
  }

  /** The packets that were written. */
  function Kept(calls: seq<Call>): seq<Packet> {
    if calls == [] then []
    else
      var c := calls[|calls| - 1];
      Kept(calls[..|calls| - 1]) + (if Written(c) then [c.packet] else [])
  }

  method Play(calls: seq<Call>) returns (w: PcapWriter)
    requires forall c <- calls :: c.packet.Valid()
    ensures fresh(w) && (w.file, w.count) == After(calls)
  {
    hide Record, Reaching;
    w := new PcapWriter();
    for i := 0 to |calls|
      invariant fresh(w)
      invariant (w.file, w.count) == After(calls[..i])
    {
      assert calls[..i + 1][..|calls[..i + 1]| - 1] == calls[..i];
      assert calls[i] in calls;
      var r := w.AppendUdp(calls[i].packet, calls[i].write);
    }
    assert calls[..|calls|] == calls;
  }

  function SeenAll(ps: seq<Packet>): seq<Captured>
    requires forall p <- ps :: p.Valid()
  {
    if ps == [] then [] else [Seen(ps[0])] + SeenAll(ps[1..])
  }

  function Records(ps: seq<Packet>): seq<Byte>
    requires forall p <- ps :: p.Valid()
  {
    if ps == [] then [] else Record(ps[0]) + Records(ps[1..])
  }

  lemma RecordsStep(ps: seq<Packet>)
    requires ps != [] && forall p <- ps :: p.Valid()
    ensures (forall p <- ps[1..] :: p.Valid()) && ps[0].Valid()
    ensures Records(ps) == Record(ps[0]) + Records(ps[1..]) && SeenAll(ps) == [Seen(ps[0])] + SeenAll(ps[1..])
  {
    hide Record, Seen;
  }

  lemma ReadStep(s: seq<Byte>)
    requires s != []
    ensures ReadRecords(s) ==
            match ReadRecord(s)
            case None => None
            case Some((c, rest)) =>
              match ReadRecords(rest) case Some(cs) => Some([c] + cs) case None => None
  {
    hide ReadRecord;
  }

  /** The records of some packets read back exactly when every payload is within the bound. */
  lemma {:induction false} RecordsRead(ps: seq<Packet>)
    requires forall p <- ps :: p.Valid()
    ensures ReadRecords(Records(ps)) == Some(SeenAll(ps)) <==> forall p <- ps :: |p.payload| <= MAX_PAYLOAD
  {
    hide Record, ReadRecord, Seen, Records, ReadRecords, SeenAll;
    if ps == [] {
      NoRecords();
    } else {
      var p, rest := ps[0], ps[1..];
      RecordsStep(ps);
      RecordParts(p, Records(rest));
      ReadStep(Records(ps));
      if |p.payload| <= MAX_PAYLOAD {
        RecordReads(p, Records(rest));
        RecordsRead(rest);
        BoundSplits(ps);
        var seen := ReadRecords(Records(rest));
        if seen.Some? { ConsIsInjective(Seen(p), seen.value, SeenAll(rest)); }
      } else {
        LongRecord(p, Records(rest));
        assert p in ps && SeenAll(ps)[0] == Seen(p);
        assert |Seen(p).payload| == |p.payload| by { SeenPayload(p); }
      }
    }
  }

  lemma ConsIsInjective(c: Captured, a: seq<Captured>, b: seq<Captured>)
    ensures [c] + a == [c] + b <==> a == b
  {
    assert ([c] + a)[1..] == a && ([c] + b)[1..] == b;
  }

  lemma BoundSplits(ps: seq<Packet>)
    requires ps != []
    ensures (forall p <- ps :: |p.payload| <= MAX_PAYLOAD)
       <==> |ps[0].payload| <= MAX_PAYLOAD && forall p <- ps[1..] :: |p.payload| <= MAX_PAYLOAD
  {
    assert ps == [ps[0]] + ps[1..];
  }

  lemma NoRecords()
    ensures Records([]) == [] && ReadRecords([]) == Some([]) && SeenAll([]) == []
  {
  }

  lemma SeenPayload(p: Packet)
    requires p.Valid()
    ensures Seen(p).payload == p.payload
  {
  }

  lemma {:induction false} RecordsAppend(ps: seq<Packet>, p: Packet)
    requires (forall q <- ps :: q.Valid()) && p.Valid()
    ensures Records(ps + [p]) == Records(ps) + Record(p)
  {
    hide Record, Records;
    NoRecords();
    RecordsStep(ps + [p]);
    if ps == [] {
      assert ps + [p] == [p] && [p][1..] == [] && Record(p) + [] == [] + Record(p);
    } else {
      RecordsStep(ps);
      var rest := ps[1..];
      assert (ps + [p])[0] == ps[0] && (ps + [p])[1..] == rest + [p];
      RecordsAppend(rest, p);
      assert Record(ps[0]) + (Records(rest) + Record(p)) == Record(ps[0]) + Records(rest) + Record(p);
    }
  }

  /** No call left part of a record in the file. */
  ghost predicate Clean(calls: seq<Call>)
    requires forall c <- calls :: c.packet.Valid()
  {
    forall c <- calls :: Recorded(c.packet) && c.write.Broken? ==> Added(c) == []
  }

  lemma AfterStep(calls: seq<Call>)
    requires calls != [] && forall c <- calls :: c.packet.Valid()
    ensures var c, before := calls[|calls| - 1], calls[..|calls| - 1];
            && c.packet.Valid() && (forall x <- before :: x.packet.Valid())
            && After(calls) == (After(before).0 + Added(c), After(before).1 + (if Written(c) then 1 else 0))
            && Kept(calls) == Kept(before) + (if Written(c) then [c.packet] else [])
            && (Clean(calls) <==> Clean(before) && (Written(c) || Added(c) == []))
  {
    hide Record, Added, Recorded;
    var c, before := calls[|calls| - 1], calls[..|calls| - 1];
    assert calls == before + [c] && c in calls;
    assert !Recorded(c.packet) ==> Added(c) == [] by { NotAdded(c); }
  }

  lemma NotAdded(c: Call)
    requires c.packet.Valid()
    ensures !Recorded(c.packet) ==> Added(c) == []
    ensures Written(c) ==> Added(c) == Record(c.packet)
  {
    hide Record;
  }

  /** A file is at least as long as its header and the kept records, and they are all of it exactly after a clean
      run. */
  lemma {:induction false} AfterIsRecords(calls: seq<Call>)
    requires forall c <- calls :: c.packet.Valid()
    ensures (forall p <- Kept(calls) :: p.Valid()) && After(calls).1 == |Kept(calls)|
    ensures GLOBAL_HEADER <= After(calls).0
    ensures |After(calls).0| >= |GLOBAL_HEADER| + |Records(Kept(calls))|
    ensures Clean(calls) <==> |After(calls).0| == |GLOBAL_HEADER| + |Records(Kept(calls))|
    ensures Clean(calls) ==> After(calls).0 == GLOBAL_HEADER + Records(Kept(calls))
  {
    hide Record, Records, After, Kept, Added, Written, Clean, GLOBAL_HEADER;
    if calls == [] {
      NothingAfter();
    } else {
      var c, before := calls[|calls| - 1], calls[..|calls| - 1];
      AfterStep(calls);
      AfterIsRecords(before);
      NotAdded(c);
      var kept, file := Records(Kept(before)), After(before).0;
      if Written(c) {
        RecordsAppend(Kept(before), c.packet);
        assert GLOBAL_HEADER + (kept + Record(c.packet)) == GLOBAL_HEADER + kept + Record(c.packet);
      } else {
        assert Kept(calls) == Kept(before) && file + [] == file;
      }
    }
  }

  lemma NothingAfter()
    ensures After([]) == (GLOBAL_HEADER, 0) && Kept([]) == [] && Records([]) == [] && Clean([])
    ensures GLOBAL_HEADER + [] == GLOBAL_HEADER
  {
    hide GLOBAL_HEADER;
  }

  /** What a reader sees accounts for every byte. */
  lemma {:induction false} ReadLength(s: seq<Byte>)
    requires ReadRecords(s).Some?
    ensures |s| == SizeOf(ReadRecords(s).value)
    decreases |s|
  {
    hide IsUdpFrame, FromLe32;
    if s != [] {
      RecordLength(s);
      ReadLength(ReadRecord(s).value.1);
    }
  }

  function SizeOf(cs: seq<Captured>): nat { if cs == [] then 0 else 58 + |cs[0].payload| + SizeOf(cs[1..]) }

  lemma RecordLength(s: seq<Byte>)
    requires ReadRecord(s).Some?
    ensures |s| == 58 + |ReadRecord(s).value.0.payload| + |ReadRecord(s).value.1|
  {
    hide FromLe32;
  }

  lemma {:induction false} RecordsLength(ps: seq<Packet>)
    requires forall p <- ps :: p.Valid()
    ensures |Records(ps)| == SizeOf(SeenAll(ps))
  {
    hide Record, Seen, Records, SeenAll;
    if ps == [] {
      NoRecords();
    } else {
      RecordsStep(ps);
      RecordsLength(ps[1..]);
      RecordParts(ps[0], []);
      LengthsExact(ps[0]);
      SeenPayload(ps[0]);
    }
  }

  /** After any run the count is the number of packets written, and the file reads back as exactly them, in order, if
      and only if no broken write left part of a record and every payload is within the bound. */
  lemma FileReadsBack(calls: seq<Call>)
    requires forall c <- calls :: c.packet.Valid()
    ensures (forall p <- Kept(calls) :: p.Valid()) && After(calls).1 == |Kept(calls)|
    ensures ReadFile(After(calls).0) == Some(SeenAll(Kept(calls)))
       <==> Clean(calls) && forall p <- Kept(calls) :: |p.payload| <= MAX_PAYLOAD
  {
    hide Records, ReadRecords, Record, After, Clean, GLOBAL_HEADER, SeenAll, SizeOf;
    var ps, file := Kept(calls), After(calls).0;
    AfterIsRecords(calls);
    HeaderReads(file);
    var rest := file[|GLOBAL_HEADER|..];
    RecordsLength(ps);
    RecordsRead(ps);
    if ReadRecords(rest).Some? { ReadLength(rest); }
    if Clean(calls) { assert rest == Records(ps); }
  }

  // ---------- a reader that cuts at the snaplen ----------

  /** The length the global header states as the most that is kept of a frame. */
  function SnapLen(file: seq<Byte>): nat { match ReadHeader(file) case Some(h) => h.snapLen case None => 0 }

  /** What is left of a packet when its frame is cut at `snap`. */
  function Cut(c: Captured, snap: nat): Captured {
    var left := if snap < 42 then 0 else snap - 42;
    c.(payload := if |c.payload| <= left then c.payload else c.payload[..left])
  }

  function CutAll(cs: seq<Captured>, snap: nat): seq<Captured> {
    if cs == [] then [] else [Cut(cs[0], snap)] + CutAll(cs[1..], snap)
  }

  function ReadCutFile(file: seq<Byte>): Option<seq<Captured>> {
    match ReadFile(file) case Some(cs) => Some(CutAll(cs, SnapLen(file))) case None => None
  }

  /** The longest payload that fits the stated 1500 bytes behind its headers. */
  const MAX_SNAP := 1458

  lemma HeaderSnap(file: seq<Byte>)
    requires GLOBAL_HEADER <= file
    ensures SnapLen(file) == MAX_SNAP + 42
  {
    hide ReadHeader, ReadFile;
    HeaderReads(file);
  }

  lemma {:induction false} CutSeen(ps: seq<Packet>)
    requires forall p <- ps :: p.Valid() && |p.payload| <= MAX_SNAP
    ensures CutAll(SeenAll(ps), MAX_SNAP + 42) == SeenAll(ps)
  {
    hide Seen, SeenAll;
    if ps == [] {
      NoRecords();
    } else {
      RecordsStep(ps);
      assert ps[0] in ps && forall p :: p in ps[1..] ==> p in ps;
      SeenPayload(ps[0]);
      CutSeen(ps[1..]);
    }
  }

  lemma {:induction false} CutIsShort(cs: seq<Captured>, snap: nat, i: nat)
    requires snap >= 42 && i < |CutAll(cs, snap)|
    ensures |CutAll(cs, snap)[i].payload| <= snap - 42
  {
    if i > 0 { CutIsShort(cs[1..], snap, i - 1); }
  }

  lemma {:induction false} SeenAt(ps: seq<Packet>, i: nat)
    requires i < |ps| && forall p <- ps :: p.Valid()
    ensures i < |SeenAll(ps)| && SeenAll(ps)[i].payload == ps[i].payload
  {
    hide Seen, SeenAll;
    RecordsStep(ps);
    SeenPayload(ps[0]);
    if i > 0 { SeenAt(ps[1..], i - 1); }
  }

  /** After a clean run a reader that honours the snaplen sees exactly the packets written if and only if every payload
      has at most 1458 bytes. */
  lemma CutFileReadsBack(calls: seq<Call>)
    requires (forall c <- calls :: c.packet.Valid()) && Clean(calls)
    ensures forall p <- Kept(calls) :: p.Valid()
    ensures ReadCutFile(After(calls).0) == Some(SeenAll(Kept(calls)))
       <==> forall p <- Kept(calls) :: |p.payload| <= MAX_SNAP
  {
    hide ReadFile, After, Kept, Clean, SeenAll, CutAll, SnapLen, GLOBAL_HEADER;
    var ps, file := Kept(calls), After(calls).0;
    AfterIsRecords(calls);
    FileReadsBack(calls);
    HeaderSnap(file);
    if forall p <- ps :: |p.payload| <= MAX_SNAP {
      CutSeen(ps);
    } else if ReadFile(file).Some? {
      LongIsCut(ReadFile(file).value, ps);
    }
  }

  /** No cut packet is a longer one. */
  lemma LongIsCut(cs: seq<Captured>, ps: seq<Packet>)
    requires (forall p <- ps :: p.Valid()) && exists p <- ps :: |p.payload| > MAX_SNAP
    ensures CutAll(cs, MAX_SNAP + 42) != SeenAll(ps)
  {
    hide CutAll, SeenAll;
    var p :| p in ps && |p.payload| > MAX_SNAP;
    var i :| 0 <= i < |ps| && ps[i] == p;
    SeenAt(ps, i);
    if i < |CutAll(cs, MAX_SNAP + 42)| { CutIsShort(cs, MAX_SNAP + 42, i); }
  }

  /** One broken write in front of a packet is enough to lose it. */
  lemma BrokenWriteLoses(p: Packet, q: Packet, kept: nat)
    requires p.Valid() && q.Valid() && Recorded(p) && Recorded(q) && 0 < kept
    ensures ReadFile(After([Call(p, Broken(kept)), Call(q, Complete)]).0) != Some([Seen(q)])
  {
    hide Record, ReadFile, Seen, Reaching;
    var first, second := Call(p, Broken(kept)), Call(q, Complete);
    var calls := [first, second];
    assert calls[..1] == [first] && [first][..0] == [];
    assert Kept([first]) == [] + [] && Kept(calls) == Kept([first]) + [q];
    assert [q][1..] == [] && [Seen(q)] + [] == [Seen(q)];
    assert first in calls && Added(first) != [] by { SomeReaches(p, kept); }
    FileReadsBack(calls);
  }

  lemma SomeReaches(p: Packet, kept: nat)
    requires p.Valid() && 0 < kept
    ensures Reaching(Record(p), Broken(kept)) != []
  {
    RecordParts(p, []);
    LengthsExact(p);
  }
}
