/** Dispatch of received packets: `register_domain` and `on_packet` of `mdns.rs`. */
module Broker {
  import opened Bytes
  import DnsAccept
  import DnsMessage
  import DnsSerialise
  import Compressor

  type Name = seq<Byte>

  /** A call of a handler: whose it is, the name that triggered it, and the answers of the whole packet. */
  datatype Dispatch<H> = Dispatch(handler: H, name: Name, answers: seq<DnsMessage.Answer>)

  /** `i` is the first answer whose name is registered. */
  predicate IsTrigger<H>(handlers: map<Name, H>, answers: seq<DnsMessage.Answer>, i: nat) {
    && i < |answers| && answers[i].name in handlers
    && forall j :: 0 <= j < i ==> answers[j].name !in handlers
  }

  /** What a packet sets off, stated by its parse and its trigger. */
  ghost predicate Dispatches<H>(handlers: map<Name, H>, data: seq<Byte>, r: Option<Dispatch<H>>) {
    match DnsMessage.ParseDns(data)
    case Err(_) => r == None
    case Ok(answers) =>
      if r.Some? then
        exists i: nat :: IsTrigger(handlers, answers, i) && i < |answers| && answers[i].name in handlers
          && r.value == Dispatch(handlers[answers[i].name], answers[i].name, answers)
      else forall i :: 0 <= i < |answers| ==> answers[i].name !in handlers
  }

  class MdnsBroker<H> {
    var handlers: map<Name, H>

    constructor ()
      ensures handlers == map[]
    {
      handlers := map[];
    }

    method RegisterDomain(filter: Name, handler: H)
      modifies this
      ensures handlers == old(handlers)[filter := handler]
    {
      handlers := handlers[filter := handler];
    }

    /** The first registered answer hands the whole packet to its handler. */
    method OnPacket(data: seq<Byte>) returns (r: Option<Dispatch<H>>)
      ensures Dispatches(handlers, data, r)
    {
      hide DnsMessage.ParseDns;
      var parsed := DnsMessage.ParseDnsLoop(data);
      if parsed.Err? { return None; }
      var answers := parsed.value;
      for i := 0 to |answers|
        invariant forall j :: 0 <= j < i ==> answers[j].name !in handlers
      {
        var name := answers[i].name;
        if name in handlers {
          assert IsTrigger(handlers, answers, i);
          return Some(Dispatch(handlers[name], name, answers));
        }
      }
      return None;
    }
  }

  lemma TriggerIsUnique<H>(handlers: map<Name, H>, answers: seq<DnsMessage.Answer>, i: nat, j: nat)
    requires IsTrigger(handlers, answers, i) && IsTrigger(handlers, answers, j)
    ensures i == j
  {
    var x, y := answers[i].name, answers[j].name;
  }

  /** A packet sets off one thing only, and the same when its names are compressed. */
  lemma DispatchIsUnique<H>(handlers: map<Name, H>, m: DnsSerialise.Message,
                            a: Option<Dispatch<H>>, b: Option<Dispatch<H>>)
    requires Compressor.PlainMessage(m) && |m.questions| + |m.records| > 0
    requires DnsSerialise.WritableMessage(m) && DnsSerialise.WritableMessage(Compressor.Compress(m))
    requires Dispatches(handlers, DnsSerialise.Emit(m), a)
    requires Dispatches(handlers, DnsSerialise.Emit(Compressor.Compress(m)), b)
    ensures a == b
  {
    hide DnsMessage.ParseDns, DnsSerialise.Emit, Compressor.Compress, IsTrigger;
    Compressor.CompressedParsesAlike(m);
    var answers := DnsMessage.ParseDns(DnsSerialise.Emit(m)).value;
    if a.Some? && b.Some? {
      var i: nat :| IsTrigger(handlers, answers, i) && i < |answers| && answers[i].name in handlers
        && a.value == Dispatch(handlers[answers[i].name], answers[i].name, answers);
      var j: nat :| IsTrigger(handlers, answers, j) && j < |answers| && answers[j].name in handlers
        && b.value == Dispatch(handlers[answers[j].name], answers[j].name, answers);
      TriggerIsUnique(handlers, answers, i, j);
    }
  }

  /** A packet with one broken record sets off nothing, whatever stands in the whole records before it. */
  lemma BrokenPacketIsSilent<H>(handlers: map<Name, H>, data: seq<Byte>, ends: seq<nat>, places: seq<nat>,
                                answers: seq<DnsMessage.Answer>, r: Option<Dispatch<H>>)
    requires DnsAccept.BreaksOff(data, ends, places, answers) && Dispatches(handlers, data, r)
    ensures r == None
  {
    hide DnsMessage.ParseDns, DnsAccept.BreaksOff;
    DnsAccept.BrokenPacketIsError(data, ends, places, answers);
  }

  /** A packet of whole questions and records sets off the handler of its first registered name, or nothing. */
  lemma WholePacketDispatches<H>(handlers: map<Name, H>, data: seq<Byte>, ends: seq<nat>, places: seq<nat>,
                                 answers: seq<DnsMessage.Answer>, r: Option<Dispatch<H>>)
    requires |data| > 12 && DnsAccept.Questions(data, ends)
    requires |ends| == DnsAccept.Number(data, 4) + 1 && ends[0] == 12
    requires DnsAccept.Layout(data, DnsAccept.Number(data, 6) + DnsAccept.Number(data, 8) + DnsAccept.Number(data, 10),
                              places, answers)
    requires places != [] && places[0] == ends[|ends| - 1]
    requires Dispatches(handlers, data, r)
    ensures r.None? <==> forall i :: 0 <= i < |answers| ==> answers[i].name !in handlers
    ensures r.Some? ==> exists i: nat ::
              && i < |answers| && answers[i].name in handlers
              && (forall j :: 0 <= j < i ==> answers[j].name !in handlers)
              && r.value == Dispatch(handlers[answers[i].name], answers[i].name, answers)
  {
    hide DnsMessage.ParseDns, DnsAccept.Questions, DnsAccept.Layout, DnsAccept.Number;
    DnsAccept.AcceptedExactly(data, answers);
  }
}
