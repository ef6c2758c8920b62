/** The port provider of `ports.rs`: a seeded generator, the used ports and a test bind. */
module Ports {
  import opened Bytes
  import opened Generator

  const PORT_MIN := 1024
  const PORT_MAX := 65533
  const ATTEMPTS := 64

  function PickOf(state: nat): (p: U16)
    ensures PORT_MIN <= p <= PORT_MAX
  {
    PORT_MIN + Mixed(state) % (PORT_MAX - PORT_MIN + 1)
  }

  function Candidate(state: nat, i: nat): (p: U16)
    ensures PORT_MIN <= p <= PORT_MAX
  {
    PickOf(Drawn(state, i))
  }

  /** Whether a test bind at draw `i` of a port would succeed. */
  type Binder = (nat, U16) -> bool

  predicate Accepted(used: set<U16>, state: nat, bind: Binder, i: nat) {
    var p := Candidate(state, i);
    p !in used && bind(i, p)
  }

  /** The first draw from `from` on that is accepted. */
  function FirstOf(accepted: nat -> bool, from: nat): (r: Option<nat>)
    ensures r.Some? ==> from <= r.value < ATTEMPTS && accepted(r.value)
    ensures r.Some? ==> forall j: nat :: from <= j < r.value ==> !accepted(j)
    ensures r.None? ==> forall j: nat :: from <= j < ATTEMPTS ==> !accepted(j)
    decreases ATTEMPTS - from
  {
    if from >= ATTEMPTS then None
    else if accepted(from) then Some(from)
    else FirstOf(accepted, from + 1)
  }

  function FirstAccepted(used: set<U16>, state: nat, bind: Binder, from: nat): Option<nat> {
    FirstOf((i: nat) => Accepted(used, state, bind, i), from)
  }

  lemma FirstIsAccepted(used: set<U16>, state: nat, bind: Binder, from: nat)
    ensures match FirstAccepted(used, state, bind, from)
            case Some(i) =>
              && from <= i < ATTEMPTS && Accepted(used, state, bind, i)
              && forall j: nat :: from <= j < i ==> !Accepted(used, state, bind, j)
            case None => forall j: nat :: from <= j < ATTEMPTS ==> !Accepted(used, state, bind, j)
  {
    hide Accepted;
    var accepted := (i: nat) => Accepted(used, state, bind, i);
    var r := FirstAccepted(used, state, bind, from);
    assert r == FirstOf(accepted, from);
    forall j: nat | from <= j < (if r.Some? then r.value else ATTEMPTS) ensures !Accepted(used, state, bind, j) {
      assert !accepted(j);
    }
  }

  lemma FirstStep(used: set<U16>, state: nat, bind: Binder, i: nat)
    ensures FirstAccepted(used, state, bind, i) ==
            if i >= ATTEMPTS then None
            else if Accepted(used, state, bind, i) then Some(i)
            else FirstAccepted(used, state, bind, i + 1)
  {
    hide Accepted;
  }

  function SetOf(ports: seq<U16>): set<U16> { set p | p in ports }

  lemma SetOfAppend(a: seq<U16>, b: seq<U16>)
    ensures SetOf(a + b) == SetOf(a) + SetOf(b)
  {
  }

  class PortProvider {
    var used: set<U16>
    var state: nat

    constructor (seeded: set<U16>, seed: nat)
      ensures used == seeded && state == seed
    {
      used := seeded;
      state := seed;
    }

    method Reserve(ports: seq<U16>)
      modifies this
      ensures used == old(used) + SetOf(ports)
      ensures state == old(state)
    {
      for i := 0 to |ports|
        invariant used == old(used) + SetOf(ports[..i])
        invariant state == old(state)
      {
        assert ports[..i + 1] == ports[..i] + [ports[i]];
        used := used + {ports[i]};
      }
      assert ports[..|ports|] == ports;
    }

    /** The first accepted draw among 64 is taken and moves the state to it; without one nothing changes. */
    method FreePort(bind: Binder) returns (r: Option<U16>)
      modifies this
      ensures match FirstAccepted(old(used), old(state), bind, 0)
              case Some(i) =>
                && r == Some(Candidate(old(state), i))
                && used == old(used) + {r.value} && state == Drawn(old(state), i)
              case None => r == None && used == old(used) && state == old(state)
    {
      hide PickOf, NextState, FirstAccepted, Drawn;
      var rng := state;
      for i := 0 to ATTEMPTS
        invariant used == old(used) && state == old(state)
        invariant rng == if i == 0 then state else Drawn(state, i - 1)
        invariant FirstAccepted(used, state, bind, i) == FirstAccepted(used, state, bind, 0)
      {
        FirstStep(used, state, bind, i);
        DrawnStep(state, i);
        rng := NextState(rng);
        var candidate := PickOf(rng);
        if candidate in used { continue; }
        if bind(i, candidate) {
          state := rng;
          used := used + {candidate};
          return Some(candidate);
        }
      }
      FirstStep(used, state, bind, ATTEMPTS);
      return None;
    }
  }

  // ---------- runs ----------

  datatype Call = Reserve(ports: seq<U16>) | FreePort(bind: Binder)

  datatype Provider = Provider(used: set<U16>, state: nat)

  /** One call on the provider as a value: what it becomes and the port it returns. */
  function Called(p: Provider, c: Call): (Provider, Option<U16>) {
    match c
    case Reserve(ports) => (p.(used := p.used + SetOf(ports)), None)
    case FreePort(bind) =>
      match FirstAccepted(p.used, p.state, bind, 0)
      case Some(i) =>
        var port := Candidate(p.state, i);
        (Provider(p.used + {port}, Drawn(p.state, i)), Some(port))
      case None => (p, None)
  }

  /** The provider and the ports returned after a run of calls. */
  function Run(p: Provider, calls: seq<Call>): (Provider, seq<U16>)
    decreases |calls|
  {
    if calls == [] then (p, [])
    else
      var (q, port) := Called(p, calls[0]);
      var (end, ports) := Run(q, calls[1..]);
      (end, (if port.Some? then [port.value] else []) + ports)
  }

  /** The ports reserved anywhere in a run. */
  function Reserved(calls: seq<Call>): set<U16>
    decreases |calls|
  {
    if calls == [] then {}
    else (match calls[0] case Reserve(ports) => SetOf(ports) case FreePort(_) => {}) + Reserved(calls[1..])
  }

  /** Over any run against any binds, the ports returned are in range, pairwise distinct and none of those used before
      the run, and in the end exactly they and the reserved ones have been added. */
  lemma {:induction false} RunIsFresh(p: Provider, calls: seq<Call>)
    ensures var (end, ports) := Run(p, calls);
            && end.used == p.used + Reserved(calls) + SetOf(ports)
            && (forall i :: 0 <= i < |ports| ==> 1024 <= ports[i] <= 65533 && ports[i] !in p.used)
            && (forall i, j :: 0 <= i < j < |ports| ==> ports[i] != ports[j])
    decreases |calls|
  {
    hide Candidate;
    if calls != [] {
      var (q, port) := Called(p, calls[0]);
      RunIsFresh(q, calls[1..]);
      SetOfAppend(if port.Some? then [port.value] else [], Run(q, calls[1..]).1);
      assert port.Some? ==> port.value in q.used && SetOf([port.value]) == {port.value};
    }
  }

  lemma {:induction false} RunSplits(p: Provider, before: seq<Call>, after: seq<Call>)
    ensures var (q, earlier) := Run(p, before);
            Run(p, before + after) == (Run(q, after).0, earlier + Run(q, after).1)
    decreases |before|
  {
    hide Called;
    if before == [] {
      assert before + after == after;
      assert [] + Run(p, after).1 == Run(p, after).1;
    } else {
      assert (before + after)[0] == before[0] && (before + after)[1..] == before[1..] + after;
      var (q, port) := Called(p, before[0]);
      RunSplits(q, before[1..], after);
      var (end, earlier) := Run(q, before[1..]);
      var head := if port.Some? then [port.value] else [];
      assert head + (earlier + Run(end, after).1) == head + earlier + Run(end, after).1;
    }
  }

  /** A port reserved or returned earlier in a run is never returned later in it. */
  lemma NeverAgain(p: Provider, before: seq<Call>, after: seq<Call>)
    ensures var (q, earlier) := Run(p, before);
            var later := Run(q, after).1;
            && Run(p, before + after).1 == earlier + later
            && forall i :: 0 <= i < |later| ==> later[i] !in SetOf(earlier) + Reserved(before) + p.used
  {
    hide Run, Reserved;
    RunSplits(p, before, after);
    RunIsFresh(p, before);
    RunIsFresh(Run(p, before).0, after);
  }

  // ---------- the port of a call ----------

  /** Draw `i` from a state picks the port: the number it yields, reduced to the range. */
  ghost predicate Draws(state: nat, i: nat, port: U16) {
    exists number: nat ::
      && Yields((state + (i + 1) * 0x9E37_79B9_7F4A_7C15) % 0x1_0000_0000_0000_0000, number)
      && port == 1024 + number % 64510
  }

  lemma DrawsExactly(state: nat, i: nat, port: U16)
    ensures Draws(state, i, port) <==> port == Candidate(state, i)
  {
    hide Yields, Mixed, Drawn;
    DrawYieldsExactly(state, i, Mixed(Drawn(state, i)));
    if Draws(state, i, port) {
      var number: nat :|
        && Yields((state + (i + 1) * 0x9E37_79B9_7F4A_7C15) % 0x1_0000_0000_0000_0000, number)
        && port == 1024 + number % 64510;
      DrawYieldsExactly(state, i, number);
    }
  }

  /** Every port of the range is drawn from every state. */
  lemma EveryPortIsDrawn(state: nat, port: U16) returns (i: nat)
    requires state < 0x1_0000_0000_0000_0000 && 1024 <= port <= 65533
    ensures Draws(state, i, port)
  {
    hide Draws, Mixed, Drawn;
    i := EveryNumberIsYielded(state, port - 1024);
    DrawsExactly(state, i, port);
  }

  /** Draw `i` picks an unused port that binds. */
  ghost predicate Takes(p: Provider, bind: Binder, i: nat, port: U16) {
    Draws(p.state, i, port) && port !in p.used && bind(i, port)
  }

  lemma TakesExactly(p: Provider, bind: Binder, i: nat, port: U16)
    ensures Takes(p, bind, i, port) <==> Accepted(p.used, p.state, bind, i) && port == Candidate(p.state, i)
  {
    hide Draws, Candidate;
    DrawsExactly(p.state, i, port);
  }

  /** Draw `i` takes the port and no earlier draw takes any. */
  ghost predicate TakesFirst(p: Provider, bind: Binder, i: nat, port: U16) {
    Takes(p, bind, i, port) && forall j: nat, other :: j < i ==> !Takes(p, bind, j, other)
  }

  /** A call returns a port if and only if one of its 64 draws takes it and no earlier draw takes any; the port becomes
      used and the generator stands at that draw. */
  lemma ReturnedExactly(p: Provider, bind: Binder, port: U16)
    ensures Called(p, FreePort(bind)).1 == Some(port)
       <==> exists i: nat :: i < 64 && TakesFirst(p, bind, i, port)
    ensures forall i: nat :: i < 64 && TakesFirst(p, bind, i, port) ==>
              Called(p, FreePort(bind)).0 == Provider(
                p.used + {port}, (p.state + (i + 1) * 0x9E37_79B9_7F4A_7C15) % 0x1_0000_0000_0000_0000)
  {
    hide Takes, Accepted, FirstAccepted, Candidate, Drawn;
    FirstIsAccepted(p.used, p.state, bind, 0);
    var first := FirstAccepted(p.used, p.state, bind, 0);
    forall i: nat, q
      ensures Takes(p, bind, i, q) <==> Accepted(p.used, p.state, bind, i) && q == Candidate(p.state, i)
    {
      TakesExactly(p, bind, i, q);
    }
    forall i: nat | i < 64 && TakesFirst(p, bind, i, port)
      ensures first == Some(i)
      ensures Drawn(p.state, i) == (p.state + (i + 1) * 0x9E37_79B9_7F4A_7C15) % 0x1_0000_0000_0000_0000
    {
      DrawnIs(p.state, i);
      forall j: nat | j < i ensures !Accepted(p.used, p.state, bind, j) {
        assert !Takes(p, bind, j, Candidate(p.state, j));
      }
    }
    if first.Some? && port == Candidate(p.state, first.value) {
      assert TakesFirst(p, bind, first.value, port);
    }
  }

  // ---------- failures ----------

  /** A call succeeds exactly when one of the 64 draws from the state is unused and binds. */
  lemma SucceedsExactly(p: Provider, bind: Binder)
    ensures Called(p, FreePort(bind)).1.Some? <==> exists i :: 0 <= i < 64 && Accepted(p.used, p.state, bind, i)
  {
    hide Accepted, Candidate, Drawn, FirstAccepted;
    FirstIsAccepted(p.used, p.state, bind, 0);
  }

  /** `after` accepts no draw from `p` that `before` did not. */
  ghost predicate NoNewBind(p: Provider, before: Binder, after: Binder) {
    forall i :: 0 <= i < ATTEMPTS && Accepted(p.used, p.state, after, i) ==> Accepted(p.used, p.state, before, i)
  }

  /** A failure leaves the state, so it repeats: whatever is reserved meanwhile, no later call returns a port and the
      generator stands still until a bind that failed succeeds. */
  lemma {:induction false} FailureRepeats(p: Provider, bind: Binder, calls: seq<Call>)
    requires Called(p, FreePort(bind)).1.None?
    requires forall c <- calls :: c.FreePort? ==> NoNewBind(p, bind, c.bind)
    ensures Run(p, calls).1 == [] && Run(p, calls).0 == Provider(p.used + Reserved(calls), p.state)
    decreases |calls|
  {
    hide Called, NoNewBind;
    if calls != [] {
      var c := calls[0];
      assert c in calls && forall x :: x in calls[1..] ==> x in calls;
      var q := FailsAgain(p, bind, c);
      forall x | x in calls[1..] && x.FreePort? ensures NoNewBind(q, bind, x.bind) {
        MoreUsed(p, q, bind, x.bind);
      }
      FailureRepeats(q, bind, calls[1..]);
    }
  }

  /** With more ports used, no more draws are accepted. */
  lemma MoreUsed(p: Provider, q: Provider, before: Binder, after: Binder)
    requires NoNewBind(p, before, after) && p.used <= q.used && p.state == q.state
    ensures NoNewBind(q, before, after)
  {
    hide Candidate;
    forall i | 0 <= i < ATTEMPTS && Accepted(q.used, q.state, after, i) ensures Accepted(q.used, q.state, before, i) {
      assert Accepted(p.used, p.state, after, i);
    }
  }

  lemma FailsAgain(p: Provider, bind: Binder, c: Call) returns (q: Provider)
    requires Called(p, FreePort(bind)).1.None?
    requires c.FreePort? ==> NoNewBind(p, bind, c.bind)
    ensures Called(p, c) == (q, None) && Called(q, FreePort(bind)).1.None?
    ensures q == Provider(p.used + (match c case Reserve(ports) => SetOf(ports) case FreePort(_) => {}), p.state)
  {
    hide FirstAccepted, Accepted, Drawn, Candidate;
    q := Called(p, c).0;
    SucceedsExactly(p, bind);
    match c
    case Reserve(_) =>
      SucceedsExactly(q, bind);
      forall i | 0 <= i < ATTEMPTS ensures !Accepted(q.used, q.state, bind, i) {
        assert !Accepted(p.used, p.state, bind, i);
        StillRefused(p, q, bind, i);
      }
    case FreePort(b) => SucceedsExactly(p, b);
  }

  lemma StillRefused(p: Provider, q: Provider, bind: Binder, i: nat)
    requires !Accepted(p.used, p.state, bind, i) && p.used <= q.used && p.state == q.state
    ensures !Accepted(q.used, q.state, bind, i)
  {
    hide Candidate;
  }
}
