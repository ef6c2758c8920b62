/** Scans, sweep tasks and `stop` as interleaved steps: `Arecont::scan`, `Dahua2::start_netscan`, `netscan`
    and `Scanner::stop`. */
module Sweeps {
  import opened Bytes

  const SWEEP_COUNT := 4

  /** Which task an engine spawns; a netscan visits a number of interface addresses. */
  datatype Kind = Arecont | Netscan(addresses: nat)

  /** Where a task stands: before the cancellation test of round `i`, in its sleep, before sending, or finished. */
  datatype Phase = Checking(i: nat) | Waiting(i: nat) | Sending(i: nat) | Done

  /** How far the scan call that made the sweep has come. */
  datatype Stage = Created | Spawned | Registered

  /** One sweep: its engine, its own token, its task, the rounds it sent, in all and since a cancellation, and for each
      address a netscan has tested whether it was private. */
  datatype Sweep =
    Sweep(engine: nat, kind: Kind, cancelled: bool, stage: Stage, phase: Phase, rounds: nat, late: nat,
          tested: seq<bool>)

  /** An engine instance: the token of its current sweep and the handles in its context. */
  datatype Engine = Engine(current: Option<nat>, handles: seq<nat>)

  datatype Stop = Idle | Draining(k: nat) | Joining(k: nat, handles: seq<nat>) | Stopped

  datatype System = System(sweeps: seq<Sweep>, engines: seq<Engine>, ctxCancelled: bool, stop: Stop)

  /** The steps. `Begin` replaces the engine's token under its lock and cancels the old one; `Advance` is one step of
      a task, whose `choice` is a due timer or a private address. */
  datatype Action =
    | Begin(engine: nat, kind: Kind)
    | Spawn(id: nat)
    | Register(id: nat)
    | Advance(id: nat, choice: bool)
    | BeginStop
    | StopStep

  function FirstPhase(kind: Kind): Phase { if kind.Arecont? then Sending(0) else Checking(0) }

  predicate Cancelled(s: System, id: nat)
    requires id < |s.sweeps|
  {
    s.sweeps[id].cancelled || s.ctxCancelled
  }

  /** A sleeping task moves when its timer is due or a token is cancelled; any other unfinished task always can. */
  predicate CanAdvance(w: Sweep, cancelled: bool, choice: bool) {
    w.stage != Created && w.phase != Done && (w.phase.Waiting? ==> choice || cancelled)
  }

  function NextPhase(w: Sweep, cancelled: bool, choice: bool): Phase {
    match (w.kind, w.phase)
    case (Arecont, Sending(i)) => if i + 1 < SWEEP_COUNT then Checking(i + 1) else Done
    case (Arecont, Checking(i)) => if cancelled then Done else Waiting(i)
    case (_, Waiting(i)) => if choice then Sending(i) else Done
    case (Netscan(n), Checking(j)) =>
      if j >= n || cancelled then Done else if choice then Sending(j) else Checking(j + 1)
    case (Netscan(_), Sending(j)) => Checking(j + 1)
    case (_, Done) => Done
  }

  function AdvancedSweep(w: Sweep, cancelled: bool, choice: bool): Sweep {
    var sends := if w.phase.Sending? then 1 else 0;
    w.(phase := NextPhase(w, cancelled, choice),
       rounds := w.rounds + sends,
       late := w.late + (if cancelled then sends else 0),
       tested := w.tested + (if Tests(w, cancelled) then [choice] else []))
  }

  /** Whether the next step of a netscan tests an address. */
  predicate Tests(w: Sweep, cancelled: bool) {
    w.kind.Netscan? && w.phase.Checking? && w.phase.i < w.kind.addresses && !cancelled
  }

  /** How many addresses were found private. */
  function Private(tested: seq<bool>): nat {
    if tested == [] then 0 else Private(tested[..|tested| - 1]) + (if tested[|tested| - 1] then 1 else 0)
  }

  function Enabled(s: System, a: Action): bool {
    match a
    case Begin(e, _) => s.stop.Idle? && e < |s.engines|
    case Spawn(id) => id < |s.sweeps| && s.sweeps[id].stage == Created
    case Register(id) => id < |s.sweeps| && s.sweeps[id].stage == Spawned && s.sweeps[id].engine < |s.engines|
    case Advance(id, c) => id < |s.sweeps| && CanAdvance(s.sweeps[id], Cancelled(s, id), c)
    // `stop` borrows the scanner exclusively: no scan call is under way, and none begins until it returns.
    case BeginStop => s.stop.Idle? && forall w <- s.sweeps :: w.stage == Registered
    case StopStep =>
      match s.stop
      case Idle => false
      case Draining(_) => true
      case Joining(_, hs) => hs == [] || (hs[0] < |s.sweeps| && s.sweeps[hs[0]].phase == Done)
      case Stopped => false
  }

  function CancelOld(sweeps: seq<Sweep>, token: Option<nat>): (r: seq<Sweep>)
    ensures |r| == |sweeps|
  {
    match token
    case Some(id) => if id < |sweeps| then sweeps[id := sweeps[id].(cancelled := true)] else sweeps
    case None => sweeps
  }

  function StopApplied(s: System): System
    requires Enabled(s, StopStep)
  {
    match s.stop
    case Draining(k) =>
      if k >= |s.engines| then s.(stop := Stopped)
      else
        s.(stop := Joining(k, s.engines[k].handles), engines := s.engines[k := s.engines[k].(handles := [])])
    case Joining(k, hs) => if hs == [] then s.(stop := Draining(k + 1)) else s.(stop := Joining(k, hs[1..]))
  }

  function Apply(s: System, a: Action): System
    requires Enabled(s, a)
  {
    match a
    case Begin(e, kind) =>
      var id := |s.sweeps|;
      s.(sweeps := CancelOld(s.sweeps, s.engines[e].current)
                   + [Sweep(e, kind, false, Created, FirstPhase(kind), 0, 0, [])],
         engines := s.engines[e := s.engines[e].(current := Some(id))])
    case Spawn(id) => s.(sweeps := s.sweeps[id := s.sweeps[id].(stage := Spawned)])
    case Register(id) =>
      var e := s.sweeps[id].engine;
      s.(sweeps := s.sweeps[id := s.sweeps[id].(stage := Registered)],
         engines := s.engines[e := s.engines[e].(handles := s.engines[e].handles + [id])])
    case Advance(id, c) => s.(sweeps := s.sweeps[id := AdvancedSweep(s.sweeps[id], Cancelled(s, id), c)])
    case BeginStop => s.(ctxCancelled := true, stop := Draining(0))
    case StopStep => StopApplied(s)
  }

  function Start(engines: nat): System { System([], seq(engines, i => Engine(None, [])), false, Idle) }

  /** The system after a schedule; a step that is not enabled when its turn comes does not happen. */
  function Execute(s: System, schedule: seq<Action>): System
    decreases |schedule|
  {
    if schedule == [] then s
    else Execute(if Enabled(s, schedule[0]) then Apply(s, schedule[0]) else s, schedule[1..])
  }

  // ---------- the invariant ----------

  /** Rounds follow the phase, and a cancelled sweep that has sent since will not send again. */
  predicate SweepOk(w: Sweep, cancelled: bool) {
    && (w.stage == Created ==> w.phase == FirstPhase(w.kind))
    && (match (w.kind, w.phase)
        case (Arecont, Sending(i)) => i < SWEEP_COUNT && w.rounds == i
        case (Arecont, Checking(i)) => 0 < i < SWEEP_COUNT && w.rounds == i
        case (Arecont, Waiting(i)) => 0 < i < SWEEP_COUNT && w.rounds == i
        case (Arecont, Done) => w.rounds <= SWEEP_COUNT && (!cancelled ==> w.rounds == SWEEP_COUNT)
        case (Netscan(n), Sending(j)) => j < n && |w.tested| == j + 1 && w.rounds + 1 == Private(w.tested)
        case (Netscan(n), Checking(j)) => j <= n && |w.tested| == j && w.rounds == Private(w.tested)
        case (Netscan(_), Waiting(_)) => false
        case (Netscan(n), Done) => |w.tested| <= n && w.rounds == Private(w.tested) && (!cancelled ==> |w.tested| == n))
    && (if cancelled then w.late <= 1 && (w.late == 1 ==> w.phase.Checking? || w.phase.Done?) else w.late == 0)
  }

  /** The engine's stored token is its newest, and no other token of the engine is live. */
  predicate TokenOk(s: System, id: nat)
    requires id < |s.sweeps|
  {
    var w := s.sweeps[id];
    && w.engine < |s.engines|
    && (!w.cancelled ==> s.engines[w.engine].current == Some(id))
  }

  /** A registered sweep is finished, in its engine's list, or among the handles `stop` is joining. */
  predicate Tracked(s: System, id: nat)
    requires id < |s.sweeps| && s.sweeps[id].engine < |s.engines|
  {
    var w := s.sweeps[id];
    w.stage == Registered ==>
      || w.phase == Done
      || id in s.engines[w.engine].handles
      || (s.stop.Joining? && id in s.stop.handles)
  }

  predicate StopOk(s: System) {
    && (!s.stop.Idle? ==> s.ctxCancelled && forall w <- s.sweeps :: w.stage == Registered)
    && (s.stop.Draining? ==> s.stop.k <= |s.engines| && forall e :: 0 <= e < s.stop.k ==> s.engines[e].handles == [])
    && (s.stop.Joining? ==> s.stop.k < |s.engines| && forall e :: 0 <= e <= s.stop.k ==> s.engines[e].handles == [])
    && (s.stop.Joining? ==> forall h <- s.stop.handles :: h < |s.sweeps|)
    && (s.stop.Stopped? ==> forall w <- s.sweeps :: w.phase == Done)
  }

  ghost predicate Inv(s: System) {
    && (forall id :: 0 <= id < |s.sweeps| ==>
          SweepOk(s.sweeps[id], Cancelled(s, id)) && TokenOk(s, id) && Tracked(s, id))
    && (forall e <- s.engines :: forall h <- e.handles :: h < |s.sweeps|)
    && StopOk(s)
  }

  lemma StartInv(engines: nat)
    ensures Inv(Start(engines))
  {
  }

  lemma CancelKeepsOk(w: Sweep, c: bool)
    requires SweepOk(w, c)
    ensures SweepOk(w.(cancelled := true), true) && SweepOk(w, true)
  {
  }

  lemma AdvanceKeepsOk(w: Sweep, c: bool, choice: bool)
    requires SweepOk(w, c) && CanAdvance(w, c, choice)
    ensures SweepOk(AdvancedSweep(w, c, choice), c)
  {
    hide Private;
    OneTested(w.tested, choice);
  }

  lemma OneTested(tested: seq<bool>, answer: bool)
    ensures Private(tested + [answer]) == Private(tested) + (if answer then 1 else 0)
    ensures tested + [] == tested
  {
    assert (tested + [answer])[..|tested|] == tested;
  }

  lemma NewOk(engine: nat, kind: Kind, c: bool)
    ensures SweepOk(Sweep(engine, kind, false, Created, FirstPhase(kind), 0, 0, []), c)
  {
  }

  lemma BeginInv(s: System, a: Action)
    requires Inv(s) && a.Begin? && Enabled(s, a)
    ensures Inv(Apply(s, a))
  {
    hide SweepOk;
    var s', e := Apply(s, a), a.engine;
    NewOk(e, a.kind, s.ctxCancelled);
    forall id | 0 <= id < |s'.sweeps|
      ensures SweepOk(s'.sweeps[id], Cancelled(s', id)) && TokenOk(s', id) && Tracked(s', id)
    {
      if id < |s.sweeps| {
        assert SweepOk(s.sweeps[id], Cancelled(s, id)) && TokenOk(s, id) && Tracked(s, id);
        CancelKeepsOk(s.sweeps[id], Cancelled(s, id));
      }
    }
    assert forall g <- s'.engines :: forall h <- g.handles :: h < |s.sweeps|;
  }

  lemma StageKeepsOk(w: Sweep, stage: Stage, c: bool)
    requires SweepOk(w, c) && stage != Created
    ensures SweepOk(w.(stage := stage), c)
  {
  }

  lemma StageInv(s: System, a: Action)
    requires Inv(s) && (a.Spawn? || a.Register?) && Enabled(s, a)
    ensures Inv(Apply(s, a))
  {
    hide SweepOk;
    var s' := Apply(s, a);
    assert s.stop.Idle? by { assert s.sweeps[a.id] in s.sweeps; }
    StageKeepsOk(s.sweeps[a.id], s'.sweeps[a.id].stage, Cancelled(s, a.id));
    forall id | 0 <= id < |s'.sweeps|
      ensures SweepOk(s'.sweeps[id], Cancelled(s', id)) && TokenOk(s', id) && Tracked(s', id)
    {
      assert SweepOk(s.sweeps[id], Cancelled(s, id)) && TokenOk(s, id) && Tracked(s, id);
    }
    forall g | g in s'.engines ensures forall h <- g.handles :: h < |s'.sweeps| {
      var e :| 0 <= e < |s'.engines| && s'.engines[e] == g;
      assert s.engines[e] in s.engines;
    }
  }

  lemma AdvanceInv(s: System, a: Action)
    requires Inv(s) && a.Advance? && Enabled(s, a)
    ensures Inv(Apply(s, a))
  {
    hide SweepOk, StopOk;
    var s' := Apply(s, a);
    var w' := s'.sweeps[a.id];
    forall id | 0 <= id < |s'.sweeps|
      ensures SweepOk(s'.sweeps[id], Cancelled(s', id)) && TokenOk(s', id) && Tracked(s', id)
      ensures s.sweeps[id].phase == Done ==> s'.sweeps[id].phase == Done
      ensures s'.sweeps[id].stage == s.sweeps[id].stage
    {
      assert SweepOk(s.sweeps[id], Cancelled(s, id)) && TokenOk(s, id) && Tracked(s, id);
      AdvanceKeepsOk(s.sweeps[a.id], Cancelled(s, a.id), a.choice);
    }
    SameStages(s, s');
  }

  lemma SameStages(s: System, s': System)
    requires StopOk(s) && |s'.sweeps| == |s.sweeps| && s' == s.(sweeps := s'.sweeps)
    requires forall id :: 0 <= id < |s.sweeps| ==>
               s'.sweeps[id].stage == s.sweeps[id].stage && (s.sweeps[id].phase == Done ==> s'.sweeps[id].phase == Done)
    ensures StopOk(s')
  {
    forall w | w in s'.sweeps
      ensures (!s.stop.Idle? ==> w.stage == Registered) && (s.stop.Stopped? ==> w.phase == Done)
    {
      var id :| 0 <= id < |s'.sweeps| && s'.sweeps[id] == w;
      assert s.sweeps[id] in s.sweeps;
    }
  }

  lemma BeginStopInv(s: System)
    requires Inv(s) && Enabled(s, BeginStop)
    ensures Inv(Apply(s, BeginStop))
  {
    var s' := Apply(s, BeginStop);
    forall id | 0 <= id < |s'.sweeps|
      ensures SweepOk(s'.sweeps[id], Cancelled(s', id)) && TokenOk(s', id) && Tracked(s', id)
    {
      assert SweepOk(s.sweeps[id], Cancelled(s, id)) && TokenOk(s, id) && Tracked(s, id);
      CancelKeepsOk(s.sweeps[id], Cancelled(s, id));
    }
  }

  lemma StopStepInv(s: System)
    requires Inv(s) && Enabled(s, StopStep)
    ensures Inv(Apply(s, StopStep))
  {
    var s' := Apply(s, StopStep);
    assert s'.sweeps == s.sweeps && s'.ctxCancelled == s.ctxCancelled;
    forall id | 0 <= id < |s.sweeps|
      ensures SweepOk(s'.sweeps[id], Cancelled(s', id)) && TokenOk(s', id) && Tracked(s', id)
      ensures s'.stop.Stopped? ==> s.sweeps[id].phase == Done
    {
      assert SweepOk(s.sweeps[id], Cancelled(s, id)) && TokenOk(s, id) && Tracked(s, id);
      assert s.sweeps[id] in s.sweeps && s.sweeps[id].stage == Registered;
    }
    if s.stop.Draining? && s.stop.k < |s.engines| {
      assert s.engines[s.stop.k] in s.engines;
    }
    if s.stop.Joining? && s.stop.handles != [] {
      assert forall h :: h in s.stop.handles[1..] ==> h in s.stop.handles;
    }
    forall g | g in s'.engines ensures forall h <- g.handles :: h < |s'.sweeps| {
      var e :| 0 <= e < |s'.engines| && s'.engines[e] == g;
      assert s.engines[e] in s.engines;
    }
  }

  /** Every step of every actor keeps the invariant. */
  lemma StepInv(s: System, a: Action)
    requires Inv(s) && Enabled(s, a)
    ensures Inv(Apply(s, a))
  {
    hide Inv, Apply, Enabled;
    match a
    case Begin(_, _) => BeginInv(s, a);
    case Spawn(_) => StageInv(s, a);
    case Register(_) => StageInv(s, a);
    case Advance(_, _) => AdvanceInv(s, a);
    case BeginStop => BeginStopInv(s);
    case StopStep => StopStepInv(s);
  }

  lemma {:induction false} ExecuteInv(s: System, schedule: seq<Action>)
    requires Inv(s)
    ensures Inv(Execute(s, schedule))
    decreases |schedule|
  {
    hide Inv, Apply, Enabled;
    if schedule != [] {
      if Enabled(s, schedule[0]) {
        StepInv(s, schedule[0]);
        ExecuteInv(Apply(s, schedule[0]), schedule[1..]);
      } else {
        ExecuteInv(s, schedule[1..]);
      }
    }
  }

  // ---------- safety ----------

  /** In every interleaving, an uncancelled token is the one its engine stores: no engine has two. */
  lemma OneLiveSweep(engines: nat, schedule: seq<Action>, i: nat, j: nat)
    requires var s := Execute(Start(engines), schedule);
             && i < |s.sweeps| && j < |s.sweeps| && s.sweeps[i].engine == s.sweeps[j].engine
             && !s.sweeps[i].cancelled && !s.sweeps[j].cancelled
    ensures i == j
    ensures var s := Execute(Start(engines), schedule);
            s.sweeps[i].engine < |s.engines| && s.engines[s.sweeps[i].engine].current == Some(i)
  {
    StartInv(engines);
    ExecuteInv(Start(engines), schedule);
    var s := Execute(Start(engines), schedule);
    assert TokenOk(s, i) && TokenOk(s, j);
  }

  /** In every interleaving, a sweep sends at most its number of rounds, and at most one after its
      cancellation; an Arecont sweep that ends uncancelled has sent all four. */
  lemma RoundsBounded(engines: nat, schedule: seq<Action>, id: nat)
    requires id < |Execute(Start(engines), schedule).sweeps|
    ensures var s := Execute(Start(engines), schedule);
            var w := s.sweeps[id];
            && w.rounds <= (match w.kind case Arecont => 4 case Netscan(n) => n)
            && w.late <= (if Cancelled(s, id) then 1 else 0)
            && (w.kind.Arecont? && w.phase.Done? && !Cancelled(s, id) ==> w.rounds == 4)
  {
    StartInv(engines);
    ExecuteInv(Start(engines), schedule);
    var s := Execute(Start(engines), schedule);
    assert SweepOk(s.sweeps[id], Cancelled(s, id));
    PrivateBound(s.sweeps[id].tested);
  }

  lemma {:induction false} PrivateBound(tested: seq<bool>)
    ensures Private(tested) <= |tested|
  {
    if tested != [] { PrivateBound(tested[..|tested| - 1]); }
  }

  /** In every interleaving a finished netscan has sent one round for each address it found private, and unless it was
      cancelled it has tested every address. */
  lemma NetscanExactly(engines: nat, schedule: seq<Action>, id: nat)
    requires id < |Execute(Start(engines), schedule).sweeps|
    requires var w := Execute(Start(engines), schedule).sweeps[id]; w.kind.Netscan? && w.phase.Done?
    ensures var s := Execute(Start(engines), schedule);
            var w := s.sweeps[id];
            && w.rounds == Private(w.tested) && |w.tested| <= w.kind.addresses
            && (!Cancelled(s, id) ==> |w.tested| == w.kind.addresses)
  {
    StartInv(engines);
    ExecuteInv(Start(engines), schedule);
    OneSweepOk(Execute(Start(engines), schedule), id);
  }

  /** The steps of a netscan from address `j` on: a test each, and a round where it is private. */
  function Visits(id: nat, answers: seq<bool>, j: nat): seq<Action>
    requires j <= |answers|
    decreases |answers| - j
  {
    if j == |answers| then [Advance(id, false)]
    else [Advance(id, answers[j])] + ((if answers[j] then [Advance(id, false)] else []) + Visits(id, answers, j + 1))
  }

  /** Whatever the answers, an uncancelled netscan can visit all its addresses. */
  lemma {:induction false} NetscanVisits(s: System, id: nat, answers: seq<bool>, j: nat)
    requires id < |s.sweeps| && !Cancelled(s, id) && j <= |answers|
    requires var w := s.sweeps[id];
             && w.stage != Created && w.kind == Netscan(|answers|) && w.phase == Checking(j) && w.tested == answers[..j]
    ensures var t := Execute(s, Visits(id, answers, j));
            id < |t.sweeps| && t.sweeps[id].phase == Done && t.sweeps[id].tested == answers
    decreases |answers| - j
  {
    hide Execute, Apply, Visits, Cancelled;
    if j == |answers| {
      var last := Advance(id, false);
      Advances(s, id, false);
      ExecuteOne(s, last, []);
      LastVisit(id, answers);
      assert answers[..j] == answers;
    } else {
      var test, rest := Advance(id, answers[j]), Visits(id, answers, j + 1);
      var s1 := Apply(s, test);
      Advances(s, id, answers[j]);
      OneVisit(id, answers, j);
      if answers[j] {
        var send := Advance(id, false);
        Advances(s1, id, false);
        ExecuteOne(s, test, [send] + rest);
        ExecuteOne(s1, send, rest);
        NetscanVisits(Apply(s1, send), id, answers, j + 1);
      } else {
        ExecuteOne(s, test, rest);
        NetscanVisits(s1, id, answers, j + 1);
      }
    }
  }

  lemma LastVisit(id: nat, answers: seq<bool>)
    ensures Visits(id, answers, |answers|) == [Advance(id, false)] + []
  {
  }

  lemma OneVisit(id: nat, answers: seq<bool>, j: nat)
    requires j < |answers|
    ensures var rest := Visits(id, answers, j + 1);
            Visits(id, answers, j) ==
            [Advance(id, answers[j])] + (if answers[j] then [Advance(id, false)] + rest else rest)
    ensures answers[..j + 1] == answers[..j] + [answers[j]]
  {
    var rest := Visits(id, answers, j + 1);
    assert [] + rest == rest;
  }

  /** A step of an uncancelled netscan: a test is recorded, and a round is sent. */
  lemma Advances(s: System, id: nat, answer: bool)
    requires id < |s.sweeps| && !Cancelled(s, id)
    requires var w := s.sweeps[id];
             w.stage != Created && w.kind.Netscan? && (w.phase.Checking? || w.phase.Sending?)
    ensures var t, w := Apply(s, Advance(id, answer)), s.sweeps[id];
            && id < |t.sweeps| && !Cancelled(t, id)
            && var v := t.sweeps[id];
               && v.stage != Created && v.kind == w.kind
               && match w.phase
                  case Checking(j) =>
                    if j >= w.kind.addresses then v.phase == Done && v.tested == w.tested
                    else v.tested == w.tested + [answer] && v.phase == if answer then Sending(j) else Checking(j + 1)
                  case Sending(j) => v.tested == w.tested && v.phase == Checking(j + 1)
                  case _ => true
  {
    assert s.sweeps[id].tested + [] == s.sweeps[id].tested;
  }

  /** The one late round does happen: a replaced task that has not run yet still sends its first query. */
  lemma LateRoundHappens()
    ensures var schedule := [Begin(0, Arecont), Spawn(0), Begin(0, Arecont), Advance(0, false)];
            var s := Execute(Start(1), schedule);
            |s.sweeps| == 2 && s.sweeps[0].cancelled && s.sweeps[0].late == 1
  {
    var s0 := Start(1);
    var s1 := Apply(s0, Begin(0, Arecont));
    var s2 := Apply(s1, Spawn(0));
    var s3 := Apply(s2, Begin(0, Arecont));
    var s4 := Apply(s3, Advance(0, false));
    var schedule := [Begin(0, Arecont), Spawn(0), Begin(0, Arecont), Advance(0, false)];
    assert Execute(s3, schedule[3..]) == s4;
    assert Execute(s2, schedule[2..]) == s4 by { assert schedule[2..][1..] == schedule[3..]; }
    assert Execute(s1, schedule[1..]) == s4 by { assert schedule[1..][1..] == schedule[2..]; }
  }

  /** A cancelled sweep that will not send: it is done, or will next see its cancellation. */
  predicate Quiet(s: System, id: nat)
    requires id < |s.sweeps|
  {
    Cancelled(s, id) && (s.sweeps[id].phase.Checking? || s.sweeps[id].phase.Done?)
  }

  lemma QuietStep(s: System, a: Action, id: nat)
    requires id < |s.sweeps| && Quiet(s, id) && Enabled(s, a)
    ensures var s' := Apply(s, a);
            id < |s'.sweeps| && Quiet(s', id) && s'.sweeps[id].late == s.sweeps[id].late
  {
  }

  lemma {:induction false} QuietForever(s: System, id: nat, schedule: seq<Action>)
    requires id < |s.sweeps| && Quiet(s, id)
    ensures var t := Execute(s, schedule);
            id < |t.sweeps| && t.sweeps[id].late == s.sweeps[id].late
    decreases |schedule|
  {
    hide Quiet, Apply, Enabled;
    if schedule != [] {
      if Enabled(s, schedule[0]) {
        QuietStep(s, schedule[0], id);
        QuietForever(Apply(s, schedule[0]), id, schedule[1..]);
      } else {
        QuietForever(s, id, schedule[1..]);
      }
    }
  }

  /** The steps that lead a sweep to its next round: spawn it if need be, let its timer fire, send. */
  function Onward(w: Sweep, id: nat): seq<Action> {
    (if w.stage.Created? then [Spawn(id)] else [])
    + (if w.phase.Waiting? then [Advance(id, true)] else [])
    + [Advance(id, true)]
  }

  lemma ExecuteOne(s: System, a: Action, rest: seq<Action>)
    requires Enabled(s, a)
    ensures Execute(s, [a] + rest) == Execute(Apply(s, a), rest)
    ensures Execute(Apply(s, a), []) == Apply(s, a)
  {
    hide Apply, Enabled;
    assert ([a] + rest)[0] == a && ([a] + rest)[1..] == rest;
  }

  lemma OnwardSends(s: System, id: nat)
    requires Inv(s) && id < |s.sweeps| && Cancelled(s, id)
    requires s.sweeps[id].phase.Sending? || s.sweeps[id].phase.Waiting?
    ensures var t := Execute(s, Onward(s.sweeps[id], id));
            id < |t.sweeps| && t.sweeps[id].late == s.sweeps[id].late + 1
  {
    hide Execute, Inv;
    assert SweepOk(s.sweeps[id], Cancelled(s, id)) by { OneSweepOk(s, id); }
    var w, send := s.sweeps[id], [Advance(id, true)];
    if w.stage.Created? {
      var s' := Apply(s, Spawn(id));
      assert Onward(w, id) == [Spawn(id)] + send;
      ExecuteOne(s, Spawn(id), send);
      SendIsLate(s', id);
    } else if w.phase.Waiting? {
      var s' := Apply(s, Advance(id, true));
      assert Onward(w, id) == [Advance(id, true)] + send;
      ExecuteOne(s, Advance(id, true), send);
      SendIsLate(s', id);
    } else {
      assert Onward(w, id) == send;
      SendIsLate(s, id);
    }
  }

  lemma OneSweepOk(s: System, id: nat)
    requires Inv(s) && id < |s.sweeps|
    ensures SweepOk(s.sweeps[id], Cancelled(s, id))
  {
  }

  lemma SendIsLate(s: System, id: nat)
    requires id < |s.sweeps| && Cancelled(s, id) && s.sweeps[id].phase.Sending? && s.sweeps[id].stage != Created
    ensures var t := Execute(s, [Advance(id, true)]);
            id < |t.sweeps| && t.sweeps[id].late == s.sweeps[id].late + 1
  {
    hide Execute;
    var a := Advance(id, true);
    ExecuteOne(s, a, []);
    assert [a] + [] == [a];
  }

  lemma WillBeQuiet(s: System, id: nat)
    requires id < |s.sweeps| && Cancelled(s, id) && !s.sweeps[id].phase.Sending? && !s.sweeps[id].phase.Waiting?
    ensures Quiet(s, id)
  {
  }

  /** In every state an execution can reach, a cancelled sweep can still send a round exactly when its task sleeps or
      is about to send. */
  lemma LateRoundExactly(s: System, id: nat)
    requires Inv(s) && id < |s.sweeps| && Cancelled(s, id)
    ensures (exists schedule :: id < |Execute(s, schedule).sweeps|
                             && Execute(s, schedule).sweeps[id].late > s.sweeps[id].late)
       <==> s.sweeps[id].phase.Sending? || s.sweeps[id].phase.Waiting?
  {
    hide Execute, Inv, Quiet, Onward, Cancelled;
    if s.sweeps[id].phase.Sending? || s.sweeps[id].phase.Waiting? {
      OnwardSends(s, id);
    } else {
      WillBeQuiet(s, id);
      forall schedule | id < |Execute(s, schedule).sweeps|
        ensures Execute(s, schedule).sweeps[id].late == s.sweeps[id].late
      {
        QuietForever(s, id, schedule);
      }
    }
  }

  /** When `stop` has returned, every sweep any scan ever made has finished. */
  lemma StopJoinsAll(engines: nat, schedule: seq<Action>)
    requires Execute(Start(engines), schedule).stop.Stopped?
    ensures forall w <- Execute(Start(engines), schedule).sweeps :: w.stage == Registered && w.phase == Done
  {
    StartInv(engines);
    ExecuteInv(Start(engines), schedule);
  }

  // ---------- stop returns ----------

  /** How many more steps a task can take. */
  function Rank(w: Sweep): nat {
    match (w.kind, w.phase)
    case (_, Done) => 0
    case (Arecont, p) =>
      var left := if p.i < SWEEP_COUNT then SWEEP_COUNT - p.i else 0;
      3 * left + (match p case Sending(_) => 0 case Waiting(_) => 1 case Checking(_) => 2 case Done => 0)
    case (Netscan(n), p) =>
      var left := if p.i <= n then n - p.i else 0;
      2 * left + (if p.Checking? then 1 else 0)
  }

  function RankSum(ws: seq<Sweep>): nat { if ws == [] then 0 else Rank(ws[0]) + RankSum(ws[1..]) }

  function HandleCount(es: seq<Engine>): nat { if es == [] then 0 else |es[0].handles| + HandleCount(es[1..]) }

  /** How many more steps `stop` can take. */
  function StopRank(s: System): nat {
    var n := |s.engines|;
    match s.stop
    case Idle => 2 * n + 2 + HandleCount(s.engines)
    case Draining(k) => 2 * (if k <= n then n - k else 0) + 1 + HandleCount(s.engines)
    case Joining(k, hs) => 2 * (if k <= n then n - k else 0) + |hs| + HandleCount(s.engines)
    case Stopped => 0
  }

  function Measure(s: System): nat { RankSum(s.sweeps) + StopRank(s) }

  lemma {:induction false} RankSumUpdate(ws: seq<Sweep>, i: nat, w: Sweep)
    requires i < |ws|
    ensures RankSum(ws[i := w]) == RankSum(ws) - Rank(ws[i]) + Rank(w)
  {
    if i == 0 {
      assert ws[0 := w][1..] == ws[1..];
    } else {
      assert ws[i := w][1..] == ws[1..][i - 1 := w];
      RankSumUpdate(ws[1..], i - 1, w);
    }
  }

  lemma {:induction false} HandleCountUpdate(es: seq<Engine>, i: nat, e: Engine)
    requires i < |es|
    ensures HandleCount(es[i := e]) == HandleCount(es) - |es[i].handles| + |e.handles|
  {
    if i == 0 {
      assert es[0 := e][1..] == es[1..];
    } else {
      assert es[i := e][1..] == es[1..][i - 1 := e];
      HandleCountUpdate(es[1..], i - 1, e);
    }
  }

  lemma AdvanceDescends(w: Sweep, c: bool, choice: bool)
    requires SweepOk(w, c) && CanAdvance(w, c, choice)
    ensures Rank(AdvancedSweep(w, c, choice)) < Rank(w)
  {
  }

  /** Once `stop` has begun every step that is taken brings its return nearer. */
  lemma StepDescends(s: System, a: Action)
    requires Inv(s) && !s.stop.Idle? && Enabled(s, a)
    ensures !Apply(s, a).stop.Idle? && Measure(Apply(s, a)) < Measure(s)
  {
    forall id | 0 <= id < |s.sweeps| ensures s.sweeps[id].stage == Registered {
      assert s.sweeps[id] in s.sweeps;
    }
    match a
    case Advance(id, c) =>
      AdvanceDescends(s.sweeps[id], Cancelled(s, id), c);
      RankSumUpdate(s.sweeps, id, AdvancedSweep(s.sweeps[id], Cancelled(s, id), c));
    case StopStep =>
      if s.stop.Draining? && s.stop.k < |s.engines| {
        HandleCountUpdate(s.engines, s.stop.k, s.engines[s.stop.k].(handles := []));
      }
    case _ =>
  }

  /** Until `stop` has returned some step is always possible: nothing it waits for can be blocked. */
  lemma StopIsNotBlocked(s: System) returns (a: Action)
    requires Inv(s) && !s.stop.Idle? && !s.stop.Stopped?
    ensures Enabled(s, a)
  {
    a := StopStep;
    if s.stop.Joining? && s.stop.handles != [] {
      var id := s.stop.handles[0];
      assert id in s.stop.handles;
      assert s.sweeps[id] in s.sweeps;
      if s.sweeps[id].phase != Done { a := Advance(id, true); }
    }
  }

  /** Every step of the schedule is possible when its turn comes. */
  ghost predicate Runs(s: System, schedule: seq<Action>)
    decreases |schedule|
  {
    schedule != [] ==> Enabled(s, schedule[0]) && Runs(Apply(s, schedule[0]), schedule[1..])
  }

  /** From any state an execution can reach after `stop` began, at most `Measure` steps are possible however `stop` and
      the tasks are scheduled, and a schedule that cannot be continued ends with `stop` returned. */
  lemma {:induction false} StopReturns(s: System, schedule: seq<Action>)
    requires Inv(s) && !s.stop.Idle? && Runs(s, schedule)
    ensures var t := Execute(s, schedule);
            && |schedule| + Measure(t) <= Measure(s)
            && ((forall a :: !Enabled(t, a)) ==> t.stop.Stopped?)
    decreases |schedule|
  {
    hide Inv, Apply, Enabled, Measure;
    if schedule == [] {
      if !s.stop.Stopped? { var a := StopIsNotBlocked(s); }
    } else {
      var a := schedule[0];
      StepInv(s, a);
      StepDescends(s, a);
      StopReturns(Apply(s, a), schedule[1..]);
    }
  }
}
