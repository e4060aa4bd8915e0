/** The threads around file-backed memory (common_service/mmap_file_backend/src/apis.rs): callers that
    register and unregister regions, and the fault handler that the first registration spawns and that
    exits when it finds no region. They share the `REGISTER` mutex, the mutex around the region list
    and the notify pipe. */
module FaultHandler {
  import opened Seqs

  /** A registered region; `late` records whether a handler was already on its way out. */
  datatype Region = Region(uffd: nat, addr: nat, late: bool)

  /** A caller between two steps. All states but `Idle` hold `REGISTER`; those after `RegWaiting` and
      `UnHeld` also hold the region list. From `UnHeld` on the caller also holds a read guard of the
      pipe. */
  datatype Client =
    | Idle
    | RegHeld(uffd: nat, addr: nat)
    | RegWaiting(uffd: nat, addr: nat)
    | RegLocked(uffd: nat, addr: nat)
    | Pushed
    | NeedInit
    | NeedSpawn
    | UnHeld(addr: nat)
    | UnLocked(addr: nat)

  /** A fault handler. While it waits for an event it holds the region list; `events` are the descriptors
      it added to its epoll set, by index. */
  datatype Handler =
    | Starting
    | Looping
    | Waiting(events: seq<nat>)
    | Draining
    | Exiting
    | Gone
    | Panicked

  datatype Holder = ByClient(t: nat) | ByHandler(h: nat)

  datatype State = State(regs: seq<Region>, pipe: bool, register: Option<nat>, regionsLock: Option<Holder>,
                         clients: seq<Client>, handlers: seq<Handler>, nextUffd: nat)

  datatype Step =
    | RegAcquire(t: nat, addr: nat)
    | RegTryLock(t: nat)
    | RegLock(t: nat)
    | RegPush(t: nat)
    | RegCheck(t: nat)
    | RegInit(t: nat)
    | RegSpawn(t: nat)
    | UnAcquire(t: nat, addr: nat)
    | UnLock(t: nat)
    | UnRemove(t: nat)
    | HandlerStart(h: nat)
    | HandlerLock(h: nat)
    | HandlerServe(h: nat, idx: nat)
    | HandlerSpurious(h: nat)
    | HandlerNotified(h: nat)
    | HandlerConsume(h: nat)
    | HandlerClear(h: nat)

  function Init(clients: nat): State {
    State([], false, None, None, seq(clients, _ => Idle), [], 0)
  }

  function Uffds(regs: seq<Region>): (r: seq<nat>)
    ensures |r| == |regs| && forall i :: 0 <= i < |r| ==> r[i] == regs[i].uffd
  {
    seq(|regs|, i requires 0 <= i < |regs| => regs[i].uffd)
  }

  /** The list without the first region at `addr`. */
  function Without(regs: seq<Region>, addr: nat): (r: seq<Region>)
    ensures forall x :: x in r ==> x in regs
  {
    if regs == [] then [] else if regs[0].addr == addr then regs[1..] else [regs[0]] + Without(regs[1..], addr)
  }

  predicate Active(h: Handler) {
    !h.Gone? && !h.Panicked?
  }

  ghost predicate SomeExiting(s: State) {
    exists h :: 0 <= h < |s.handlers| && s.handlers[h].Exiting?
  }

  /** A client in `unregister` keeps the pipe from being cleared. */
  ghost predicate PipeGuarded(s: State) {
    exists t :: 0 <= t < |s.clients| && (s.clients[t].UnHeld? || s.clients[t].UnLocked?)
  }

  ghost predicate EnabledClient(s: State, t: nat, step: Step)
    requires t < |s.clients|
  {
    var c := s.clients[t];
    match step
    case RegAcquire(_, _) => c.Idle? && s.register.None?
    case RegTryLock(_) => c.RegHeld?
    case RegLock(_) => c.RegWaiting? && s.regionsLock.None?
    case RegPush(_) => c.RegLocked?
    case RegCheck(_) => c.Pushed?
    case RegInit(_) => c.NeedInit?
    case RegSpawn(_) => c.NeedSpawn?
    case UnAcquire(_, _) => c.Idle? && s.register.None? && s.pipe
    case UnLock(_) => c.UnHeld? && s.regionsLock.None?
    case UnRemove(_) => c.UnLocked?
    case _ => false
  }

  ghost predicate EnabledHandler(s: State, h: nat, step: Step)
    requires h < |s.handlers|
  {
    var x := s.handlers[h];
    match step
    case HandlerStart(_) => x.Starting?
    case HandlerLock(_) => x.Looping? && s.regionsLock.None?
    case HandlerServe(_, idx) => x.Waiting? && idx < |x.events|
    case HandlerSpurious(_) => x.Waiting?
    case HandlerNotified(_) => x.Waiting?
    case HandlerConsume(_) => x.Draining?
    case HandlerClear(_) => x.Exiting? && !PipeGuarded(s)
    case _ => false
  }

  predicate ClientStep(step: Step) {
    || step.RegAcquire? || step.RegTryLock? || step.RegLock? || step.RegPush? || step.RegCheck? || step.RegInit?
    || step.RegSpawn? || step.UnAcquire? || step.UnLock? || step.UnRemove?
  }

  ghost predicate Enabled(s: State, step: Step) {
    if ClientStep(step) then step.t < |s.clients| && EnabledClient(s, step.t, step)
    else step.h < |s.handlers| && EnabledHandler(s, step.h, step)
  }

  function SetClient(s: State, t: nat, c: Client): State
    requires t < |s.clients|
  {
    s.(clients := s.clients[t := c])
  }

  function SetHandler(s: State, h: nat, x: Handler): State
    requires h < |s.handlers|
  {
    s.(handlers := s.handlers[h := x])
  }

  /** The end of a call: both mutexes are released. */
  function Return(s: State, t: nat): State
    requires t < |s.clients|
  {
    SetClient(s, t, Idle).(register := None, regionsLock := None)
  }

  ghost function ApplyClient(s: State, t: nat, step: Step): State
    requires t < |s.clients| && EnabledClient(s, t, step)
  {
    var c := s.clients[t];
    match step
    case RegAcquire(_, addr) =>
      SetClient(s, t, RegHeld(s.nextUffd, addr)).(register := Some(t), nextUffd := s.nextUffd + 1)
    case RegTryLock(_) =>
      if s.regionsLock.None? then SetClient(s, t, RegLocked(c.uffd, c.addr)).(regionsLock := Some(ByClient(t)))
      else if s.pipe then SetClient(s, t, RegWaiting(c.uffd, c.addr))
      else SetClient(s, t, Idle).(register := None)
    case RegLock(_) => SetClient(s, t, RegLocked(c.uffd, c.addr)).(regionsLock := Some(ByClient(t)))
    case RegPush(_) => SetClient(s, t, Pushed).(regs := s.regs + [Region(c.uffd, c.addr, SomeExiting(s))])
    case RegCheck(_) => if s.pipe then Return(s, t) else SetClient(s, t, NeedInit)
    case RegInit(_) => if s.pipe then Return(s, t) else SetClient(s, t, NeedSpawn).(pipe := true)
    case RegSpawn(_) => Return(s, t).(handlers := s.handlers + [Starting])
    case UnAcquire(_, addr) => SetClient(s, t, UnHeld(addr)).(register := Some(t))
    case UnLock(_) => SetClient(s, t, UnLocked(c.addr)).(regionsLock := Some(ByClient(t)))
    case UnRemove(_) => Return(s, t).(regs := Without(s.regs, c.addr))
  }

  ghost function ApplyHandler(s: State, h: nat, step: Step): State
    requires h < |s.handlers| && EnabledHandler(s, h, step)
  {
    match step
    case HandlerStart(_) => SetHandler(s, h, if s.pipe then Looping else Panicked)
    case HandlerLock(_) =>
      if s.regs == [] then SetHandler(s, h, Exiting)
      else SetHandler(s, h, Waiting(Uffds(s.regs))).(regionsLock := Some(ByHandler(h)))
    case HandlerServe(_, _) => SetHandler(s, h, Looping).(regionsLock := None)
    case HandlerSpurious(_) => SetHandler(s, h, Looping).(regionsLock := None)
    case HandlerNotified(_) => SetHandler(s, h, Draining).(regionsLock := None)
    case HandlerConsume(_) => SetHandler(s, h, if s.pipe then Looping else Panicked)
    case HandlerClear(_) => SetHandler(s, h, Gone).(pipe := false)
  }

  ghost function Apply(s: State, step: Step): State
    requires Enabled(s, step)
  {
    if ClientStep(step) then ApplyClient(s, step.t, step) else ApplyHandler(s, step.h, step)
  }

  ghost predicate IsRun(s: State, steps: seq<Step>, r: State)
    decreases |steps|
  {
    if steps == [] then s == r
    else
      var n := |steps| - 1;
      exists m :: IsRun(s, steps[..n], m) && Enabled(m, steps[n]) && r == Apply(m, steps[n])
  }

  // ----- The invariant -----

  predicate HoldsRegions(c: Client) {
    c.RegLocked? || c.Pushed? || c.NeedInit? || c.NeedSpawn? || c.UnLocked?
  }

  /** A registration that has pushed its region and may yet have to spawn the handler. */
  predicate Committing(c: Client) {
    c.Pushed? || c.NeedInit? || c.NeedSpawn?
  }

  ghost predicate LocksOk(s: State) {
    && (forall t :: 0 <= t < |s.clients| && !s.clients[t].Idle? ==> s.register == Some(t))
    && (forall t :: 0 <= t < |s.clients| && HoldsRegions(s.clients[t]) ==> s.regionsLock == Some(ByClient(t)))
    && (forall h :: 0 <= h < |s.handlers| && s.handlers[h].Waiting? ==> s.regionsLock == Some(ByHandler(h)))
  }

  /** One handler at most, and the pipe is there for it. */
  ghost predicate OneHandler(s: State) {
    && (forall g, h ::
          (&& 0 <= g < |s.handlers| && Active(s.handlers[g])
           && 0 <= h < |s.handlers| && Active(s.handlers[h])) ==> g == h)
    && (forall h :: 0 <= h < |s.handlers| && Active(s.handlers[h]) ==> s.pipe)
    && (forall h :: 0 <= h < |s.handlers| ==> !s.handlers[h].Panicked?)
    && (forall t :: 0 <= t < |s.clients| && s.clients[t].NeedInit? ==> !s.pipe)
    && (forall t :: 0 <= t < |s.clients| && s.clients[t].NeedSpawn? ==> s.pipe && !SomeActive(s))
    && (s.pipe ==> SomeActive(s) || exists t :: 0 <= t < |s.clients| && s.clients[t].NeedSpawn?)
  }

  ghost predicate SomeActive(s: State) {
    exists h :: 0 <= h < |s.handlers| && Active(s.handlers[h])
  }

  /** The events a handler waits for are those of the regions in the list, at the same indices. */
  ghost predicate EventsMatch(s: State) {
    forall h :: 0 <= h < |s.handlers| && s.handlers[h].Waiting? ==> s.handlers[h].events == Uffds(s.regs)
  }

  ghost predicate AllLate(s: State) {
    forall i :: 0 <= i < |s.regs| ==> s.regs[i].late
  }

  ghost predicate SomeCommitting(s: State) {
    exists t :: 0 <= t < |s.clients| && Committing(s.clients[t])
  }

  /** A region without a handler was pushed while the last handler was exiting. */
  ghost predicate OnlyLateUnserved(s: State) {
    && (SomeExiting(s) ==> AllLate(s))
    && (!SomeActive(s) && !SomeCommitting(s) ==> AllLate(s))
  }

  ghost predicate Inv(s: State) {
    LocksOk(s) && OneHandler(s) && EventsMatch(s) && OnlyLateUnserved(s)
  }

  // ----- Each step keeps it -----

  lemma LocksClient(s: State, t: nat, step: Step)
    requires LocksOk(s) && t < |s.clients| && EnabledClient(s, t, step)
    ensures LocksOk(ApplyClient(s, t, step))
  {
  }

  lemma LocksHandler(s: State, h: nat, step: Step)
    requires LocksOk(s) && h < |s.handlers| && EnabledHandler(s, h, step)
    ensures LocksOk(ApplyHandler(s, h, step))
  {
  }

  lemma EventsClient(s: State, t: nat, step: Step)
    requires LocksOk(s) && EventsMatch(s) && t < |s.clients| && EnabledClient(s, t, step)
    ensures EventsMatch(ApplyClient(s, t, step))
  {
  }

  lemma EventsHandler(s: State, h: nat, step: Step)
    requires LocksOk(s) && EventsMatch(s) && h < |s.handlers| && EnabledHandler(s, h, step)
    ensures EventsMatch(ApplyHandler(s, h, step))
  {
  }

  lemma SameHandlers(s: State, r: State)
    requires r.handlers == s.handlers
    ensures SomeActive(r) == SomeActive(s) && SomeExiting(r) == SomeExiting(s)
  {
  }

  lemma HandlerClient(s: State, t: nat, step: Step)
    requires LocksOk(s) && OneHandler(s) && t < |s.clients| && EnabledClient(s, t, step)
    ensures OneHandler(ApplyClient(s, t, step))
  {
    var r := ApplyClient(s, t, step);
    if step.RegSpawn? {
      assert Active(r.handlers[|s.handlers|]);
    } else {
      SameHandlers(s, r);
      if step.RegInit? {
        assert r.clients[t].NeedSpawn?;
      }
      if s.pipe && !SomeActive(s) {
        var u :| 0 <= u < |s.clients| && s.clients[u].NeedSpawn?;
        assert u != t ==> r.clients[u].NeedSpawn?;
      }
    }
  }

  lemma HandlerHandler(s: State, h: nat, step: Step)
    requires LocksOk(s) && OneHandler(s) && h < |s.handlers| && EnabledHandler(s, h, step)
    ensures OneHandler(ApplyHandler(s, h, step))
  {
    var r := ApplyHandler(s, h, step);
    assert Active(s.handlers[h]);
    if !step.HandlerClear? { assert Active(r.handlers[h]); }
  }

  lemma LateClient(s: State, t: nat, step: Step)
    requires Inv(s) && t < |s.clients| && EnabledClient(s, t, step)
    ensures OnlyLateUnserved(ApplyClient(s, t, step))
  {
    var r := ApplyClient(s, t, step);
    if step.RegSpawn? {
      assert Active(r.handlers[|s.handlers|]);
      assert !SomeExiting(r);
    } else if step.RegPush? || step.RegInit? {
      SameHandlers(s, r);
      assert Committing(r.clients[t]) || step.RegInit?;
    } else if step.RegCheck? {
      LateCheck(s, t);
    } else if step.UnRemove? {
      LateRemove(s, t);
    } else {
      SameHandlers(s, r);
      StillCommitting(s, t, r);
    }
  }

  lemma StillCommitting(s: State, t: nat, r: State)
    requires t < |s.clients| && |r.clients| == |s.clients| && !Committing(s.clients[t])
    requires forall u :: 0 <= u < |s.clients| && u != t ==> r.clients[u] == s.clients[u]
    ensures SomeCommitting(s) ==> SomeCommitting(r)
  {
    if SomeCommitting(s) {
      var u :| 0 <= u < |s.clients| && Committing(s.clients[u]);
      assert Committing(r.clients[u]);
    }
  }

  /** A registration that finds the pipe finds a handler. */
  lemma LateCheck(s: State, t: nat)
    requires Inv(s) && t < |s.clients| && s.clients[t].Pushed?
    ensures s.pipe ==> SomeActive(s)
    ensures OnlyLateUnserved(ApplyClient(s, t, RegCheck(t)))
  {
    var r := ApplyClient(s, t, RegCheck(t));
    SameHandlers(s, r);
    if s.pipe {
      assert forall u :: 0 <= u < |s.clients| && u != t ==> s.clients[u].Idle?;
    } else {
      assert Committing(r.clients[t]);
    }
  }

  lemma LateRemove(s: State, t: nat)
    requires Inv(s) && t < |s.clients| && s.clients[t].UnLocked?
    ensures OnlyLateUnserved(ApplyClient(s, t, UnRemove(t)))
  {
    var r := ApplyClient(s, t, UnRemove(t));
    SameHandlers(s, r);
    assert forall u :: 0 <= u < |s.clients| && u != t ==> s.clients[u].Idle?;
    if AllLate(s) {
      forall i | 0 <= i < |r.regs| ensures r.regs[i].late {
        assert r.regs[i] in s.regs;
      }
    }
  }

  lemma LateHandler(s: State, h: nat, step: Step)
    requires Inv(s) && h < |s.handlers| && EnabledHandler(s, h, step)
    ensures OnlyLateUnserved(ApplyHandler(s, h, step))
  {
    var r := ApplyHandler(s, h, step);
    assert Active(s.handlers[h]);
    if !step.HandlerClear? { assert Active(r.handlers[h]); }
  }

  lemma StepKeeps(s: State, step: Step)
    requires Inv(s) && Enabled(s, step)
    ensures Inv(Apply(s, step))
  {
    if ClientStep(step) {
      LocksClient(s, step.t, step);
      EventsClient(s, step.t, step);
      HandlerClient(s, step.t, step);
      LateClient(s, step.t, step);
    } else {
      LocksHandler(s, step.h, step);
      EventsHandler(s, step.h, step);
      HandlerHandler(s, step.h, step);
      LateHandler(s, step.h, step);
    }
  }

  // ----- Results -----

  /** In every interleaving of registrations, unregistrations and fault handling: at most one handler,
      the pipe there for as long as it lives, and its events in step with the region list. */
  lemma {:induction false} Safety(clients: nat, steps: seq<Step>, s: State)
    requires IsRun(Init(clients), steps, s)
    ensures Inv(s)
    decreases |steps|
  {
    if steps != [] {
      var n := |steps| - 1;
      var m :| IsRun(Init(clients), steps[..n], m) && Enabled(m, steps[n]) && s == Apply(m, steps[n]);
      Safety(clients, steps[..n], m);
      StepKeeps(m, steps[n]);
    }
  }

  /** A fault is always served against the region whose descriptor the event was added for. */
  lemma ServedRegion(clients: nat, steps: seq<Step>, s: State, h: nat, idx: nat)
    requires IsRun(Init(clients), steps, s) && Enabled(s, HandlerServe(h, idx))
    ensures idx < |s.regs| && s.regs[idx].uffd == s.handlers[h].events[idx]
  {
    Safety(clients, steps, s);
  }

  /** No handler ever finds the pipe missing, and no registration finds it already there when it creates
      it. */
  lemma PipeIsThere(clients: nat, steps: seq<Step>, s: State, step: Step)
    requires IsRun(Init(clients), steps, s) && Enabled(s, step)
    ensures step.HandlerStart? || step.HandlerConsume? ==> s.pipe
    ensures step.RegInit? ==> !s.pipe
  {
    Safety(clients, steps, s);
    PipeByHandler(s, step);
  }

  lemma PipeByHandler(s: State, step: Step)
    requires OneHandler(s) && Enabled(s, step)
    ensures step.HandlerStart? || step.HandlerConsume? ==> s.pipe
    ensures step.RegInit? ==> !s.pipe
  {
  }

  /** When nobody is registering and no handler is left, the regions that are still in the list were all
      pushed while the last handler was exiting. */
  lemma UnservedAreLate(clients: nat, steps: seq<Step>, s: State)
    requires IsRun(Init(clients), steps, s) && !SomeActive(s) && !SomeCommitting(s)
    ensures AllLate(s)
  {
    Safety(clients, steps, s);
  }

  /** A handler that exits leaves behind exactly the regions in the list, and all of them are late: the
      exit strands a region if and only if one was pushed, and not yet removed, since the handler found
      the list empty. */
  lemma ExitStrandsExactlyLate(clients: nat, steps: seq<Step>, s: State, h: nat)
    requires IsRun(Init(clients), steps, s) && Enabled(s, HandlerClear(h))
    ensures var r := Apply(s, HandlerClear(h));
            && !SomeActive(r) && !r.pipe && r.regs == s.regs
            && (r.regs != [] <==> exists i :: 0 <= i < |r.regs| && r.regs[i].late)
  {
    Safety(clients, steps, s);
    var r := Apply(s, HandlerClear(h));
    assert Active(s.handlers[h]);
    assert AllLate(s);
    if r.regs != [] { assert r.regs[0].late; }
  }

  // ----- It can happen -----

  lemma Next(s: State, before: seq<Step>, m: State, step: Step, r: State) returns (steps: seq<Step>)
    requires IsRun(s, before, m) && Enabled(m, step) && Apply(m, step) == r
    ensures before <= steps && IsRun(s, steps, r)
  {
    steps := before + [step];
    assert steps[..|before|] == before;
  }

  /** A first registration spawns the handler. */
  lemma RegisterSpawns() returns (steps: seq<Step>)
    ensures IsRun(Init(1), steps, State([Region(0, 4096, false)], true, None, None, [Idle], [Looping], 1))
  {
    var s0 := Init(1);
    var s1 := State([], false, Some(0), None, [RegHeld(0, 4096)], [], 1);
    var s2 := State([], false, Some(0), Some(ByClient(0)), [RegLocked(0, 4096)], [], 1);
    var s3 := State([Region(0, 4096, false)], false, Some(0), Some(ByClient(0)), [Pushed], [], 1);
    assert s0.clients == [Idle];
    steps := Next(s0, [], s0, RegAcquire(0, 4096), s1);
    steps := Next(s0, steps, s1, RegTryLock(0), s2);
    steps := Next(s0, steps, s2, RegPush(0), s3);
    steps := SpawnAfterPush(s0, steps, s3);
  }

  lemma SpawnAfterPush(s0: State, before: seq<Step>, s3: State) returns (steps: seq<Step>)
    requires IsRun(s0, before, s3)
    requires s3 == State([Region(0, 4096, false)], false, Some(0), Some(ByClient(0)), [Pushed], [], 1)
    ensures IsRun(s0, steps, State(s3.regs, true, None, None, [Idle], [Looping], 1))
  {
    var s4 := s3.(clients := [NeedInit]);
    var s5 := s3.(clients := [NeedSpawn], pipe := true);
    var s6 := State(s3.regs, true, None, None, [Idle], [Starting], 1);
    steps := Next(s0, before, s3, RegCheck(0), s4);
    steps := Next(s0, steps, s4, RegInit(0), s5);
    steps := Next(s0, steps, s5, RegSpawn(0), s6);
    steps := Next(s0, steps, s6, HandlerStart(0), s6.(handlers := [Looping]));
  }

  /** The only region is removed and the handler finds the list empty. */
  lemma HandlerLeaves() returns (steps: seq<Step>)
    ensures IsRun(Init(1), steps, State([], true, None, None, [Idle], [Exiting], 1))
  {
    var s0 := Init(1);
    var s7 := State([Region(0, 4096, false)], true, None, None, [Idle], [Looping], 1);
    var s8 := s7.(clients := [UnHeld(4096)], register := Some(0));
    var s9 := s8.(clients := [UnLocked(4096)], regionsLock := Some(ByClient(0)));
    steps := RegisterSpawns();
    steps := Next(s0, steps, s7, UnAcquire(0, 4096), s8);
    steps := Next(s0, steps, s8, UnLock(0), s9);
    steps := LeavesAfterRemove(s0, steps, s9);
  }

  lemma LeavesAfterRemove(s0: State, before: seq<Step>, s9: State) returns (steps: seq<Step>)
    requires IsRun(s0, before, s9)
    requires s9 == State([Region(0, 4096, false)], true, Some(0), Some(ByClient(0)), [UnLocked(4096)], [Looping], 1)
    ensures IsRun(s0, steps, State([], true, None, None, [Idle], [Exiting], 1))
  {
    var s10 := State([], true, None, None, [Idle], [Looping], 1);
    assert Without(s9.regs, 4096) == s9.regs[1..] == [];
    steps := Next(s0, before, s9, UnRemove(0), s10);
    steps := Next(s0, steps, s10, HandlerLock(0), s10.(handlers := [Exiting]));
  }

  /** A region is registered, nobody is busy, and there is no handler to serve its faults: it was pushed
      after the old handler found the list empty and before it cleared the pipe. */
  lemma RegionCanBeStranded() returns (steps: seq<Step>)
    ensures IsRun(Init(1), steps, State([Region(1, 8192, true)], false, None, None, [Idle], [Gone], 2))
  {
    var s0 := Init(1);
    var s11 := State([], true, None, None, [Idle], [Exiting], 1);
    var s12 := State([], true, Some(0), None, [RegHeld(1, 8192)], [Exiting], 2);
    var s13 := s12.(clients := [RegLocked(1, 8192)], regionsLock := Some(ByClient(0)));
    var s14 := s13.(clients := [Pushed], regs := [Region(1, 8192, true)]);
    steps := HandlerLeaves();
    steps := Next(s0, steps, s11, RegAcquire(0, 8192), s12);
    steps := Next(s0, steps, s12, RegTryLock(0), s13);
    assert SomeExiting(s13) by { assert s13.handlers[0].Exiting?; }
    steps := Next(s0, steps, s13, RegPush(0), s14);
    steps := StrandedAfterPush(s0, steps, s14);
  }

  lemma StrandedAfterPush(s0: State, before: seq<Step>, s14: State) returns (steps: seq<Step>)
    requires IsRun(s0, before, s14)
    requires s14 == State([Region(1, 8192, true)], true, Some(0), Some(ByClient(0)), [Pushed], [Exiting], 2)
    ensures IsRun(s0, steps, State(s14.regs, false, None, None, [Idle], [Gone], 2))
  {
    var s15 := State(s14.regs, true, None, None, [Idle], [Exiting], 2);
    steps := Next(s0, before, s14, RegCheck(0), s15);
    steps := Next(s0, steps, s15, HandlerClear(0), s15.(pipe := false, handlers := [Gone]));
  }

  // ----- A later registration makes up for it -----

  /** A registration that finds no pipe ends with the one active handler, which has its pipe. */
  lemma SpawnLeavesHandler(clients: nat, steps: seq<Step>, s: State, t: nat)
    requires IsRun(Init(clients), steps, s) && Enabled(s, RegSpawn(t))
    ensures var r := Apply(s, RegSpawn(t));
            && r.pipe && r.regs == s.regs && |r.handlers| == |s.handlers| + 1
            && (forall h :: 0 <= h < |r.handlers| ==> (Active(r.handlers[h]) <==> h == |s.handlers|))
  {
    Safety(clients, steps, s);
    SpawnIsOnly(s, t);
  }

  lemma SpawnIsOnly(s: State, t: nat)
    requires OneHandler(s) && Enabled(s, RegSpawn(t))
    ensures var r := Apply(s, RegSpawn(t));
            && r.pipe && r.regs == s.regs && |r.handlers| == |s.handlers| + 1
            && (forall h :: 0 <= h < |r.handlers| ==> (Active(r.handlers[h]) <==> h == |s.handlers|))
  {
    assert forall h :: 0 <= h < |s.handlers| ==> !Active(s.handlers[h]);
  }

  /** A handler that waits, waits for every region in the list. */
  lemma WaitsForAll(clients: nat, steps: seq<Step>, s: State, h: nat, idx: nat)
    requires IsRun(Init(clients), steps, s) && h < |s.handlers| && s.handlers[h].Waiting? && idx < |s.regs|
    ensures Enabled(s, HandlerServe(h, idx)) && s.handlers[h].events[idx] == s.regs[idx].uffd
  {
    Safety(clients, steps, s);
  }

  /** Where nobody is busy and there is no pipe, a registration gets as far as its push. */
  lemma PushesAlone(s: State, before: seq<Step>, m: State, t: nat, addr: nat) returns (steps: seq<Step>)
    requires IsRun(s, before, m) && t < |m.clients| && m.clients[t].Idle?
    requires m.register.None? && m.regionsLock.None? && !SomeExiting(m)
    ensures before <= steps
    ensures IsRun(s, steps, m.(clients := m.clients[t := Pushed], register := Some(t), regionsLock := Some(ByClient(t)),
                               regs := m.regs + [Region(m.nextUffd, addr, false)], nextUffd := m.nextUffd + 1))
  {
    var held := m.(clients := m.clients[t := RegHeld(m.nextUffd, addr)], register := Some(t),
                   nextUffd := m.nextUffd + 1);
    steps := Next(s, before, m, RegAcquire(t, addr), held);
    var locked := held.(clients := m.clients[t := RegLocked(m.nextUffd, addr)], regionsLock := Some(ByClient(t)));
    assert held.clients[t := RegLocked(m.nextUffd, addr)] == locked.clients;
    steps := Next(s, steps, held, RegTryLock(t), locked);
    var pushed := locked.(clients := m.clients[t := Pushed], regs := m.regs + [Region(m.nextUffd, addr, false)]);
    assert locked.clients[t := Pushed] == pushed.clients;
    assert SomeExiting(locked) == SomeExiting(m);
    steps := Next(s, steps, locked, RegPush(t), pushed);
  }

  /** It goes on to spawn a handler, which starts, takes the list and waits for all of its regions. */
  lemma SpawnsAlone(s: State, before: seq<Step>, m: State, t: nat) returns (steps: seq<Step>, r: State)
    requires IsRun(s, before, m) && t < |m.clients| && m.clients[t].Pushed? && !m.pipe
    requires m.register == Some(t) && m.regionsLock == Some(ByClient(t)) && m.regs != []
    ensures before <= steps && IsRun(s, steps, r) && r.regs == m.regs
    ensures |r.handlers| == |m.handlers| + 1 && r.handlers[|m.handlers|] == Waiting(Uffds(m.regs))
  {
    var init := m.(clients := m.clients[t := NeedInit]);
    steps := Next(s, before, m, RegCheck(t), init);
    var spawn := m.(clients := m.clients[t := NeedSpawn], pipe := true);
    assert init.clients[t := NeedSpawn] == spawn.clients;
    steps := Next(s, steps, init, RegInit(t), spawn);
    var idle := m.(clients := m.clients[t := Idle], pipe := true, register := None, regionsLock := None,
                   handlers := m.handlers + [Starting]);
    assert spawn.clients[t := Idle] == idle.clients;
    steps := Next(s, steps, spawn, RegSpawn(t), idle);
    steps, r := StartsAlone(s, steps, idle, m.handlers);
  }

  lemma StartsAlone(s: State, before: seq<Step>, m: State, old': seq<Handler>) returns (steps: seq<Step>, r: State)
    requires IsRun(s, before, m) && m.handlers == old' + [Starting] && m.pipe && m.regionsLock.None? && m.regs != []
    ensures before <= steps && IsRun(s, steps, r) && r.regs == m.regs
    ensures r.handlers == old' + [Waiting(Uffds(m.regs))]
  {
    var h := |old'|;
    var looping := m.(handlers := old' + [Looping]);
    assert m.handlers[h := Looping] == looping.handlers;
    steps := Next(s, before, m, HandlerStart(h), looping);
    r := m.(handlers := old' + [Waiting(Uffds(m.regs))], regionsLock := Some(ByHandler(h)));
    assert looping.handlers[h := Waiting(Uffds(m.regs))] == r.handlers;
    steps := Next(s, steps, looping, HandlerLock(h), r);
  }

  /** Regions that were left without a handler are served again once another registration has completed. */
  lemma LaterRegistrationServes(clients: nat, before: seq<Step>, s: State, t: nat, addr: nat)
    returns (steps: seq<Step>, r: State, h: nat)
    requires IsRun(Init(clients), before, s) && t < |s.clients| && s.clients[t].Idle?
    requires s.register.None? && s.regionsLock.None? && !s.pipe
    ensures before <= steps && IsRun(Init(clients), steps, r) && s.regs <= r.regs
    ensures forall idx: nat :: idx < |s.regs| ==> Enabled(r, HandlerServe(h, idx))
  {
    Safety(clients, before, s);
    assert !SomeExiting(s);
    steps := PushesAlone(Init(clients), before, s, t, addr);
    var m := s.(clients := s.clients[t := Pushed], register := Some(t), regionsLock := Some(ByClient(t)),
                regs := s.regs + [Region(s.nextUffd, addr, false)], nextUffd := s.nextUffd + 1);
    steps, r := SpawnsAlone(Init(clients), steps, m, t);
    h := |s.handlers|;
  }
}
