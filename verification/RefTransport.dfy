/** Reference passing: slots hold addresses of buffers, a consumer removes the slot it takes
    (common_service/mm/src/faas_buffer/mod.rs, the by-reference half of as_std/src/agent.rs), and the
    functions of a group run as threads that interleave at every access, joined before the next group
    (libasvisor/src/isolation/mod.rs). */
module RefTransport {
  import opened Seqs
  import opened Workflow

  type Addr = nat

  /** Where the buffers of the slots are, and what the buffers hold. */
  type SlotMap = map<Slot, Addr>
  type Heap = map<Addr, SlotValue>

  // ----- The register -----

  /** What is registered under a slot: the block, and the fingerprint of the type that was put there. */
  datatype Entry = Entry(addr: Addr, fingerprint: nat)

  /** What a consumer finds: no entry, an entry of another type (it panics then), or its buffer. */
  datatype Found = Nothing | WrongType | Buffer(addr: Addr)

  /** `buffer_alloc` and `access_buffer` on the global register. `live` is what the allocator has given
      out; nothing in the by-reference transport ever frees a buffer. */
  class BufferRegister {
    var register: map<Slot, Entry>
    var live: set<Addr>

    constructor ()
      ensures register == map[] && live == {}
    {
      register, live := map[], {};
    }

    ghost predicate Valid()
      reads this
    {
      && (forall s :: s in register ==> register[s].addr in live)
      && (forall s, t :: s in register && t in register && register[s].addr == register[t].addr ==> s == t)
    }

    /** A block the allocator has not given out is registered under the slot, replacing what was there. */
    method BufferAlloc(slot: Slot, block: Addr, fingerprint: nat) returns (addr: Addr)
      requires Valid() && block !in live
      modifies this
      ensures Valid()
      ensures addr == block && live == old(live) + {block}
      ensures register == old(register)[slot := Entry(block, fingerprint)]
    {
      addr := block;
      live := live + {addr};
      register := register[slot := Entry(addr, fingerprint)];
    }

    /** The slot is given away: a second access finds nothing. */
    method AccessBuffer(slot: Slot) returns (r: Option<Entry>)
      requires Valid()
      modifies this
      ensures Valid() && live == old(live)
      ensures register == old(register) - {slot}
      ensures r == if slot in old(register) then Some(old(register)[slot]) else None
      ensures r.Some? ==> forall s :: s in register ==> register[s].addr != r.value.addr
    {
      if slot in register {
        r := Some(register[slot]);
      } else {
        r := None;
      }
      register := register - {slot};
    }

    /** `from_buffer_slot`: a buffer of another type is taken off the register too, and lost. */
    method FromBufferSlot(slot: Slot, fingerprint: nat) returns (r: Found)
      requires Valid()
      modifies this
      ensures Valid() && live == old(live) && register == old(register) - {slot}
      ensures r.Nothing? <==> slot !in old(register)
      ensures r.WrongType? <==> slot in old(register) && old(register)[slot].fingerprint != fingerprint
      ensures r.Buffer? ==> r.addr == old(register)[slot].addr
      ensures r.Buffer? ==> forall s :: s in register ==> register[s].addr != r.addr
    {
      var entry := AccessBuffer(slot);
      r := if entry.None? then Nothing
           else if entry.value.fingerprint != fingerprint then WrongType
           else Buffer(entry.value.addr);
    }
  }

  // ----- States and steps -----

  datatype Phase = Taking | Publishing | Finished | Failed

  /** A function in execution: the buffers it took, the values it read from them, its outputs, the
      buffers it has registered for them and which of these it has filled. */
  datatype Local = Local(phase: Phase, addrs: seq<Addr>, read: Option<seq<SlotValue>>,
                         outs: seq<(Slot, SlotValue)>, cells: map<nat, Addr>, filled: set<nat>)

  const Fresh: Local := Local(Taking, [], None, [], map[], {})

  /** `handed` lists every buffer `access_buffer` has returned. */
  datatype State = State(register: SlotMap, heap: Heap, locals: seq<seq<Local>>,
                         cur: nat, aborted: bool, handed: seq<Addr>)

  /** One step: function `i` of the current group takes its next slot, has all its inputs, registers a
      new buffer `addr` (holding `junk`) for output `k`, fills it, or returns; or the group is joined.
      `Compute` is where the outputs are settled: the buffers it has taken are its own, so it does not
      matter whether the calculation itself goes on before or after it registers its buffers. */
  datatype Step =
    | Take(i: nat)
    | Compute(i: nat)
    | Alloc(i: nat, k: nat, addr: Addr, junk: SlotValue)
    | Fill(i: nat, k: nat)
    | Finish(i: nat)
    | Advance
    | Abort

  function Init(groups: seq<Group>): State {
    State(map[], map[], seq(|groups|, g requires 0 <= g < |groups| => seq(|groups[g]|, _ => Fresh)), 0, false, [])
  }

  predicate Shaped(groups: seq<Group>, s: State) {
    && |s.locals| == |groups| && s.cur <= |groups|
    && (forall g :: 0 <= g < |groups| ==> |s.locals[g]| == |groups[g]|)
  }

  ghost predicate Done(l: Local) {
    l.phase.Finished? || l.phase.Failed?
  }

  ghost predicate Terminal(groups: seq<Group>, s: State) {
    s.aborted || s.cur == |groups|
  }

  ghost predicate Enabled(groups: seq<Group>, s: State, step: Step)
    requires Shaped(groups, s)
  {
    !Terminal(groups, s) &&
    var group, locals := groups[s.cur], s.locals[s.cur];
    match step
    case Take(i) => i < |group| && locals[i].phase.Taking? && |locals[i].addrs| < |group[i].takes|
    case Compute(i) => i < |group| && locals[i].phase.Taking? && |locals[i].addrs| == |group[i].takes|
                       && forall k :: 0 <= k < |locals[i].addrs| ==> locals[i].addrs[k] in s.heap
    case Alloc(i, k, addr, junk) => i < |group| && locals[i].phase.Publishing? && k < |locals[i].outs|
                                    && k !in locals[i].cells && addr !in s.heap
    case Fill(i, k) => i < |group| && locals[i].phase.Publishing? && k < |locals[i].outs|
                       && k in locals[i].cells && k !in locals[i].filled
    case Finish(i) => i < |group| && locals[i].phase.Publishing?
                      && forall k :: 0 <= k < |locals[i].outs| ==> k in locals[i].filled
    case Advance => forall i :: 0 <= i < |group| ==> locals[i].phase.Finished?
    case Abort => (forall i :: 0 <= i < |group| ==> Done(locals[i]))
                  && exists i :: 0 <= i < |group| && locals[i].phase.Failed?
  }

  ghost function SetLocal(s: State, i: nat, l: Local): State
    requires s.cur < |s.locals| && i < |s.locals[s.cur]|
  {
    s.(locals := s.locals[s.cur := s.locals[s.cur][i := l]])
  }

  ghost function Apply(groups: seq<Group>, s: State, step: Step): State
    requires Shaped(groups, s) && Enabled(groups, s, step)
  {
    var group, locals := groups[s.cur], s.locals[s.cur];
    match step
    case Take(i) => ApplyTake(groups, s, i)
    case Compute(i) =>
      var l := locals[i];
      var inputs := seq(|l.addrs|, k requires 0 <= k < |l.addrs| => s.heap[l.addrs[k]]);
      (match group[i].compute(inputs)
       case Some(outs) => SetLocal(s, i, l.(phase := Publishing, read := Some(inputs), outs := outs))
       case None => SetLocal(s, i, l.(phase := Failed, read := Some(inputs))))
    case Alloc(i, k, addr, junk) =>
      var l := locals[i];
      SetLocal(s, i, l.(cells := l.cells[k := addr]))
        .(register := s.register[l.outs[k].0 := addr], heap := s.heap[addr := junk])
    case Fill(i, k) =>
      var l := locals[i];
      SetLocal(s, i, l.(filled := l.filled + {k})).(heap := s.heap[l.cells[k] := l.outs[k].1])
    case Finish(i) => SetLocal(s, i, locals[i].(phase := Finished))
    case Advance => s.(cur := s.cur + 1)
    case Abort => s.(aborted := true)
  }

  ghost function ApplyTake(groups: seq<Group>, s: State, i: nat): State
    requires Shaped(groups, s) && Enabled(groups, s, Take(i))
  {
    var l := s.locals[s.cur][i];
    var slot := groups[s.cur][i].takes[|l.addrs|];
    if slot in s.register then
      SetLocal(s, i, l.(addrs := l.addrs + [s.register[slot]]))
        .(register := s.register - {slot}, handed := s.handed + [s.register[slot]])
    else
      SetLocal(s, i, l.(phase := Failed))
  }

  /** The states of a run: each step is enabled where it is taken. */
  ghost predicate IsRun(groups: seq<Group>, s: State, steps: seq<Step>, t: State)
    decreases |steps|
  {
    if steps == [] then s == t
    else
      var n := |steps| - 1;
      exists m :: IsRun(groups, s, steps[..n], m) && Shaped(groups, m) && Enabled(groups, m, steps[n])
                  && t == Apply(groups, m, steps[n])
  }

  ghost predicate Reachable(groups: seq<Group>, steps: seq<Step>, s: State) {
    IsRun(groups, Init(groups), steps, s)
  }

  // ----- Consume-once, for every workflow -----

  /** No buffer is registered twice, or still registered once it was handed out, or handed out twice. */
  ghost predicate ConsumeOnce(s: State) {
    && (forall x :: x in s.register ==> s.register[x] in s.heap)
    && (forall x, y :: x in s.register && y in s.register && s.register[x] == s.register[y] ==> x == y)
    && (forall n :: 0 <= n < |s.handed| ==> s.handed[n] in s.heap)
    && (forall n, x :: 0 <= n < |s.handed| && x in s.register ==> s.handed[n] != s.register[x])
    && (forall m, n :: 0 <= m < n < |s.handed| ==> s.handed[m] != s.handed[n])
  }

  lemma ConsumeOnceStep(groups: seq<Group>, s: State, step: Step)
    requires Shaped(groups, s) && Enabled(groups, s, step) && ConsumeOnce(s)
    ensures ConsumeOnce(Apply(groups, s, step))
  {
    match step
    case Take(i) =>
      var l := s.locals[s.cur][i];
      var slot := groups[s.cur][i].takes[|l.addrs|];
      if slot in s.register {
        var t := Apply(groups, s, step);
        assert t.register == s.register - {slot} && t.handed == s.handed + [s.register[slot]];
      }
    case _ =>
  }

  /** A step, or a function that registers a buffer under any slot at any time: one that registers what
      it fails to compute, or that keeps to no discipline at all. */
  datatype Event = Ordinary(step: Step) | Register(slot: Slot, addr: Addr, junk: SlotValue)

  ghost predicate Possible(groups: seq<Group>, s: State, event: Event) {
    match event
    case Ordinary(step) => Shaped(groups, s) && Enabled(groups, s, step)
    case Register(_, addr, _) => addr !in s.heap
  }

  ghost function Happens(groups: seq<Group>, s: State, event: Event): State
    requires Possible(groups, s, event)
  {
    match event
    case Ordinary(step) => Apply(groups, s, step)
    case Register(slot, addr, junk) => s.(register := s.register[slot := addr], heap := s.heap[addr := junk])
  }

  ghost predicate IsHistory(groups: seq<Group>, events: seq<Event>, t: State)
    decreases |events|
  {
    if events == [] then t == Init(groups)
    else
      var n := |events| - 1;
      exists m :: IsHistory(groups, events[..n], m) && Possible(groups, m, events[n])
                  && t == Happens(groups, m, events[n])
  }

  lemma HistoryGrows(groups: seq<Group>, events: seq<Event>, m: State, step: Step, s: State)
    requires IsHistory(groups, events, m)
    requires Shaped(groups, m) && Enabled(groups, m, step) && s == Apply(groups, m, step)
    ensures IsHistory(groups, events + [Ordinary(step)], s)
  {
    var event := Ordinary(step);
    assert (events + [event])[..|events|] == events;
    assert Possible(groups, m, event) && s == Happens(groups, m, event);
  }

  ghost function AsEvents(steps: seq<Step>): seq<Event> {
    if steps == [] then [] else AsEvents(steps[..|steps| - 1]) + [Ordinary(steps[|steps| - 1])]
  }

  /** A run is a history without such registrations. */
  lemma {:induction false} RunsAreHistories(groups: seq<Group>, steps: seq<Step>, s: State)
    requires Reachable(groups, steps, s)
    ensures IsHistory(groups, AsEvents(steps), s)
    decreases |steps|
  {
    if steps != [] {
      var n := |steps| - 1;
      var m :| IsRun(groups, Init(groups), steps[..n], m) && Shaped(groups, m) && Enabled(groups, m, steps[n])
               && s == Apply(groups, m, steps[n]);
      RunsAreHistories(groups, steps[..n], m);
      HistoryGrows(groups, AsEvents(steps[..n]), m, steps[n], s);
    }
  }

  /** However the functions of a workflow interleave, whatever slots they share and whenever they register
      buffers, no buffer is handed to two consumers. */
  lemma {:induction false} NoBufferHandedTwice(groups: seq<Group>, events: seq<Event>, s: State)
    requires IsHistory(groups, events, s)
    ensures ConsumeOnce(s)
    decreases |events|
  {
    if events != [] {
      var n := |events| - 1;
      var m :| IsHistory(groups, events[..n], m) && Possible(groups, m, events[n])
               && s == Happens(groups, m, events[n]);
      NoBufferHandedTwice(groups, events[..n], m);
      if events[n].Ordinary? { ConsumeOnceStep(groups, m, events[n].step); }
    }
  }
}
