/** Every interleaving of a well-formed workflow under reference passing means what the workflow means
    when its groups run as single steps: same values read, same slots left, same outcome. */
module RefMeaning {
  import opened Seqs
  import opened Workflow
  import opened RefTransport
  import C = Completion

  // ----- The invariant inside one group -----

  ghost predicate TakenSoFar(group: Group, locals: seq<Local>, s: Slot)
    requires |locals| == |group|
  {
    exists i, k :: 0 <= i < |group| && 0 <= k < |locals[i].addrs| && k < |group[i].takes| && group[i].takes[k] == s
  }

  ghost predicate Announces(l: Local, k: nat, s: Slot) {
    k in l.cells && k < |l.outs| && l.outs[k].0 == s
  }

  ghost predicate Announced(locals: seq<Local>, s: Slot) {
    exists i, k :: 0 <= i < |locals| && Announces(locals[i], k, s)
  }

  ghost predicate HasOutputs(store: Store, app: App, l: Local) {
    && Available(store, app) && |l.addrs| == |app.takes|
    && l.read == Some(Inputs(store, app)) && Outputs(store, app) == Some(l.outs)
  }

  /** Where a function stands, compared with what it reads and publishes as a single step. */
  ghost predicate LocalOk(store: Store, app: App, l: Local, register: SlotMap, heap: Heap) {
    && |l.addrs| <= |app.takes|
    && (forall k :: 0 <= k < |l.addrs| ==>
          app.takes[k] in store && l.addrs[k] in heap && heap[l.addrs[k]] == store[app.takes[k]])
    && (l.phase.Taking? ==> l == Fresh.(addrs := l.addrs))
    && (l.read.Some? ==> Available(store, app) && l.read.value == Inputs(store, app))
    && (l.phase.Publishing? || l.phase.Finished? ==> HasOutputs(store, app, l))
    && (l.phase.Finished? ==> forall k :: 0 <= k < |l.outs| ==> k in l.filled)
    && (l.phase.Failed? ==> Outputs(store, app).None? && l.cells == map[] && l.filled == {})
    && (forall k :: k in l.cells ==>
          k < |l.outs| && l.outs[k].0 in register && register[l.outs[k].0] == l.cells[k])
    && (forall k :: k in l.filled ==>
          k in l.cells && k < |l.outs| && l.cells[k] in heap && heap[l.cells[k]] == l.outs[k].1)
  }

  ghost predicate RegisterOk(locals: seq<Local>, register: SlotMap, heap: Heap) {
    && (forall s :: s in register ==> register[s] in heap)
    && (forall s, t :: s in register && t in register && register[s] == register[t] ==> s == t)
    && (forall i, k, s :: 0 <= i < |locals| && 0 <= k < |locals[i].addrs| && s in register ==>
          locals[i].addrs[k] != register[s])
  }

  /** The register shows the store minus what was taken plus what was announced. */
  ghost predicate ViewOk(store: Store, group: Group, locals: seq<Local>, register: SlotMap, heap: Heap)
    requires |locals| == |group|
  {
    && (forall s :: s in store && !TakenSoFar(group, locals, s) ==>
          s in register && register[s] in heap && heap[register[s]] == store[s])
    && (forall s :: s in register ==> (s in store && !TakenSoFar(group, locals, s)) || Announced(locals, s))
  }

  ghost predicate LocalsOk(store: Store, group: Group, locals: seq<Local>, register: SlotMap, heap: Heap) {
    |locals| == |group| && forall i :: 0 <= i < |group| ==> LocalOk(store, group[i], locals[i], register, heap)
  }

  ghost predicate MemOk(store: Store, group: Group, locals: seq<Local>, register: SlotMap, heap: Heap) {
    && LocalsOk(store, group, locals, register, heap)
    && RegisterOk(locals, register, heap)
    && ViewOk(store, group, locals, register, heap)
  }

  lemma AnnouncedIsPublished(store: Store, group: Group, locals: seq<Local>, register: SlotMap,
                             heap: Heap, i: nat, k: nat, s: Slot)
    requires LocalsOk(store, group, locals, register, heap) && i < |group| && Announces(locals[i], k, s)
    ensures Publishes(store, group[i], k, s) && HasOutputs(store, group[i], locals[i])
  {
    assert LocalOk(store, group[i], locals[i], register, heap);
  }

  lemma TakenSoFarUpdate(group: Group, locals: seq<Local>, i: nat, l: Local, s: Slot)
    requires |locals| == |group| && i < |group| && l.addrs == locals[i].addrs
    ensures TakenSoFar(group, locals[i := l], s) == TakenSoFar(group, locals, s)
  {
    var next := locals[i := l];
    assert forall j :: 0 <= j < |group| ==> next[j].addrs == locals[j].addrs;
    if TakenSoFar(group, locals, s) {
      var j, k :| 0 <= j < |group| && 0 <= k < |locals[j].addrs| && k < |group[j].takes| && group[j].takes[k] == s;
      assert 0 <= k < |next[j].addrs|;
    }
    if TakenSoFar(group, next, s) {
      var j, k :| 0 <= j < |group| && 0 <= k < |next[j].addrs| && k < |group[j].takes| && group[j].takes[k] == s;
      assert 0 <= k < |locals[j].addrs|;
    }
  }

  /** The view does not depend on phases, on what is filled, or on other announcements. */
  lemma ViewUpdate(store: Store, group: Group, locals: seq<Local>, register: SlotMap, heap: Heap,
                   i: nat, l: Local)
    requires |locals| == |group| && ViewOk(store, group, locals, register, heap) && i < |group|
    requires l.addrs == locals[i].addrs
    requires forall k, s :: Announces(locals[i], k, s) ==> Announces(l, k, s)
    ensures ViewOk(store, group, locals[i := l], register, heap)
  {
    var next := locals[i := l];
    forall s ensures TakenSoFar(group, next, s) == TakenSoFar(group, locals, s) {
      TakenSoFarUpdate(group, locals, i, l, s);
    }
    forall s | Announced(locals, s) ensures Announced(next, s) {
      var j, k :| 0 <= j < |locals| && Announces(locals[j], k, s);
      assert Announces(next[j], k, s);
    }
  }

  /** Only the phase and the bookkeeping of one function change. */
  lemma LocalChange(store: Store, group: Group, locals: seq<Local>, register: SlotMap, heap: Heap,
                    i: nat, l: Local)
    requires MemOk(store, group, locals, register, heap) && i < |group|
    requires l.addrs == locals[i].addrs && LocalOk(store, group[i], l, register, heap)
    requires forall k, s :: Announces(locals[i], k, s) ==> Announces(l, k, s)
    ensures MemOk(store, group, locals[i := l], register, heap)
  {
    ViewUpdate(store, group, locals, register, heap, i, l);
    RegisterUpdate(locals, register, heap, i, l);
  }

  lemma RegisterUpdate(locals: seq<Local>, register: SlotMap, heap: Heap, i: nat, l: Local)
    requires RegisterOk(locals, register, heap) && i < |locals| && l.addrs == locals[i].addrs
    ensures RegisterOk(locals[i := l], register, heap)
  {
    var next := locals[i := l];
    assert forall j :: 0 <= j < |locals| ==> next[j].addrs == locals[j].addrs;
  }

  // ----- One lemma per step -----

  lemma AnnouncedNotTaken(store: Store, group: Group, locals: seq<Local>, register: SlotMap,
                          heap: Heap, s: Slot)
    requires LocalsOk(store, group, locals, register, heap) && OutputsFresh(store, store.Keys, group)
             && Announced(locals, s)
    ensures !IsTaken(group, s)
  {
    var j, k :| 0 <= j < |locals| && Announces(locals[j], k, s);
    AnnouncedIsPublished(store, group, locals, register, heap, j, k, s);
  }

  lemma TakeFinds(store: Store, written: set<Slot>, group: Group, locals: seq<Local>, register: SlotMap,
                  heap: Heap, i: nat)
    requires store.Keys <= written && Disciplined(store, written, group)
    requires MemOk(store, group, locals, register, heap)
    requires i < |group| && |locals[i].addrs| < |group[i].takes|
    ensures var s := group[i].takes[|locals[i].addrs|];
            && !TakenSoFar(group, locals, s)
            && (s in register <==> s in store)
            && (s in register ==> heap[register[s]] == store[s])
  {
    var n := |locals[i].addrs|;
    var s := group[i].takes[n];
    if Announced(locals, s) { AnnouncedNotTaken(store, group, locals, register, heap, s); }
  }

  lemma TakeOk(store: Store, written: set<Slot>, group: Group, locals: seq<Local>, register: SlotMap,
               heap: Heap, i: nat, s: Slot)
    requires store.Keys <= written && Disciplined(store, written, group)
    requires MemOk(store, group, locals, register, heap)
    requires i < |group| && locals[i].phase.Taking? && |locals[i].addrs| < |group[i].takes|
    requires s == group[i].takes[|locals[i].addrs|] && s in register
    ensures MemOk(store, group, locals[i := locals[i].(addrs := locals[i].addrs + [register[s]])], register - {s}, heap)
  {
    TakeFinds(store, written, group, locals, register, heap, i);
    TakeLocals(store, group, locals, register, heap, i, s);
    TakeRegister(locals, register, heap, i, s);
    TakeView(store, group, locals, register, heap, i, s);
  }

  lemma TakeLocals(store: Store, group: Group, locals: seq<Local>, register: SlotMap, heap: Heap,
                   i: nat, s: Slot)
    requires LocalsOk(store, group, locals, register, heap) && OutputsFresh(store, store.Keys, group)
    requires i < |group| && locals[i].phase.Taking? && |locals[i].addrs| < |group[i].takes|
    requires s == group[i].takes[|locals[i].addrs|] && s in register && s in store
    requires register[s] in heap && heap[register[s]] == store[s]
    ensures var next := locals[i := locals[i].(addrs := locals[i].addrs + [register[s]])];
            LocalsOk(store, group, next, register - {s}, heap)
  {
    var next := locals[i := locals[i].(addrs := locals[i].addrs + [register[s]])];
    assert IsTaken(group, s);
    forall j | 0 <= j < |group| ensures LocalOk(store, group[j], next[j], register - {s}, heap) {
      var l := locals[j];
      assert LocalOk(store, group[j], l, register, heap);
      forall k | k in l.cells ensures l.outs[k].0 != s {
        assert Announces(l, k, l.outs[k].0);
        AnnouncedIsPublished(store, group, locals, register, heap, j, k, l.outs[k].0);
      }
    }
  }

  lemma TakeRegister(locals: seq<Local>, register: SlotMap, heap: Heap, i: nat, s: Slot)
    requires RegisterOk(locals, register, heap) && i < |locals| && s in register
    ensures RegisterOk(locals[i := locals[i].(addrs := locals[i].addrs + [register[s]])], register - {s}, heap)
  {
    var next := locals[i := locals[i].(addrs := locals[i].addrs + [register[s]])];
    forall j, k, t | 0 <= j < |next| && 0 <= k < |next[j].addrs| && t in register - {s}
      ensures next[j].addrs[k] != (register - {s})[t]
    {
      if j != i || k < |locals[i].addrs| { assert locals[j].addrs[k] != register[t]; }
    }
  }

  lemma TakeView(store: Store, group: Group, locals: seq<Local>, register: SlotMap, heap: Heap,
                 i: nat, s: Slot)
    requires |locals| == |group| && ViewOk(store, group, locals, register, heap)
    requires i < |group| && |locals[i].addrs| < |group[i].takes|
    requires s == group[i].takes[|locals[i].addrs|] && s in register
    ensures var next := locals[i := locals[i].(addrs := locals[i].addrs + [register[s]])];
            ViewOk(store, group, next, register - {s}, heap)
  {
    var next := locals[i := locals[i].(addrs := locals[i].addrs + [register[s]])];
    forall t ensures TakenSoFar(group, next, t) <==> TakenSoFar(group, locals, t) || t == s {
      TakenSoFarSnoc(group, locals, i, register[s], t);
    }
    forall t | Announced(locals, t) ensures Announced(next, t) {
      AnnouncedStill(locals, i, register[s], t);
    }
    ViewWithout(store, group, locals, next, register, heap, s);
  }

  lemma ViewWithout(store: Store, group: Group, locals: seq<Local>, next: seq<Local>, register: SlotMap,
                    heap: Heap, s: Slot)
    requires |locals| == |next| == |group| && ViewOk(store, group, locals, register, heap)
    requires forall t :: TakenSoFar(group, next, t) <==> TakenSoFar(group, locals, t) || t == s
    requires forall t :: Announced(locals, t) ==> Announced(next, t)
    ensures ViewOk(store, group, next, register - {s}, heap)
  {
    forall t | t in store && !TakenSoFar(group, next, t)
      ensures t in register - {s} && register[t] in heap && heap[register[t]] == store[t]
    {
      assert !TakenSoFar(group, locals, t);
    }
    forall t | t in register - {s} ensures (t in store && !TakenSoFar(group, next, t)) || Announced(next, t) {
      assert t in register && t != s;
    }
  }

  lemma AnnouncedStill(locals: seq<Local>, i: nat, a: Addr, t: Slot)
    requires i < |locals| && Announced(locals, t)
    ensures Announced(locals[i := locals[i].(addrs := locals[i].addrs + [a])], t)
  {
    var next := locals[i := locals[i].(addrs := locals[i].addrs + [a])];
    var j, k :| 0 <= j < |locals| && Announces(locals[j], k, t);
    assert Announces(next[j], k, t);
  }

  lemma TakenSoFarSnoc(group: Group, locals: seq<Local>, i: nat, a: Addr, t: Slot)
    requires |locals| == |group| && i < |group| && |locals[i].addrs| < |group[i].takes|
    ensures TakenSoFar(group, locals[i := locals[i].(addrs := locals[i].addrs + [a])], t)
       <==> TakenSoFar(group, locals, t) || t == group[i].takes[|locals[i].addrs|]
  {
    var n := |locals[i].addrs|;
    var next := locals[i := locals[i].(addrs := locals[i].addrs + [a])];
    if TakenSoFar(group, next, t) {
      var j, k :| 0 <= j < |group| && 0 <= k < |next[j].addrs| && k < |group[j].takes| && group[j].takes[k] == t;
      if j != i || k < n { assert 0 <= k < |locals[j].addrs|; }
    }
    if TakenSoFar(group, locals, t) {
      var j, k :| 0 <= j < |group| && 0 <= k < |locals[j].addrs| && k < |group[j].takes| && group[j].takes[k] == t;
      assert 0 <= k < |next[j].addrs|;
    }
    if t == group[i].takes[n] { assert 0 <= n < |next[i].addrs|; }
  }

  lemma TakeFailsOk(store: Store, written: set<Slot>, group: Group, locals: seq<Local>, register: SlotMap,
                    heap: Heap, i: nat, s: Slot)
    requires store.Keys <= written && Disciplined(store, written, group)
    requires MemOk(store, group, locals, register, heap)
    requires i < |group| && locals[i].phase.Taking? && |locals[i].addrs| < |group[i].takes|
    requires s == group[i].takes[|locals[i].addrs|] && s !in register
    ensures MemOk(store, group, locals[i := locals[i].(phase := Failed)], register, heap)
  {
    TakeFinds(store, written, group, locals, register, heap, i);
    assert !Available(store, group[i]);
    assert LocalOk(store, group[i], locals[i], register, heap);
    LocalChange(store, group, locals, register, heap, i, locals[i].(phase := Failed));
  }

  lemma ComputeOk(store: Store, group: Group, locals: seq<Local>, register: SlotMap, heap: Heap,
                  i: nat, inputs: seq<SlotValue>)
    requires MemOk(store, group, locals, register, heap)
    requires i < |group| && locals[i].phase.Taking? && |locals[i].addrs| == |group[i].takes|
    requires |inputs| == |locals[i].addrs|
    requires forall k :: 0 <= k < |inputs| ==> locals[i].addrs[k] in heap && inputs[k] == heap[locals[i].addrs[k]]
    ensures Available(store, group[i]) && inputs == Inputs(store, group[i])
    ensures var r := group[i].compute(inputs);
            var next := if r.Some? then locals[i].(phase := Publishing, read := Some(inputs), outs := r.value)
                        else locals[i].(phase := Failed, read := Some(inputs));
            MemOk(store, group, locals[i := next], register, heap)
  {
    var l := locals[i];
    assert LocalOk(store, group[i], l, register, heap);
    assert forall k :: 0 <= k < |group[i].takes| ==>
      group[i].takes[k] in store && inputs[k] == store[group[i].takes[k]];
    assert Available(store, group[i]);
    assert inputs == Inputs(store, group[i]);
    var r := group[i].compute(inputs);
    LocalChange(store, group, locals, register, heap, i,
                if r.Some? then l.(phase := Publishing, read := Some(inputs), outs := r.value)
                else l.(phase := Failed, read := Some(inputs)));
  }

  lemma AllocOk(store: Store, written: set<Slot>, group: Group, locals: seq<Local>, register: SlotMap,
                heap: Heap, i: nat, k: nat, addr: Addr, junk: SlotValue)
    requires store.Keys <= written && Disciplined(store, written, group)
    requires MemOk(store, group, locals, register, heap)
    requires i < |group| && locals[i].phase.Publishing? && k < |locals[i].outs| && k !in locals[i].cells
             && addr !in heap
    ensures var l := locals[i];
            var next := locals[i := l.(cells := l.cells[k := addr])];
            MemOk(store, group, next, register[l.outs[k].0 := addr], heap[addr := junk])
  {
    var l := locals[i];
    var s := l.outs[k].0;
    assert LocalOk(store, group[i], l, register, heap);
    assert Publishes(store, group[i], k, s);
    forall j, m | 0 <= j < |locals| && Announces(locals[j], m, s) ensures j == i && m == k {
      AnnouncedIsPublished(store, group, locals, register, heap, j, m, s);
    }
    assert s !in register;
    AllocLocals(store, group, locals, register, heap, i, k, addr, junk);
    AllocRegister(store, group, locals, register, heap, i, k, addr, junk);
    AllocView(store, group, locals, register, heap, i, k, addr, junk);
  }

  lemma AllocLocals(store: Store, group: Group, locals: seq<Local>, register: SlotMap,
                    heap: Heap, i: nat, k: nat, addr: Addr, junk: SlotValue)
    requires LocalsOk(store, group, locals, register, heap)
    requires i < |group| && locals[i].phase.Publishing? && k < |locals[i].outs| && k !in locals[i].cells
             && addr !in heap
    requires locals[i].outs[k].0 !in register
    ensures var l := locals[i];
            var next := locals[i := l.(cells := l.cells[k := addr])];
            LocalsOk(store, group, next, register[l.outs[k].0 := addr], heap[addr := junk])
  {
    var l := locals[i];
    var next := locals[i := l.(cells := l.cells[k := addr])];
    forall j | 0 <= j < |group|
      ensures LocalOk(store, group[j], next[j], register[l.outs[k].0 := addr], heap[addr := junk])
    {
      assert LocalOk(store, group[j], locals[j], register, heap);
    }
  }

  lemma AllocRegister(store: Store, group: Group, locals: seq<Local>, register: SlotMap,
                      heap: Heap, i: nat, k: nat, addr: Addr, junk: SlotValue)
    requires LocalsOk(store, group, locals, register, heap) && RegisterOk(locals, register, heap)
    requires i < |group| && k < |locals[i].outs| && addr !in heap
    ensures var l := locals[i];
            RegisterOk(locals[i := l.(cells := l.cells[k := addr])], register[l.outs[k].0 := addr], heap[addr := junk])
  {
    var l := locals[i];
    var next := locals[i := l.(cells := l.cells[k := addr])];
    var register' := register[l.outs[k].0 := addr];
    forall j, m, t | 0 <= j < |next| && 0 <= m < |next[j].addrs| && t in register'
      ensures next[j].addrs[m] != register'[t]
    {
      assert LocalOk(store, group[j], locals[j], register, heap);
      assert locals[j].addrs[m] in heap;
    }
  }

  lemma AllocView(store: Store, group: Group, locals: seq<Local>, register: SlotMap,
                  heap: Heap, i: nat, k: nat, addr: Addr, junk: SlotValue)
    requires |locals| == |group| && ViewOk(store, group, locals, register, heap)
    requires i < |group| && k < |locals[i].outs| && k !in locals[i].cells && addr !in heap
    requires locals[i].outs[k].0 !in register
    ensures var l := locals[i];
            var next := locals[i := l.(cells := l.cells[k := addr])];
            ViewOk(store, group, next, register[l.outs[k].0 := addr], heap[addr := junk])
  {
    var l := locals[i];
    var next := locals[i := l.(cells := l.cells[k := addr])];
    ViewUpdate(store, group, locals, register, heap, i, next[i]);
    assert Announces(next[i], k, l.outs[k].0);
  }

  lemma FillOk(store: Store, group: Group, locals: seq<Local>, register: SlotMap, heap: Heap, i: nat, k: nat)
    requires MemOk(store, group, locals, register, heap)
    requires OutputsDistinct(store, group) && OutputsFresh(store, store.Keys, group)
    requires i < |group| && locals[i].phase.Publishing? && k in locals[i].cells && k < |locals[i].outs|
             && k !in locals[i].filled
    ensures var l := locals[i];
            MemOk(store, group, locals[i := l.(filled := l.filled + {k})], register, heap[l.cells[k] := l.outs[k].1])
  {
    var l := locals[i];
    var s := l.outs[k].0;
    var next := locals[i := l.(filled := l.filled + {k})];
    assert LocalOk(store, group[i], l, register, heap);
    assert Announces(l, k, s);
    AnnouncedIsPublished(store, group, locals, register, heap, i, k, s);
    FillLocals(store, group, locals, register, heap, i, k);
    RegisterUpdate(locals, register, heap, i, next[i]);
    ViewUpdate(store, group, locals, register, heap, i, next[i]);
    FillView(store, group, next, register, heap, s, l.outs[k].1);
  }

  lemma FillView(store: Store, group: Group, locals: seq<Local>, register: SlotMap, heap: Heap,
                 s: Slot, v: SlotValue)
    requires |locals| == |group| && ViewOk(store, group, locals, register, heap) && RegisterOk(locals, register, heap)
    requires s in register && s !in store
    ensures ViewOk(store, group, locals, register, heap[register[s] := v])
            && RegisterOk(locals, register, heap[register[s] := v])
  {
  }

  lemma FillLocals(store: Store, group: Group, locals: seq<Local>, register: SlotMap, heap: Heap,
                   i: nat, k: nat)
    requires LocalsOk(store, group, locals, register, heap) && RegisterOk(locals, register, heap)
             && OutputsDistinct(store, group)
    requires i < |group| && locals[i].phase.Publishing? && k in locals[i].cells && k < |locals[i].outs|
             && k !in locals[i].filled
    ensures var l := locals[i];
            LocalsOk(store, group, locals[i := l.(filled := l.filled + {k})], register, heap[l.cells[k] := l.outs[k].1])
  {
    var l := locals[i];
    var s := l.outs[k].0;
    var next := locals[i := l.(filled := l.filled + {k})];
    var heap' := heap[l.cells[k] := l.outs[k].1];
    assert LocalOk(store, group[i], l, register, heap);
    assert Announces(l, k, s);
    AnnouncedIsPublished(store, group, locals, register, heap, i, k, s);
    forall j | 0 <= j < |group| ensures LocalOk(store, group[j], next[j], register, heap') {
      var lj := locals[j];
      assert LocalOk(store, group[j], lj, register, heap);
      forall m | m in lj.filled ensures lj.cells[m] != l.cells[k] {
        assert Announces(lj, m, lj.outs[m].0);
        AnnouncedIsPublished(store, group, locals, register, heap, j, m, lj.outs[m].0);
      }
      FillLocal(store, group[j], lj, register, heap, s, l.outs[k].1);
    }
  }

  /** A store to the buffer of a slot that is not taken and whose output is not filled yet goes
      unnoticed. */
  lemma FillLocal(store: Store, app: App, l: Local, register: SlotMap, heap: Heap, s: Slot, v: SlotValue)
    requires LocalOk(store, app, l, register, heap) && s in register
    requires forall k :: k in l.filled ==> l.cells[k] != register[s]
    requires forall k :: 0 <= k < |l.addrs| ==> l.addrs[k] != register[s]
    ensures LocalOk(store, app, l, register, heap[register[s] := v])
  {
  }

  /** When all functions of a group have finished, the register shows the store after the group. */
  lemma AdvanceOk(store: Store, written: set<Slot>, group: Group, locals: seq<Local>, register: SlotMap,
                  heap: Heap, next: Group, fresh': seq<Local>)
    requires store.Keys <= written && Disciplined(store, written, group)
    requires MemOk(store, group, locals, register, heap)
    requires forall i :: 0 <= i < |group| ==> locals[i].phase.Finished?
    requires |fresh'| == |next| && forall i :: 0 <= i < |next| ==> fresh'[i] == Fresh
    ensures Succeeds(store, group)
    ensures MemOk(After(store, group), next, fresh', register, heap)
  {
    forall i | 0 <= i < |group| ensures HasOutputs(store, group[i], locals[i]) {
      assert LocalOk(store, group[i], locals[i], register, heap);
    }
    AdvanceShows(store, group, locals, register, heap);
    AdvanceShowsNoMore(store, group, locals, register, heap);
    FreshMemOk(After(store, group), next, fresh', locals, register, heap);
  }

  lemma FreshMemOk(store: Store, group: Group, fresh': seq<Local>, locals: seq<Local>, register: SlotMap,
                   heap: Heap)
    requires |fresh'| == |group| && forall i :: 0 <= i < |group| ==> fresh'[i] == Fresh
    requires RegisterOk(locals, register, heap)
    requires forall s :: s in store ==> s in register && register[s] in heap && heap[register[s]] == store[s]
    requires forall s :: s in register ==> s in store
    ensures MemOk(store, group, fresh', register, heap)
  {
    assert forall s :: !TakenSoFar(group, fresh', s);
  }

  lemma AdvanceShows(store: Store, group: Group, locals: seq<Local>, register: SlotMap, heap: Heap)
    requires OutputsDistinct(store, group) && MemOk(store, group, locals, register, heap)
    requires forall i :: 0 <= i < |group| ==> locals[i].phase.Finished?
    ensures forall s :: s in After(store, group) ==>
              s in register && register[s] in heap && heap[register[s]] == After(store, group)[s]
  {
    forall s | s in After(store, group)
      ensures s in register && register[s] in heap && heap[register[s]] == After(store, group)[s]
    {
      AfterHas(store, group, s);
      if IsPublished(store, group, s) {
        var i, k :| 0 <= i < |group| && Publishes(store, group[i], k, s);
        assert LocalOk(store, group[i], locals[i], register, heap);
        assert k in locals[i].filled;
      } else {
        AllTaken(store, group, locals, register, heap, s);
      }
    }
  }

  lemma AdvanceShowsNoMore(store: Store, group: Group, locals: seq<Local>, register: SlotMap, heap: Heap)
    requires OutputsDistinct(store, group) && MemOk(store, group, locals, register, heap)
    requires forall i :: 0 <= i < |group| ==> locals[i].phase.Finished?
    ensures forall s :: s in register ==> s in After(store, group)
  {
    forall s | s in register ensures s in After(store, group) {
      AfterHas(store, group, s);
      AllTaken(store, group, locals, register, heap, s);
      if Announced(locals, s) {
        var i, k :| 0 <= i < |locals| && Announces(locals[i], k, s);
        AnnouncedIsPublished(store, group, locals, register, heap, i, k, s);
      }
    }
  }

  lemma AllTaken(store: Store, group: Group, locals: seq<Local>, register: SlotMap, heap: Heap, s: Slot)
    requires LocalsOk(store, group, locals, register, heap)
    requires forall i :: 0 <= i < |group| ==> locals[i].phase.Finished?
    ensures TakenSoFar(group, locals, s) <==> IsTaken(group, s)
  {
    if IsTaken(group, s) {
      var i, k :| 0 <= i < |group| && 0 <= k < |group[i].takes| && group[i].takes[k] == s;
      assert LocalOk(store, group[i], locals[i], register, heap);
      assert 0 <= k < |locals[i].addrs|;
    }
  }

  // ----- The invariant over whole runs -----

  ghost function GroupAt(groups: seq<Group>, g: nat): Group {
    if g < |groups| then groups[g] else []
  }

  ghost function LocalsAt(s: State): seq<Local> {
    if s.cur < |s.locals| then s.locals[s.cur] else []
  }

  /** A function that is through read exactly what the meaning of the workflow says. */
  ghost predicate FinishedAsMeant(groups: seq<Group>, s: State, g: nat, i: nat)
    requires g < |groups| && g < |s.locals| && i < |groups[g]| && i < |s.locals[g]|
  {
    && s.locals[g][i].phase.Finished?
    && HasOutputs(StoreAt(groups, g), groups[g][i], s.locals[g][i])
  }

  ghost predicate PastOk(groups: seq<Group>, s: State)
    requires Shaped(groups, s)
  {
    forall g, i :: 0 <= g < s.cur && 0 <= i < |groups[g]| ==> FinishedAsMeant(groups, s, g, i)
  }

  ghost predicate FutureOk(groups: seq<Group>, s: State)
    requires Shaped(groups, s)
  {
    forall g, i :: s.cur < g < |groups| && 0 <= i < |groups[g]| ==> s.locals[g][i] == Fresh
  }

  ghost predicate PresentOk(groups: seq<Group>, s: State)
    requires Shaped(groups, s)
  {
    MemOk(StoreAt(groups, s.cur), GroupAt(groups, s.cur), LocalsAt(s), s.register, s.heap)
  }

  ghost predicate Inv(groups: seq<Group>, s: State) {
    && Shaped(groups, s)
    && SucceedsUpTo(groups, s.cur)
    && PastOk(groups, s) && PresentOk(groups, s) && FutureOk(groups, s)
    && (s.aborted ==> s.cur < |groups| && !Succeeds(StoreAt(groups, s.cur), groups[s.cur]))
  }

  ghost predicate CurOk(groups: seq<Group>, g: nat) {
    g < |groups| ==> Disciplined(StoreAt(groups, g), WrittenAt(groups, g), groups[g])
  }

  lemma InvInit(groups: seq<Group>)
    ensures Inv(groups, Init(groups))
  {
    var s := Init(groups);
    var group, locals := GroupAt(groups, 0), LocalsAt(s);
    assert forall i :: 0 <= i < |group| ==> locals[i] == Fresh;
    assert forall t :: !TakenSoFar(group, locals, t);
  }

  /** A step of one function of the current group keeps the invariant if it keeps the memory right. */
  lemma InvLocalStep(groups: seq<Group>, s: State, i: nat, l: Local, t: State)
    requires Inv(groups, s) && s.cur < |groups| && !s.aborted && i < |groups[s.cur]|
    requires t.locals == s.locals[s.cur := s.locals[s.cur][i := l]] && t.cur == s.cur && t.aborted == s.aborted
    requires MemOk(StoreAt(groups, s.cur), groups[s.cur], s.locals[s.cur][i := l], t.register, t.heap)
    ensures Inv(groups, t)
  {
    forall g, j | 0 <= g < t.cur && 0 <= j < |groups[g]| ensures FinishedAsMeant(groups, t, g, j) {
      assert FinishedAsMeant(groups, s, g, j);
    }
  }

  lemma InvTake(groups: seq<Group>, s: State, i: nat)
    requires CurOk(groups, s.cur) && Inv(groups, s) && Enabled(groups, s, Take(i))
    ensures Inv(groups, Apply(groups, s, Take(i)))
  {
    var store, written := StoreAt(groups, s.cur), WrittenAt(groups, s.cur);
    var group, locals := groups[s.cur], s.locals[s.cur];
    StoreWritten(groups, s.cur);
    var l := locals[i];
    var slot := group[i].takes[|l.addrs|];
    if slot in s.register {
      TakeOk(store, written, group, locals, s.register, s.heap, i, slot);
      InvLocalStep(groups, s, i, l.(addrs := l.addrs + [s.register[slot]]), Apply(groups, s, Take(i)));
    } else {
      TakeFailsOk(store, written, group, locals, s.register, s.heap, i, slot);
      InvLocalStep(groups, s, i, l.(phase := Failed), Apply(groups, s, Take(i)));
    }
  }

  lemma InvCompute(groups: seq<Group>, s: State, i: nat)
    requires Inv(groups, s) && Enabled(groups, s, Compute(i))
    ensures Inv(groups, Apply(groups, s, Compute(i)))
  {
    var l := s.locals[s.cur][i];
    var inputs := seq(|l.addrs|, k requires 0 <= k < |l.addrs| => s.heap[l.addrs[k]]);
    ComputeOk(StoreAt(groups, s.cur), groups[s.cur], s.locals[s.cur], s.register, s.heap, i, inputs);
    var r := groups[s.cur][i].compute(inputs);
    InvLocalStep(groups, s, i, if r.Some? then l.(phase := Publishing, read := Some(inputs), outs := r.value)
                               else l.(phase := Failed, read := Some(inputs)), Apply(groups, s, Compute(i)));
  }

  lemma InvPublish(groups: seq<Group>, s: State, step: Step)
    requires CurOk(groups, s.cur) && Inv(groups, s) && Enabled(groups, s, step)
    requires step.Alloc? || step.Fill? || step.Finish?
    ensures Inv(groups, Apply(groups, s, step))
  {
    var store, written := StoreAt(groups, s.cur), WrittenAt(groups, s.cur);
    var group, locals := groups[s.cur], s.locals[s.cur];
    StoreWritten(groups, s.cur);
    var l := locals[step.i];
    match step
    case Alloc(i, k, addr, junk) =>
      AllocOk(store, written, group, locals, s.register, s.heap, i, k, addr, junk);
      InvLocalStep(groups, s, i, l.(cells := l.cells[k := addr]), Apply(groups, s, step));
    case Fill(i, k) =>
      FillOk(store, group, locals, s.register, s.heap, i, k);
      InvLocalStep(groups, s, i, l.(filled := l.filled + {k}), Apply(groups, s, step));
    case Finish(i) =>
      assert LocalOk(store, group[i], l, s.register, s.heap);
      LocalChange(store, group, locals, s.register, s.heap, i, l.(phase := Finished));
      InvLocalStep(groups, s, i, l.(phase := Finished), Apply(groups, s, step));
  }

  lemma AdvanceFinished(groups: seq<Group>, s: State, t: State)
    requires Shaped(groups, s) && PastOk(groups, s) && PresentOk(groups, s)
    requires s.cur < |groups| && forall i :: 0 <= i < |groups[s.cur]| ==> s.locals[s.cur][i].phase.Finished?
    requires t == s.(cur := s.cur + 1)
    ensures PastOk(groups, t)
  {
    forall g, i | 0 <= g < t.cur && 0 <= i < |groups[g]| ensures FinishedAsMeant(groups, t, g, i) {
      if g < s.cur {
        assert FinishedAsMeant(groups, s, g, i);
      } else {
        assert LocalOk(StoreAt(groups, g), groups[g][i], s.locals[g][i], s.register, s.heap);
      }
    }
  }

  /** The barrier: the next group starts when every function of this one has finished, and then the
      register shows the store after the group. */
  lemma InvAdvance(groups: seq<Group>, s: State, t: State)
    requires CurOk(groups, s.cur) && Inv(groups, s) && !s.aborted
    requires s.cur < |groups| && forall i :: 0 <= i < |groups[s.cur]| ==> s.locals[s.cur][i].phase.Finished?
    requires t == s.(cur := s.cur + 1)
    ensures Inv(groups, t)
  {
    AdvanceFinished(groups, s, t);
    AdvancePresent(groups, s, t);
    AdvanceRest(groups, s, t);
  }

  lemma AdvanceRest(groups: seq<Group>, s: State, t: State)
    requires Shaped(groups, s) && SucceedsUpTo(groups, s.cur) && FutureOk(groups, s)
    requires s.cur < |groups| && Succeeds(StoreAt(groups, s.cur), groups[s.cur]) && t == s.(cur := s.cur + 1)
    ensures Shaped(groups, t) && SucceedsUpTo(groups, t.cur) && FutureOk(groups, t)
  {
  }

  lemma InvAdvanceStep(groups: seq<Group>, s: State)
    requires CurOk(groups, s.cur) && Inv(groups, s) && Enabled(groups, s, Advance)
    ensures Inv(groups, Apply(groups, s, Advance))
  {
    assert Apply(groups, s, Advance) == s.(cur := s.cur + 1);
    InvAdvance(groups, s, s.(cur := s.cur + 1));
  }

  lemma AdvancePresent(groups: seq<Group>, s: State, t: State)
    requires CurOk(groups, s.cur) && Shaped(groups, s) && PresentOk(groups, s) && FutureOk(groups, s)
    requires s.cur < |groups| && forall i :: 0 <= i < |groups[s.cur]| ==> s.locals[s.cur][i].phase.Finished?
    requires t == s.(cur := s.cur + 1)
    ensures Succeeds(StoreAt(groups, s.cur), groups[s.cur]) && PresentOk(groups, t)
  {
    AdvanceMemory(groups, s.cur, s.locals[s.cur], s.register, s.heap, LocalsAt(t));
  }

  lemma AdvanceMemory(groups: seq<Group>, g: nat, locals: seq<Local>, register: SlotMap, heap: Heap,
                      next: seq<Local>)
    requires g < |groups| && Disciplined(StoreAt(groups, g), WrittenAt(groups, g), groups[g])
    requires MemOk(StoreAt(groups, g), groups[g], locals, register, heap)
    requires forall i :: 0 <= i < |locals| ==> locals[i].phase.Finished?
    requires |next| == |GroupAt(groups, g + 1)| && forall i :: 0 <= i < |next| ==> next[i] == Fresh
    ensures Succeeds(StoreAt(groups, g), groups[g])
    ensures MemOk(StoreAt(groups, g + 1), GroupAt(groups, g + 1), next, register, heap)
  {
    StoreWritten(groups, g);
    var store, written := StoreAt(groups, g), WrittenAt(groups, g);
    AdvanceOk(store, written, groups[g], locals, register, heap, GroupAt(groups, g + 1), next);
  }

  lemma InvAbort(groups: seq<Group>, s: State)
    requires Inv(groups, s) && Enabled(groups, s, Abort)
    ensures Inv(groups, Apply(groups, s, Abort))
  {
    var i :| 0 <= i < |groups[s.cur]| && s.locals[s.cur][i].phase.Failed?;
    assert LocalOk(StoreAt(groups, s.cur), groups[s.cur][i], s.locals[s.cur][i], s.register, s.heap);
    var t := Apply(groups, s, Abort);
    forall g, j | 0 <= g < t.cur && 0 <= j < |groups[g]| ensures FinishedAsMeant(groups, t, g, j) {
      assert FinishedAsMeant(groups, s, g, j);
    }
  }

  lemma InvStep(groups: seq<Group>, s: State, step: Step)
    requires CurOk(groups, s.cur) && Inv(groups, s) && Enabled(groups, s, step)
    ensures Inv(groups, Apply(groups, s, step))
  {
    match step
    case Take(i) => InvTake(groups, s, i);
    case Compute(i) => InvCompute(groups, s, i);
    case Alloc(_, _, _, _) => InvPublish(groups, s, step);
    case Fill(_, _) => InvPublish(groups, s, step);
    case Finish(_) => InvPublish(groups, s, step);
    case Advance => InvAdvanceStep(groups, s);
    case Abort => InvAbort(groups, s);
  }

  lemma {:induction false} InvReachable(groups: seq<Group>, steps: seq<Step>, s: State)
    requires WellFormed(groups) && Reachable(groups, steps, s)
    ensures Inv(groups, s)
    decreases |steps|
  {
    if steps == [] {
      InvInit(groups);
    } else {
      var n := |steps| - 1;
      var m :| IsRun(groups, Init(groups), steps[..n], m) && Shaped(groups, m) && Enabled(groups, m, steps[n])
               && s == Apply(groups, m, steps[n]);
      InvReachable(groups, steps[..n], m);
      assert CurOk(groups, m.cur);
      InvStep(groups, m, steps[n]);
    }
  }

  // ----- Results -----

  /** The values the slots show. */
  ghost function View(s: State): Store
    requires forall x :: x in s.register ==> s.register[x] in s.heap
  {
    map x | x in s.register :: s.heap[s.register[x]]
  }

  lemma InvBarrier(groups: seq<Group>, s: State, g: nat, i: nat)
    requires Inv(groups, s) && g < |groups| && i < |groups[g]| && s.locals[g][i] != Fresh
    ensures forall h, j :: 0 <= h < g && 0 <= j < |groups[h]| ==> s.locals[h][j].phase.Finished?
  {
    forall h, j | 0 <= h < g && 0 <= j < |groups[h]| ensures s.locals[h][j].phase.Finished? {
      assert FinishedAsMeant(groups, s, h, j);
    }
  }

  /** What a function has read is what the workflow means it to read. */
  ghost predicate ReadAsMeant(groups: seq<Group>, l: Local, g: nat, i: nat)
    requires g < |groups| && i < |groups[g]|
  {
    && SucceedsUpTo(groups, g) && Available(StoreAt(groups, g), groups[g][i])
    && l.read == Some(Inputs(StoreAt(groups, g), groups[g][i]))
  }

  lemma InvReads(groups: seq<Group>, s: State, g: nat, i: nat)
    requires Inv(groups, s) && g < |groups| && i < |groups[g]| && s.locals[g][i].read.Some?
    ensures ReadAsMeant(groups, s.locals[g][i], g, i)
  {
    if g < s.cur {
      assert FinishedAsMeant(groups, s, g, i);
    } else {
      assert g == s.cur;
      assert LocalOk(StoreAt(groups, g), groups[g][i], s.locals[g][i], s.register, s.heap);
    }
  }

  /** No function of a later group has done anything before every function of the earlier groups has
      finished successfully; and whatever a function has read is what the workflow means it to read. */
  lemma Barrier(groups: seq<Group>, steps: seq<Step>, s: State, g: nat, i: nat)
    requires WellFormed(groups) && Reachable(groups, steps, s)
    requires g < |groups| && i < |groups[g]|
    ensures Shaped(groups, s)
    ensures s.locals[g][i] != Fresh ==>
              forall h, j :: 0 <= h < g && 0 <= j < |groups[h]| ==> s.locals[h][j].phase.Finished?
    ensures s.locals[g][i].read.Some? ==> ReadAsMeant(groups, s.locals[g][i], g, i)
  {
    InvReachable(groups, steps, s);
    if s.locals[g][i] != Fresh { InvBarrier(groups, s, g, i); }
    if s.locals[g][i].read.Some? { InvReads(groups, s, g, i); }
  }

  /** Every run that ends, ends the same way: it is aborted exactly when the workflow fails as a
      sequence of single steps, and otherwise leaves the same slots with the same values. */
  lemma Outcome(groups: seq<Group>, steps: seq<Step>, s: State)
    requires WellFormed(groups) && Reachable(groups, steps, s) && Terminal(groups, s)
    ensures s.aborted <==> !SucceedsUpTo(groups, |groups|)
    ensures forall x :: x in s.register ==> s.register[x] in s.heap
    ensures !s.aborted ==> View(s) == StoreAt(groups, |groups|)
  {
    InvReachable(groups, steps, s);
    if !s.aborted { FinalView(groups, s); }
  }

  lemma FinalView(groups: seq<Group>, s: State)
    requires Inv(groups, s) && s.cur == |groups|
    ensures View(s) == StoreAt(groups, |groups|)
  {
    var store := StoreAt(groups, |groups|);
    assert MemOk(store, [], [], s.register, s.heap);
    assert forall x :: !TakenSoFar([], [], x) && !Announced([], x);
    assert forall x :: x in View(s) <==> x in store;
  }

  /** Confluence: any two complete runs agree, whatever the interleaving and the addresses. */
  lemma Confluence(groups: seq<Group>, steps1: seq<Step>, s1: State, steps2: seq<Step>, s2: State)
    requires WellFormed(groups)
    requires Reachable(groups, steps1, s1) && Terminal(groups, s1)
    requires Reachable(groups, steps2, s2) && Terminal(groups, s2)
    ensures s1.aborted == s2.aborted
    ensures forall x :: x in s1.register ==> s1.register[x] in s1.heap
    ensures forall x :: x in s2.register ==> s2.register[x] in s2.heap
    ensures !s1.aborted ==> View(s1) == View(s2)
  {
    Outcome(groups, steps1, s1);
    Outcome(groups, steps2, s2);
  }

  // ----- Every run can be completed, and none goes on for ever -----

  lemma {:induction false} FreshAddr(used: set<Addr>) returns (a: Addr)
    ensures forall x :: x in used ==> x < a
    decreases |used|
  {
    if used == {} {
      a := 0;
    } else {
      var x :| x in used;
      var b := FreshAddr(used - {x});
      a := if x < b then b else x + 1;
      assert forall y :: y in used ==> y == x || y in used - {x};
    }
  }

  lemma LocalProgress(groups: seq<Group>, s: State, i: nat) returns (step: Step)
    requires Inv(groups, s) && !Terminal(groups, s) && i < |groups[s.cur]| && !Done(s.locals[s.cur][i])
    ensures Enabled(groups, s, step)
  {
    var l := s.locals[s.cur][i];
    assert LocalOk(StoreAt(groups, s.cur), groups[s.cur][i], l, s.register, s.heap);
    if l.phase.Taking? {
      step := if |l.addrs| < |groups[s.cur][i].takes| then Take(i) else Compute(i);
    } else if k: nat :| k < |l.outs| && k !in l.filled {
      if k in l.cells {
        step := Fill(i, k);
      } else {
        var a := FreshAddr(s.heap.Keys);
        step := Alloc(i, k, a, Numbers([]));
      }
    } else {
      step := Finish(i);
    }
  }

  /** A run that has not ended can go on. */
  lemma Progress(groups: seq<Group>, steps: seq<Step>, s: State) returns (step: Step)
    requires WellFormed(groups) && Reachable(groups, steps, s) && !Terminal(groups, s)
    ensures Shaped(groups, s) && Enabled(groups, s, step)
  {
    InvReachable(groups, steps, s);
    if i :| 0 <= i < |groups[s.cur]| && !Done(s.locals[s.cur][i]) {
      step := LocalProgress(groups, s, i);
    } else if i :| 0 <= i < |groups[s.cur]| && s.locals[s.cur][i].phase.Failed? {
      step := Abort;
    } else {
      step := Advance;
    }
  }

  ghost function StageOf(l: Local): C.Stage {
    C.Stage(l.phase, |l.addrs|, |l.outs|, l.cells.Keys, l.filled)
  }

  ghost function Stages(locals: seq<Local>): (r: seq<C.Stage>)
    ensures |r| == |locals| && forall i :: 0 <= i < |r| ==> r[i] == StageOf(locals[i])
  {
    seq(|locals|, i requires 0 <= i < |locals| => StageOf(locals[i]))
  }

  /** The steps a run has still to take at most. */
  ghost function Work(groups: seq<Group>, s: State): nat
    requires Shaped(groups, s)
  {
    if Terminal(groups, s) then 0 else C.Work(groups, s.cur, Stages(s.locals[s.cur]))
  }

  lemma ComputeMoves(store: Store, group: Group, locals: seq<Local>, register: SlotMap, heap: Heap,
                     i: nat, inputs: seq<SlotValue>)
    requires MemOk(store, group, locals, register, heap)
    requires i < |group| && locals[i].phase.Taking? && |locals[i].addrs| == |group[i].takes|
    requires |inputs| == |locals[i].addrs|
    requires forall k :: 0 <= k < |inputs| ==> locals[i].addrs[k] in heap && inputs[k] == heap[locals[i].addrs[k]]
    ensures var l, r := locals[i], group[i].compute(inputs);
            r.Some? ==>
              var next := l.(phase := Publishing, read := Some(inputs), outs := r.value);
              C.Moves(store, group[i], StageOf(l), StageOf(next))
  {
    ComputeOk(store, group, locals, register, heap, i, inputs);
    assert LocalOk(store, group[i], locals[i], register, heap);
    assert locals[i].cells == map[];
    assert locals[i].cells.Keys == {};
  }

  /** What each step makes of its function. */
  ghost predicate Becomes(group: Group, l: Local, step: Step, heap: Heap, next: Local)
    requires !step.Advance? && !step.Abort? && step.i < |group|
  {
    match step
    case Take(i) => next.phase.Failed? || exists a :: next == l.(addrs := l.addrs + [a])
    case Compute(i) =>
      || next.phase.Failed?
      || (exists inputs ::
            && IsRead(l, heap, inputs) && group[i].compute(inputs).Some?
            && next == l.(phase := Publishing, read := Some(inputs), outs := group[i].compute(inputs).value))
    case Alloc(i, k, addr, junk) => next == l.(cells := l.cells[k := addr])
    case Fill(i, k) => next == l.(filled := l.filled + {k})
    case Finish(i) => next == l.(phase := Finished)
  }

  ghost predicate IsRead(l: Local, heap: Heap, inputs: seq<SlotValue>) {
    |inputs| == |l.addrs| && forall k :: 0 <= k < |inputs| ==> l.addrs[k] in heap && inputs[k] == heap[l.addrs[k]]
  }

  /** Each step of a function changes that function and no other. */
  lemma StepIsLocal(groups: seq<Group>, s: State, step: Step) returns (next: Local)
    requires Shaped(groups, s) && Enabled(groups, s, step) && !step.Advance? && !step.Abort?
    ensures var t := Apply(groups, s, step);
            t.cur == s.cur && !t.aborted && t.locals == s.locals[s.cur := s.locals[s.cur][step.i := next]]
    ensures Becomes(groups[s.cur], s.locals[s.cur][step.i], step, s.heap, next)
  {
    var t, l := Apply(groups, s, step), s.locals[s.cur][step.i];
    next := t.locals[s.cur][step.i];
    if step.Compute? {
      assert IsRead(l, s.heap, seq(|l.addrs|, k requires 0 <= k < |l.addrs| => s.heap[l.addrs[k]]));
    }
  }

  /** Each step of a function is a move. */
  lemma StepMoves(groups: seq<Group>, s: State, step: Step, store: Store, next: Local)
    requires Shaped(groups, s) && Enabled(groups, s, step) && !step.Advance? && !step.Abort?
    requires MemOk(store, groups[s.cur], s.locals[s.cur], s.register, s.heap)
    requires Becomes(groups[s.cur], s.locals[s.cur][step.i], step, s.heap, next)
    ensures C.Moves(store, groups[s.cur][step.i], StageOf(s.locals[s.cur][step.i]), StageOf(next))
  {
    var group, locals := groups[s.cur], s.locals[s.cur];
    var l := locals[step.i];
    assert LocalOk(store, group[step.i], l, s.register, s.heap);
    match step
    case Take(i) =>
    case Compute(i) =>
      if !next.phase.Failed? {
        var inputs :| IsRead(l, s.heap, inputs) && group[i].compute(inputs).Some?
          && next == l.(phase := Publishing, read := Some(inputs), outs := group[i].compute(inputs).value);
        ComputeMoves(store, group, locals, s.register, s.heap, i, inputs);
      }
    case Alloc(i, k, addr, junk) =>
      assert C.Starts(StageOf(l), StageOf(next), k);
    case Fill(i, k) =>
      assert C.Fills(StageOf(l), StageOf(next), k);
    case Finish(i) =>
  }

  lemma WorkLessLocal(groups: seq<Group>, s: State, i: nat, next: Local, t: State)
    requires Shaped(groups, s) && !Terminal(groups, s) && i < |groups[s.cur]|
    requires C.Moves(StoreAt(groups, s.cur), groups[s.cur][i], StageOf(s.locals[s.cur][i]), StageOf(next))
    requires t.locals == s.locals[s.cur := s.locals[s.cur][i := next]] && t.cur == s.cur && !t.aborted
    ensures Shaped(groups, t) && Work(groups, t) < Work(groups, s)
  {
    var stages := Stages(s.locals[s.cur]);
    C.WorkLess(groups, s.cur, stages, i, StageOf(next));
    assert Stages(t.locals[s.cur]) == stages[i := StageOf(next)];
  }

  lemma WorkLessStep(groups: seq<Group>, s: State, step: Step)
    requires Shaped(groups, s) && PresentOk(groups, s) && Enabled(groups, s, step) && !step.Advance? && !step.Abort?
    ensures Shaped(groups, Apply(groups, s, step)) && Work(groups, Apply(groups, s, step)) < Work(groups, s)
  {
    var next := StepIsLocal(groups, s, step);
    StepMoves(groups, s, step, StoreAt(groups, s.cur), next);
    WorkLessLocal(groups, s, step.i, next, Apply(groups, s, step));
  }

  lemma WorkLessAdvance(groups: seq<Group>, s: State, t: State)
    requires Shaped(groups, s) && FutureOk(groups, s) && !Terminal(groups, s) && t == s.(cur := s.cur + 1)
    ensures Shaped(groups, t) && Work(groups, t) < Work(groups, s)
  {
    if t.cur < |groups| { C.WorkAtStart(groups, t.cur, Stages(t.locals[t.cur])); }
  }

  lemma WorkLess(groups: seq<Group>, s: State, step: Step)
    requires Shaped(groups, s) && PresentOk(groups, s) && FutureOk(groups, s) && Enabled(groups, s, step)
    ensures Shaped(groups, Apply(groups, s, step)) && Work(groups, Apply(groups, s, step)) < Work(groups, s)
  {
    if step.Advance? {
      WorkLessAdvance(groups, s, Apply(groups, s, step));
    } else if !step.Abort? {
      WorkLessStep(groups, s, step);
    }
  }

  /** No run is longer than the work the workflow has in it. */
  lemma {:induction false} RunsAreBounded(groups: seq<Group>, steps: seq<Step>, s: State)
    requires WellFormed(groups) && Reachable(groups, steps, s)
    ensures Shaped(groups, s) && |steps| + Work(groups, s) <= C.WorkFrom(groups, 0)
    decreases |steps|
  {
    if steps == [] {
      if |groups| > 0 { C.WorkAtStart(groups, 0, Stages(s.locals[0])); }
    } else {
      var n := |steps| - 1;
      var m :| IsRun(groups, Init(groups), steps[..n], m) && Shaped(groups, m) && Enabled(groups, m, steps[n])
               && s == Apply(groups, m, steps[n]);
      RunsAreBounded(groups, steps[..n], m);
      InvReachable(groups, steps[..n], m);
      WorkLess(groups, m, steps[n]);
    }
  }

  lemma OneStepMore(groups: seq<Group>, steps: seq<Step>, s: State) returns (more: seq<Step>, t: State)
    requires WellFormed(groups) && Reachable(groups, steps, s)
    requires !Terminal(groups, s)
    ensures steps < more && Reachable(groups, more, t) && |more| <= C.WorkFrom(groups, 0)
  {
    var step := Progress(groups, steps, s);
    more, t := steps + [step], Apply(groups, s, step);
    assert more[..|steps|] == steps;
    assert Reachable(groups, more, t);
    RunsAreBounded(groups, more, t);
  }

  /** Every run can be carried on to its end. */
  lemma {:induction false} EveryRunCompletes(groups: seq<Group>, steps: seq<Step>, s: State)
    returns (all: seq<Step>, end: State)
    requires WellFormed(groups) && Reachable(groups, steps, s)
    ensures steps <= all && Reachable(groups, all, end) && Terminal(groups, end)
    decreases C.WorkFrom(groups, 0) - |steps|
  {
    all, end := steps, s;
    if !Terminal(groups, s) {
      var more, t := OneStepMore(groups, steps, s);
      all, end := EveryRunCompletes(groups, more, t);
    }
  }
}
