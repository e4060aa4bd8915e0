/** The file-based half of as_std/src/agent.rs: a slot is a file that its producer creates and writes
    when the buffer is dropped, and that readers open and decode without removing it. Creating a file
    that exists keeps its content, and writing overwrites from the start without truncating. */
module FileTransport {
  import opened Seqs
  import opened ByteSeqs
  import opened Workflow
  import R = RefTransport
  import M = RefMeaning
  import C = Completion

  type Files = map<Slot, Bytes>

  /** The serialiser. All that is known of it is that it can be undone. */
  datatype Codec = Codec(encode: SlotValue -> Bytes, decode: Bytes -> Option<SlotValue>)

  ghost predicate Invertible(codec: Codec) {
    forall v :: codec.decode(codec.encode(v)) == Some(v)
  }

  /** What a write from the start of a file leaves in it. */
  function Overwrite(data: Bytes, old': Bytes): Bytes {
    if |data| < |old'| then data + old'[|data|..] else data
  }

  datatype Local = Local(phase: R.Phase, vals: seq<SlotValue>, read: Option<seq<SlotValue>>,
                         outs: seq<(Slot, SlotValue)>, created: set<nat>, filled: set<nat>)

  const Fresh: Local := Local(R.Taking, [], None, [], {}, {})

  datatype State = State(files: Files, locals: seq<seq<Local>>, cur: nat, aborted: bool)

  datatype Step =
    | Take(i: nat)
    | Compute(i: nat)
    | Create(i: nat, k: nat)
    | Fill(i: nat, k: nat)
    | Finish(i: nat)
    | Advance
    | Abort

  function Init(groups: seq<Group>): State {
    State(map[], seq(|groups|, g requires 0 <= g < |groups| => seq(|groups[g]|, _ => Fresh)), 0, false)
  }

  predicate Shaped(groups: seq<Group>, s: State) {
    && |s.locals| == |groups| && s.cur <= |groups|
    && (forall g :: 0 <= g < |groups| ==> |s.locals[g]| == |groups[g]|)
  }

  ghost predicate Terminal(groups: seq<Group>, s: State) {
    s.aborted || s.cur == |groups|
  }

  ghost predicate Enabled(groups: seq<Group>, s: State, step: Step)
    requires Shaped(groups, s)
  {
    !Terminal(groups, s) &&
    var group, locals := groups[s.cur], s.locals[s.cur];
    match step
    case Take(i) => i < |group| && locals[i].phase.Taking? && |locals[i].vals| < |group[i].takes|
    case Compute(i) => i < |group| && locals[i].phase.Taking? && |locals[i].vals| == |group[i].takes|
    case Create(i, k) => i < |group| && locals[i].phase.Publishing? && k < |locals[i].outs| && k !in locals[i].created
    case Fill(i, k) => i < |group| && locals[i].phase.Publishing? && k < |locals[i].outs|
                       && k in locals[i].created && k !in locals[i].filled && locals[i].outs[k].0 in s.files
    case Finish(i) => i < |group| && locals[i].phase.Publishing?
                      && forall k :: 0 <= k < |locals[i].outs| ==> k in locals[i].filled
    case Advance => forall i :: 0 <= i < |group| ==> locals[i].phase.Finished?
    case Abort => (forall i :: 0 <= i < |group| ==> locals[i].phase.Finished? || locals[i].phase.Failed?)
                  && exists i :: 0 <= i < |group| && locals[i].phase.Failed?
  }

  ghost function SetLocal(s: State, i: nat, l: Local): State
    requires s.cur < |s.locals| && i < |s.locals[s.cur]|
  {
    s.(locals := s.locals[s.cur := s.locals[s.cur][i := l]])
  }

  /** The function's state after it tried to open and decode its next input. */
  ghost function Taken(codec: Codec, app: App, l: Local, files: Files): Local
    requires |l.vals| < |app.takes|
  {
    var slot := app.takes[|l.vals|];
    if slot in files && codec.decode(files[slot]).Some? then l.(vals := l.vals + [codec.decode(files[slot]).value])
    else l.(phase := R.Failed)
  }

  ghost function Computed(app: App, l: Local): Local {
    match app.compute(l.vals)
    case Some(outs) => l.(phase := R.Publishing, read := Some(l.vals), outs := outs)
    case None => l.(phase := R.Failed, read := Some(l.vals))
  }

  ghost function Apply(codec: Codec, groups: seq<Group>, s: State, step: Step): State
    requires Shaped(groups, s) && Enabled(groups, s, step)
  {
    var group, locals := groups[s.cur], s.locals[s.cur];
    match step
    case Take(i) => SetLocal(s, i, Taken(codec, group[i], locals[i], s.files))
    case Compute(i) => SetLocal(s, i, Computed(group[i], locals[i]))
    case Create(i, k) =>
      var slot := locals[i].outs[k].0;
      SetLocal(s, i, locals[i].(created := locals[i].created + {k}))
        .(files := if slot in s.files then s.files else s.files[slot := []])
    case Fill(i, k) =>
      var (slot, v) := locals[i].outs[k];
      SetLocal(s, i, locals[i].(filled := locals[i].filled + {k}))
        .(files := s.files[slot := Overwrite(codec.encode(v), s.files[slot])])
    case Finish(i) => SetLocal(s, i, locals[i].(phase := R.Finished))
    case Advance => s.(cur := s.cur + 1)
    case Abort => s.(aborted := true)
  }

  ghost predicate IsRun(codec: Codec, groups: seq<Group>, s: State, steps: seq<Step>, t: State)
    decreases |steps|
  {
    if steps == [] then s == t
    else
      var n := |steps| - 1;
      exists m :: IsRun(codec, groups, s, steps[..n], m) && Shaped(groups, m) && Enabled(groups, m, steps[n])
                  && t == Apply(codec, groups, m, steps[n])
  }

  ghost predicate Reachable(codec: Codec, groups: seq<Group>, steps: seq<Step>, s: State) {
    IsRun(codec, groups, Init(groups), steps, s)
  }

  // ----- The invariant inside one group -----

  ghost predicate HasOutputs(store: Store, app: App, l: Local) {
    && Available(store, app) && l.read == Some(Inputs(store, app)) && Outputs(store, app) == Some(l.outs)
  }

  ghost predicate LocalOk(codec: Codec, store: Store, app: App, l: Local, files: Files) {
    && |l.vals| <= |app.takes|
    && (forall k :: 0 <= k < |l.vals| ==> app.takes[k] in store && l.vals[k] == store[app.takes[k]])
    && (l.phase.Taking? ==> l == Fresh.(vals := l.vals))
    && (l.read.Some? ==> Available(store, app) && l.read.value == Inputs(store, app))
    && (l.phase.Publishing? || l.phase.Finished? ==> HasOutputs(store, app, l))
    && (l.phase.Finished? ==> forall k :: 0 <= k < |l.outs| ==> k in l.filled)
    && (l.phase.Failed? ==> Outputs(store, app).None? && l.created == {} && l.filled == {})
    && (forall k :: k in l.created ==> k < |l.outs| && l.outs[k].0 in files)
    && (forall k :: k in l.created && k !in l.filled ==> files[l.outs[k].0] == [])
    && (forall k :: k in l.filled ==> k in l.created && files[l.outs[k].0] == codec.encode(l.outs[k].1))
  }

  ghost predicate LocalsOk(codec: Codec, store: Store, group: Group, locals: seq<Local>, files: Files) {
    |locals| == |group| && forall i :: 0 <= i < |group| ==> LocalOk(codec, store, group[i], locals[i], files)
  }

  ghost predicate Creates(l: Local, k: nat, s: Slot) {
    k in l.created && k < |l.outs| && l.outs[k].0 == s
  }

  ghost predicate Created(locals: seq<Local>, s: Slot) {
    exists i, k :: 0 <= i < |locals| && Creates(locals[i], k, s)
  }

  ghost predicate FilesOk(codec: Codec, store: Store, written: set<Slot>, locals: seq<Local>, files: Files) {
    && (forall s :: s in store ==> s in files && files[s] == codec.encode(store[s]))
    && (forall s :: s in files ==> s in written || Created(locals, s))
  }

  ghost predicate MemOk(codec: Codec, store: Store, written: set<Slot>, group: Group, locals: seq<Local>, files: Files)
  {
    LocalsOk(codec, store, group, locals, files) && FilesOk(codec, store, written, locals, files)
  }

  lemma CreatedIsPublished(codec: Codec, store: Store, group: Group, locals: seq<Local>, files: Files,
                           i: nat, k: nat, s: Slot)
    requires LocalsOk(codec, store, group, locals, files) && i < |group| && Creates(locals[i], k, s)
    ensures Publishes(store, group[i], k, s)
  {
    assert LocalOk(codec, store, group[i], locals[i], files);
  }

  lemma CreatedNotTaken(codec: Codec, store: Store, written: set<Slot>, group: Group, locals: seq<Local>,
                        files: Files, s: Slot)
    requires LocalsOk(codec, store, group, locals, files) && OutputsFresh(store, written, group) && Created(locals, s)
    ensures !IsTaken(group, s) && s !in written
  {
    var i, k :| 0 <= i < |locals| && Creates(locals[i], k, s);
    CreatedIsPublished(codec, store, group, locals, files, i, k, s);
  }

  lemma CreatedGrows(locals: seq<Local>, i: nat, l: Local)
    requires i < |locals| && forall k, s :: Creates(locals[i], k, s) ==> Creates(l, k, s)
    ensures forall s :: Created(locals, s) ==> Created(locals[i := l], s)
  {
    forall s | Created(locals, s) ensures Created(locals[i := l], s) {
      var j, k :| 0 <= j < |locals| && Creates(locals[j], k, s);
      assert Creates(locals[i := l][j], k, s);
    }
  }

  lemma LocalChange(codec: Codec, store: Store, written: set<Slot>, group: Group, locals: seq<Local>, files: Files,
                    i: nat, l: Local)
    requires MemOk(codec, store, written, group, locals, files) && i < |group|
    requires LocalOk(codec, store, group[i], l, files)
    requires forall k, s :: Creates(locals[i], k, s) ==> Creates(l, k, s)
    ensures MemOk(codec, store, written, group, locals[i := l], files)
  {
    var next := locals[i := l];
    CreatedGrows(locals, i, l);
  }

  // ----- One lemma per step -----

  lemma TakeOk(codec: Codec, store: Store, written: set<Slot>, group: Group, locals: seq<Local>, files: Files, i: nat)
    requires Invertible(codec) && OutputsFresh(store, written, group) && ReadOnce(store, written, group)
    requires MemOk(codec, store, written, group, locals, files)
    requires i < |group| && locals[i].phase.Taking? && |locals[i].vals| < |group[i].takes|
    ensures MemOk(codec, store, written, group, locals[i := Taken(codec, group[i], locals[i], files)], files)
  {
    var l := locals[i];
    var s := group[i].takes[|l.vals|];
    assert LocalOk(codec, store, group[i], l, files);
    assert IsTaken(group, s);
    if Created(locals, s) { CreatedNotTaken(codec, store, written, group, locals, files, s); }
    assert s in files <==> s in store;
    LocalChange(codec, store, written, group, locals, files, i, Taken(codec, group[i], l, files));
  }

  lemma ComputeOk(codec: Codec, store: Store, written: set<Slot>, group: Group, locals: seq<Local>, files: Files,
                  i: nat)
    requires MemOk(codec, store, written, group, locals, files)
    requires i < |group| && locals[i].phase.Taking? && |locals[i].vals| == |group[i].takes|
    ensures MemOk(codec, store, written, group, locals[i := Computed(group[i], locals[i])], files)
  {
    var l := locals[i];
    assert LocalOk(codec, store, group[i], l, files);
    assert Available(store, group[i]);
    assert l.vals == Inputs(store, group[i]);
    LocalChange(codec, store, written, group, locals, files, i, Computed(group[i], l));
  }

  /** The file of an output that was not created yet does not exist. */
  lemma NoFileYet(codec: Codec, store: Store, written: set<Slot>, group: Group, locals: seq<Local>, files: Files,
                  i: nat, k: nat, s: Slot)
    requires OutputsDistinct(store, group) && OutputsFresh(store, written, group)
    requires MemOk(codec, store, written, group, locals, files)
    requires i < |group| && locals[i].phase.Publishing? && k < |locals[i].outs| && k !in locals[i].created
    requires s == locals[i].outs[k].0
    ensures s !in files
  {
    assert LocalOk(codec, store, group[i], locals[i], files);
    assert Publishes(store, group[i], k, s);
    forall j, m | 0 <= j < |locals| && Creates(locals[j], m, s) ensures j == i && m == k {
      CreatedIsPublished(codec, store, group, locals, files, j, m, s);
    }
  }

  lemma CreateOk(codec: Codec, store: Store, written: set<Slot>, group: Group, locals: seq<Local>, files: Files,
                 i: nat, k: nat, s: Slot)
    requires OutputsDistinct(store, group) && OutputsFresh(store, written, group)
    requires MemOk(codec, store, written, group, locals, files)
    requires i < |group| && locals[i].phase.Publishing? && k < |locals[i].outs| && k !in locals[i].created
    requires s == locals[i].outs[k].0
    ensures s !in files
    ensures var next := locals[i := locals[i].(created := locals[i].created + {k})];
            MemOk(codec, store, written, group, next, files[s := []])
  {
    NoFileYet(codec, store, written, group, locals, files, i, k, s);
    var next := locals[i := locals[i].(created := locals[i].created + {k})];
    assert LocalOk(codec, store, group[i], locals[i], files);
    forall j | 0 <= j < |group| ensures LocalOk(codec, store, group[j], next[j], files[s := []]) {
      assert LocalOk(codec, store, group[j], locals[j], files);
    }
    CreatedGrows(locals, i, next[i]);
    assert Creates(next[i], k, s);
  }

  lemma FillOk(codec: Codec, store: Store, written: set<Slot>, group: Group, locals: seq<Local>, files: Files,
               i: nat, k: nat, s: Slot, data: Bytes)
    requires OutputsDistinct(store, group) && OutputsFresh(store, written, group) && store.Keys <= written
    requires MemOk(codec, store, written, group, locals, files)
    requires i < |group| && locals[i].phase.Publishing? && k < |locals[i].outs| && k in locals[i].created
             && k !in locals[i].filled
    requires s == locals[i].outs[k].0 && s in files && data == Overwrite(codec.encode(locals[i].outs[k].1), files[s])
    ensures var next := locals[i := locals[i].(filled := locals[i].filled + {k})];
            MemOk(codec, store, written, group, next, files[s := data])
  {
    var l := locals[i];
    assert LocalOk(codec, store, group[i], l, files);
    assert Creates(l, k, s);
    CreatedIsPublished(codec, store, group, locals, files, i, k, s);
    assert data == codec.encode(l.outs[k].1);
    FillLocals(codec, store, group, locals, files, i, k, s, data);
    var next := locals[i := l.(filled := l.filled + {k})];
    CreatedGrows(locals, i, next[i]);
  }

  lemma FillLocals(codec: Codec, store: Store, group: Group, locals: seq<Local>, files: Files,
                   i: nat, k: nat, s: Slot, data: Bytes)
    requires OutputsDistinct(store, group) && LocalsOk(codec, store, group, locals, files)
    requires i < |group| && locals[i].phase.Publishing? && Creates(locals[i], k, s)
    requires data == codec.encode(locals[i].outs[k].1)
    ensures LocalsOk(codec, store, group, locals[i := locals[i].(filled := locals[i].filled + {k})], files[s := data])
  {
    var l := locals[i];
    var next := locals[i := l.(filled := l.filled + {k})];
    CreatedIsPublished(codec, store, group, locals, files, i, k, s);
    forall j | 0 <= j < |group| ensures LocalOk(codec, store, group[j], next[j], files[s := data]) {
      var lj := locals[j];
      assert LocalOk(codec, store, group[j], lj, files);
      forall m | m in lj.created && lj.outs[m].0 == s ensures j == i && m == k {
        assert Creates(lj, m, s);
        CreatedIsPublished(codec, store, group, locals, files, j, m, s);
      }
    }
  }

  lemma AdvanceOk(codec: Codec, groups: seq<Group>, g: nat, locals: seq<Local>, files: Files, next: seq<Local>)
    requires g < |groups| && Disciplined(StoreAt(groups, g), WrittenAt(groups, g), groups[g])
    requires MemOk(codec, StoreAt(groups, g), WrittenAt(groups, g), groups[g], locals, files)
    requires forall i :: 0 <= i < |locals| ==> locals[i].phase.Finished?
    requires |next| == |M.GroupAt(groups, g + 1)| && forall i :: 0 <= i < |next| ==> next[i] == Fresh
    ensures Succeeds(StoreAt(groups, g), groups[g])
    ensures MemOk(codec, StoreAt(groups, g + 1), WrittenAt(groups, g + 1), M.GroupAt(groups, g + 1), next, files)
  {
    var store, group, after := StoreAt(groups, g), groups[g], StoreAt(groups, g + 1);
    forall i | 0 <= i < |group| ensures HasOutputs(store, group[i], locals[i]) {
      assert LocalOk(codec, store, group[i], locals[i], files);
    }
    forall s | s in after ensures s in files && files[s] == codec.encode(after[s]) {
      AfterHas(store, group, s);
      if IsPublished(store, group, s) {
        var i, k :| 0 <= i < |group| && Publishes(store, group[i], k, s);
        assert LocalOk(codec, store, group[i], locals[i], files);
        assert k in locals[i].filled;
      }
    }
    forall s | s in files ensures s in WrittenAt(groups, g + 1) {
      if Created(locals, s) {
        var i, k :| 0 <= i < |locals| && Creates(locals[i], k, s);
        CreatedIsPublished(codec, store, group, locals, files, i, k, s);
        AfterHas(store, group, s);
      }
    }
  }

  // ----- The invariant over whole runs -----

  ghost function LocalsAt(s: State): seq<Local> {
    if s.cur < |s.locals| then s.locals[s.cur] else []
  }

  ghost predicate PastOk(groups: seq<Group>, s: State)
    requires Shaped(groups, s)
  {
    forall g, i :: 0 <= g < s.cur && 0 <= i < |groups[g]| ==>
      HasOutputs(StoreAt(groups, g), groups[g][i], s.locals[g][i])
  }

  ghost predicate PresentOk(codec: Codec, groups: seq<Group>, s: State)
    requires Shaped(groups, s)
  {
    MemOk(codec, StoreAt(groups, s.cur), WrittenAt(groups, s.cur), M.GroupAt(groups, s.cur), LocalsAt(s), s.files)
  }

  ghost predicate FutureOk(groups: seq<Group>, s: State)
    requires Shaped(groups, s)
  {
    forall g, i :: s.cur < g < |groups| && 0 <= i < |groups[g]| ==> s.locals[g][i] == Fresh
  }

  ghost predicate Inv(codec: Codec, groups: seq<Group>, s: State) {
    && Shaped(groups, s) && SucceedsUpTo(groups, s.cur)
    && PastOk(groups, s) && PresentOk(codec, groups, s) && FutureOk(groups, s)
    && (s.aborted ==> s.cur < |groups| && !Succeeds(StoreAt(groups, s.cur), groups[s.cur]))
  }

  ghost predicate CurOk(groups: seq<Group>, g: nat) {
    g < |groups| ==>
      && Disciplined(StoreAt(groups, g), WrittenAt(groups, g), groups[g])
      && ReadOnce(StoreAt(groups, g), WrittenAt(groups, g), groups[g])
  }

  lemma InvLocalStep(codec: Codec, groups: seq<Group>, s: State, i: nat, l: Local, t: State)
    requires Inv(codec, groups, s) && s.cur < |groups| && !s.aborted && i < |groups[s.cur]|
    requires t.locals == s.locals[s.cur := s.locals[s.cur][i := l]] && t.cur == s.cur && t.aborted == s.aborted
    requires var store, written := StoreAt(groups, s.cur), WrittenAt(groups, s.cur);
             MemOk(codec, store, written, groups[s.cur], s.locals[s.cur][i := l], t.files)
    ensures Inv(codec, groups, t)
  {
    forall g, j | 0 <= g < t.cur && 0 <= j < |groups[g]|
      ensures HasOutputs(StoreAt(groups, g), groups[g][j], t.locals[g][j])
    {
      assert HasOutputs(StoreAt(groups, g), groups[g][j], s.locals[g][j]);
    }
  }

  lemma InvAdvance(codec: Codec, groups: seq<Group>, s: State, t: State)
    requires CurOk(groups, s.cur) && Inv(codec, groups, s) && !s.aborted
    requires s.cur < |groups| && forall i :: 0 <= i < |groups[s.cur]| ==> s.locals[s.cur][i].phase.Finished?
    requires t == s.(cur := s.cur + 1)
    ensures Inv(codec, groups, t)
  {
    AdvanceOk(codec, groups, s.cur, s.locals[s.cur], s.files, LocalsAt(t));
    AdvancePast(codec, groups, s, t);
  }

  lemma AdvancePast(codec: Codec, groups: seq<Group>, s: State, t: State)
    requires Shaped(groups, s) && PastOk(groups, s) && PresentOk(codec, groups, s)
    requires s.cur < |groups| && forall i :: 0 <= i < |groups[s.cur]| ==> s.locals[s.cur][i].phase.Finished?
    requires t == s.(cur := s.cur + 1)
    ensures PastOk(groups, t)
  {
    forall g, i | 0 <= g < t.cur && 0 <= i < |groups[g]|
      ensures HasOutputs(StoreAt(groups, g), groups[g][i], t.locals[g][i])
    {
      if g < s.cur {
        assert HasOutputs(StoreAt(groups, g), groups[g][i], s.locals[g][i]);
      } else {
        assert LocalOk(codec, StoreAt(groups, g), groups[g][i], s.locals[g][i], s.files);
      }
    }
  }

  lemma InvStep(codec: Codec, groups: seq<Group>, s: State, step: Step)
    requires Invertible(codec) && CurOk(groups, s.cur) && Inv(codec, groups, s) && Enabled(groups, s, step)
    ensures Inv(codec, groups, Apply(codec, groups, s, step))
  {
    match step
    case Advance =>
      assert Apply(codec, groups, s, step) == s.(cur := s.cur + 1);
      InvAdvance(codec, groups, s, s.(cur := s.cur + 1));
    case Abort => InvAbort(codec, groups, s);
    case _ => InvFunctionStep(codec, groups, s, step);
  }

  lemma InvAbort(codec: Codec, groups: seq<Group>, s: State)
    requires Inv(codec, groups, s) && Enabled(groups, s, Abort)
    ensures Inv(codec, groups, Apply(codec, groups, s, Abort))
  {
    var i :| 0 <= i < |groups[s.cur]| && s.locals[s.cur][i].phase.Failed?;
    assert LocalOk(codec, StoreAt(groups, s.cur), groups[s.cur][i], s.locals[s.cur][i], s.files);
  }

  lemma InvFunctionStep(codec: Codec, groups: seq<Group>, s: State, step: Step)
    requires Invertible(codec) && CurOk(groups, s.cur) && Inv(codec, groups, s) && Enabled(groups, s, step)
    requires !step.Advance? && !step.Abort?
    ensures Inv(codec, groups, Apply(codec, groups, s, step))
  {
    var store, written := StoreAt(groups, s.cur), WrittenAt(groups, s.cur);
    var group, locals := groups[s.cur], s.locals[s.cur];
    StoreWritten(groups, s.cur);
    var l := locals[step.i];
    var t := Apply(codec, groups, s, step);
    match step
    case Take(i) =>
      TakeOk(codec, store, written, group, locals, s.files, i);
      InvLocalStep(codec, groups, s, i, Taken(codec, group[i], l, s.files), t);
    case Compute(i) =>
      ComputeOk(codec, store, written, group, locals, s.files, i);
      InvLocalStep(codec, groups, s, i, Computed(group[i], l), t);
    case Create(i, k) =>
      CreateOk(codec, store, written, group, locals, s.files, i, k, l.outs[k].0);
      InvLocalStep(codec, groups, s, i, l.(created := l.created + {k}), t);
    case Fill(i, k) =>
      var (slot, v) := l.outs[k];
      FillOk(codec, store, written, group, locals, s.files, i, k, slot, Overwrite(codec.encode(v), s.files[slot]));
      InvLocalStep(codec, groups, s, i, l.(filled := l.filled + {k}), t);
    case Finish(i) =>
      assert LocalOk(codec, store, group[i], l, s.files);
      LocalChange(codec, store, written, group, locals, s.files, i, l.(phase := R.Finished));
      InvLocalStep(codec, groups, s, i, l.(phase := R.Finished), t);
  }

  lemma {:induction false} InvReachable(codec: Codec, groups: seq<Group>, steps: seq<Step>, s: State)
    requires Invertible(codec) && WellFormed(groups) && ReadsOnce(groups) && Reachable(codec, groups, steps, s)
    ensures Inv(codec, groups, s)
    decreases |steps|
  {
    if steps == [] {
      assert forall i :: 0 <= i < |LocalsAt(s)| ==> LocalsAt(s)[i] == Fresh;
    } else {
      var n := |steps| - 1;
      var m :| IsRun(codec, groups, Init(groups), steps[..n], m) && Shaped(groups, m) && Enabled(groups, m, steps[n])
               && s == Apply(codec, groups, m, steps[n]);
      InvReachable(codec, groups, steps[..n], m);
      assert CurOk(groups, m.cur);
      InvStep(codec, groups, m, steps[n]);
    }
  }

  // ----- Changing the transport changes nothing -----

  lemma InvReads(codec: Codec, groups: seq<Group>, s: State, g: nat, i: nat)
    requires Inv(codec, groups, s) && g < |groups| && i < |groups[g]| && s.locals[g][i].read.Some?
    ensures Available(StoreAt(groups, g), groups[g][i])
    ensures s.locals[g][i].read == Some(Inputs(StoreAt(groups, g), groups[g][i]))
  {
    if g < s.cur {
      assert HasOutputs(StoreAt(groups, g), groups[g][i], s.locals[g][i]);
    } else {
      assert g == s.cur;
      assert LocalOk(codec, StoreAt(groups, g), groups[g][i], s.locals[g][i], s.files);
    }
  }

  /** Where every slot is written once, and read at most once and in a later group, every function reads
      the same values whether they travel by reference or through files, in any pair of runs. */
  lemma SameValuesRead(codec: Codec, groups: seq<Group>, refSteps: seq<R.Step>, r: R.State, fileSteps: seq<Step>,
                       f: State, g: nat, i: nat)
    requires Invertible(codec) && WellFormed(groups) && ReadsOnce(groups)
    requires R.Reachable(groups, refSteps, r) && Reachable(codec, groups, fileSteps, f)
    requires g < |groups| && i < |groups[g]|
    ensures R.Shaped(groups, r) && Shaped(groups, f)
    ensures r.locals[g][i].read.Some? && f.locals[g][i].read.Some? ==> r.locals[g][i].read == f.locals[g][i].read
  {
    M.InvReachable(groups, refSteps, r);
    InvReachable(codec, groups, fileSteps, f);
    if r.locals[g][i].read.Some? && f.locals[g][i].read.Some? {
      M.InvReads(groups, r, g, i);
      InvReads(codec, groups, f, g, i);
    }
  }

  /** Complete runs over either transport end the same way, and every slot left in the register has its
      value in the file of the same name. */
  lemma SameOutcome(codec: Codec, groups: seq<Group>, refSteps: seq<R.Step>, r: R.State, fileSteps: seq<Step>, f: State)
    requires Invertible(codec) && WellFormed(groups) && ReadsOnce(groups)
    requires R.Reachable(groups, refSteps, r) && R.Terminal(groups, r)
    requires Reachable(codec, groups, fileSteps, f) && Terminal(groups, f)
    ensures r.aborted == f.aborted
    ensures forall x :: x in r.register ==> r.register[x] in r.heap
    ensures !r.aborted ==> forall x :: x in r.register ==> x in f.files && f.files[x] == codec.encode(M.View(r)[x])
  {
    M.Outcome(groups, refSteps, r);
    InvReachable(codec, groups, fileSteps, f);
    if !r.aborted {
      assert f.cur == |groups|;
      forall x | x in r.register ensures x in f.files && f.files[x] == codec.encode(M.View(r)[x]) {
        assert x in StoreAt(groups, |groups|);
      }
    }
  }

  // ----- Every run can be completed, and none goes on for ever -----

  lemma LocalProgress(codec: Codec, groups: seq<Group>, s: State, i: nat) returns (step: Step)
    requires Inv(codec, groups, s) && !Terminal(groups, s) && i < |groups[s.cur]|
    requires !s.locals[s.cur][i].phase.Finished? && !s.locals[s.cur][i].phase.Failed?
    ensures Enabled(groups, s, step)
  {
    var l := s.locals[s.cur][i];
    assert LocalOk(codec, StoreAt(groups, s.cur), groups[s.cur][i], l, s.files);
    if l.phase.Taking? {
      step := if |l.vals| < |groups[s.cur][i].takes| then Take(i) else Compute(i);
    } else if k: nat :| k < |l.outs| && k !in l.filled {
      step := if k in l.created then Fill(i, k) else Create(i, k);
    } else {
      step := Finish(i);
    }
  }

  /** A run that has not ended can go on. */
  lemma Progress(codec: Codec, groups: seq<Group>, steps: seq<Step>, s: State) returns (step: Step)
    requires Invertible(codec) && WellFormed(groups) && ReadsOnce(groups)
    requires Reachable(codec, groups, steps, s) && !Terminal(groups, s)
    ensures Shaped(groups, s) && Enabled(groups, s, step)
  {
    InvReachable(codec, groups, steps, s);
    var locals := s.locals[s.cur];
    if i :| 0 <= i < |locals| && !locals[i].phase.Finished? && !locals[i].phase.Failed? {
      step := LocalProgress(codec, groups, s, i);
    } else if i :| 0 <= i < |locals| && locals[i].phase.Failed? {
      step := Abort;
    } else {
      step := Advance;
    }
  }

  ghost function StageOf(l: Local): C.Stage {
    C.Stage(l.phase, |l.vals|, |l.outs|, l.created, l.filled)
  }

  ghost function Stages(locals: seq<Local>): (r: seq<C.Stage>)
    ensures |r| == |locals| && forall i :: 0 <= i < |r| ==> r[i] == StageOf(locals[i])
  {
    seq(|locals|, i requires 0 <= i < |locals| => StageOf(locals[i]))
  }

  ghost function Work(groups: seq<Group>, s: State): nat
    requires Shaped(groups, s)
  {
    if Terminal(groups, s) then 0 else C.Work(groups, s.cur, Stages(s.locals[s.cur]))
  }

  lemma StepMoves(codec: Codec, groups: seq<Group>, s: State, step: Step, store: Store)
    requires Shaped(groups, s) && Enabled(groups, s, step) && !step.Advance? && !step.Abort?
    requires LocalsOk(codec, store, groups[s.cur], s.locals[s.cur], s.files)
    ensures var t := Apply(codec, groups, s, step);
            && t.cur == s.cur && !t.aborted && |t.locals| == |s.locals| && |t.locals[s.cur]| == |s.locals[s.cur]|
            && t.locals == s.locals[s.cur := s.locals[s.cur][step.i := t.locals[s.cur][step.i]]]
            && C.Moves(store, groups[s.cur][step.i], StageOf(s.locals[s.cur][step.i]), StageOf(t.locals[s.cur][step.i]))
  {
    var app, l := groups[s.cur][step.i], s.locals[s.cur][step.i];
    assert LocalOk(codec, store, app, l, s.files);
    match step
    case Take(i) =>
    case Compute(i) =>
      assert l.vals == Inputs(store, app);
    case Create(i, k) =>
      assert C.Starts(StageOf(l), StageOf(l.(created := l.created + {k})), k);
    case Fill(i, k) =>
      assert C.Fills(StageOf(l), StageOf(l.(filled := l.filled + {k})), k);
    case Finish(i) =>
  }

  lemma WorkLessStep(codec: Codec, groups: seq<Group>, s: State, step: Step)
    requires Shaped(groups, s) && PresentOk(codec, groups, s) && Enabled(groups, s, step)
    requires !step.Advance? && !step.Abort?
    ensures var t := Apply(codec, groups, s, step); Shaped(groups, t) && Work(groups, t) < Work(groups, s)
  {
    var t := Apply(codec, groups, s, step);
    StepMoves(codec, groups, s, step, StoreAt(groups, s.cur));
    var stages := Stages(s.locals[s.cur]);
    C.WorkLess(groups, s.cur, stages, step.i, StageOf(t.locals[s.cur][step.i]));
    assert Stages(t.locals[s.cur]) == stages[step.i := StageOf(t.locals[s.cur][step.i])];
  }

  lemma WorkLessAdvance(groups: seq<Group>, s: State, t: State)
    requires Shaped(groups, s) && FutureOk(groups, s) && !Terminal(groups, s) && t == s.(cur := s.cur + 1)
    ensures Shaped(groups, t) && Work(groups, t) < Work(groups, s)
  {
    if t.cur < |groups| { C.WorkAtStart(groups, t.cur, Stages(t.locals[t.cur])); }
  }

  lemma WorkLess(codec: Codec, groups: seq<Group>, s: State, step: Step)
    requires Shaped(groups, s) && PresentOk(codec, groups, s) && FutureOk(groups, s) && Enabled(groups, s, step)
    ensures var t := Apply(codec, groups, s, step); Shaped(groups, t) && Work(groups, t) < Work(groups, s)
  {
    if step.Advance? {
      WorkLessAdvance(groups, s, Apply(codec, groups, s, step));
    } else if !step.Abort? {
      WorkLessStep(codec, groups, s, step);
    }
  }

  /** No run is longer than the work the workflow has in it. */
  lemma {:induction false} RunsAreBounded(codec: Codec, groups: seq<Group>, steps: seq<Step>, s: State)
    requires Invertible(codec) && WellFormed(groups) && ReadsOnce(groups) && Reachable(codec, groups, steps, s)
    ensures Shaped(groups, s) && |steps| + Work(groups, s) <= C.WorkFrom(groups, 0)
    decreases |steps|
  {
    if steps == [] {
      if |groups| > 0 { C.WorkAtStart(groups, 0, Stages(s.locals[0])); }
    } else {
      var n := |steps| - 1;
      var m :| IsRun(codec, groups, Init(groups), steps[..n], m) && Shaped(groups, m) && Enabled(groups, m, steps[n])
               && s == Apply(codec, groups, m, steps[n]);
      RunsAreBounded(codec, groups, steps[..n], m);
      InvReachable(codec, groups, steps[..n], m);
      WorkLess(codec, groups, m, steps[n]);
    }
  }

  lemma OneStepMore(codec: Codec, groups: seq<Group>, steps: seq<Step>, s: State) returns (more: seq<Step>, t: State)
    requires Invertible(codec) && WellFormed(groups) && ReadsOnce(groups) && Reachable(codec, groups, steps, s)
    requires !Terminal(groups, s)
    ensures steps < more && Reachable(codec, groups, more, t) && |more| <= C.WorkFrom(groups, 0)
  {
    var step := Progress(codec, groups, steps, s);
    more, t := steps + [step], Apply(codec, groups, s, step);
    assert more[..|steps|] == steps;
    assert Reachable(codec, groups, more, t);
    RunsAreBounded(codec, groups, more, t);
  }

  /** Every run can be carried on to its end. */
  lemma {:induction false} EveryRunCompletes(codec: Codec, groups: seq<Group>, steps: seq<Step>, s: State)
    returns (all: seq<Step>, end: State)
    requires Invertible(codec) && WellFormed(groups) && ReadsOnce(groups) && Reachable(codec, groups, steps, s)
    ensures steps <= all && Reachable(codec, groups, all, end) && Terminal(groups, end)
    decreases C.WorkFrom(groups, 0) - |steps|
  {
    all, end := steps, s;
    if !Terminal(groups, s) {
      var more, t := OneStepMore(codec, groups, steps, s);
      all, end := EveryRunCompletes(codec, groups, more, t);
    }
  }
}
