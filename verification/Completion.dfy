/** How much a run of a workflow has still to do. The measure only looks at how far each function of the
    current group has got, so it serves both transports. */
module Completion {
  import opened Seqs
  import opened Workflow
  import opened RefTransport

  /** How far a function has got: the slots it has taken, its outputs, and which of these it has started
      to publish (registered its buffer, or created its file) and has filled. */
  datatype Stage = Stage(phase: Phase, taken: nat, outs: nat, started: set<nat>, filled: set<nat>)

  const AtStart: Stage := Stage(Taking, 0, 0, {}, {})

  /** What is still to be done for the first `n` outputs. */
  ghost function Pending(started: set<nat>, filled: set<nat>, n: nat): nat {
    if n == 0 then 0
    else Pending(started, filled, n - 1) + (if n - 1 in filled then 0 else if n - 1 in started then 1 else 2)
  }

  lemma {:induction false} PendingSame(st: Stage, next: Stage, n: nat)
    requires forall k :: 0 <= k < n ==>
               (k in st.filled <==> k in next.filled) && (k in st.started <==> k in next.started)
    ensures Pending(st.started, st.filled, n) == Pending(next.started, next.filled, n)
  {
    if n > 0 { PendingSame(st, next, n - 1); }
  }

  lemma {:induction false} PendingLess(st: Stage, next: Stage, n: nat, k: nat)
    requires k < n && k !in st.filled
    requires (k in st.started && k in next.filled) || (k !in st.started && k in next.started && k !in next.filled)
    requires forall j :: 0 <= j < n && j != k ==>
               (j in st.filled <==> j in next.filled) && (j in st.started <==> j in next.started)
    ensures Pending(next.started, next.filled, n) == Pending(st.started, st.filled, n) - 1
  {
    if k == n - 1 { PendingSame(st, next, n - 1); } else { PendingLess(st, next, n - 1, k); }
  }

  lemma {:induction false} PendingAll(n: nat)
    ensures Pending({}, {}, n) == 2 * n
  {
    if n > 0 { PendingAll(n - 1); }
  }

  ghost function OutCount(store: Store, app: App): nat {
    match Outputs(store, app)
    case Some(outs) => |outs|
    case None => 0
  }

  /** The steps a function has still to take. */
  ghost function StageWork(store: Store, app: App, st: Stage): nat {
    match st.phase
    case Taking => (if st.taken < |app.takes| then |app.takes| - st.taken else 0) + 2 + 2 * OutCount(store, app)
    case Publishing => 1 + Pending(st.started, st.filled, st.outs)
    case Finished => 0
    case Failed => 0
  }

  /** One step of a function, as far as the measure sees it. */
  ghost predicate Moves(store: Store, app: App, st: Stage, next: Stage) {
    || (&& st.phase.Taking? && st.taken < |app.takes|
        && (next.phase.Failed? || next == st.(taken := st.taken + 1)))
    || (&& st.phase.Taking?
        && (next.phase.Failed?
            || next == Stage(Publishing, st.taken, OutCount(store, app), {}, {})))
    || (&& st.phase.Publishing?
        && (|| next.phase.Finished?
            || (exists k :: Starts(st, next, k))
            || (exists k :: Fills(st, next, k))))
  }

  ghost predicate Starts(st: Stage, next: Stage, k: nat) {
    k < st.outs && k !in st.started && k !in st.filled && next == st.(started := st.started + {k})
  }

  ghost predicate Fills(st: Stage, next: Stage, k: nat) {
    k < st.outs && k in st.started && k !in st.filled && next == st.(filled := st.filled + {k})
  }

  /** Each step of a function brings it nearer to its end. */
  lemma StageWorkLess(store: Store, app: App, st: Stage, next: Stage)
    requires Moves(store, app, st, next)
    ensures StageWork(store, app, next) < StageWork(store, app, st)
  {
    if st.phase.Taking? {
      PendingAll(OutCount(store, app));
    } else if k :| Starts(st, next, k) {
      PendingLess(st, next, st.outs, k);
    } else if k :| Fills(st, next, k) {
      PendingLess(st, next, st.outs, k);
    }
  }

  ghost function GroupWork(store: Store, group: Group, stages: seq<Stage>, n: nat): nat
    requires |stages| == |group| && n <= |group|
  {
    if n == 0 then 0 else GroupWork(store, group, stages, n - 1) + StageWork(store, group[n - 1], stages[n - 1])
  }

  lemma {:induction false} GroupWorkLess(store: Store, group: Group, stages: seq<Stage>, i: nat, next: Stage, n: nat)
    requires |stages| == |group| && n <= |group| && i < |group|
    requires StageWork(store, group[i], next) < StageWork(store, group[i], stages[i])
    ensures i < n ==> GroupWork(store, group, stages[i := next], n) < GroupWork(store, group, stages, n)
    ensures i >= n ==> GroupWork(store, group, stages[i := next], n) == GroupWork(store, group, stages, n)
  {
    if n > 0 { GroupWorkLess(store, group, stages, i, next, n - 1); }
  }

  /** The steps needed from the start of group `g` on. */
  ghost function WorkFrom(groups: seq<Group>, g: nat): nat
    requires g <= |groups|
    decreases |groups| - g
  {
    if g == |groups| then 0
    else
      var stages := seq(|groups[g]|, _ => AtStart);
      1 + GroupWork(StoreAt(groups, g), groups[g], stages, |groups[g]|) + WorkFrom(groups, g + 1)
  }

  /** The steps needed in group `g` and after it, from the given stages of its functions on. */
  ghost function Work(groups: seq<Group>, g: nat, stages: seq<Stage>): nat
    requires g < |groups| && |stages| == |groups[g]|
  {
    1 + GroupWork(StoreAt(groups, g), groups[g], stages, |groups[g]|) + WorkFrom(groups, g + 1)
  }

  lemma WorkLess(groups: seq<Group>, g: nat, stages: seq<Stage>, i: nat, next: Stage)
    requires g < |groups| && |stages| == |groups[g]| && i < |stages|
    requires Moves(StoreAt(groups, g), groups[g][i], stages[i], next)
    ensures Work(groups, g, stages[i := next]) < Work(groups, g, stages)
  {
    StageWorkLess(StoreAt(groups, g), groups[g][i], stages[i], next);
    GroupWorkLess(StoreAt(groups, g), groups[g], stages, i, next, |groups[g]|);
  }

  lemma WorkAtStart(groups: seq<Group>, g: nat, stages: seq<Stage>)
    requires g < |groups| && |stages| == |groups[g]| && forall i :: 0 <= i < |stages| ==> stages[i] == AtStart
    ensures Work(groups, g, stages) == WorkFrom(groups, g)
  {
    assert stages == seq(|groups[g]|, _ => AtStart);
  }
}
