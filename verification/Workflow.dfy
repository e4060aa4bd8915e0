/** Workflows: groups of functions that run in parallel and exchange values through named slots
    (libasvisor/src/isolation/mod.rs, as_std/src/agent.rs). A function takes its input slots, computes,
    and publishes its output slots. This module says what a workflow means when each group is taken as
    one indivisible step; the transport modules show that every interleaving means the same. */
module Workflow {
  import opened Seqs

  type Slot = string

  /** What a slot can hold. The constructor plays the part of the type fingerprint. */
  datatype SlotValue =
    | Text(content: string)
    | Numbers(numbers: seq<int>)
    | Counts(shuffle: map<string, nat>)

  /** A function of the workflow: the slots it takes, in order, and what it publishes for the values
      it found there. `None` stands for an error return or a panic. */
  datatype App = App(takes: seq<Slot>, compute: seq<SlotValue> -> Option<seq<(Slot, SlotValue)>>)

  type Group = seq<App>
  type Store = map<Slot, SlotValue>

  // ----- Meaning of one group -----

  ghost predicate Available(store: Store, app: App) {
    forall k :: 0 <= k < |app.takes| ==> app.takes[k] in store
  }

  ghost function Inputs(store: Store, app: App): (r: seq<SlotValue>)
    requires Available(store, app)
    ensures |r| == |app.takes|
    ensures forall k :: 0 <= k < |r| ==> r[k] == store[app.takes[k]]
  {
    seq(|app.takes|, k requires 0 <= k < |app.takes| => store[app.takes[k]])
  }

  /** What the function publishes, or `None` if an input is missing or it fails on its inputs. */
  ghost function Outputs(store: Store, app: App): Option<seq<(Slot, SlotValue)>> {
    if Available(store, app) then app.compute(Inputs(store, app)) else None
  }

  ghost predicate Succeeds(store: Store, group: Group) {
    forall i :: 0 <= i < |group| ==> Outputs(store, group[i]).Some?
  }

  ghost predicate IsTaken(group: Group, s: Slot) {
    exists i, k :: 0 <= i < |group| && 0 <= k < |group[i].takes| && group[i].takes[k] == s
  }

  /** Output number `k` of the function goes to slot `s`. */
  ghost predicate Publishes(store: Store, app: App, k: int, s: Slot) {
    var outs := Outputs(store, app);
    outs.Some? && 0 <= k < |outs.value| && outs.value[k].0 == s
  }

  ghost predicate IsPublished(store: Store, group: Group, s: Slot) {
    exists i, k :: 0 <= i < |group| && Publishes(store, group[i], k, s)
  }

  // ----- Slot discipline -----

  /** No slot is taken twice. */
  ghost predicate TakesDistinct(group: Group) {
    forall i, k, j, l {:trigger group[i].takes[k], group[j].takes[l]} ::
      (&& 0 <= i < |group| && 0 <= k < |group[i].takes|
       && 0 <= j < |group| && 0 <= l < |group[j].takes|
       && group[i].takes[k] == group[j].takes[l]) ==> i == j && k == l
  }

  /** No slot is published twice. */
  ghost predicate OutputsDistinct(store: Store, group: Group) {
    forall i, k, j, l, s {:trigger Publishes(store, group[i], k, s), Publishes(store, group[j], l, s)} ::
      (&& 0 <= i < |group| && 0 <= j < |group|
       && Publishes(store, group[i], k, s) && Publishes(store, group[j], l, s)) ==> i == j && k == l
  }

  /** No slot is published that was ever written before or that the same group takes. */
  ghost predicate OutputsFresh(store: Store, written: set<Slot>, group: Group) {
    forall i, k, s {:trigger Publishes(store, group[i], k, s)} ::
      0 <= i < |group| && Publishes(store, group[i], k, s) ==> s !in written && !IsTaken(group, s)
  }

  ghost predicate Disciplined(store: Store, written: set<Slot>, group: Group) {
    && TakesDistinct(group)
    && OutputsDistinct(store, group)
    && OutputsFresh(store, written, group)
  }

  /** No slot is taken after it was consumed: it is still there, or was never written. */
  ghost predicate ReadOnce(store: Store, written: set<Slot>, group: Group) {
    forall s :: IsTaken(group, s) && s in written ==> s in store
  }

  // ----- The store after a group -----

  ghost function TakenSlots(group: Group): set<Slot> {
    set i, k | 0 <= i < |group| && 0 <= k < |group[i].takes| :: group[i].takes[k]
  }

  ghost function PublishAll(store: Store, outs: seq<(Slot, SlotValue)>): Store {
    if outs == [] then store else PublishAll(store, outs[..|outs| - 1])[outs[|outs| - 1].0 := outs[|outs| - 1].1]
  }

  ghost function PublishGroup(before: Store, group: Group, n: nat, rest: Store): Store
    requires n <= |group|
  {
    if n == 0 then rest
    else
      var store := PublishGroup(before, group, n - 1, rest);
      match Outputs(before, group[n - 1])
      case Some(outs) => PublishAll(store, outs)
      case None => store
  }

  /** The store a group leaves behind when it runs as one step. */
  ghost function After(store: Store, group: Group): Store {
    PublishGroup(store, group, |group|, store - TakenSlots(group))
  }

  lemma {:induction false} PublishAllHas(store: Store, outs: seq<(Slot, SlotValue)>, s: Slot)
    requires forall k, l :: 0 <= k < l < |outs| ==> outs[k].0 != outs[l].0
    ensures s in PublishAll(store, outs) <==> s in store || exists k :: 0 <= k < |outs| && outs[k].0 == s
    ensures (forall k :: 0 <= k < |outs| ==> outs[k].0 != s) && s in store ==> PublishAll(store, outs)[s] == store[s]
    ensures forall k :: 0 <= k < |outs| && outs[k].0 == s ==>
              s in PublishAll(store, outs) && PublishAll(store, outs)[s] == outs[k].1
  {
    if outs != [] {
      var init := outs[..|outs| - 1];
      PublishAllHas(store, init, s);
      if s in PublishAll(store, init) && s !in store {
        var k :| 0 <= k < |init| && init[k].0 == s;
        assert outs[k].0 == s;
      }
      assert forall k :: 0 <= k < |init| ==> outs[k] == init[k];
    }
  }

  ghost predicate PublishedBefore(store: Store, group: Group, n: nat, s: Slot)
    requires n <= |group|
  {
    exists i, k :: 0 <= i < n && Publishes(store, group[i], k, s)
  }

  lemma OutputSlotsDistinct(store: Store, group: Group, i: nat)
    requires OutputsDistinct(store, group) && i < |group| && Outputs(store, group[i]).Some?
    ensures var outs := Outputs(store, group[i]).value; forall k, l :: 0 <= k < l < |outs| ==> outs[k].0 != outs[l].0
  {
    var outs := Outputs(store, group[i]).value;
    forall k, l | 0 <= k < l < |outs| ensures outs[k].0 != outs[l].0 {
      assert Publishes(store, group[i], k, outs[k].0);
      assert Publishes(store, group[i], l, outs[l].0);
    }
  }

  lemma {:induction false} PublishGroupHas(before: Store, group: Group, n: nat, rest: Store, s: Slot)
    requires n <= |group| && OutputsDistinct(before, group)
    ensures var r := PublishGroup(before, group, n, rest);
            && (s in r <==> s in rest || PublishedBefore(before, group, n, s))
            && (s in rest && !PublishedBefore(before, group, n, s) ==> r[s] == rest[s])
            && (forall i, k :: 0 <= i < n && Publishes(before, group[i], k, s) ==>
                  s in r && r[s] == Outputs(before, group[i]).value[k].1)
  {
    if n > 0 {
      PublishGroupHas(before, group, n - 1, rest, s);
      var store := PublishGroup(before, group, n - 1, rest);
      var outs := Outputs(before, group[n - 1]);
      if outs.Some? {
        OutputSlotsDistinct(before, group, n - 1);
        PublishAllHas(store, outs.value, s);
        forall k | 0 <= k < |outs.value| && outs.value[k].0 == s ensures PublishedBefore(before, group, n, s) {
          assert Publishes(before, group[n - 1], k, s);
        }
      }
      forall i, k | 0 <= i < n && Publishes(before, group[i], k, s)
        ensures s in PublishGroup(before, group, n, rest)
        ensures PublishGroup(before, group, n, rest)[s] == Outputs(before, group[i]).value[k].1
      {
        if i < n - 1 && outs.Some? {
          forall l | 0 <= l < |outs.value| ensures outs.value[l].0 != s {
            if outs.value[l].0 == s { assert Publishes(before, group[n - 1], l, s); }
          }
        }
      }
    }
  }

  /** What `After` is: the taken slots are gone, the published ones hold what was published, all others
      are as they were. */
  lemma AfterHas(store: Store, group: Group, s: Slot)
    requires OutputsDistinct(store, group)
    ensures s in After(store, group) <==> (s in store && !IsTaken(group, s)) || IsPublished(store, group, s)
    ensures s in store && !IsTaken(group, s) && !IsPublished(store, group, s) ==> After(store, group)[s] == store[s]
    ensures forall i, k :: 0 <= i < |group| && Publishes(store, group[i], k, s) ==>
              s in After(store, group) && After(store, group)[s] == Outputs(store, group[i]).value[k].1
  {
    PublishGroupHas(store, group, |group|, store - TakenSlots(group), s);
    assert s in TakenSlots(group) <==> IsTaken(group, s);
    assert PublishedBefore(store, group, |group|, s) <==> IsPublished(store, group, s);
  }

  // ----- Meaning of a workflow -----

  /** The store before group `g`, all groups before it having run. */
  ghost function StoreAt(groups: seq<Group>, g: nat): Store
    requires g <= |groups|
  {
    if g == 0 then map[] else After(StoreAt(groups, g - 1), groups[g - 1])
  }

  /** All slots written before group `g`. */
  ghost function WrittenAt(groups: seq<Group>, g: nat): set<Slot>
    requires g <= |groups|
  {
    if g == 0 then {} else WrittenAt(groups, g - 1) + StoreAt(groups, g).Keys
  }

  ghost predicate SucceedsUpTo(groups: seq<Group>, g: nat)
    requires g <= |groups|
  {
    forall h :: 0 <= h < g ==> Succeeds(StoreAt(groups, h), groups[h])
  }

  /** The groups that are reached keep the slot discipline. */
  ghost predicate WellFormed(groups: seq<Group>) {
    forall g :: 0 <= g < |groups| && SucceedsUpTo(groups, g) ==>
      Disciplined(StoreAt(groups, g), WrittenAt(groups, g), groups[g])
  }

  ghost predicate ReadsOnce(groups: seq<Group>) {
    forall g :: 0 <= g < |groups| && SucceedsUpTo(groups, g) ==>
      ReadOnce(StoreAt(groups, g), WrittenAt(groups, g), groups[g])
  }

  lemma StoreWritten(groups: seq<Group>, g: nat)
    requires g <= |groups|
    ensures StoreAt(groups, g).Keys <= WrittenAt(groups, g)
  {
  }

  // ----- Staged workflows -----

  /** Every group takes slots of its own stage and publishes slots of the next. */
  ghost predicate Staged(groups: seq<Group>, stage: Slot -> nat) {
    && (forall g, i, k :: 0 <= g < |groups| && 0 <= i < |groups[g]| && 0 <= k < |groups[g][i].takes| ==>
          stage(groups[g][i].takes[k]) == g)
    && (forall g, i, store, k, s {:trigger Publishes(store, groups[g][i], k, s)} ::
          0 <= g < |groups| && 0 <= i < |groups[g]| && Publishes(store, groups[g][i], k, s) ==> stage(s) == g + 1)
  }

  lemma StagedAfter(groups: seq<Group>, stage: Slot -> nat, g: nat, s: Slot)
    requires Staged(groups, stage) && g < |groups| && OutputsDistinct(StoreAt(groups, g), groups[g])
    requires s in StoreAt(groups, g + 1)
    ensures s in StoreAt(groups, g) || stage(s) == g + 1
  {
    var store, group := StoreAt(groups, g), groups[g];
    AfterHas(store, group, s);
    if IsPublished(store, group, s) {
      var i, k :| 0 <= i < |group| && Publishes(store, group[i], k, s);
      assert Publishes(store, groups[g][i], k, s);
    }
  }

  ghost predicate StageAdded(groups: seq<Group>, stage: Slot -> nat, g: nat)
    requires g < |groups|
  {
    forall s :: s in StoreAt(groups, g + 1) ==> s in StoreAt(groups, g) || stage(s) == g + 1
  }

  lemma {:induction false} StagedKeys(groups: seq<Group>, stage: Slot -> nat, g: nat)
    requires g <= |groups| && forall h :: 0 <= h < g ==> StageAdded(groups, stage, h)
    ensures forall s :: s in WrittenAt(groups, g) ==> 1 <= stage(s) <= g
    ensures forall s :: s in WrittenAt(groups, g) && stage(s) == g ==> s in StoreAt(groups, g)
  {
    if g > 0 {
      StagedKeys(groups, stage, g - 1);
      StoreWritten(groups, g - 1);
      assert StageAdded(groups, stage, g - 1);
    }
  }

  /** In a staged workflow only distinctness inside each group is left to check. */
  lemma StagedIsWellFormed(groups: seq<Group>, stage: Slot -> nat)
    requires Staged(groups, stage)
    requires forall g :: 0 <= g < |groups| ==>
               TakesDistinct(groups[g]) && OutputsDistinct(StoreAt(groups, g), groups[g])
    ensures WellFormed(groups) && ReadsOnce(groups)
  {
    forall g | 0 <= g < |groups|
      ensures OutputsFresh(StoreAt(groups, g), WrittenAt(groups, g), groups[g])
      ensures ReadOnce(StoreAt(groups, g), WrittenAt(groups, g), groups[g])
    {
      forall h | 0 <= h < g ensures StageAdded(groups, stage, h) {
        forall s | s in StoreAt(groups, h + 1) ensures s in StoreAt(groups, h) || stage(s) == h + 1 {
          StagedAfter(groups, stage, h, s);
        }
      }
      StagedKeys(groups, stage, g);
      StagedGroup(groups, stage, g);
    }
  }

  lemma StagedGroup(groups: seq<Group>, stage: Slot -> nat, g: nat)
    requires Staged(groups, stage) && g < |groups|
    requires forall s :: s in WrittenAt(groups, g) ==> stage(s) <= g
    requires forall s :: s in WrittenAt(groups, g) && stage(s) == g ==> s in StoreAt(groups, g)
    ensures OutputsFresh(StoreAt(groups, g), WrittenAt(groups, g), groups[g])
    ensures ReadOnce(StoreAt(groups, g), WrittenAt(groups, g), groups[g])
  {
    var store, group := StoreAt(groups, g), groups[g];
    forall s | IsTaken(group, s) ensures stage(s) == g {
      var i, k :| 0 <= i < |group| && 0 <= k < |group[i].takes| && group[i].takes[k] == s;
      assert groups[g][i].takes[k] == s;
    }
    forall i, k, s | 0 <= i < |group| && Publishes(store, group[i], k, s) ensures stage(s) == g + 1 {
      assert Publishes(store, groups[g][i], k, s);
    }
  }
}
