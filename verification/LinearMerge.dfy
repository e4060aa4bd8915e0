/** The linear-scan k-way merge of user/merger/src/lib.rs, in which `u32::MAX` doubles as "nothing
    found", and its relation to the heap-based merge. */
module LinearMerge {
  import opened Seqs
  import HeapMerge

  const U32_MAX: int := 0xFFFF_FFFF

  /** `result` holds, in order, exactly the elements of the inputs that are below the sentinel. */
  ghost predicate IsMergeBelowMax(result: seq<int>, arrays: seq<seq<int>>) {
    && Sorted(result)
    && (forall x :: multiset(result)[x] == if x < U32_MAX then multiset(Concat(arrays))[x] else 0)
  }

  ghost predicate NoMax(arrays: seq<seq<int>>) {
    forall x :: x in Concat(arrays) ==> x < U32_MAX
  }

  /** Where the scan stands: every output element is below the sentinel and no larger than any
      element still to come. */
  ghost predicate ScanInv(arrays: seq<seq<int>>, pos: seq<nat>, out: seq<int>) {
    && HeapMerge.Positions(arrays, pos)
    && Sorted(out) && multiset(out) == Taken(arrays, pos, |arrays|)
    && (forall x :: x in out ==> x < U32_MAX)
    && (forall x, i :: x in out && 0 <= i < |arrays| && pos[i] < |arrays[i]| ==> x <= arrays[i][pos[i]])
  }

  /** `a` is the first of the partitions with the least front below the sentinel. */
  ghost predicate IsLeastFront(arrays: seq<seq<int>>, pos: seq<nat>, k: nat, a: nat)
    requires HeapMerge.Positions(arrays, pos) && k <= |arrays|
  {
    && a < k && pos[a] < |arrays[a]| && arrays[a][pos[a]] < U32_MAX
    && (forall i :: 0 <= i < k && pos[i] < |arrays[i]| ==> arrays[a][pos[a]] <= arrays[i][pos[i]])
    && (forall i :: 0 <= i < a && pos[i] < |arrays[i]| ==> arrays[a][pos[a]] < arrays[i][pos[i]])
  }

  /** The partition the inner `for` settles on among the first `k`: the first one with the least front
      below the sentinel. */
  function LeastFront(arrays: seq<seq<int>>, pos: seq<nat>, k: nat): (r: Option<nat>)
    requires HeapMerge.Positions(arrays, pos) && k <= |arrays|
    ensures r.Some? ==> IsLeastFront(arrays, pos, k, r.value)
    ensures r.None? ==> forall i :: 0 <= i < k && pos[i] < |arrays[i]| ==> arrays[i][pos[i]] >= U32_MAX
  {
    if k == 0 then None
    else
      var best := LeastFront(arrays, pos, k - 1);
      var limit := if best.Some? then arrays[best.value][pos[best.value]] else U32_MAX;
      if pos[k - 1] < |arrays[k - 1]| && arrays[k - 1][pos[k - 1]] < limit then Some(k - 1) else best
  }

  /** The number of elements the scan has not passed in the first `k` partitions. */
  ghost function Remaining(arrays: seq<seq<int>>, pos: seq<nat>, k: nat): nat
    requires HeapMerge.Positions(arrays, pos) && k <= |arrays|
  {
    if k == 0 then 0 else Remaining(arrays, pos, k - 1) + (|arrays[k - 1]| - pos[k - 1])
  }

  lemma {:induction false} ScanProgress(arrays: seq<seq<int>>, pos: seq<nat>, a: nat, k: nat)
    requires HeapMerge.Positions(arrays, pos) && a < |arrays| && pos[a] < |arrays[a]| && k <= |arrays|
    ensures HeapMerge.Positions(arrays, pos[a := pos[a] + 1])
    ensures Remaining(arrays, pos[a := pos[a] + 1], k) == Remaining(arrays, pos, k) - if a < k then 1 else 0
  {
    if k > 0 { ScanProgress(arrays, pos, a, k - 1); }
  }

  /** What the scan outputs from the given positions on, for sorted and unsorted partitions alike. */
  ghost function MergedFrom(arrays: seq<seq<int>>, pos: seq<nat>): seq<int>
    requires HeapMerge.Positions(arrays, pos)
    decreases Remaining(arrays, pos, |arrays|)
  {
    match LeastFront(arrays, pos, |arrays|)
    case None => []
    case Some(a) =>
      ScanProgress(arrays, pos, a, |arrays|);
      [arrays[a][pos[a]]] + MergedFrom(arrays, pos[a := pos[a] + 1])
  }

  ghost function Merged(arrays: seq<seq<int>>): seq<int> {
    MergedFrom(arrays, seq(|arrays|, _ => 0))
  }

  /** The inner `for`. */
  method ScanFronts(arrays: seq<seq<int>>, indices: seq<nat>) returns (minPartition: Option<nat>)
    requires HeapMerge.Positions(arrays, indices)
    ensures minPartition == LeastFront(arrays, indices, |arrays|)
  {
    var minValue := U32_MAX;
    minPartition := None;
    for i := 0 to |arrays|
      invariant minPartition == LeastFront(arrays, indices, i)
      invariant minValue == match minPartition
                            case Some(a) => arrays[a][indices[a]]
                            case None => U32_MAX
    {
      if indices[i] < |arrays[i]| && arrays[i][indices[i]] < minValue {
        minValue := arrays[i][indices[i]];
        minPartition := Some(i);
      }
    }
  }

  /** The fronts that remain are not below the one that was output. */
  lemma FrontsAbove(arrays: seq<seq<int>>, pos: seq<nat>, out: seq<int>, a: nat)
    requires AllSorted(arrays) && ScanInv(arrays, pos, out) && IsLeastFront(arrays, pos, |arrays|, a)
    ensures var next := pos[a := pos[a] + 1];
            forall x, i :: x in out + [arrays[a][pos[a]]] && 0 <= i < |arrays| && next[i] < |arrays[i]|
                           ==> x <= arrays[i][next[i]]
  {
    var v, next := arrays[a][pos[a]], pos[a := pos[a] + 1];
    forall x, i | x in out + [v] && 0 <= i < |arrays| && next[i] < |arrays[i]| ensures x <= arrays[i][next[i]] {
      assert x <= v;
      if i == a { assert Sorted(arrays[a]); } else { assert v <= arrays[i][pos[i]]; }
    }
  }

  lemma OutputTaken(arrays: seq<seq<int>>, pos: seq<nat>, out: seq<int>, a: nat)
    requires HeapMerge.Positions(arrays, pos) && a < |arrays| && pos[a] < |arrays[a]|
    requires multiset(out) == Taken(arrays, pos, |arrays|)
    ensures HeapMerge.Positions(arrays, pos[a := pos[a] + 1])
    ensures multiset(out + [arrays[a][pos[a]]]) == Taken(arrays, pos[a := pos[a] + 1], |arrays|)
  {
    TakenAdvance(arrays, pos, a, |arrays|);
  }

  lemma ScanStep(arrays: seq<seq<int>>, pos: seq<nat>, out: seq<int>, a: nat)
    requires AllSorted(arrays) && ScanInv(arrays, pos, out) && IsLeastFront(arrays, pos, |arrays|, a)
    ensures ScanInv(arrays, pos[a := pos[a] + 1], out + [arrays[a][pos[a]]])
  {
    OutputTaken(arrays, pos, out, a);
    SortedAppend(out, [arrays[a][pos[a]]]);
    FrontsAbove(arrays, pos, out, a);
  }

  lemma ScanDone(arrays: seq<seq<int>>, pos: seq<nat>, out: seq<int>)
    requires AllSorted(arrays) && ScanInv(arrays, pos, out)
    requires forall i :: 0 <= i < |arrays| && pos[i] < |arrays[i]| ==> arrays[i][pos[i]] >= U32_MAX
    ensures IsMergeBelowMax(out, arrays)
  {
    assert arrays[..|arrays|] == arrays;
    forall x ensures multiset(out)[x] == if x < U32_MAX then multiset(Concat(arrays))[x] else 0 {
      if x < U32_MAX {
        TakenCount(arrays, pos, |arrays|, x);
      } else {
        assert x !in out;
      }
    }
  }

  lemma MergedFromStep(arrays: seq<seq<int>>, pos: seq<nat>, out: seq<int>, a: nat)
    requires HeapMerge.Positions(arrays, pos) && LeastFront(arrays, pos, |arrays|) == Some(a)
    ensures HeapMerge.Positions(arrays, pos[a := pos[a] + 1])
    ensures Remaining(arrays, pos[a := pos[a] + 1], |arrays|) < Remaining(arrays, pos, |arrays|)
    ensures out + MergedFrom(arrays, pos) == (out + [arrays[a][pos[a]]]) + MergedFrom(arrays, pos[a := pos[a] + 1])
  {
    ScanProgress(arrays, pos, a, |arrays|);
    AppendOne(out, arrays[a][pos[a]], MergedFrom(arrays, pos[a := pos[a] + 1]));
  }

  lemma {:induction false} MergedFromIsMerge(arrays: seq<seq<int>>, pos: seq<nat>, out: seq<int>)
    requires AllSorted(arrays) && ScanInv(arrays, pos, out)
    ensures IsMergeBelowMax(out + MergedFrom(arrays, pos), arrays)
    decreases Remaining(arrays, pos, |arrays|)
  {
    match LeastFront(arrays, pos, |arrays|)
    case None =>
      ScanDone(arrays, pos, out);
      assert out + [] == out;
    case Some(a) =>
      ScanStep(arrays, pos, out, a);
      MergedFromStep(arrays, pos, out, a);
      MergedFromIsMerge(arrays, pos[a := pos[a] + 1], out + [arrays[a][pos[a]]]);
  }

  lemma AppendOne(s: seq<int>, v: int, t: seq<int>)
    ensures (s + [v]) + t == s + ([v] + t)
  {
  }

  /** For sorted partitions the scan outputs exactly the elements below the sentinel, in order. */
  lemma MergedIsMerge(arrays: seq<seq<int>>)
    requires AllSorted(arrays)
    ensures IsMergeBelowMax(Merged(arrays), arrays)
  {
    var pos: seq<nat> := seq(|arrays|, _ => 0);
    TakenNothing(arrays, pos, |arrays|);
    MergedFromIsMerge(arrays, pos, []);
    assert [] + MergedFrom(arrays, pos) == MergedFrom(arrays, pos);
  }

  /** `merge_partitions`. It ends for all partitions, sorted or not. */
  method MergePartitions(partitions: seq<seq<int>>) returns (dst: seq<int>)
    ensures dst == Merged(partitions)
    ensures AllSorted(partitions) ==> IsMergeBelowMax(dst, partitions)
  {
    var indices: seq<nat> := seq(|partitions|, _ => 0);
    dst := [];
    while true
      invariant HeapMerge.Positions(partitions, indices)
      invariant Merged(partitions) == dst + MergedFrom(partitions, indices)
      decreases Remaining(partitions, indices, |partitions|)
    {
      var minPartition := ScanFronts(partitions, indices);
      match minPartition {
        case Some(a) =>
          MergedFromStep(partitions, indices, dst, a);
          dst := dst + [partitions[a][indices[a]]];
          indices := indices[a := indices[a] + 1];
        case None =>
          break;
      }
    }
    if AllSorted(partitions) { MergedIsMerge(partitions); }
  }

  /** The scan loses elements exactly when the sentinel occurs in the input. */
  lemma LosslessIffNoMax(r: seq<int>, arrays: seq<seq<int>>)
    requires IsMergeBelowMax(r, arrays)
    requires forall x :: x in Concat(arrays) ==> x <= U32_MAX
    ensures multiset(r) == multiset(Concat(arrays)) <==> NoMax(arrays)
  {
    var all := Concat(arrays);
    if NoMax(arrays) {
      forall x ensures multiset(r)[x] == multiset(all)[x] {
        if x >= U32_MAX { assert x !in all; }
      }
    } else {
      var x :| x in all && x >= U32_MAX;
      assert multiset(all)[x] > 0;
    }
  }

  /** Without the sentinel in the input the two mergers produce the same array, element for element;
      the heap-based one keeps the sentinel, the scan drops it. */
  lemma MergersAgree(scan: seq<int>, heap: seq<int>, arrays: seq<seq<int>>)
    requires IsMergeBelowMax(scan, arrays) && HeapMerge.IsMergeOf(heap, arrays)
    requires forall x :: x in Concat(arrays) ==> x <= U32_MAX
    ensures scan == heap <==> NoMax(arrays)
  {
    LosslessIffNoMax(scan, arrays);
    if NoMax(arrays) { HeapMerge.MergeIsUnique(scan, heap, arrays); }
  }
}
