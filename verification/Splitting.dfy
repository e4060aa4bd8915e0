/** Cutting a sorted array at the pivots: `split_numbers` of user/splitter/src/lib.rs, which takes
    slices and stops early, and the bucket classification of user/wasmtime_spliter/spliter.cpp. */
module Splitting {
  import opened Seqs

  /** How many leading numbers are below the pivot. */
  function LeadBelow(numbers: seq<int>, pivot: int): (k: nat)
    ensures k <= |numbers|
  {
    if numbers == [] || numbers[0] >= pivot then 0 else 1 + LeadBelow(numbers[1..], pivot)
  }

  /** The parts `split_numbers` returns: fewer than one per pivot plus one when the numbers run out. */
  function Split(numbers: seq<int>, pivots: seq<int>): (parts: seq<seq<int>>)
    ensures 1 <= |parts| <= |pivots| + 1
  {
    if pivots == [] then [numbers]
    else
      var k := LeadBelow(numbers, pivots[0]);
      if k == |numbers| then [numbers, []] else [numbers[..k]] + Split(numbers[k..], pivots[1..])
  }

  /** The number of leading pivots that are not above `x`: the row the C++ splitter puts it in. */
  function Row(pivots: seq<int>, x: int): (row: nat)
    ensures row <= |pivots|
    ensures forall j :: 0 <= j < row ==> pivots[j] <= x
    ensures row < |pivots| ==> x < pivots[row]
  {
    if pivots == [] || x < pivots[0] then 0 else 1 + Row(pivots[1..], x)
  }

  /** The numbers of one row, in order. */
  function Bucket(numbers: seq<int>, pivots: seq<int>, row: nat): seq<int> {
    if numbers == [] then []
    else (if Row(pivots, numbers[0]) == row then [numbers[0]] else []) + Bucket(numbers[1..], pivots, row)
  }

  /** The part of a row; a part that was not produced counts as empty. */
  function PartOf(parts: seq<seq<int>>, row: nat): seq<int> {
    if row < |parts| then parts[row] else []
  }

  // ----- The two implementations -----

  lemma {:induction false} LeadBelowIs(numbers: seq<int>, pivot: int, k: nat)
    requires k <= |numbers|
    requires forall i :: 0 <= i < k ==> numbers[i] < pivot
    requires k < |numbers| ==> numbers[k] >= pivot
    ensures LeadBelow(numbers, pivot) == k
  {
    if k > 0 { LeadBelowIs(numbers[1..], pivot, k - 1); }
  }

  lemma {:induction false} LeadBelowBounds(numbers: seq<int>, pivot: int)
    ensures var k := LeadBelow(numbers, pivot);
            && (forall i :: 0 <= i < k ==> numbers[i] < pivot)
            && (k < |numbers| ==> numbers[k] >= pivot)
  {
    if numbers != [] && numbers[0] < pivot { LeadBelowBounds(numbers[1..], pivot); }
  }

  /** The inner loop of `split_numbers`. */
  method TakeBelow(numbers: seq<int>, currentStart: nat, pivot: int) returns (currentPartition: seq<int>)
    requires currentStart <= |numbers|
    ensures |currentPartition| == LeadBelow(numbers[currentStart..], pivot)
    ensures currentPartition == numbers[currentStart..currentStart + |currentPartition|]
  {
    currentPartition := [];
    var i := currentStart;
    while i < |numbers| && numbers[i] < pivot
      invariant currentStart <= i <= |numbers|
      invariant currentPartition == numbers[currentStart..i]
      invariant forall j :: currentStart <= j < i ==> numbers[j] < pivot
    {
      currentPartition := currentPartition + [numbers[i]];
      i := i + 1;
    }
    LeadBelowIs(numbers[currentStart..], pivot, i - currentStart);
  }

  lemma SplitUnfold(numbers: seq<int>, pivots: seq<int>, start: nat, p: nat)
    requires start <= |numbers| && p < |pivots|
    ensures var next := start + LeadBelow(numbers[start..], pivots[p]);
            Split(numbers[start..], pivots[p..])
            == if next == |numbers| then [numbers[start..next], []]
               else [numbers[start..next]] + Split(numbers[next..], pivots[p + 1..])
  {
    var k := LeadBelow(numbers[start..], pivots[p]);
    assert pivots[p..][0] == pivots[p] && pivots[p..][1..] == pivots[p + 1..];
    assert numbers[start..][..k] == numbers[start..start + k] && numbers[start..][k..] == numbers[start + k..];
    if start + k == |numbers| { assert numbers[start..start + k] == numbers[start..]; }
  }

  /** One round of the outer loop moves the next part from what is to come to what is done. */
  lemma SplitStep(numbers: seq<int>, pivots: seq<int>, start: nat, p: nat, done: seq<seq<int>>, all: seq<seq<int>>)
    requires start <= |numbers| && p < |pivots| && all == done + Split(numbers[start..], pivots[p..])
    ensures var next := start + LeadBelow(numbers[start..], pivots[p]);
            var rest := if next == |numbers| then [[]] else Split(numbers[next..], pivots[p + 1..]);
            all == (done + [numbers[start..next]]) + rest
  {
    var next := start + LeadBelow(numbers[start..], pivots[p]);
    var part := numbers[start..next];
    SplitUnfold(numbers, pivots, start, p);
    var rest := if next == |numbers| then [[]] else Split(numbers[next..], pivots[p + 1..]);
    assert [part, []] == [part] + [[]];
    MoveOne(done, part, rest);
  }

  lemma MoveOne(done: seq<seq<int>>, part: seq<int>, rest: seq<seq<int>>)
    ensures done + ([part] + rest) == (done + [part]) + rest
  {
  }

  /** One round of the outer loop: the next part. `rest` is what is still to come of all parts. */
  method SplitRound(numbers: seq<int>, currentStart: nat, pivots: seq<int>, p: nat, ghost done: seq<seq<int>>,
                    ghost all: seq<seq<int>>) returns (currentPartition: seq<int>, ghost rest: seq<seq<int>>)
    requires currentStart <= |numbers| && p < |pivots| && all == done + Split(numbers[currentStart..], pivots[p..])
    ensures currentStart + |currentPartition| <= |numbers| && all == (done + [currentPartition]) + rest
    ensures var next := currentStart + |currentPartition|;
            rest == if next == |numbers| then [[]] else Split(numbers[next..], pivots[p + 1..])
  {
    SplitStep(numbers, pivots, currentStart, p, done, all);
    currentPartition := TakeBelow(numbers, currentStart, pivots[p]);
    ghost var next := currentStart + |currentPartition|;
    rest := if next == |numbers| then [[]] else Split(numbers[next..], pivots[p + 1..]);
  }

  lemma SplitWithoutPivots(numbers: seq<int>, pivots: seq<int>)
    ensures Split(numbers, pivots[|pivots|..]) == [numbers]
  {
  }

  /** `split_numbers`. */
  method SplitNumbers(numbers: seq<int>, pivots: seq<int>) returns (result: seq<seq<int>>)
    ensures result == Split(numbers, pivots)
  {
    result := [];
    var currentStart, p := 0, 0;
    ghost var all := Split(numbers, pivots);
    ghost var rest := all;
    assert numbers[0..] == numbers && pivots[0..] == pivots;
    while p < |pivots|
      invariant 0 <= currentStart <= |numbers| && 0 <= p <= |pivots|
      invariant all == result + rest && rest == Split(numbers[currentStart..], pivots[p..])
    {
      var currentPartition;
      currentPartition, rest := SplitRound(numbers, currentStart, pivots, p, result, all);
      result := result + [currentPartition];
      currentStart := currentStart + |currentPartition|;
      p := p + 1;
      if currentStart >= |numbers| {
        assert numbers[currentStart..] == [];
        assert all == result + [numbers[currentStart..]];
        return result + [numbers[currentStart..]];
      }
    }
    SplitWithoutPivots(numbers[currentStart..], pivots);
    result := result + [numbers[currentStart..]];
  }

  lemma {:induction false} BucketAppend(s: seq<int>, t: seq<int>, pivots: seq<int>, row: nat)
    ensures Bucket(s + t, pivots, row) == Bucket(s, pivots, row) + Bucket(t, pivots, row)
  {
    if s == [] {
      assert s + t == t;
    } else {
      var head := if Row(pivots, s[0]) == row then [s[0]] else [];
      assert (s + t)[1..] == s[1..] + t && (s + t)[0] == s[0];
      BucketAppend(s[1..], t, pivots, row);
      Regroup(head, Bucket(s[1..], pivots, row), Bucket(t, pivots, row));
    }
  }

  lemma Regroup(a: seq<int>, b: seq<int>, c: seq<int>)
    ensures a + (b + c) == (a + b) + c
  {
  }

  lemma BucketSnoc(numbers: seq<int>, pivots: seq<int>, row: nat, x: int)
    ensures Bucket(numbers + [x], pivots, row)
         == Bucket(numbers, pivots, row) + if Row(pivots, x) == row then [x] else []
  {
    BucketAppend(numbers, [x], pivots, row);
  }

  /** The row of a number: the inner loop of the C++ splitter. */
  method FindRow(pivots: seq<int>, x: int) returns (row: nat)
    ensures row == Row(pivots, x)
  {
    row := 0;
    var j := 0;
    while j < |pivots| && x >= pivots[j]
      invariant 0 <= row == j <= |pivots|
      invariant Row(pivots, x) == row + Row(pivots[j..], x)
    {
      row := row + 1;
      j := j + 1;
    }
  }

  ghost predicate AreBuckets(arrays: seq<seq<int>>, numbers: seq<int>, pivots: seq<int>) {
    forall row :: 0 <= row < |arrays| ==> arrays[row] == Bucket(numbers, pivots, row)
  }

  lemma BucketsSnoc(arrays: seq<seq<int>>, numbers: seq<int>, pivots: seq<int>, x: int)
    requires AreBuckets(arrays, numbers, pivots) && |pivots| < |arrays|
    ensures var row := Row(pivots, x); AreBuckets(arrays[row := arrays[row] + [x]], numbers + [x], pivots)
  {
    forall row | 0 <= row < |arrays|
      ensures Bucket(numbers + [x], pivots, row) == arrays[row] + if row == Row(pivots, x) then [x] else []
    {
      BucketSnoc(numbers, pivots, row, x);
    }
  }

  /** The classification loop of the C++ splitter. There must be a row for every pivot and one more. */
  method ClassifyIntoBuckets(numbers: seq<int>, pivots: seq<int>, mergerNum: nat) returns (arrays: seq<seq<int>>)
    requires |pivots| < mergerNum
    ensures |arrays| == mergerNum
    ensures forall row :: 0 <= row < mergerNum ==> arrays[row] == Bucket(numbers, pivots, row)
  {
    arrays := seq(mergerNum, _ => []);
    for i := 0 to |numbers|
      invariant |arrays| == mergerNum && AreBuckets(arrays, numbers[..i], pivots)
    {
      var row := FindRow(pivots, numbers[i]);
      BucketsSnoc(arrays, numbers[..i], pivots, numbers[i]);
      assert numbers[..i + 1] == numbers[..i] + [numbers[i]];
      arrays := arrays[row := arrays[row] + [numbers[i]]];
    }
    assert numbers[..|numbers|] == numbers;
  }

  // ----- Properties -----

  /** Nothing is lost, added or reordered, whatever the pivots. */
  lemma {:induction false} SplitConcat(numbers: seq<int>, pivots: seq<int>)
    ensures Concat(Split(numbers, pivots)) == numbers
    decreases pivots
  {
    if pivots == [] {
      assert [numbers][1..] == [];
    } else {
      var k := LeadBelow(numbers, pivots[0]);
      if k == |numbers| {
        assert [numbers, []] == [numbers] + [[]];
        ConcatSnoc([numbers], []);
        assert [numbers][1..] == [];
      } else {
        SplitConcat(numbers[k..], pivots[1..]);
        assert ([numbers[..k]] + Split(numbers[k..], pivots[1..]))[1..] == Split(numbers[k..], pivots[1..]);
      }
    }
  }

  /** One part per pivot and one more, exactly when the numbers reach the last pivot but one. */
  lemma {:induction false} SplitCount(numbers: seq<int>, pivots: seq<int>)
    requires Sorted(numbers) && Sorted(pivots)
    ensures |Split(numbers, pivots)| == |pivots| + 1 <==>
            (|pivots| < 2 || (numbers != [] && numbers[|numbers| - 1] >= pivots[|pivots| - 2]))
    decreases pivots
  {
    if |pivots| >= 2 {
      var k := LeadBelow(numbers, pivots[0]);
      LeadBelowBounds(numbers, pivots[0]);
      if k < |numbers| { SplitCount(numbers[k..], pivots[1..]); }
    }
  }

  /** Numbers below the first pivot are all in the first row. */
  lemma {:induction false} BucketLow(numbers: seq<int>, pivots: seq<int>, row: nat)
    requires pivots == [] || forall i :: 0 <= i < |numbers| ==> numbers[i] < pivots[0]
    ensures Bucket(numbers, pivots, row) == if row == 0 then numbers else []
  {
    if numbers != [] { BucketLow(numbers[1..], pivots, row); }
  }

  /** Numbers at or above the first pivot are in the row the other pivots give, one further down. */
  lemma {:induction false} BucketShift(numbers: seq<int>, pivots: seq<int>, row: nat)
    requires pivots != [] && forall i :: 0 <= i < |numbers| ==> numbers[i] >= pivots[0]
    ensures Bucket(numbers, pivots, row + 1) == Bucket(numbers, pivots[1..], row)
    ensures Bucket(numbers, pivots, 0) == []
  {
    if numbers != [] { BucketShift(numbers[1..], pivots, row); }
  }

  /** The part of a row is the part the other pivots give in the row above, of the numbers at or
      above the first pivot. */
  lemma PartUnfold(numbers: seq<int>, pivots: seq<int>, row: nat)
    requires row <= |pivots| && pivots != []
    ensures var k := LeadBelow(numbers, pivots[0]);
            PartOf(Split(numbers, pivots), row)
            == if row == 0 then numbers[..k]
               else if k == |numbers| then []
               else PartOf(Split(numbers[k..], pivots[1..]), row - 1)
  {
    var k := LeadBelow(numbers, pivots[0]);
    if k == |numbers| {
      assert numbers[..k] == numbers;
    } else if row > 0 {
      PartCons(numbers[..k], Split(numbers[k..], pivots[1..]), row);
    }
  }

  lemma PartCons(first: seq<int>, rest: seq<seq<int>>, row: nat)
    requires row > 0
    ensures PartOf([first] + rest, row) == PartOf(rest, row - 1)
  {
  }

  /** Where all of `low` is below the first pivot and none of `high` is. */
  lemma BucketCut(low: seq<int>, high: seq<int>, pivots: seq<int>, row: nat)
    requires pivots != [] && (forall i :: 0 <= i < |low| ==> low[i] < pivots[0])
    requires forall i :: 0 <= i < |high| ==> high[i] >= pivots[0]
    ensures Bucket(low + high, pivots, row) == if row == 0 then low else Bucket(high, pivots[1..], row - 1)
  {
    BucketAppend(low, high, pivots, row);
    BucketLow(low, pivots, row);
    BucketShift(high, pivots, if row == 0 then 0 else row - 1);
    JoinEmpty(Bucket(low + high, pivots, row), Bucket(low, pivots, row), Bucket(high, pivots, row));
  }

  lemma JoinEmpty(s: seq<int>, a: seq<int>, b: seq<int>)
    requires s == a + b
    ensures (b == [] ==> s == a) && (a == [] ==> s == b)
  {
  }

  lemma BucketUnfold(numbers: seq<int>, pivots: seq<int>, row: nat)
    requires Sorted(numbers) && pivots != []
    ensures var k := LeadBelow(numbers, pivots[0]);
            Bucket(numbers, pivots, row)
            == if row == 0 then numbers[..k] else Bucket(numbers[k..], pivots[1..], row - 1)
  {
    var k := LeadBelow(numbers, pivots[0]);
    LeadBelowBounds(numbers, pivots[0]);
    assert numbers == numbers[..k] + numbers[k..];
    BucketCut(numbers[..k], numbers[k..], pivots, row);
  }

  lemma ClassifiedFirst(numbers: seq<int>, pivots: seq<int>, row: nat)
    requires Sorted(numbers) && pivots != [] && row <= |pivots|
    requires var k := LeadBelow(numbers, pivots[0]);
             row > 0 && k < |numbers| ==>
               PartOf(Split(numbers[k..], pivots[1..]), row - 1) == Bucket(numbers[k..], pivots[1..], row - 1)
    ensures PartOf(Split(numbers, pivots), row) == Bucket(numbers, pivots, row)
  {
    PartUnfold(numbers, pivots, row);
    BucketUnfold(numbers, pivots, row);
  }

  /** The slices are the buckets: the fast splitter and the classification agree on sorted input,
      once the missing trailing parts are taken to be empty. */
  lemma {:induction false} SplitIsClassification(numbers: seq<int>, pivots: seq<int>, row: nat)
    requires Sorted(numbers) && Sorted(pivots) && row <= |pivots|
    ensures PartOf(Split(numbers, pivots), row) == Bucket(numbers, pivots, row)
    decreases pivots
  {
    if pivots == [] {
      BucketLow(numbers, pivots, 0);
    } else {
      var k := LeadBelow(numbers, pivots[0]);
      if row > 0 && k < |numbers| { SplitIsClassification(numbers[k..], pivots[1..], row - 1); }
      ClassifiedFirst(numbers, pivots, row);
    }
  }

  /** Every element of a row lies between the pivots around it. */
  lemma {:induction false} BucketBounds(numbers: seq<int>, pivots: seq<int>, row: nat, x: int)
    requires x in Bucket(numbers, pivots, row)
    ensures x in numbers && Row(pivots, x) == row
  {
    if numbers[0] != x || Row(pivots, x) != row { BucketBounds(numbers[1..], pivots, row, x); }
  }

  lemma {:induction false} BucketSorted(numbers: seq<int>, pivots: seq<int>, row: nat)
    requires Sorted(numbers)
    ensures Sorted(Bucket(numbers, pivots, row))
  {
    if numbers != [] {
      BucketSorted(numbers[1..], pivots, row);
      var rest := Bucket(numbers[1..], pivots, row);
      forall y | y in rest ensures numbers[0] <= y { BucketBounds(numbers[1..], pivots, row, y); }
      SortedAppend(if Row(pivots, numbers[0]) == row then [numbers[0]] else [], rest);
    }
  }
}
