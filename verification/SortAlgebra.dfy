/** Why the sort workflow sorts: cutting every sorted part at the same pivots and merging column by
    column gives, column after column, all the numbers in order. */
module SortAlgebra {
  import opened Seqs
  import opened Splitting
  import opened SortStages
  import opened LinearMerge

  /** Part `j` of every sorted array. */
  ghost function Column(sorteds: seq<seq<int>>, pivots: seq<int>, j: nat): (r: seq<seq<int>>)
    ensures |r| == |sorteds|
    ensures forall i :: 0 <= i < |r| ==> r[i] == Bucket(sorteds[i], pivots, j)
  {
    seq(|sorteds|, i requires 0 <= i < |sorteds| => Bucket(sorteds[i], pivots, j))
  }

  /** What the mergers produce. */
  ghost function Results(sorteds: seq<seq<int>>, pivots: seq<int>): (r: seq<seq<int>>)
    ensures |r| == |pivots| + 1
    ensures forall j :: 0 <= j < |r| ==> r[j] == Merged(Column(sorteds, pivots, j))
  {
    seq(|pivots| + 1, j requires 0 <= j < |pivots| + 1 => Merged(Column(sorteds, pivots, j)))
  }

  lemma ColumnSorted(sorteds: seq<seq<int>>, pivots: seq<int>, j: nat)
    requires AllSorted(sorteds)
    ensures AllSorted(Column(sorteds, pivots, j))
    ensures IsMergeBelowMax(Merged(Column(sorteds, pivots, j)), Column(sorteds, pivots, j))
  {
    var column := Column(sorteds, pivots, j);
    forall i | 0 <= i < |column| ensures Sorted(column[i]) {
      BucketSorted(sorteds[i], pivots, j);
    }
    MergedIsMerge(column);
  }

  /** Everything in result `j` belongs in row `j`. */
  lemma ResultRow(sorteds: seq<seq<int>>, pivots: seq<int>, j: nat, x: int)
    requires AllSorted(sorteds) && j <= |pivots| && x in Results(sorteds, pivots)[j]
    ensures Row(pivots, x) == j && x < U32_MAX
  {
    var column := Column(sorteds, pivots, j);
    ColumnSorted(sorteds, pivots, j);
    assert multiset(Merged(column))[x] > 0;
    assert x in multiset(Concat(column));
    ConcatMember(column, x);
    var i :| 0 <= i < |column| && x in column[i];
    BucketBounds(sorteds[i], pivots, j, x);
  }

  lemma {:induction false} RowOrder(pivots: seq<int>, x: int, y: int)
    requires Sorted(pivots) && Row(pivots, x) < Row(pivots, y)
    ensures x < y
  {
    assert x < pivots[Row(pivots, x)] <= pivots[Row(pivots, y) - 1] <= y;
  }

  lemma ResultsOrdered(sorteds: seq<seq<int>>, pivots: seq<int>, i: nat, j: nat, x: int, y: int)
    requires AllSorted(sorteds) && Sorted(pivots) && i < j <= |pivots|
    requires x in Results(sorteds, pivots)[i] && y in Results(sorteds, pivots)[j]
    ensures x <= y
  {
    ResultRow(sorteds, pivots, i, x);
    ResultRow(sorteds, pivots, j, y);
    RowOrder(pivots, x, y);
  }

  lemma OrderedRowsSorted(rows: seq<seq<int>>)
    requires AllSorted(rows)
    requires forall i, j, x, y :: 0 <= i < j < |rows| && x in rows[i] && y in rows[j] ==> x <= y
    ensures Sorted(Concat(rows))
  {
    forall i, j | 0 <= i < j < |rows| && rows[i] != [] && rows[j] != []
      ensures rows[i][0] <= rows[j][0] && rows[i][|rows[i]| - 1] <= rows[j][0]
    {
      assert rows[i][0] in rows[i] && rows[i][|rows[i]| - 1] in rows[i] && rows[j][0] in rows[j];
    }
    ConcatSortedIff(rows);
  }

  /** The results, one after the other, are sorted. */
  lemma ResultsSorted(sorteds: seq<seq<int>>, pivots: seq<int>)
    requires AllSorted(sorteds) && Sorted(pivots)
    ensures Sorted(Concat(Results(sorteds, pivots)))
  {
    var results := Results(sorteds, pivots);
    forall j | 0 <= j < |results| ensures Sorted(results[j]) {
      ColumnSorted(sorteds, pivots, j);
    }
    forall i, j, x, y | 0 <= i < j < |results| && x in results[i] && y in results[j] ensures x <= y {
      ResultsOrdered(sorteds, pivots, i, j, x, y);
    }
    OrderedRowsSorted(results);
  }

  // ----- Counting -----

  lemma {:induction false} BucketCount(numbers: seq<int>, pivots: seq<int>, row: nat, x: int)
    ensures multiset(Bucket(numbers, pivots, row))[x] == if Row(pivots, x) == row then multiset(numbers)[x] else 0
  {
    if numbers != [] {
      BucketCount(numbers[1..], pivots, row, x);
      HeadTail(numbers);
    }
  }

  lemma ConcatHead(ss: seq<seq<int>>, x: int)
    requires ss != []
    ensures multiset(Concat(ss))[x] == multiset(ss[0])[x] + multiset(Concat(ss[1..]))[x]
  {
    assert multiset(Concat(ss)) == multiset(ss[0]) + multiset(Concat(ss[1..]));
  }

  lemma {:induction false} ConcatCountSame(ss: seq<seq<int>>, tt: seq<seq<int>>, x: int)
    requires |ss| == |tt| && forall i :: 0 <= i < |ss| ==> multiset(ss[i])[x] == multiset(tt[i])[x]
    ensures multiset(Concat(ss))[x] == multiset(Concat(tt))[x]
  {
    if ss != [] {
      ConcatHead(ss, x);
      ConcatHead(tt, x);
      ConcatCountSame(ss[1..], tt[1..], x);
    }
  }

  lemma {:induction false} ConcatCountNone(ss: seq<seq<int>>, x: int)
    requires forall i :: 0 <= i < |ss| ==> multiset(ss[i])[x] == 0
    ensures multiset(Concat(ss))[x] == 0
  {
    if ss != [] {
      ConcatHead(ss, x);
      ConcatCountNone(ss[1..], x);
    }
  }

  lemma {:induction false} ConcatCountOne(ss: seq<seq<int>>, r: nat, x: int)
    requires r < |ss| && forall i :: 0 <= i < |ss| && i != r ==> multiset(ss[i])[x] == 0
    ensures multiset(Concat(ss))[x] == multiset(ss[r])[x]
  {
    ConcatHead(ss, x);
    if r == 0 { ConcatCountNone(ss[1..], x); } else { ConcatCountOne(ss[1..], r - 1, x); }
  }

  /** A number is in the results as often as in the sorted parts, except for the sentinel. */
  lemma ResultsCount(sorteds: seq<seq<int>>, pivots: seq<int>, x: int)
    requires AllSorted(sorteds)
    ensures multiset(Concat(Results(sorteds, pivots)))[x] == if x < U32_MAX then multiset(Concat(sorteds))[x] else 0
  {
    var results, r := Results(sorteds, pivots), Row(pivots, x);
    forall j | 0 <= j < |results| && j != r ensures multiset(results[j])[x] == 0 {
      if x in results[j] { ResultRow(sorteds, pivots, j, x); }
    }
    ConcatCountOne(results, r, x);
    ColumnSorted(sorteds, pivots, r);
    var column := Column(sorteds, pivots, r);
    forall i | 0 <= i < |column| ensures multiset(column[i])[x] == multiset(sorteds[i])[x] {
      BucketCount(sorteds[i], pivots, r, x);
    }
    ConcatCountSame(column, sorteds, x);
  }

  ghost function Sorteds(inputs: seq<seq<int>>): (r: seq<seq<int>>)
    ensures |r| == |inputs| && forall i :: 0 <= i < |r| ==> r[i] == Sort(inputs[i])
  {
    seq(|inputs|, i requires 0 <= i < |inputs| => Sort(inputs[i]))
  }

  lemma SortedsSorted(inputs: seq<seq<int>>)
    ensures AllSorted(Sorteds(inputs))
    ensures forall x :: multiset(Concat(Sorteds(inputs)))[x] == multiset(Concat(inputs))[x]
  {
    var sorteds := Sorteds(inputs);
    forall i | 0 <= i < |inputs| ensures Sorted(sorteds[i]) && multiset(sorteds[i]) == multiset(inputs[i]) {
      SortSorts(inputs[i]);
    }
    forall x ensures multiset(Concat(sorteds))[x] == multiset(Concat(inputs))[x] {
      ConcatCountSame(sorteds, inputs, x);
    }
  }

  /** `outputs` hold, in order across all of them, exactly the inputs below the sentinel. */
  ghost predicate SortsBelowMax(inputs: seq<seq<int>>, outputs: seq<seq<int>>) {
    && Sorted(Concat(outputs))
    && (forall x :: multiset(Concat(outputs))[x] == if x < U32_MAX then multiset(Concat(inputs))[x] else 0)
  }

  lemma ResultsSort(inputs: seq<seq<int>>, pivots: seq<int>)
    requires Sorted(pivots)
    ensures SortsBelowMax(inputs, Results(Sorteds(inputs), pivots))
  {
    var sorteds := Sorteds(inputs);
    SortedsSorted(inputs);
    ResultsSorted(sorteds, pivots);
    forall x
      ensures multiset(Concat(Results(sorteds, pivots)))[x] == if x < U32_MAX then multiset(Concat(inputs))[x] else 0
    {
      ResultsCount(sorteds, pivots, x);
    }
  }

  /** Nothing is lost exactly when the sentinel is not among the inputs. */
  lemma PermutationIffNoMax(inputs: seq<seq<int>>, outputs: seq<seq<int>>)
    requires SortsBelowMax(inputs, outputs) && forall x :: x in Concat(inputs) ==> x <= U32_MAX
    ensures multiset(Concat(outputs)) == multiset(Concat(inputs)) <==> NoMax(inputs)
  {
    LosslessIffNoMax(Concat(outputs), inputs);
  }
}
