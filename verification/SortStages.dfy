/** The sequential stages of the sort workflow besides splitting and merging: sorting and choosing
    pivots (user/sorter/src/lib.rs) and the acceptance loop of user/checker/src/lib.rs. */
module SortStages {
  import opened Seqs

  // ----- Sorter -----

  function Insert(x: int, s: seq<int>): seq<int> {
    if s == [] || x <= s[0] then [x] + s else [s[0]] + Insert(x, s[1..])
  }

  /** The sorted array. Any sorting procedure gives this one; see `SortIsUnique`. */
  function Sort(s: seq<int>): seq<int> {
    if s == [] then [] else Insert(s[0], Sort(s[1..]))
  }

  lemma {:induction false} InsertAdds(x: int, s: seq<int>)
    ensures multiset(Insert(x, s)) == multiset(s) + multiset{x}
  {
    if s != [] && x > s[0] {
      InsertAdds(x, s[1..]);
      HeadTail(s);
      Commute(multiset(s[1..]), multiset{x}, multiset{s[0]});
    }
  }

  lemma {:induction false} InsertSorted(x: int, s: seq<int>)
    requires Sorted(s)
    ensures Sorted(Insert(x, s))
  {
    if s != [] && x > s[0] {
      InsertSorted(x, s[1..]);
      var t := Insert(x, s[1..]);
      InsertAdds(x, s[1..]);
      forall y | y in t ensures s[0] <= y {
        assert y in multiset(t);
        assert y in s[1..] || y == x;
      }
      SortedAppend([s[0]], t);
    }
  }

  lemma {:induction false} SortSorts(s: seq<int>)
    ensures Sorted(Sort(s)) && multiset(Sort(s)) == multiset(s) && |Sort(s)| == |s|
  {
    if s != [] {
      SortSorts(s[1..]);
      InsertSorted(s[0], Sort(s[1..]));
      InsertAdds(s[0], Sort(s[1..]));
      HeadTail(s);
    }
    assert |multiset(Sort(s))| == |Sort(s)| && |multiset(s)| == |s|;
  }

  lemma SortIsUnique(s: seq<int>, t: seq<int>)
    ensures t == Sort(s) <==> Sorted(t) && multiset(t) == multiset(s)
  {
    SortSorts(s);
    if Sorted(t) && multiset(t) == multiset(s) { SortedUnique(t, Sort(s)); }
  }

  /** Sorter 0 publishes `mergerNum - 1` pivots taken at even distances. It panics without mergers,
      and when there is a pivot to choose but no number. */
  function Pivots(sorted: seq<int>, mergerNum: nat): (r: Option<seq<int>>)
    ensures r.Some? ==> |r.value| == mergerNum - 1
  {
    if mergerNum == 0 || (mergerNum > 1 && sorted == []) then None
    else Some(seq(mergerNum - 1, i requires 0 <= i < mergerNum - 1 =>
      (PivotIndex(i, |sorted|, mergerNum); sorted[(i + 1) * |sorted| / mergerNum])))
  }

  lemma PivotIndex(i: nat, len: nat, m: nat)
    requires i + 1 < m && len > 0
    ensures 0 <= (i + 1) * len / m < len
  {
    MulStrict(i + 1, m, len);
    DivBelow((i + 1) * len, m, len);
  }

  lemma MulStrict(a: nat, b: nat, c: nat)
    requires a < b && c > 0
    ensures a * c < b * c
  {
  }

  lemma DivBelow(a: nat, m: nat, len: nat)
    requires m > 0 && a < m * len
    ensures a / m < len
  {
    var q := a / m;
    assert a == m * q + a % m;
  }

  lemma DivMonotone(a: nat, b: nat, m: nat)
    requires m > 0 && a <= b
    ensures a / m <= b / m
  {
    if a / m > b / m { MulOrder(b / m + 1, a / m, m); }
  }

  lemma MulOrder(a: nat, b: nat, c: nat)
    requires a <= b
    ensures a * c <= b * c
  {
  }

  lemma PivotOrder(i: nat, j: nat, len: nat, m: nat)
    requires i <= j && j + 1 < m && len > 0
    ensures 0 <= (i + 1) * len / m <= (j + 1) * len / m < len
  {
    PivotIndex(i, len, m);
    PivotIndex(j, len, m);
    MulOrder(i + 1, j + 1, len);
    DivMonotone((i + 1) * len, (j + 1) * len, m);
  }

  /** The pivots are in order and are elements of the array. */
  lemma PivotsSorted(sorted: seq<int>, mergerNum: nat)
    requires Sorted(sorted) && Pivots(sorted, mergerNum).Some?
    ensures Sorted(Pivots(sorted, mergerNum).value)
    ensures forall x :: x in Pivots(sorted, mergerNum).value ==> x in sorted
  {
    var ps := Pivots(sorted, mergerNum).value;
    forall i, j | 0 <= i < j < |ps| ensures ps[i] <= ps[j] {
      PivotOrder(i, j, |sorted|, mergerNum);
    }
    forall x | x in ps ensures x in sorted {
      var i :| 0 <= i < |ps| && ps[i] == x;
      PivotIndex(i, |sorted|, mergerNum);
    }
  }

  /** What the checker accepts: each array sorted, and the first elements of the non-empty arrays
      in order. */
  ghost predicate Accepted(arrays: seq<seq<int>>) {
    && AllSorted(arrays)
    && (forall i, j :: 0 <= i < j < |arrays| && arrays[i] != [] && arrays[j] != [] ==> arrays[i][0] <= arrays[j][0])
  }

  /** The acceptance loop of the checker. `lastMax` is the first element of the last non-empty
      array, not its last one. */
  method Check(arrays: seq<seq<int>>) returns (ok: bool, counter: nat)
    requires forall i, k :: 0 <= i < |arrays| && 0 <= k < |arrays[i]| ==> arrays[i][k] >= 0
    ensures ok <==> Accepted(arrays)
    ensures ok ==> counter == |Concat(arrays)|
  {
    var lastMax := 0;
    counter := 0;
    for n := 0 to |arrays|
      invariant Accepted(arrays[..n])
      invariant counter == |Concat(arrays[..n])|
      invariant forall i :: 0 <= i < n && arrays[i] != [] ==> arrays[i][0] <= lastMax
      invariant lastMax == 0 || exists i :: 0 <= i < n && arrays[i] != [] && arrays[i][0] == lastMax
    {
      assert arrays[..n + 1] == arrays[..n] + [arrays[n]];
      ConcatSnoc(arrays[..n], arrays[n]);
      counter := counter + |arrays[n]|;
      if !Sorted(arrays[n]) {
        return false, counter;
      }
      if arrays[n] != [] {
        if arrays[n][0] < lastMax {
          return false, counter;
        }
        lastMax := arrays[n][0];
      }
    }
    assert arrays[..|arrays|] == arrays;
    ok := true;
  }

  /** The whole of each array is at most the first element of every later one. */
  ghost predicate BoundariesOrdered(arrays: seq<seq<int>>) {
    forall i, j :: 0 <= i < j < |arrays| && arrays[i] != [] && arrays[j] != [] ==>
      arrays[i][|arrays[i]| - 1] <= arrays[j][0]
  }

  /** Acceptance is not enough for the concatenation to be sorted. */
  lemma CheckerAcceptsUnsorted()
    ensures Accepted([[1, 5], [2]]) && !Sorted(Concat([[1, 5], [2]]))
  {
    var arrays := [[1, 5], [2]];
    assert Concat(arrays) == [1, 5, 2] by {
      assert arrays == [[1, 5]] + [[2]];
      ConcatSnoc([[1, 5]], [2]);
      ConcatSnoc([], [1, 5]);
      assert [[1, 5]] == [] + [[1, 5]];
    }
    assert [1, 5, 2][1] > [1, 5, 2][2];
  }

  lemma {:induction false} ConcatMember(arrays: seq<seq<int>>, x: int)
    ensures x in Concat(arrays) <==> exists i :: 0 <= i < |arrays| && x in arrays[i]
  {
    if arrays != [] {
      ConcatMember(arrays[1..], x);
      if x in Concat(arrays[1..]) {
        var i :| 0 <= i < |arrays[1..]| && x in arrays[1..][i];
        assert x in arrays[i + 1];
      }
      if i :| 0 <= i < |arrays| && x in arrays[i] {
        if i > 0 { assert x in arrays[1..][i - 1]; }
      }
    }
  }

  /** Exactly when the arrays the checker sees make up one sorted array. */
  lemma {:induction false} ConcatSortedIff(arrays: seq<seq<int>>)
    ensures Sorted(Concat(arrays)) <==> Accepted(arrays) && BoundariesOrdered(arrays)
  {
    if arrays != [] {
      var first, rest := arrays[0], arrays[1..];
      var all := Concat(rest);
      ConcatSortedIff(rest);
      if Accepted(arrays) && BoundariesOrdered(arrays) {
        BoundariesTail(arrays);
        BelowRest(arrays);
        SortedAppend(first, all);
      }
      if Sorted(first + all) {
        SortedSplits(first, all);
        HeadBoundaries(arrays);
      }
    }
  }

  lemma BelowRest(arrays: seq<seq<int>>)
    requires arrays != [] && Accepted(arrays) && BoundariesOrdered(arrays)
    ensures forall x, y :: x in arrays[0] && y in Concat(arrays[1..]) ==> x <= y
  {
    var first, rest := arrays[0], arrays[1..];
    forall x, y | x in first && y in Concat(rest) ensures x <= y {
      ConcatMember(rest, y);
      var i :| 0 <= i < |rest| && y in rest[i];
      assert arrays[i + 1] == rest[i];
      assert x <= first[|first| - 1] <= rest[i][0] <= y;
    }
  }

  lemma BoundariesTail(arrays: seq<seq<int>>)
    requires arrays != [] && Accepted(arrays) && BoundariesOrdered(arrays)
    ensures Accepted(arrays[1..]) && BoundariesOrdered(arrays[1..])
  {
    var rest := arrays[1..];
    assert forall i :: 0 <= i < |rest| ==> rest[i] == arrays[i + 1];
  }

  lemma SortedSplits(s: seq<int>, t: seq<int>)
    requires Sorted(s + t)
    ensures Sorted(s) && Sorted(t) && forall x, y :: x in s && y in t ==> x <= y
  {
    var u := s + t;
    assert forall i :: 0 <= i < |s| ==> u[i] == s[i];
    assert forall i :: 0 <= i < |t| ==> u[|s| + i] == t[i];
  }

  /** A first array below everything after it keeps the rest acceptable. */
  lemma HeadBoundaries(arrays: seq<seq<int>>)
    requires arrays != [] && Sorted(arrays[0]) && Accepted(arrays[1..]) && BoundariesOrdered(arrays[1..])
    requires forall x, y :: x in arrays[0] && y in Concat(arrays[1..]) ==> x <= y
    ensures Accepted(arrays) && BoundariesOrdered(arrays)
  {
    var rest := arrays[1..];
    forall i, j | 0 <= i < j < |arrays| && arrays[i] != [] && arrays[j] != []
      ensures arrays[i][0] <= arrays[j][0] && arrays[i][|arrays[i]| - 1] <= arrays[j][0]
    {
      assert arrays[j] == rest[j - 1] && arrays[j][0] in arrays[j];
      if i == 0 {
        ConcatMember(rest, arrays[j][0]);
        assert arrays[0][0] in arrays[0] && arrays[0][|arrays[0]| - 1] in arrays[0];
      } else {
        assert arrays[i] == rest[i - 1];
      }
    }
    forall i | 0 <= i < |arrays| ensures Sorted(arrays[i]) {
      if i > 0 { assert arrays[i] == rest[i - 1]; }
    }
  }
}
