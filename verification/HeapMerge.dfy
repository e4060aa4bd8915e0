/** The k-way merge of user/wasmtime_merger/merger.cpp: a binary min-heap held in an array, with
    one node for every input that still has elements. */
module HeapMerge {
  import opened Seqs

  datatype HeapNode = HeapNode(value: int, arrayIndex: nat, elementIndex: nat)

  // ----- Shape of the heap -----

  /** `k` lies in the subtree rooted at `i`, in the numbering where the children of `i` are
      `2*i+1` and `2*i+2`. */
  predicate InSubtree(i: nat, k: nat)
    decreases k
  {
    k == i || (i < k && InSubtree(i, (k - 1) / 2))
  }

  /** The subtree rooted at `i`, cut at size `n`, is ordered: no child is below its parent. */
  ghost predicate HeapAt(h: seq<HeapNode>, n: nat, i: nat)
    requires n <= |h|
    decreases n - i
  {
    i >= n ||
    (&& (2 * i + 1 < n ==> h[i].value <= h[2 * i + 1].value)
     && (2 * i + 2 < n ==> h[i].value <= h[2 * i + 2].value)
     && HeapAt(h, n, 2 * i + 1)
     && HeapAt(h, n, 2 * i + 2))
  }

  lemma {:induction false} ChildInSubtree(i: nat, c: nat, k: nat)
    requires c == 2 * i + 1 || c == 2 * i + 2
    requires InSubtree(c, k)
    ensures InSubtree(i, k) && k != i
    decreases k
  {
    if k == c {
      assert InSubtree(i, i);
    } else {
      ChildInSubtree(i, c, (k - 1) / 2);
    }
  }

  /** Two subtrees are nested or disjoint. */
  lemma {:induction false} SubtreesNest(i: nat, j: nat, k: nat)
    requires i <= j && InSubtree(i, k) && InSubtree(j, k)
    ensures InSubtree(i, j)
    decreases k
  {
    if k != j {
      assert i < k;
      SubtreesNest(i, j, (k - 1) / 2);
    }
  }

  lemma SiblingsDisjoint(i: nat, k: nat)
    ensures !(InSubtree(2 * i + 1, k) && InSubtree(2 * i + 2, k))
  {
    if InSubtree(2 * i + 1, k) && InSubtree(2 * i + 2, k) {
      SubtreesNest(2 * i + 1, 2 * i + 2, k);
    }
  }

  /** A subtree only depends on its own nodes. */
  lemma {:induction false} HeapAtFrame(h: seq<HeapNode>, g: seq<HeapNode>, n: nat, i: nat)
    requires n <= |h| && n <= |g|
    requires forall k :: 0 <= k < n && InSubtree(i, k) ==> h[k] == g[k]
    requires HeapAt(h, n, i)
    ensures HeapAt(g, n, i)
    decreases n - i
  {
    if i < n {
      forall k | 0 <= k < n && (InSubtree(2 * i + 1, k) || InSubtree(2 * i + 2, k)) ensures h[k] == g[k] {
        if InSubtree(2 * i + 1, k) { ChildInSubtree(i, 2 * i + 1, k); } else { ChildInSubtree(i, 2 * i + 2, k); }
      }
      assert InSubtree(i, i);
      assert InSubtree(2 * i + 1, 2 * i + 1) && InSubtree(2 * i + 2, 2 * i + 2);
      HeapAtFrame(h, g, n, 2 * i + 1);
      HeapAtFrame(h, g, n, 2 * i + 2);
    }
  }

  /** Every subtree of a heap is a heap. */
  lemma {:induction false} HeapAtDescend(h: seq<HeapNode>, n: nat, i: nat, k: nat)
    requires n <= |h| && HeapAt(h, n, i) && InSubtree(i, k)
    ensures HeapAt(h, n, k)
    decreases k
  {
    if k != i && k < n {
      HeapAtDescend(h, n, i, (k - 1) / 2);
      assert k == 2 * ((k - 1) / 2) + 1 || k == 2 * ((k - 1) / 2) + 2;
    }
  }

  lemma {:induction false} HeapAtShrink(h: seq<HeapNode>, n: nat, m: nat, i: nat)
    requires m <= n <= |h| && HeapAt(h, n, i)
    ensures HeapAt(h, m, i)
    decreases n - i
  {
    if i < m {
      HeapAtShrink(h, n, m, 2 * i + 1);
      HeapAtShrink(h, n, m, 2 * i + 2);
    }
  }

  /** The root of a heap is the least of its nodes. */
  lemma {:induction false} RootIsLeast(h: seq<HeapNode>, n: nat, i: nat, k: nat)
    requires n <= |h| && k < n && HeapAt(h, n, i) && InSubtree(i, k)
    ensures h[i].value <= h[k].value
    decreases k
  {
    if k != i {
      var p := (k - 1) / 2;
      RootIsLeast(h, n, i, p);
      HeapAtDescend(h, n, i, p);
      assert k == 2 * p + 1 || k == 2 * p + 2;
    }
  }

  lemma {:induction false} EverythingUnderZero(k: nat)
    ensures InSubtree(0, k)
    decreases k
  {
    if k > 0 { EverythingUnderZero((k - 1) / 2); }
  }

  // ----- Sifting down -----

  /** The index the node at `i` is compared into: the least of it and its children, itself first,
      the left child before the right. */
  function Smallest(h: seq<HeapNode>, n: nat, i: nat): (r: nat)
    requires n <= |h| && i < |h|
    ensures r == i || (i < r < n && (r == 2 * i + 1 || r == 2 * i + 2))
  {
    var l := if 2 * i + 1 < n && h[2 * i + 1].value < h[i].value then 2 * i + 1 else i;
    if 2 * i + 2 < n && h[2 * i + 2].value < h[l].value then 2 * i + 2 else l
  }

  /** The array after `heapifyDown(h, n, i)`. */
  function SiftedDown(h: seq<HeapNode>, n: nat, i: nat): (r: seq<HeapNode>)
    requires n <= |h| && i < |h|
    ensures |r| == |h|
    decreases |h| - i
  {
    var s := Smallest(h, n, i);
    if s == i then h else SiftedDown(h[i := h[s]][s := h[i]], n, s)
  }

  lemma SwapPermutes(h: seq<HeapNode>, i: nat, j: nat)
    requires i < j < |h|
    ensures multiset(h[i := h[j]][j := h[i]]) == multiset(h)
  {
  }

  lemma {:induction false} SiftedDownPermutes(h: seq<HeapNode>, n: nat, i: nat)
    requires n <= |h| && i < |h|
    ensures multiset(SiftedDown(h, n, i)) == multiset(h)
    decreases |h| - i
  {
    var s := Smallest(h, n, i);
    if s != i {
      SwapPermutes(h, i, s);
      SiftedDownPermutes(h[i := h[s]][s := h[i]], n, s);
    }
  }

  /** Nothing outside the subtree, and nothing from `n` on, is touched. */
  lemma {:induction false} SiftedDownFrame(h: seq<HeapNode>, n: nat, i: nat, k: nat)
    requires n <= |h| && i < |h| && k < |h|
    requires !InSubtree(i, k) || k >= n
    ensures SiftedDown(h, n, i)[k] == h[k]
    decreases |h| - i
  {
    var s := Smallest(h, n, i);
    if s != i {
      assert InSubtree(i, i);
      if InSubtree(s, k) { ChildInSubtree(i, s, k); }
      assert InSubtree(s, s);
      ChildInSubtree(i, s, s);
      SiftedDownFrame(h[i := h[s]][s := h[i]], n, s, k);
    }
  }

  /** The new root of the subtree is the old root or one of its children. */
  lemma SiftedDownRoot(h: seq<HeapNode>, n: nat, i: nat)
    requires n <= |h| && i < |h|
    ensures SiftedDown(h, n, i)[i] == h[Smallest(h, n, i)]
  {
    var s := Smallest(h, n, i);
    if s != i {
      SiftedDownFrame(h[i := h[s]][s := h[i]], n, s, i);
    }
  }

  /** Swapping a node with its child leaves the two subtrees below the child as they were. */
  lemma SwapKeepsGrandchildren(h: seq<HeapNode>, n: nat, i: nat, s: nat)
    requires n <= |h| && i < s < n && (s == 2 * i + 1 || s == 2 * i + 2)
    requires HeapAt(h, n, s)
    ensures HeapAt(h[i := h[s]][s := h[i]], n, 2 * s + 1) && HeapAt(h[i := h[s]][s := h[i]], n, 2 * s + 2)
  {
    var g := h[i := h[s]][s := h[i]];
    forall c, k | (c == 2 * s + 1 || c == 2 * s + 2) && 0 <= k < n && InSubtree(c, k) ensures h[k] == g[k] {
      ChildInSubtree(s, c, k);
      ChildInSubtree(i, s, k);
    }
    HeapAtFrame(h, g, n, 2 * s + 1);
    HeapAtFrame(h, g, n, 2 * s + 2);
  }

  /** A node whose two subtrees are heaps becomes the root of a heap. */
  lemma {:induction false} SiftedDownIsHeap(h: seq<HeapNode>, n: nat, i: nat)
    requires n <= |h| && i < n
    requires HeapAt(h, n, 2 * i + 1) && HeapAt(h, n, 2 * i + 2)
    ensures HeapAt(SiftedDown(h, n, i), n, i)
    decreases |h| - i
  {
    var s := Smallest(h, n, i);
    if s != i {
      var g := h[i := h[s]][s := h[i]];
      SwapKeepsGrandchildren(h, n, i, s);
      SiftedDownIsHeap(g, n, s);
      SiftedRootBelow(h, n, i, s);
      var other := if s == 2 * i + 1 then 2 * i + 2 else 2 * i + 1;
      if other < n { SiblingAfterSift(h, n, i, s, other); }
    }
  }

  /** Past the swap, nothing that comes up to `s` is below what went up to `i`. */
  lemma SiftedRootBelow(h: seq<HeapNode>, n: nat, i: nat, s: nat)
    requires n <= |h| && i < s < n && s == Smallest(h, n, i) && HeapAt(h, n, s)
    ensures var r := SiftedDown(h[i := h[s]][s := h[i]], n, s); r[i] == h[s] && h[s].value <= r[s].value
  {
    var g := h[i := h[s]][s := h[i]];
    SiftedDownRoot(g, n, s);
    SiftedDownFrame(g, n, s, i);
  }

  /** The subtree of the sibling of `s` is still the heap it was. */
  lemma SiblingAfterSift(h: seq<HeapNode>, n: nat, i: nat, s: nat, other: nat)
    requires n <= |h| && i < n && s < n
    requires (s == 2 * i + 1 && other == 2 * i + 2) || (s == 2 * i + 2 && other == 2 * i + 1)
    requires HeapAt(h, n, other) && other < n
    ensures HeapAt(SiftedDown(h[i := h[s]][s := h[i]], n, s), n, other)
    ensures SiftedDown(h[i := h[s]][s := h[i]], n, s)[other] == h[other]
  {
    var g := h[i := h[s]][s := h[i]];
    var r := SiftedDown(g, n, s);
    forall k | 0 <= k < n && InSubtree(other, k) ensures h[k] == r[k] {
      SiblingsDisjoint(i, k);
      ChildInSubtree(i, other, k);
      assert InSubtree(s, s);
      SiftedDownFrame(g, n, s, k);
    }
    HeapAtFrame(h, r, n, other);
    assert InSubtree(other, other);
  }

  /** `heapifyDown`, in place. */
  method HeapifyDown(minHeap: array<HeapNode>, heapSize: nat, index: nat)
    requires heapSize <= minHeap.Length && index < minHeap.Length
    modifies minHeap
    ensures minHeap[..] == SiftedDown(old(minHeap[..]), heapSize, index)
    decreases minHeap.Length - index
  {
    var smallest := index;
    var left := 2 * index + 1;
    var right := 2 * index + 2;
    if left < heapSize && minHeap[left].value < minHeap[smallest].value {
      smallest := left;
    }
    if right < heapSize && minHeap[right].value < minHeap[smallest].value {
      smallest := right;
    }
    assert smallest == Smallest(minHeap[..], heapSize, index);
    if smallest != index {
      ghost var h := minHeap[..];
      var temp := minHeap[index];
      minHeap[index] := minHeap[smallest];
      minHeap[smallest] := temp;
      assert minHeap[..] == h[index := h[smallest]][smallest := h[index]];
      HeapifyDown(minHeap, heapSize, smallest);
    }
  }

  // ----- Building the heap -----

  /** C's `/`: truncation toward zero. */
  function TruncDiv(a: int, b: int): int
    requires b > 0
  {
    if a >= 0 then a / b else -((-a) / b)
  }

  /** One round of the descending build loop keeps every later subtree ordered. */
  lemma BuildStep(h: seq<HeapNode>, n: nat, i: nat)
    requires n <= |h| && i < n
    requires forall j :: i < j ==> HeapAt(h, n, j)
    ensures forall j :: i <= j ==> HeapAt(SiftedDown(h, n, i), n, j)
  {
    var r := SiftedDown(h, n, i);
    SiftedDownIsHeap(h, n, i);
    forall j | i <= j ensures HeapAt(r, n, j) {
      if InSubtree(i, j) {
        HeapAtDescend(r, n, i, j);
      } else {
        forall k | 0 <= k < n && InSubtree(j, k) ensures h[k] == r[k] {
          if InSubtree(i, k) { SubtreesNest(i, j, k); }
          SiftedDownFrame(h, n, i, k);
        }
        HeapAtFrame(h, r, n, j);
      }
    }
  }

  /** The heap build of the merger, for every size including 0 and 1. */
  method BuildHeap(minHeap: array<HeapNode>, heapSize: nat)
    requires heapSize <= minHeap.Length
    modifies minHeap
    ensures HeapAt(minHeap[..], heapSize, 0)
    ensures multiset(minHeap[..]) == multiset(old(minHeap[..]))
    ensures minHeap[heapSize..] == old(minHeap[heapSize..])
  {
    var i := TruncDiv(heapSize - 2, 2);
    while i >= 0
      invariant -1 <= i <= heapSize
      invariant heapSize > 0 ==> i < heapSize
      invariant heapSize == 0 ==> i == -1
      invariant forall j: nat :: i < j ==> HeapAt(minHeap[..], heapSize, j)
      invariant multiset(minHeap[..]) == multiset(old(minHeap[..]))
      invariant minHeap[heapSize..] == old(minHeap[heapSize..])
    {
      ghost var h := minHeap[..];
      HeapifyDown(minHeap, heapSize, i);
      BuildStep(h, heapSize, i);
      SiftedDownPermutes(h, heapSize, i);
      forall k | heapSize <= k < minHeap.Length ensures minHeap[k] == h[k] {
        SiftedDownFrame(h, heapSize, i, k);
      }
      assert minHeap[heapSize..] == h[heapSize..];
      i := i - 1;
    }
  }

  // ----- The merge -----

  ghost predicate Positions(arrays: seq<seq<int>>, pos: seq<nat>) {
    |pos| == |arrays| && forall i :: 0 <= i < |arrays| ==> pos[i] <= |arrays[i]|
  }

  /** The front of an input, if it has one left. */
  ghost function FrontOf(arrays: seq<seq<int>>, pos: seq<nat>, a: nat): multiset<HeapNode>
    requires Positions(arrays, pos) && a < |arrays|
  {
    if pos[a] < |arrays[a]| then multiset{HeapNode(arrays[a][pos[a]], a, pos[a])} else multiset{}
  }

  ghost function FrontSeq(arrays: seq<seq<int>>, pos: seq<nat>): (r: seq<multiset<HeapNode>>)
    requires Positions(arrays, pos)
    ensures |r| == |arrays| && forall a :: 0 <= a < |r| ==> r[a] == FrontOf(arrays, pos, a)
  {
    seq(|arrays|, a requires 0 <= a < |arrays| => FrontOf(arrays, pos, a))
  }

  ghost function Union(parts: seq<multiset<HeapNode>>, k: nat): multiset<HeapNode>
    requires k <= |parts|
  {
    if k == 0 then multiset{} else Union(parts, k - 1) + parts[k - 1]
  }

  /** Exchanging one part exchanges it in the union. */
  lemma {:induction false} UnionExchange(parts: seq<multiset<HeapNode>>, next: seq<multiset<HeapNode>>, a: nat, k: nat)
    requires |parts| == |next| && k <= |parts| && a < |parts|
    requires forall i :: 0 <= i < |parts| && i != a ==> next[i] == parts[i]
    ensures a >= k ==> Union(next, k) == Union(parts, k)
    ensures a < k ==> Union(next, k) + parts[a] == Union(parts, k) + next[a]
  {
    if k > 0 {
      UnionExchange(parts, next, a, k - 1);
      if a < k - 1 {
        Exchange(Union(next, k - 1), parts[a], Union(parts, k - 1), next[a], parts[k - 1]);
      } else if a == k - 1 {
        Commute(Union(parts, a), next[a], parts[a]);
      }
    }
  }

  /** The nodes that stand for the unfinished inputs among the first `k`. */
  ghost function Fronts(arrays: seq<seq<int>>, pos: seq<nat>, k: nat): multiset<HeapNode>
    requires Positions(arrays, pos) && k <= |arrays|
  {
    Union(FrontSeq(arrays, pos), k)
  }

  /** A node is in the heap exactly when it is the front of its own input. */
  lemma {:induction false} FrontsMember(arrays: seq<seq<int>>, pos: seq<nat>, k: nat, x: HeapNode)
    requires Positions(arrays, pos) && k <= |arrays|
    ensures x in Fronts(arrays, pos, k) <==>
            (&& x.arrayIndex < k && pos[x.arrayIndex] < |arrays[x.arrayIndex]|
             && x.elementIndex == pos[x.arrayIndex] && x.value == arrays[x.arrayIndex][x.elementIndex])
  {
    if k > 0 { FrontsMember(arrays, pos, k - 1, x); }
  }

  /** Advancing one input replaces its node by its next one, if there is one. */
  lemma FrontsAdvance(arrays: seq<seq<int>>, pos: seq<nat>, next: seq<nat>, a: nat)
    requires Positions(arrays, pos) && Positions(arrays, next) && a < |arrays|
    requires forall i :: 0 <= i < |arrays| && i != a ==> next[i] == pos[i]
    ensures Fronts(arrays, next, |arrays|) + FrontOf(arrays, pos, a)
         == Fronts(arrays, pos, |arrays|) + FrontOf(arrays, next, a)
  {
    UnionExchange(FrontSeq(arrays, pos), FrontSeq(arrays, next), a, |arrays|);
  }

  /** The node taken off the top leaves the rest of the heap; the next node of the same input, or
      the last leaf, moves to the top before sifting. */
  lemma ReplaceRoot(h: seq<HeapNode>, n: nat, x: HeapNode)
    requires 0 < n <= |h| && HeapAt(h, n, 0)
    ensures HeapAt(SiftedDown(h[0 := x], n, 0), n, 0)
    ensures multiset(SiftedDown(h[0 := x], n, 0)[..n]) == multiset(h[1..n]) + multiset{x}
  {
    RootReplaceable(h, n, x);
    SiftedDownIsHeap(h[0 := x], n, 0);
    SiftedPrefix(h[0 := x], n, 0);
    assert h[0 := x][..n] == [x] + h[1..n];
  }

  lemma RootReplaceable(h: seq<HeapNode>, n: nat, x: HeapNode)
    requires 0 < n <= |h| && HeapAt(h, n, 0)
    ensures HeapAt(h[0 := x], n, 1) && HeapAt(h[0 := x], n, 2)
  {
    var g := h[0 := x];
    forall k | 0 <= k < n && InSubtree(1, k) ensures h[k] == g[k] { ChildInSubtree(0, 1, k); }
    forall k | 0 <= k < n && InSubtree(2, k) ensures h[k] == g[k] { ChildInSubtree(0, 2, k); }
    HeapAtFrame(h, g, n, 1);
    HeapAtFrame(h, g, n, 2);
  }

  /** Sifting permutes the first `n` nodes among themselves. */
  lemma SiftedPrefix(h: seq<HeapNode>, n: nat, i: nat)
    requires n <= |h| && i < |h|
    ensures multiset(SiftedDown(h, n, i)[..n]) == multiset(h[..n])
  {
    var r := SiftedDown(h, n, i);
    SiftedDownPermutes(h, n, i);
    forall k | n <= k < |h| ensures r[k] == h[k] { SiftedDownFrame(h, n, i, k); }
    PrefixPermuted(h, r, n);
  }

  lemma RemoveRoot(h: seq<HeapNode>, n: nat)
    requires 0 < n <= |h| && HeapAt(h, n, 0)
    ensures HeapAt(SiftedDown(h[0 := h[n - 1]], n - 1, 0), n - 1, 0)
    ensures multiset(SiftedDown(h[0 := h[n - 1]], n - 1, 0)[..n - 1]) == multiset(h[1..n])
  {
    var x := h[n - 1];
    HeapAtShrink(h, n, n - 1, 0);
    if n > 1 {
      ReplaceRoot(h, n - 1, x);
      assert h[1..n] == h[1..n - 1] + [x];
    }
  }

  /** `result` is a merge of the inputs: sorted, and holding each of their elements as often as
      they do. */
  ghost predicate IsMergeOf(result: seq<int>, arrays: seq<seq<int>>) {
    Sorted(result) && multiset(result) == multiset(Concat(arrays))
  }

  lemma MergeIsUnique(r: seq<int>, s: seq<int>, arrays: seq<seq<int>>)
    requires IsMergeOf(r, arrays) && IsMergeOf(s, arrays)
    ensures r == s
  {
    SortedUnique(r, s);
  }

  /** State of the merge loop: the heap holds the fronts, the output holds what was passed. */
  ghost predicate MergeInv(arrays: seq<seq<int>>, pos: seq<nat>, heap: seq<HeapNode>, n: nat, out: seq<int>) {
    && Positions(arrays, pos) && n <= |heap|
    && HeapAt(heap, n, 0)
    && multiset(heap[..n]) == Fronts(arrays, pos, |arrays|)
    && multiset(out) == Taken(arrays, pos, |arrays|)
    && Sorted(out)
    && (forall x, k :: x in out && 0 <= k < n ==> x <= heap[k].value)
  }

  /** The root of the heap is the front of the input it names. */
  lemma RootIsFront(arrays: seq<seq<int>>, pos: seq<nat>, heap: seq<HeapNode>, n: nat)
    requires Positions(arrays, pos) && 0 < n <= |heap|
    requires multiset(heap[..n]) == Fronts(arrays, pos, |arrays|)
    ensures var a := heap[0].arrayIndex;
            a < |arrays| && pos[a] < |arrays[a]| && heap[0] == HeapNode(arrays[a][pos[a]], a, pos[a])
  {
    assert heap[..n][0] == heap[0];
    assert heap[0] in multiset(heap[..n]);
    FrontsMember(arrays, pos, |arrays|, heap[0]);
  }

  /** Nothing left in the heap is below its root, so the root may follow what was output. */
  lemma RootFollows(heap: seq<HeapNode>, n: nat, out: seq<int>)
    requires 0 < n <= |heap| && HeapAt(heap, n, 0) && Sorted(out)
    requires forall x, k :: x in out && 0 <= k < n ==> x <= heap[k].value
    ensures Sorted(out + [heap[0].value])
    ensures forall x, k :: x in out + [heap[0].value] && 0 <= k < n ==> x <= heap[k].value
  {
    SortedAppend(out, [heap[0].value]);
    forall k | 0 <= k < n ensures heap[0].value <= heap[k].value {
      EverythingUnderZero(k);
      RootIsLeast(heap, n, 0, k);
    }
  }

  /** The least front may be output: the output stays sorted. */
  lemma OutputStep(arrays: seq<seq<int>>, pos: seq<nat>, heap: seq<HeapNode>, n: nat, out: seq<int>)
    requires MergeInv(arrays, pos, heap, n, out) && n > 0
    ensures heap[0].arrayIndex < |arrays|
    ensures var a := heap[0].arrayIndex;
            && pos[a] < |arrays[a]| && heap[0] == HeapNode(arrays[a][pos[a]], a, pos[a])
            && Positions(arrays, pos[a := pos[a] + 1])
            && Sorted(out + [heap[0].value])
            && multiset(out + [heap[0].value]) == Taken(arrays, pos[a := pos[a] + 1], |arrays|)
            && (forall x, k :: x in out + [heap[0].value] && 0 <= k < n ==> x <= heap[k].value)
  {
    RootIsFront(arrays, pos, heap, n);
    TakenAdvance(arrays, pos, heap[0].arrayIndex, |arrays|);
    RootFollows(heap, n, out);
  }

  /** The heap after one round of the merge loop that output its root. */
  lemma MergeStep(arrays: seq<seq<int>>, pos: seq<nat>, next: seq<nat>, heap: seq<HeapNode>, n: nat, out: seq<int>,
                  heap': seq<HeapNode>, n': nat)
    requires MergeInv(arrays, pos, heap, n, out) && n > 0 && AllSorted(arrays)
    requires heap[0].arrayIndex < |arrays| && next == pos[heap[0].arrayIndex := pos[heap[0].arrayIndex] + 1]
    requires Positions(arrays, next) && n' <= |heap'| && HeapAt(heap', n', 0)
    requires multiset(heap'[..n']) == multiset(heap[1..n]) + FrontOf(arrays, next, heap[0].arrayIndex)
    ensures MergeInv(arrays, next, heap', n', out + [heap[0].value])
  {
    OutputStep(arrays, pos, heap, n, out);
    MergeStepFronts(arrays, pos, next, heap, n, heap', n');
    MergeStepBound(arrays, pos, next, heap, n, out, heap', n');
  }

  lemma MergeStepFronts(arrays: seq<seq<int>>, pos: seq<nat>, next: seq<nat>, heap: seq<HeapNode>, n: nat,
                        heap': seq<HeapNode>, n': nat)
    requires Positions(arrays, pos) && 0 < n <= |heap| && n' <= |heap'|
    requires multiset(heap[..n]) == Fronts(arrays, pos, |arrays|)
    requires heap[0].arrayIndex < |arrays| && FrontOf(arrays, pos, heap[0].arrayIndex) == multiset{heap[0]}
    requires next == pos[heap[0].arrayIndex := pos[heap[0].arrayIndex] + 1] && Positions(arrays, next)
    requires multiset(heap'[..n']) == multiset(heap[1..n]) + FrontOf(arrays, next, heap[0].arrayIndex)
    ensures multiset(heap'[..n']) == Fronts(arrays, next, |arrays|)
  {
    var x := heap[0];
    FrontsAdvance(arrays, pos, next, x.arrayIndex);
    assert heap[..n][1..] == heap[1..n];
    HeadTail(heap[..n]);
    SwapFront(multiset(heap[..n]), multiset(heap[1..n]), x, FrontOf(arrays, next, x.arrayIndex),
              Fronts(arrays, next, |arrays|), multiset(heap'[..n']));
  }

  lemma SwapFront(h: multiset<HeapNode>, rest: multiset<HeapNode>, x: HeapNode, f: multiset<HeapNode>,
                  fronts': multiset<HeapNode>, h': multiset<HeapNode>)
    requires h == rest + multiset{x} && h' == rest + f && fronts' + multiset{x} == h + f
    ensures h' == fronts'
  {
    Commute(rest, f, multiset{x});
    Cancel(h', fronts', multiset{x});
  }

  lemma MergeStepBound(arrays: seq<seq<int>>, pos: seq<nat>, next: seq<nat>, heap: seq<HeapNode>, n: nat, out: seq<int>,
                       heap': seq<HeapNode>, n': nat)
    requires MergeInv(arrays, pos, heap, n, out) && n > 0 && AllSorted(arrays)
    requires heap[0].arrayIndex < |arrays| && next == pos[heap[0].arrayIndex := pos[heap[0].arrayIndex] + 1]
    requires Positions(arrays, next) && n' <= |heap'|
    requires multiset(heap'[..n']) == multiset(heap[1..n]) + FrontOf(arrays, next, heap[0].arrayIndex)
    ensures forall y, k :: y in out + [heap[0].value] && 0 <= k < n' ==> y <= heap'[k].value
  {
    var x := heap[0];
    var a := x.arrayIndex;
    OutputStep(arrays, pos, heap, n, out);
    forall y, k | y in out + [x.value] && 0 <= k < n' ensures y <= heap'[k].value {
      assert heap'[..n'][k] == heap'[k];
      assert heap'[k] in multiset(heap'[..n']);
      if heap'[k] in multiset(heap[1..n]) {
        assert heap'[k] in heap[1..n];
      } else {
        assert heap'[k].value == arrays[a][pos[a] + 1];
        assert y <= x.value;
      }
    }
  }

  lemma {:induction false} TotalLength(arrays: seq<seq<int>>, pos: seq<nat>, k: nat)
    requires Positions(arrays, pos) && k <= |arrays|
    ensures |Taken(arrays, pos, k)| <= |Concat(arrays[..k])|
  {
    if k > 0 {
      TotalLength(arrays, pos, k - 1);
      assert arrays[..k] == arrays[..k - 1] + [arrays[k - 1]];
      ConcatSnoc(arrays[..k - 1], arrays[k - 1]);
    }
  }

  lemma OutputRoom(arrays: seq<seq<int>>, pos: seq<nat>, out: seq<int>)
    requires Positions(arrays, pos) && multiset(out) == Taken(arrays, pos, |arrays|)
    ensures |out| <= |Concat(arrays)|
  {
    assert arrays == arrays[..|arrays|];
    TotalLength(arrays, pos, |arrays|);
    assert |multiset(out)| == |out|;
  }

  /** Every input at its first element. */
  ghost function Starts(arrays: seq<seq<int>>): (pos: seq<nat>)
    ensures Positions(arrays, pos) && forall i :: 0 <= i < |pos| ==> pos[i] == 0
  {
    seq(|arrays|, _ => 0)
  }

  /** The nodes stand for the first elements of the inputs among the first `i`. */
  ghost predicate AreFirst(nodes: seq<HeapNode>, arrays: seq<seq<int>>, i: nat)
    requires i <= |arrays|
  {
    multiset(nodes) == Fronts(arrays, Starts(arrays), i)
  }

  lemma FirstGrows(arrays: seq<seq<int>>, i: nat, nodes: seq<HeapNode>)
    requires i < |arrays| && AreFirst(nodes, arrays, i)
    ensures arrays[i] == [] ==> AreFirst(nodes, arrays, i + 1)
    ensures arrays[i] != [] ==> AreFirst(nodes + [HeapNode(arrays[i][0], i, 0)], arrays, i + 1)
  {
    if arrays[i] != [] {
      var x := HeapNode(arrays[i][0], i, 0);
      assert multiset(nodes + [x]) == multiset(nodes) + multiset{x};
    }
  }

  method PutNode(minHeap: array<HeapNode>, heapSize: nat, node: HeapNode, ghost nodes: seq<HeapNode>)
    requires heapSize < minHeap.Length && minHeap[..heapSize] == nodes
    modifies minHeap
    ensures minHeap[..heapSize + 1] == nodes + [node]
  {
    minHeap[heapSize] := node;
  }

  /** The initial heap, before it is built: one node for each non-empty input. */
  method InitHeap(arrays: seq<seq<int>>) returns (minHeap: array<HeapNode>, heapSize: nat)
    ensures fresh(minHeap) && minHeap.Length == |arrays| && heapSize <= |arrays|
    ensures multiset(minHeap[..heapSize]) == Fronts(arrays, Starts(arrays), |arrays|)
  {
    minHeap := new HeapNode[|arrays|](_ => HeapNode(0, 0, 0));
    heapSize := 0;
    ghost var nodes: seq<HeapNode> := [];
    for i := 0 to |arrays|
      invariant heapSize <= i && minHeap[..heapSize] == nodes
      invariant AreFirst(nodes, arrays, i)
    {
      FirstGrows(arrays, i, nodes);
      if |arrays[i]| > 0 {
        PutNode(minHeap, heapSize, HeapNode(arrays[i][0], i, 0), nodes);
        nodes := nodes + [HeapNode(arrays[i][0], i, 0)];
        heapSize := heapSize + 1;
      }
    }
  }

  /** Puts the next element of the input that was just output, or else the last node, on top of the
      heap and restores the heap order. */
  method AdvanceHeap(arrays: seq<seq<int>>, minHeap: array<HeapNode>, n: nat, ghost next: seq<nat>,
                     ghost h: seq<HeapNode>)
    returns (heapSize: nat)
    requires minHeap[..] == h && 0 < n <= |h| && HeapAt(h, n, 0)
    requires h[0].arrayIndex < |arrays| && Positions(arrays, next)
    requires next[h[0].arrayIndex] == h[0].elementIndex + 1
    modifies minHeap
    ensures heapSize <= n && HeapAt(minHeap[..], heapSize, 0)
    ensures multiset(minHeap[..][..heapSize]) == multiset(h[1..n]) + FrontOf(arrays, next, h[0].arrayIndex)
  {
    heapSize := n;
    var minNode := minHeap[0];
    if minNode.elementIndex + 1 < |arrays[minNode.arrayIndex]| {
      minNode := minNode.(elementIndex := minNode.elementIndex + 1);
      minNode := minNode.(value := arrays[minNode.arrayIndex][minNode.elementIndex]);
      minHeap[0] := minNode;
      assert minHeap[..] == h[0 := minNode];
      ReplaceRoot(h, n, minNode);
    } else {
      heapSize := heapSize - 1;
      minHeap[0] := minHeap[heapSize];
      assert minHeap[..] == h[0 := h[n - 1]];
      RemoveRoot(h, n);
    }
    HeapifyDown(minHeap, heapSize, 0);
  }

  /** The heap at the start of the merge loop. */
  method StartHeap(arrays: seq<seq<int>>) returns (minHeap: array<HeapNode>, heapSize: nat)
    ensures fresh(minHeap) && heapSize <= minHeap.Length
    ensures MergeInv(arrays, Starts(arrays), minHeap[..], heapSize, [])
  {
    minHeap, heapSize := InitHeap(arrays);
    ghost var built := minHeap[..];
    BuildHeap(minHeap, heapSize);
    PrefixPermuted(built, minHeap[..], heapSize);
    TakenNothing(arrays, Starts(arrays), |arrays|);
  }

  /** One round of the merge loop: the least front is output and its input advanced. */
  method MergeRound(arrays: seq<seq<int>>, minHeap: array<HeapNode>, n: nat, result: array<int>, resultIndex: nat,
                    ghost pos: seq<nat>) returns (heapSize: nat, ghost next: seq<nat>)
    requires AllSorted(arrays) && |Concat(arrays)| <= result.Length
    requires 0 < n <= minHeap.Length && resultIndex <= result.Length
    requires MergeInv(arrays, pos, minHeap[..], n, result[..resultIndex])
    modifies minHeap, result
    ensures heapSize <= minHeap.Length && resultIndex < |Concat(arrays)|
    ensures MergeInv(arrays, next, minHeap[..], heapSize, result[..resultIndex + 1])
    ensures result[resultIndex + 1..] == old(result[resultIndex + 1..])
  {
    ghost var h, out := minHeap[..], result[..resultIndex];
    var minNode := minHeap[0];
    next := RoundStarts(arrays, pos, h, n, out);
    Append(result, resultIndex, minNode.value);
    heapSize := AdvanceHeap(arrays, minHeap, n, next, h);
    MergeStep(arrays, pos, next, h, n, out, minHeap[..], heapSize);
  }

  /** What a round finds: the input its root comes from can be advanced, and there is room for the root. */
  lemma RoundStarts(arrays: seq<seq<int>>, pos: seq<nat>, h: seq<HeapNode>, n: nat, out: seq<int>)
    returns (next: seq<nat>)
    requires MergeInv(arrays, pos, h, n, out) && n > 0
    ensures h[0].arrayIndex < |arrays| && next == pos[h[0].arrayIndex := pos[h[0].arrayIndex] + 1]
    ensures Positions(arrays, next) && next[h[0].arrayIndex] == h[0].elementIndex + 1
    ensures |out| < |Concat(arrays)|
  {
    OutputStep(arrays, pos, h, n, out);
    next := pos[h[0].arrayIndex := pos[h[0].arrayIndex] + 1];
    OutputRoom(arrays, next, out + [h[0].value]);
  }

  method Append(result: array<int>, resultIndex: nat, value: int)
    requires resultIndex < result.Length
    modifies result
    ensures result[..resultIndex + 1] == old(result[..resultIndex]) + [value]
    ensures result[resultIndex + 1..] == old(result[resultIndex + 1..])
  {
    result[resultIndex] := value;
  }

  /** The merge of the heap-based merger. The result goes to a preallocated array, as in the source;
      the caller makes it large enough. */
  method KWayMerge(arrays: seq<seq<int>>, result: array<int>) returns (resultIndex: nat)
    requires AllSorted(arrays)
    requires |Concat(arrays)| <= result.Length
    modifies result
    ensures resultIndex == |Concat(arrays)|
    ensures IsMergeOf(result[..resultIndex], arrays)
    ensures result[resultIndex..] == old(result[..])[resultIndex..]
  {
    var minHeap, heapSize := StartHeap(arrays);
    ghost var pos: seq<nat> := Starts(arrays);
    resultIndex := 0;
    while heapSize > 0
      invariant 0 <= heapSize <= minHeap.Length && resultIndex <= result.Length
      invariant fresh(minHeap)
      invariant MergeInv(arrays, pos, minHeap[..], heapSize, result[..resultIndex])
      invariant result[resultIndex..] == old(result[..])[resultIndex..]
      decreases |Concat(arrays)| - resultIndex
    {
      ghost var rest := result[resultIndex..];
      heapSize, pos := MergeRound(arrays, minHeap, heapSize, result, resultIndex, pos);
      resultIndex := resultIndex + 1;
      assert result[resultIndex..] == rest[1..];
    }
    MergeDone(arrays, pos, result[..resultIndex]);
  }

  /** When no front is left, everything has been output. */
  lemma MergeDone(arrays: seq<seq<int>>, pos: seq<nat>, out: seq<int>)
    requires Positions(arrays, pos) && multiset(out) == Taken(arrays, pos, |arrays|)
    requires Fronts(arrays, pos, |arrays|) == multiset{}
    ensures multiset(out) == multiset(Concat(arrays)) && |out| == |Concat(arrays)|
  {
    forall i | 0 <= i < |arrays| ensures pos[i] == |arrays[i]| {
      if pos[i] < |arrays[i]| { FrontsMember(arrays, pos, |arrays|, HeapNode(arrays[i][pos[i]], i, pos[i])); }
    }
    assert arrays[..|arrays|] == arrays;
    forall x ensures multiset(out)[x] == multiset(Concat(arrays))[x] {
      TakenCount(arrays, pos, |arrays|, x);
    }
    assert |multiset(out)| == |out| && |multiset(Concat(arrays))| == |Concat(arrays)|;
  }
}
