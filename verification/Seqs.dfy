/** Sorted sequences, concatenation and the multiset facts the sort workflow rests on. */
module Seqs {

  datatype Option<+T> = None | Some(value: T)

  predicate Sorted(s: seq<int>) {
    forall i, j :: 0 <= i < j < |s| ==> s[i] <= s[j]
  }

  predicate AllSorted(ss: seq<seq<int>>) {
    forall i :: 0 <= i < |ss| ==> Sorted(ss[i])
  }

  function Concat<T>(ss: seq<seq<T>>): seq<T> {
    if ss == [] then [] else ss[0] + Concat(ss[1..])
  }

  /** The elements of the first `k` arrays, each cut at its position in `pos`. */
  ghost function Taken(arrays: seq<seq<int>>, pos: seq<nat>, k: nat): multiset<int>
    requires |pos| == |arrays| && k <= |arrays|
    requires forall i :: 0 <= i < |arrays| ==> pos[i] <= |arrays[i]|
  {
    if k == 0 then multiset{} else Taken(arrays, pos, k - 1) + multiset(arrays[k - 1][..pos[k - 1]])
  }

  lemma {:induction false} TakenNothing(arrays: seq<seq<int>>, pos: seq<nat>, k: nat)
    requires |pos| == |arrays| && k <= |arrays|
    requires forall i :: 0 <= i < |arrays| ==> pos[i] == 0
    ensures Taken(arrays, pos, k) == multiset{}
  {
    if k > 0 { TakenNothing(arrays, pos, k - 1); }
  }

  lemma PrefixSnoc<T>(s: seq<T>, n: nat)
    requires n < |s|
    ensures multiset(s[..n + 1]) == multiset(s[..n]) + multiset{s[n]}
  {
    assert s[..n + 1] == s[..n] + [s[n]];
  }

  lemma {:induction false} TakenFrame(arrays: seq<seq<int>>, pos: seq<nat>, next: seq<nat>, k: nat)
    requires |pos| == |next| == |arrays| && k <= |arrays|
    requires forall i :: 0 <= i < |arrays| ==> pos[i] <= |arrays[i]| && next[i] <= |arrays[i]|
    requires forall i :: 0 <= i < k ==> pos[i] == next[i]
    ensures Taken(arrays, next, k) == Taken(arrays, pos, k)
  {
    if k > 0 { TakenFrame(arrays, pos, next, k - 1); }
  }

  /** Moving one position forward takes exactly the element that stood there. */
  lemma {:induction false} TakenAdvance(arrays: seq<seq<int>>, pos: seq<nat>, a: nat, k: nat)
    requires |pos| == |arrays| && k <= |arrays| && a < |arrays|
    requires forall i :: 0 <= i < |arrays| ==> pos[i] <= |arrays[i]|
    requires pos[a] < |arrays[a]|
    ensures Taken(arrays, pos[a := pos[a] + 1], k)
         == if a < k then Taken(arrays, pos, k) + multiset{arrays[a][pos[a]]} else Taken(arrays, pos, k)
  {
    if k <= a + 1 {
      TakenFrame(arrays, pos, pos[a := pos[a] + 1], if k <= a then k else a);
      PrefixSnoc(arrays[a], pos[a]);
    } else {
      TakenAdvance(arrays, pos, a, k - 1);
      var last := multiset(arrays[k - 1][..pos[k - 1]]);
      Commute(Taken(arrays, pos, k - 1), multiset{arrays[a][pos[a]]}, last);
    }
  }

  lemma {:induction false} ConcatSnoc<T>(ss: seq<seq<T>>, s: seq<T>)
    ensures Concat(ss + [s]) == Concat(ss) + s
  {
    if ss == [] {
      assert ss + [s] == [s] && [s][1..] == [];
    } else {
      ConcatSnoc(ss[1..], s);
      assert (ss + [s])[1..] == ss[1..] + [s];
      assert (ss + [s])[0] == ss[0];
    }
  }

  /** What has been taken of each value, against what the arrays hold of it: a value is complete
      as soon as no array has it beyond its position. */
  lemma {:induction false} TakenCount(arrays: seq<seq<int>>, pos: seq<nat>, k: nat, x: int)
    requires |pos| == |arrays| && k <= |arrays|
    requires forall i :: 0 <= i < |arrays| ==> pos[i] <= |arrays[i]|
    requires forall i :: 0 <= i < |arrays| ==> x !in arrays[i][pos[i]..]
    ensures Taken(arrays, pos, k)[x] == multiset(Concat(arrays[..k]))[x]
  {
    if k > 0 {
      TakenCount(arrays, pos, k - 1, x);
      assert arrays[..k] == arrays[..k - 1] + [arrays[k - 1]];
      ConcatSnoc(arrays[..k - 1], arrays[k - 1]);
      var s, p := arrays[k - 1], pos[k - 1];
      assert s == s[..p] + s[p..];
      assert multiset(s)[x] == multiset(s[..p])[x] + multiset(s[p..])[x];
    }
  }

  lemma HeadTail<T>(s: seq<T>)
    requires s != []
    ensures multiset(s) == multiset(s[1..]) + multiset{s[0]}
  {
    assert s == [s[0]] + s[1..];
  }

  lemma SameElements<T>(s: seq<T>, t: seq<T>, x: T)
    requires multiset(s) == multiset(t)
    ensures x in s <==> x in t
  {
    assert x in s <==> x in multiset(s);
    assert x in t <==> x in multiset(t);
  }

  lemma SameLeast(s: seq<int>, t: seq<int>)
    requires Sorted(s) && Sorted(t) && multiset(s) == multiset(t) && s != [] && t != []
    ensures s[0] == t[0]
  {
    assert s[0] in multiset(t) && t[0] in multiset(s);
    assert s[0] in t && t[0] in s;
  }

  /** A sorted sequence is determined by its multiset. */
  lemma {:induction false} SortedUnique(s: seq<int>, t: seq<int>)
    requires Sorted(s) && Sorted(t) && multiset(s) == multiset(t)
    ensures s == t
  {
    assert |multiset(s)| == |s| && |multiset(t)| == |t|;
    if s != [] {
      SameLeast(s, t);
      HeadTail(s);
      HeadTail(t);
      Cancel(multiset(s[1..]), multiset(t[1..]), multiset{s[0]});
      SortedUnique(s[1..], t[1..]);
      assert s == [s[0]] + s[1..] && t == [t[0]] + t[1..];
    }
  }

  lemma SortedAppend(s: seq<int>, t: seq<int>)
    requires Sorted(s) && Sorted(t)
    requires forall x, y :: x in s && y in t ==> x <= y
    ensures Sorted(s + t)
  {
    var u := s + t;
    forall i, j | 0 <= i < j < |u| ensures u[i] <= u[j] {
      if i < |s| <= j { assert s[i] in s && t[j - |s|] in t; }
    }
  }

  /** Two permutations of each other that agree from `n` on are permutations up to `n`. */
  lemma PrefixPermuted<T>(s: seq<T>, t: seq<T>, n: nat)
    requires n <= |s| == |t| && multiset(s) == multiset(t) && s[n..] == t[n..]
    ensures multiset(s[..n]) == multiset(t[..n])
  {
    assert s == s[..n] + s[n..] && t == t[..n] + t[n..];
    assert multiset(s) == multiset(s[..n]) + multiset(s[n..]);
    assert multiset(t) == multiset(t[..n]) + multiset(t[n..]);
    forall x ensures multiset(s[..n])[x] == multiset(t[..n])[x] {
      assert multiset(s)[x] == multiset(t)[x];
    }
  }

  lemma Cancel<T>(a: multiset<T>, b: multiset<T>, c: multiset<T>)
    requires a + c == b + c
    ensures a == b
  {
    forall x ensures a[x] == b[x] {
      assert (a + c)[x] == (b + c)[x];
    }
  }

  lemma Exchange<T>(a: multiset<T>, b: multiset<T>, c: multiset<T>, d: multiset<T>, e: multiset<T>)
    requires a + b == c + d
    ensures (a + e) + b == (c + e) + d
  {
    forall x ensures ((a + e) + b)[x] == ((c + e) + d)[x] {
      assert (a + b)[x] == (c + d)[x];
    }
  }

  lemma Commute<T>(a: multiset<T>, b: multiset<T>, c: multiset<T>)
    ensures (a + b) + c == (a + c) + b
  {
  }
}
