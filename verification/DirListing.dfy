/** The entries `fd_readdir` pages through: what the file system lists, "." and "..", sorted by name with
    the library's stable sort, anew on every call (wasmtime_wasi_api/src/wasi.rs). */
module DirListing {
  import opened Seqs
  import opened ByteSeqs

  datatype DirEntry = DirEntry(name: Bytes, kind: nat)

  // ----- The order of names -----

  /** Byte-wise order of names, as `str::cmp` has it. */
  predicate Before(a: Bytes, b: Bytes) {
    b != [] && (a == [] || a[0] < b[0] || (a[0] == b[0] && Before(a[1..], b[1..])))
  }

  lemma {:induction false} BeforeTransitive(a: Bytes, b: Bytes, c: Bytes)
    requires Before(a, b) && Before(b, c)
    ensures Before(a, c)
  {
    if a != [] && a[0] == b[0] == c[0] { BeforeTransitive(a[1..], b[1..], c[1..]); }
  }

  lemma {:induction false} BeforeTotal(a: Bytes, b: Bytes)
    ensures Before(a, b) || Before(b, a) || a == b
    ensures !(Before(a, b) && (Before(b, a) || a == b))
  {
    if a != [] && b != [] {
      BeforeTotal(a[1..], b[1..]);
      assert a == [a[0]] + a[1..] && b == [b[0]] + b[1..];
    }
  }

  // ----- Stable sorting -----

  ghost predicate NamesSorted(es: seq<DirEntry>) {
    forall i, j :: 0 <= i < j < |es| ==> !Before(es[j].name, es[i].name)
  }

  /** The entries of one name, in their order. */
  function WithName(es: seq<DirEntry>, name: Bytes): seq<DirEntry> {
    if es == [] then [] else Own(es[0], name) + WithName(es[1..], name)
  }

  function Own(e: DirEntry, name: Bytes): seq<DirEntry> {
    if e.name == name then [e] else []
  }

  lemma OwnCommute(a: DirEntry, b: DirEntry, name: Bytes, rest: seq<DirEntry>)
    requires a.name != b.name
    ensures Own(a, name) + (Own(b, name) + rest) == Own(b, name) + (Own(a, name) + rest)
  {
    assert [] + rest == rest;
  }

  lemma SameRest<T>(a: seq<T>, b: seq<T>, c: seq<T>)
    requires a + b == a + c
    ensures b == c
  {
    assert (a + b)[|a|..] == b && (a + c)[|a|..] == c;
  }

  /** What a stable sort by name gives: the names in order, and entries of one name as they were. */
  ghost predicate IsStableSort(es: seq<DirEntry>, sorted: seq<DirEntry>) {
    NamesSorted(sorted) && forall name :: WithName(sorted, name) == WithName(es, name)
  }

  function Insert(e: DirEntry, es: seq<DirEntry>): seq<DirEntry> {
    if es == [] || !Before(es[0].name, e.name) then [e] + es else [es[0]] + Insert(e, es[1..])
  }

  function StableSort(es: seq<DirEntry>): seq<DirEntry> {
    if es == [] then [] else Insert(es[0], StableSort(es[1..]))
  }

  lemma {:induction false} InsertMember(e: DirEntry, es: seq<DirEntry>, x: DirEntry)
    requires x in Insert(e, es)
    ensures x == e || x in es
  {
    if es != [] && Before(es[0].name, e.name) && x != es[0] { InsertMember(e, es[1..], x); }
  }

  lemma {:induction false} InsertSorts(e: DirEntry, es: seq<DirEntry>)
    requires NamesSorted(es)
    ensures NamesSorted(Insert(e, es))
  {
    if es == [] {
    } else if Before(es[0].name, e.name) {
      var rest := Insert(e, es[1..]);
      InsertSorts(e, es[1..]);
      forall x | x in rest ensures !Before(x.name, es[0].name) {
        InsertMember(e, es[1..], x);
        BeforeTotal(es[0].name, e.name);
      }
      SortedCons(es[0], rest);
    } else {
      forall x | x in es ensures !Before(x.name, e.name) {
        if Before(x.name, e.name) { NotBelowFirst(es, x, e); }
      }
      SortedCons(e, es);
    }
  }

  lemma SortedCons(e: DirEntry, es: seq<DirEntry>)
    requires NamesSorted(es) && forall x :: x in es ==> !Before(x.name, e.name)
    ensures NamesSorted([e] + es)
  {
  }

  lemma NotBelowFirst(es: seq<DirEntry>, x: DirEntry, e: DirEntry)
    requires NamesSorted(es) && x in es && Before(x.name, e.name)
    ensures Before(es[0].name, e.name)
  {
    BeforeTotal(es[0].name, x.name);
    if Before(es[0].name, x.name) { BeforeTransitive(es[0].name, x.name, e.name); }
  }

  lemma {:induction false} InsertKeeps(e: DirEntry, es: seq<DirEntry>, name: Bytes)
    ensures WithName(Insert(e, es), name) == Own(e, name) + WithName(es, name)
  {
    if es == [] || !Before(es[0].name, e.name) {
      assert ([e] + es)[1..] == es;
    } else {
      InsertKeeps(e, es[1..], name);
      BeforeTotal(es[0].name, e.name);
      assert ([es[0]] + Insert(e, es[1..]))[1..] == Insert(e, es[1..]);
      OwnCommute(es[0], e, name, WithName(es[1..], name));
    }
  }

  lemma {:induction false} StableSortSorts(es: seq<DirEntry>)
    ensures IsStableSort(es, StableSort(es))
  {
    if es != [] {
      StableSortSorts(es[1..]);
      InsertSorts(es[0], StableSort(es[1..]));
      forall name ensures WithName(StableSort(es), name) == WithName(es, name) {
        InsertKeeps(es[0], StableSort(es[1..]), name);
      }
    }
  }

  // ----- There is only one -----

  lemma {:induction false} WithNameHas(es: seq<DirEntry>, x: DirEntry)
    requires x in es
    ensures WithName(es, x.name) != []
  {
    if es[0] != x { WithNameHas(es[1..], x); }
  }

  lemma {:induction false} WithNameFirst(es: seq<DirEntry>, name: Bytes)
    requires WithName(es, name) != []
    ensures exists x :: x in es && x.name == name
  {
    if es[0].name == name { assert es[0] in es; } else { WithNameFirst(es[1..], name); }
  }

  /** Two sorted sequences that agree on the entries of every name start alike. */
  lemma SameFirst(s: seq<DirEntry>, t: seq<DirEntry>)
    requires NamesSorted(s) && NamesSorted(t) && forall name :: WithName(s, name) == WithName(t, name)
    requires s != []
    ensures t != [] && s[0] == t[0]
  {
    WithNameHas(s, s[0]);
    assert t != [];
    WithNameHas(t, t[0]);
    WithNameFirst(t, s[0].name);
    WithNameFirst(s, t[0].name);
    BeforeTotal(s[0].name, t[0].name);
    assert s[0].name == t[0].name;
    assert WithName(s, s[0].name)[0] == s[0] && WithName(t, s[0].name)[0] == t[0];
  }

  lemma {:induction false} StableSortUnique(s: seq<DirEntry>, t: seq<DirEntry>)
    requires NamesSorted(s) && NamesSorted(t) && forall name :: WithName(s, name) == WithName(t, name)
    ensures s == t
  {
    if s == [] {
      if t != [] { WithNameHas(t, t[0]); }
    } else {
      SameFirst(s, t);
      forall name ensures WithName(s[1..], name) == WithName(t[1..], name) {
        assert WithName(s, name) == WithName(t, name);
        SameRest(Own(s[0], name), WithName(s[1..], name), WithName(t[1..], name));
      }
      StableSortUnique(s[1..], t[1..]);
      assert s == [s[0]] + s[1..] && t == [t[0]] + t[1..];
    }
  }

  // ----- What a call pages through -----

  const Dot: DirEntry := DirEntry([46], 4)
  const DotDot: DirEntry := DirEntry([46, 46], 4)

  /** The entries of one call, from what the file system lists. */
  function Listed(listing: seq<DirEntry>): seq<DirEntry> {
    StableSort(listing + [Dot, DotDot])
  }

  /** Entries of one name are the same entry, as in every directory, where names are distinct. */
  ghost predicate NamesTell(es: seq<DirEntry>) {
    forall x, y :: x in es && y in es && x.name == y.name ==> x == y
  }

  lemma {:induction false} WithNameAppend(s: seq<DirEntry>, t: seq<DirEntry>, name: Bytes)
    ensures WithName(s + t, name) == WithName(s, name) + WithName(t, name)
  {
    if s == [] {
      assert s + t == t;
    } else {
      var head := Own(s[0], name);
      assert (s + t)[1..] == s[1..] + t && (s + t)[0] == s[0];
      WithNameAppend(s[1..], t, name);
      assert head + (WithName(s[1..], name) + WithName(t, name)) == (head + WithName(s[1..], name)) + WithName(t, name);
    }
  }

  lemma {:induction false} WithNameSame(es: seq<DirEntry>, x: DirEntry)
    requires forall y :: y in es && y.name == x.name ==> y == x
    ensures |WithName(es, x.name)| == multiset(es)[x]
    ensures forall i :: 0 <= i < |WithName(es, x.name)| ==> WithName(es, x.name)[i] == x
  {
    if es != [] {
      WithNameSame(es[1..], x);
      HeadTail(es);
      assert es[0] in es;
    }
  }

  lemma {:induction false} WithNameNone(es: seq<DirEntry>, name: Bytes)
    requires forall y :: y in es ==> y.name != name
    ensures WithName(es, name) == []
  {
    if es != [] {
      assert es[0] in es;
      WithNameNone(es[1..], name);
    }
  }

  lemma WithNamePermuted(s: seq<DirEntry>, t: seq<DirEntry>, name: Bytes)
    requires multiset(s) == multiset(t) && NamesTell(s)
    ensures WithName(s, name) == WithName(t, name)
  {
    forall y | y in t ensures y in s {
      assert y in multiset(t);
    }
    if x :| x in s && x.name == name {
      WithNameSame(s, x);
      WithNameSame(t, x);
    } else {
      WithNameNone(s, name);
      WithNameNone(t, name);
    }
  }

  /** Whatever order the file system lists a directory in, a call pages through the same entries, also
      where the listing already has "." and ".." and the added ones come second. */
  lemma SameEntriesEachCall(s: seq<DirEntry>, t: seq<DirEntry>)
    requires multiset(s) == multiset(t) && NamesTell(s)
    ensures Listed(s) == Listed(t)
  {
    var dots := [Dot, DotDot];
    StableSortSorts(s + dots);
    StableSortSorts(t + dots);
    forall name ensures WithName(Listed(s), name) == WithName(Listed(t), name) {
      WithNameAppend(s, dots, name);
      WithNameAppend(t, dots, name);
      WithNamePermuted(s, t, name);
    }
    StableSortUnique(Listed(s), Listed(t));
  }

  lemma {:induction false} InsertLength(e: DirEntry, es: seq<DirEntry>)
    ensures multiset(Insert(e, es)) == multiset(es) + multiset{e}
  {
    if es == [] || !Before(es[0].name, e.name) {
    } else {
      InsertLength(e, es[1..]);
      HeadTail(es);
      Commute(multiset(es[1..]), multiset{e}, multiset{es[0]});
    }
  }

  /** Nothing is lost or added by sorting. */
  lemma {:induction false} StableSortPermutes(es: seq<DirEntry>)
    ensures multiset(StableSort(es)) == multiset(es) && |StableSort(es)| == |es|
  {
    if es != [] {
      StableSortPermutes(es[1..]);
      InsertLength(es[0], StableSort(es[1..]));
      HeadTail(es);
    }
    assert |multiset(StableSort(es))| == |StableSort(es)| && |multiset(es)| == |es|;
  }
}
