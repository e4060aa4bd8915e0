/** Word count as a second client of the group scheduler and the slots: in every interleaving each word
    is counted once, at one reducer. `checked` tells whether the build checks 32-bit additions for
    overflow, and panics, or lets them wrap around. */
module WordCountWorkflow {
  import opened Seqs
  import opened ByteSeqs
  import opened Workflow
  import opened SlotNames
  import opened WordCount
  import R = RefTransport
  import M = RefMeaning

  // ----- The functions -----

  ghost function Shuffled(i: nat, counter: Counter, n: nat): seq<(Slot, SlotValue)>
    requires n > 0
  {
    seq(n, j requires 0 <= j < n => (ShuffleSlot(i, j), Counts(Shard(counter, ByHash(n), j))))
  }

  ghost function Mapper(i: nat, words: seq<string>, n: nat, checked: bool): App
    requires n > 0
  {
    App([], _ => match Counted(words, checked)
                 case Some(counter) => Some(Shuffled(i, counter, n))
                 case None => None)
  }

  ghost predicate AllCounts(vals: seq<SlotValue>) {
    forall k :: 0 <= k < |vals| ==> vals[k].Counts?
  }

  ghost function Shuffles(vals: seq<SlotValue>): (r: seq<Counter>)
    requires AllCounts(vals)
    ensures |r| == |vals| && forall k :: 0 <= k < |r| ==> r[k] == vals[k].shuffle
  {
    seq(|vals|, k requires 0 <= k < |vals| => vals[k].shuffle)
  }

  /** The counter a reducer ends with, if it does not fail. */
  ghost function ReducerCounter(vals: seq<SlotValue>, checked: bool): Option<Counter> {
    if AllCounts(vals) then Reduced(Shuffles(vals), checked) else None
  }

  /** A reducer publishes nothing; it keeps its counter to itself. */
  ghost function Reducer(j: nat, mapperNum: nat, checked: bool): App {
    App(seq(mapperNum, i requires 0 <= i < mapperNum => ShuffleSlot(i, j)),
        (vals: seq<SlotValue>) => if ReducerCounter(vals, checked).Some? then Some([]) else None)
  }

  ghost function Mappers(texts: seq<seq<string>>, n: nat, checked: bool): Group
    requires n > 0
  {
    seq(|texts|, i requires 0 <= i < |texts| => Mapper(i, texts[i], n, checked))
  }

  ghost function Reducers(mapperNum: nat, n: nat, checked: bool): Group {
    seq(n, j requires 0 <= j < n => Reducer(j, mapperNum, checked))
  }

  ghost function Groups(texts: seq<seq<string>>, n: nat, checked: bool): (groups: seq<Group>)
    requires n > 0
    ensures |groups| == 2
  {
    [Mappers(texts, n, checked), Reducers(|texts|, n, checked)]
  }

  // ----- Slot discipline -----

  lemma MapperPublishes(store: Store, i: nat, words: seq<string>, n: nat, checked: bool, k: int, s: Slot)
    requires n > 0 && Publishes(store, Mapper(i, words, n, checked), k, s)
    ensures 0 <= k < n && s == ShuffleSlot(i, k)
  {
  }

  lemma ReducerPublishes(store: Store, j: nat, m: nat, checked: bool, k: int, s: Slot)
    ensures !Publishes(store, Reducer(j, m, checked), k, s)
  {
  }

  lemma MappersDistinct(store: Store, texts: seq<seq<string>>, n: nat, checked: bool)
    requires n > 0
    ensures TakesDistinct(Mappers(texts, n, checked)) && OutputsDistinct(store, Mappers(texts, n, checked))
  {
    var group := Mappers(texts, n, checked);
    forall i, k, j, l, s | && 0 <= i < |group| && 0 <= j < |group|
                           && Publishes(store, group[i], k, s) && Publishes(store, group[j], l, s)
      ensures i == j && k == l
    {
      MapperPublishes(store, i, texts[i], n, checked, k, s);
      MapperPublishes(store, j, texts[j], n, checked, l, s);
      ShuffleSlotInjective(i, k, j, l);
    }
  }

  lemma ReducersDistinct(store: Store, m: nat, n: nat, checked: bool)
    ensures TakesDistinct(Reducers(m, n, checked)) && OutputsDistinct(store, Reducers(m, n, checked))
  {
    var group := Reducers(m, n, checked);
    forall i, k, j, l | && 0 <= i < |group| && 0 <= k < |group[i].takes|
                        && 0 <= j < |group| && 0 <= l < |group[j].takes| && group[i].takes[k] == group[j].takes[l]
      ensures i == j && k == l
    {
      ShuffleSlotInjective(k, i, l, j);
    }
    forall i, k, s | 0 <= i < |group| ensures !Publishes(store, group[i], k, s) {
      ReducerPublishes(store, i, m, checked, k, s);
    }
  }

  lemma WordCountIsWellFormed(texts: seq<seq<string>>, n: nat, checked: bool)
    requires n > 0
    ensures WellFormed(Groups(texts, n, checked)) && ReadsOnce(Groups(texts, n, checked))
  {
    var groups: seq<Group> := Groups(texts, n, checked);
    var stage: Slot -> nat := _ => 1;
    forall g, i, store, k, s | 0 <= g < |groups| && 0 <= i < |groups[g]| && Publishes(store, groups[g][i], k, s)
      ensures stage(s) == g + 1
    {
      if g == 1 { ReducerPublishes(store, i, |texts|, checked, k, s); }
    }
    assert Staged(groups, stage);
    forall g | 0 <= g < |groups| ensures TakesDistinct(groups[g]) && OutputsDistinct(StoreAt(groups, g), groups[g]) {
      MappersDistinct(StoreAt(groups, g), texts, n, checked);
      ReducersDistinct(StoreAt(groups, g), |texts|, n, checked);
    }
    StagedIsWellFormed(groups, stage);
  }

  // ----- The workflow as a sequence of single steps -----

  ghost predicate ShufflesShown(store: Store, texts: seq<seq<string>>, n: nat)
    requires n > 0
  {
    forall i, j :: 0 <= i < |texts| && 0 <= j < n ==>
      ShuffleSlot(i, j) in store && store[ShuffleSlot(i, j)] == Counts(Shard(CountOf(texts[i]), ByHash(n), j))
  }

  /** The mappers succeed exactly when the build does not check, or no mapper has more words than 32 bits
      count. */
  lemma MappersSucceedIff(texts: seq<seq<string>>, n: nat, checked: bool)
    requires n > 0
    ensures Succeeds(map[], Mappers(texts, n, checked)) <==> !checked || TextsFit(texts)
  {
    var group := Mappers(texts, n, checked);
    forall i | 0 <= i < |texts|
      ensures Outputs(map[], group[i]).Some? <==> !checked || |texts[i]| < U32_BOUND
    {
      assert Outputs(map[], group[i]) == group[i].compute([]);
    }
  }

  lemma AfterMappers(texts: seq<seq<string>>, n: nat, checked: bool)
    requires n > 0 && Succeeds(map[], Mappers(texts, n, checked))
    ensures ShufflesShown(After(map[], Mappers(texts, n, checked)), texts, n)
  {
    var group := Mappers(texts, n, checked);
    MappersDistinct(map[], texts, n, checked);
    forall i, j | 0 <= i < |texts| && 0 <= j < n
      ensures ShuffleSlot(i, j) in After(map[], group)
      ensures After(map[], group)[ShuffleSlot(i, j)] == Counts(Shard(CountOf(texts[i]), ByHash(n), j))
    {
      assert Outputs(map[], group[i]) == Some(Shuffled(i, CountOf(texts[i]), n));
      assert Publishes(map[], group[i], j, ShuffleSlot(i, j));
      AfterHas(map[], group, ShuffleSlot(i, j));
    }
  }

  lemma ReducerReads(store: Store, texts: seq<seq<string>>, n: nat, checked: bool, j: nat)
    requires n > 0 && j < n && ShufflesShown(store, texts, n)
    ensures var app := Reducer(j, |texts|, checked);
            && Available(store, app)
            && ReducerCounter(Inputs(store, app), checked) == Reduced(Column(texts, ByHash(n), j), checked)
            && (Outputs(store, app).Some? <==> Reduced(Column(texts, ByHash(n), j), checked).Some?)
  {
    var app := Reducer(j, |texts|, checked);
    forall k | 0 <= k < |app.takes|
      ensures app.takes[k] in store && store[app.takes[k]] == Counts(Shard(CountOf(texts[k]), ByHash(n), j))
    {
      assert app.takes[k] == ShuffleSlot(k, j);
    }
    assert Available(store, app);
    assert AllCounts(Inputs(store, app));
    assert Shuffles(Inputs(store, app)) == Column(texts, ByHash(n), j);
  }

  /** The workflow succeeds exactly when the build does not check for overflow, or all counts fit. */
  lemma WordCountMeaning(texts: seq<seq<string>>, n: nat, checked: bool)
    requires n > 0
    ensures SucceedsUpTo(Groups(texts, n, checked), 2) <==> !checked || CountsFit(texts)
    ensures SucceedsUpTo(Groups(texts, n, checked), 1) ==>
              ShufflesShown(StoreAt(Groups(texts, n, checked), 1), texts, n)
  {
    var groups: seq<Group> := Groups(texts, n, checked);
    assert StoreAt(groups, 0) == map[] && StoreAt(groups, 1) == After(map[], groups[0]);
    MappersSucceedIff(texts, n, checked);
    if Succeeds(map[], groups[0]) {
      AfterMappers(texts, n, checked);
      ReducersSucceedIff(StoreAt(groups, 1), texts, n, checked);
    }
    assert SucceedsUpTo(groups, 2) <==>
      Succeeds(StoreAt(groups, 0), groups[0]) && Succeeds(StoreAt(groups, 1), groups[1]);
  }

  lemma ReducersSucceedIff(store: Store, texts: seq<seq<string>>, n: nat, checked: bool)
    requires n > 0 && ShufflesShown(store, texts, n) && (checked ==> TextsFit(texts))
    ensures Succeeds(store, Reducers(|texts|, n, checked)) <==> !checked || CountsFit(texts)
  {
    var group := Reducers(|texts|, n, checked);
    forall j | 0 <= j < n
      ensures Outputs(store, group[j]).Some? <==> !checked || SumsFit(Column(texts, ByHash(n), j))
    {
      ReducerReads(store, texts, n, checked, j);
    }
    if checked {
      forall w ensures ByHash(n)(w) < n { ByHashInRange(n, w); }
      SumsFitIff(texts, ByHash(n), n);
    }
  }

  // ----- End to end, over every interleaving -----

  ghost function Texts(contents: seq<string>, alphanumeric: char -> bool): (r: seq<seq<string>>)
    ensures |r| == |contents| && forall i :: 0 <= i < |r| ==> r[i] == Words(contents[i], alphanumeric)
  {
    seq(|contents|, i requires 0 <= i < |contents| => Words(contents[i], alphanumeric))
  }

  /** Reducer `j` has read its shuffles and ends with `counter`. */
  ghost predicate EndsWith(s: R.State, checked: bool, j: nat, counter: Counter) {
    && |s.locals| == 2 && j < |s.locals[1]| && s.locals[1][j].read.Some?
    && ReducerCounter(s.locals[1][j].read.value, checked) == Some(counter)
  }

  /** Each word is counted at exactly one reducer, with its occurrences in all texts. */
  ghost predicate CountsEachWordOnce(texts: seq<seq<string>>, counters: seq<Counter>, checked: bool) {
    && (forall w :: w in Concat(texts) <==> exists j :: 0 <= j < |counters| && w in counters[j])
    && (forall w, i, j :: 0 <= i < |counters| && 0 <= j < |counters| && w in counters[i] && w in counters[j] ==> i == j)
    && (forall w, j :: 0 <= j < |counters| && w in counters[j] ==>
          counters[j][w] == if checked then Total(texts, w) else Wrap(Total(texts, w)))
  }

  ghost function Shares(texts: seq<seq<string>>, n: nat): (r: seq<Counter>)
    requires n > 0
    ensures |r| == n && forall j :: 0 <= j < n ==> r[j] == TotalOf(Column(texts, ByHash(n), j))
  {
    seq(n, j requires 0 <= j < n => TotalOf(Column(texts, ByHash(n), j)))
  }

  lemma SharesCount(texts: seq<seq<string>>, n: nat, checked: bool)
    requires n > 0 && (checked ==> CountsFit(texts))
    ensures CountsEachWordOnce(texts, Shares(texts, n), checked)
  {
    var counters := Shares(texts, n);
    forall j | 0 <= j < n ensures IsShare(texts, ByHash(n), counters[j], j) {
      WordsConserved(texts, ByHash(n), j);
    }
    forall w
      ensures w in Concat(texts) <==> exists j :: 0 <= j < n && w in counters[j]
      ensures forall i, j :: 0 <= i < n && 0 <= j < n && w in counters[i] && w in counters[j] ==> i == j
    {
      ByHashInRange(n, w);
      SharesPartition(texts, ByHash(n), n, counters, w);
    }
  }

  lemma ReducerEnds(texts: seq<seq<string>>, n: nat, checked: bool, s: R.State, j: nat)
    requires n > 0 && j < n && M.Inv(Groups(texts, n, checked), s) && s.cur == 2 && (checked ==> CountsFit(texts))
    ensures EndsWith(s, checked, j, Shares(texts, n)[j])
  {
    var groups: seq<Group> := Groups(texts, n, checked);
    WordCountMeaning(texts, n, checked);
    assert SucceedsUpTo(groups, 1);
    assert M.FinishedAsMeant(groups, s, 1, j);
    ReducerReads(StoreAt(groups, 1), texts, n, checked, j);
    if checked {
      forall w ensures ByHash(n)(w) < n { ByHashInRange(n, w); }
      SumsFitIff(texts, ByHash(n), n);
    }
  }

  /** Every complete run of the workflow on the given files succeeds exactly when the build does not check
      for overflow or all counts fit 32 bits. Then, whatever the interleaving, the reducers end with
      counters that count each word of the files once, at one of them: exactly in a build that checks,
      and otherwise in 32 bits. */
  lemma WordCountEndToEnd(contents: seq<string>, alphanumeric: char -> bool, n: nat, checked: bool,
                          steps: seq<R.Step>, s: R.State) returns (counters: seq<Counter>)
    requires n > 0
    requires var groups := Groups(Texts(contents, alphanumeric), n, checked);
             R.Reachable(groups, steps, s) && R.Terminal(groups, s)
    ensures !s.aborted <==> !checked || CountsFit(Texts(contents, alphanumeric))
    ensures !s.aborted ==>
              && |counters| == n && (forall j :: 0 <= j < n ==> EndsWith(s, checked, j, counters[j]))
              && CountsEachWordOnce(Texts(contents, alphanumeric), counters, checked)
  {
    var texts := Texts(contents, alphanumeric);
    var groups: seq<Group> := Groups(texts, n, checked);
    WordCountIsWellFormed(texts, n, checked);
    WordCountMeaning(texts, n, checked);
    M.Outcome(groups, steps, s);
    M.InvReachable(groups, steps, s);
    counters := Shares(texts, n);
    if !s.aborted {
      forall j | 0 <= j < n ensures EndsWith(s, checked, j, counters[j]) {
        ReducerEnds(texts, n, checked, s, j);
      }
      SharesCount(texts, n, checked);
    }
  }
}
