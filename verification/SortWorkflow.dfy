/** The parallel-sort workflow end to end: file readers, sorters, splitters, mergers and the checker,
    each a function of a group, exchanging numbers through slots. */
module SortWorkflow {
  import opened Seqs
  import opened Workflow
  import opened SlotNames
  import opened Splitting
  import opened SortStages
  import opened LinearMerge
  import opened SortAlgebra
  import Decimal
  import R = RefTransport
  import M = RefMeaning
  import F = FileTransport

  type Outs = Option<seq<(Slot, SlotValue)>>

  // ----- The functions -----

  ghost predicate AllNumbers(vals: seq<SlotValue>) {
    forall k :: 0 <= k < |vals| ==> vals[k].Numbers?
  }

  ghost function Arrays(vals: seq<SlotValue>): (r: seq<seq<int>>)
    requires AllNumbers(vals)
    ensures |r| == |vals| && forall k :: 0 <= k < |r| ==> r[k] == vals[k].numbers
  {
    seq(|vals|, k requires 0 <= k < |vals| => vals[k].numbers)
  }

  ghost function SorterOutputs(i: nat, sorterNum: nat, mergerNum: nat, vals: seq<SlotValue>): Outs {
    if |vals| == 1 && vals[0].Text? then
      match Decimal.Parse(vals[0].content)
      case None => None
      case Some(numbers) => SorterPublishes(i, sorterNum, mergerNum, Sort(numbers))
    else None
  }

  /** Every sorter publishes its sorted part; sorter 0 also the pivots, once for every splitter. */
  ghost function SorterPublishes(i: nat, sorterNum: nat, mergerNum: nat, sorted: seq<int>): Outs {
    var part := (SortedSlot(i), Numbers(sorted));
    if i != 0 then Some([part])
    else
      match Pivots(sorted, mergerNum)
      case None => None
      case Some(pivots) =>
        Some([part] + seq(sorterNum, k requires 0 <= k < sorterNum => (PivotSlot(k), Numbers(pivots))))
  }

  ghost function SplitterOutputs(i: nat, vals: seq<SlotValue>): Outs {
    if |vals| == 2 && AllNumbers(vals) then
      var parts := Split(vals[0].numbers, vals[1].numbers);
      Some(seq(|parts|, j requires 0 <= j < |parts| => (PartSlot(i, j), Numbers(parts[j]))))
    else None
  }

  ghost function MergerOutputs(j: nat, vals: seq<SlotValue>): Outs {
    if AllNumbers(vals) then Some([(ResultSlot(j), Numbers(Merged(Arrays(vals))))]) else None
  }

  ghost function CheckerOutputs(vals: seq<SlotValue>): Outs {
    if AllNumbers(vals) && Accepted(Arrays(vals)) then Some([]) else None
  }

  ghost function Reader(i: nat, content: string): App {
    App([], _ => Some([(InputSlot(i), Text(content))]))
  }

  ghost function Sorter(i: nat, sorterNum: nat, mergerNum: nat): App {
    App([InputSlot(i)], vals => SorterOutputs(i, sorterNum, mergerNum, vals))
  }

  ghost function Splitter(i: nat): App {
    App([SortedSlot(i), PivotSlot(i)], vals => SplitterOutputs(i, vals))
  }

  ghost function Merger(j: nat, sorterNum: nat): App {
    App(seq(sorterNum, i requires 0 <= i < sorterNum => PartSlot(i, j)), vals => MergerOutputs(j, vals))
  }

  ghost function Checker(mergerNum: nat): App {
    App(seq(mergerNum, j requires 0 <= j < mergerNum => ResultSlot(j)), vals => CheckerOutputs(vals))
  }

  ghost function Readers(contents: seq<string>): Group {
    seq(|contents|, i requires 0 <= i < |contents| => Reader(i, contents[i]))
  }

  ghost function Sorters(n: nat, m: nat): Group {
    seq(n, i requires 0 <= i < n => Sorter(i, n, m))
  }

  ghost function Splitters(n: nat): Group {
    seq(n, i requires 0 <= i < n => Splitter(i))
  }

  ghost function Mergers(n: nat, m: nat): Group {
    seq(m, j requires 0 <= j < m => Merger(j, n))
  }

  /** The workflow on `contents`, the texts of the input files, with `m` mergers. */
  ghost function Groups(contents: seq<string>, m: nat): (groups: seq<Group>)
    ensures |groups| == 5
  {
    var n := |contents|;
    [Readers(contents), Sorters(n, m), Splitters(n), Mergers(n, m), [Checker(m)]]
  }

  // ----- What each function publishes, whatever is in the store -----

  lemma ReaderPublishes(store: Store, i: nat, content: string, k: int, s: Slot)
    requires Publishes(store, Reader(i, content), k, s)
    ensures k == 0 && s == InputSlot(i)
  {
  }

  lemma SorterPublishesTo(store: Store, i: nat, n: nat, m: nat, k: int, s: Slot)
    requires Publishes(store, Sorter(i, n, m), k, s)
    ensures (k == 0 && s == SortedSlot(i)) || (i == 0 && 1 <= k <= n && s == PivotSlot(k - 1))
  {
  }

  lemma SplitterPublishes(store: Store, i: nat, k: int, s: Slot)
    requires Publishes(store, Splitter(i), k, s)
    ensures k >= 0 && s == PartSlot(i, k)
  {
  }

  lemma MergerPublishes(store: Store, j: nat, n: nat, k: int, s: Slot)
    requires Publishes(store, Merger(j, n), k, s)
    ensures k == 0 && s == ResultSlot(j)
  {
  }

  lemma CheckerPublishes(store: Store, m: nat, k: int, s: Slot)
    ensures !Publishes(store, Checker(m), k, s)
  {
  }

  // ----- Slot discipline -----

  lemma ReadersDistinct(store: Store, contents: seq<string>)
    ensures TakesDistinct(Readers(contents)) && OutputsDistinct(store, Readers(contents))
  {
    var group := Readers(contents);
    forall i, k, j, l, s | && 0 <= i < |group| && 0 <= j < |group|
                           && Publishes(store, group[i], k, s) && Publishes(store, group[j], l, s)
      ensures i == j && k == l
    {
      ReaderPublishes(store, i, contents[i], k, s);
      ReaderPublishes(store, j, contents[j], l, s);
      NumberedInjective("input-part-", i, j);
    }
  }

  lemma SortersDistinct(store: Store, n: nat, m: nat)
    ensures TakesDistinct(Sorters(n, m)) && OutputsDistinct(store, Sorters(n, m))
  {
    var group := Sorters(n, m);
    forall i, k, j, l | 0 <= i < |group| && 0 <= k < |group[i].takes| && 0 <= j < |group| && 0 <= l < |group[j].takes|
                        && group[i].takes[k] == group[j].takes[l]
      ensures i == j && k == l
    {
      NumberedInjective("input-part-", i, j);
    }
    forall i, k, j, l, s | && 0 <= i < |group| && 0 <= j < |group|
                           && Publishes(store, group[i], k, s) && Publishes(store, group[j], l, s)
      ensures i == j && k == l
    {
      SorterPublishesTo(store, i, n, m, k, s);
      SorterPublishesTo(store, j, n, m, l, s);
      SorterOutputsInjective(i, k, j, l, s);
    }
  }

  lemma SorterOutputsInjective(i: nat, k: int, j: nat, l: int, s: Slot)
    requires (k == 0 && s == SortedSlot(i)) || (i == 0 && 1 <= k && s == PivotSlot(k - 1))
    requires (l == 0 && s == SortedSlot(j)) || (j == 0 && 1 <= l && s == PivotSlot(l - 1))
    ensures i == j && k == l
  {
    if k == 0 && l == 0 {
      NumberedInjective("sorter-resp-part-", i, j);
    } else if k > 0 && l > 0 {
      NumberedInjective("pivots-", k - 1, l - 1);
    } else if k == 0 {
      StageOfSlots(i, l - 1);
    } else {
      StageOfSlots(j, k - 1);
    }
  }

  lemma SplittersDistinct(store: Store, n: nat)
    ensures TakesDistinct(Splitters(n)) && OutputsDistinct(store, Splitters(n))
  {
    var group := Splitters(n);
    forall i, k, j, l | 0 <= i < |group| && 0 <= k < |group[i].takes| && 0 <= j < |group| && 0 <= l < |group[j].takes|
                        && group[i].takes[k] == group[j].takes[l]
      ensures i == j && k == l
    {
      StageOfSlots(i, j);
      StageOfSlots(j, i);
      if k == 0 && l == 0 { NumberedInjective("sorter-resp-part-", i, j); }
      if k == 1 && l == 1 { NumberedInjective("pivots-", i, j); }
    }
    forall i, k, j, l, s | && 0 <= i < |group| && 0 <= j < |group|
                           && Publishes(store, group[i], k, s) && Publishes(store, group[j], l, s)
      ensures i == j && k == l
    {
      SplitterPublishes(store, i, k, s);
      SplitterPublishes(store, j, l, s);
      PartSlotInjective(i, k, j, l);
    }
  }

  lemma MergersDistinct(store: Store, n: nat, m: nat)
    ensures TakesDistinct(Mergers(n, m)) && OutputsDistinct(store, Mergers(n, m))
  {
    var group := Mergers(n, m);
    forall i, k, j, l | 0 <= i < |group| && 0 <= k < |group[i].takes| && 0 <= j < |group| && 0 <= l < |group[j].takes|
                        && group[i].takes[k] == group[j].takes[l]
      ensures i == j && k == l
    {
      PartSlotInjective(k, i, l, j);
    }
    forall i, k, j, l, s | && 0 <= i < |group| && 0 <= j < |group|
                           && Publishes(store, group[i], k, s) && Publishes(store, group[j], l, s)
      ensures i == j && k == l
    {
      MergerPublishes(store, i, n, k, s);
      MergerPublishes(store, j, n, l, s);
      NumberedInjective("merge_result_", i, j);
    }
  }

  lemma CheckerDistinct(store: Store, m: nat)
    ensures TakesDistinct([Checker(m)]) && OutputsDistinct(store, [Checker(m)])
  {
    var group := [Checker(m)];
    forall i, k, j, l | 0 <= i < |group| && 0 <= k < |group[i].takes| && 0 <= j < |group| && 0 <= l < |group[j].takes|
                        && group[i].takes[k] == group[j].takes[l]
      ensures i == j && k == l
    {
      NumberedInjective("merge_result_", k, l);
    }
    forall i, k, s | 0 <= i < |group| ensures !Publishes(store, group[i], k, s) {
      CheckerPublishes(store, m, k, s);
    }
  }

  lemma GroupDistinct(contents: seq<string>, m: nat, store: Store, g: nat)
    requires g < 5
    ensures TakesDistinct(Groups(contents, m)[g]) && OutputsDistinct(store, Groups(contents, m)[g])
  {
    ReadersDistinct(store, contents);
    SortersDistinct(store, |contents|, m);
    SplittersDistinct(store, |contents|);
    MergersDistinct(store, |contents|, m);
    CheckerDistinct(store, m);
  }

  lemma SortIsStaged(contents: seq<string>, m: nat)
    ensures Staged(Groups(contents, m), SortStage)
  {
    var groups: seq<Group> := Groups(contents, m);
    forall g, i, k | 0 <= g < |groups| && 0 <= i < |groups[g]| && 0 <= k < |groups[g][i].takes|
      ensures SortStage(groups[g][i].takes[k]) == g
    {
      StageOfSlots(i, i);
      StageOfSlots(k, i);
      StageOfSlots(i, k);
    }
    forall g, i, store, k, s | 0 <= g < |groups| && 0 <= i < |groups[g]| && Publishes(store, groups[g][i], k, s)
      ensures SortStage(s) == g + 1
    {
      PublishedStage(contents, m, g, i, store, k, s);
    }
  }

  lemma PublishedStage(contents: seq<string>, m: nat, g: nat, i: nat, store: Store, k: int, s: Slot)
    requires g < 5 && i < |Groups(contents, m)[g]| && Publishes(store, Groups(contents, m)[g][i], k, s)
    ensures SortStage(s) == g + 1
  {
    var n := |contents|;
    if g == 0 {
      ReaderPublishes(store, i, contents[i], k, s);
      StageOfSlots(i, i);
    } else if g == 1 {
      SorterPublishesTo(store, i, n, m, k, s);
      StageOfSlots(if k == 0 then i else k - 1, i);
    } else if g == 2 {
      SplitterPublishes(store, i, k, s);
      StageOfSlots(i, k);
    } else if g == 3 {
      MergerPublishes(store, i, n, k, s);
      StageOfSlots(i, i);
    } else {
      CheckerPublishes(store, m, k, s);
    }
  }

  /** Whatever the inputs, the functions of the sort workflow do not interfere. */
  lemma SortIsWellFormed(contents: seq<string>, m: nat)
    ensures WellFormed(Groups(contents, m)) && ReadsOnce(Groups(contents, m))
  {
    var groups := Groups(contents, m);
    SortIsStaged(contents, m);
    forall g | 0 <= g < |groups| ensures TakesDistinct(groups[g]) && OutputsDistinct(StoreAt(groups, g), groups[g]) {
      GroupDistinct(contents, m, StoreAt(groups, g), g);
    }
    StagedIsWellFormed(groups, SortStage);
  }

  // ----- The stores between the groups -----

  lemma PublishedShows(store: Store, group: Group, i: nat, k: nat, s: Slot, v: SlotValue)
    requires OutputsDistinct(store, group) && i < |group| && Publishes(store, group[i], k, s)
    requires Outputs(store, group[i]).value[k].1 == v
    ensures s in After(store, group) && After(store, group)[s] == v
  {
    AfterHas(store, group, s);
  }

  ghost predicate InputsShown(store: Store, contents: seq<string>) {
    forall i :: 0 <= i < |contents| ==> InputSlot(i) in store && store[InputSlot(i)] == Text(contents[i])
  }

  ghost predicate SortedShown(store: Store, sorteds: seq<seq<int>>, pivots: seq<int>) {
    forall i :: 0 <= i < |sorteds| ==>
      && SortedSlot(i) in store && store[SortedSlot(i)] == Numbers(sorteds[i])
      && PivotSlot(i) in store && store[PivotSlot(i)] == Numbers(pivots)
  }

  ghost predicate PartsShown(store: Store, partss: seq<seq<seq<int>>>) {
    && (forall i, j: nat :: 0 <= i < |partss| && PartSlot(i, j) in store ==> j < |partss[i]|)
    && (forall i, j :: 0 <= i < |partss| && 0 <= j < |partss[i]| ==>
          PartSlot(i, j) in store && store[PartSlot(i, j)] == Numbers(partss[i][j]))
  }

  ghost predicate ResultsShown(store: Store, results: seq<seq<int>>) {
    forall j :: 0 <= j < |results| ==> ResultSlot(j) in store && store[ResultSlot(j)] == Numbers(results[j])
  }

  lemma AfterReaders(contents: seq<string>)
    ensures Succeeds(map[], Readers(contents)) && InputsShown(After(map[], Readers(contents)), contents)
  {
    var group := Readers(contents);
    ReadersDistinct(map[], contents);
    forall i | 0 <= i < |contents|
      ensures Outputs(map[], group[i]).Some?
      ensures InputSlot(i) in After(map[], group) && After(map[], group)[InputSlot(i)] == Text(contents[i])
    {
      assert Publishes(map[], group[i], 0, InputSlot(i));
      PublishedShows(map[], group, i, 0, InputSlot(i), Text(contents[i]));
    }
  }

  /** The numbers in the input texts, if all of them parse. */
  ghost predicate Parses(contents: seq<string>, inputs: seq<seq<int>>) {
    |inputs| == |contents| && forall i :: 0 <= i < |contents| ==> Decimal.Parse(contents[i]) == Some(inputs[i])
  }

  lemma SorterOutputsAt(store: Store, contents: seq<string>, m: nat, i: nat)
    requires InputsShown(store, contents) && i < |contents|
    ensures Outputs(store, Sorter(i, |contents|, m)) ==
            match Decimal.Parse(contents[i])
            case None => None
            case Some(numbers) => SorterPublishes(i, |contents|, m, Sort(numbers))
  {
    var app := Sorter(i, |contents|, m);
    assert Available(store, app);
    assert Inputs(store, app) == [Text(contents[i])];
  }

  /** The sorters succeed exactly when every text parses and sorter 0 can choose its pivots. */
  lemma SortersSucceedIff(store: Store, contents: seq<string>, inputs: seq<seq<int>>, m: nat)
    requires InputsShown(store, contents) && contents != []
    ensures Succeeds(store, Sorters(|contents|, m)) ==>
              forall i :: 0 <= i < |contents| ==> Decimal.Parse(contents[i]).Some?
    ensures Parses(contents, inputs) ==>
              (Succeeds(store, Sorters(|contents|, m)) <==> Pivots(Sort(inputs[0]), m).Some?)
  {
    var group := Sorters(|contents|, m);
    forall i | 0 <= i < |contents|
      ensures group[i] == Sorter(i, |contents|, m)
      ensures Outputs(store, group[i]).Some? ==> Decimal.Parse(contents[i]).Some?
      ensures Parses(contents, inputs) ==>
              (Outputs(store, group[i]).Some? <==> i != 0 || Pivots(Sort(inputs[0]), m).Some?)
    {
      SorterOutputsAt(store, contents, m, i);
    }
    if Succeeds(store, group) {
      forall i | 0 <= i < |contents| ensures Decimal.Parse(contents[i]).Some? {
        assert Outputs(store, group[i]).Some?;
      }
      assert Outputs(store, group[0]).Some?;
    }
  }

  lemma AfterSorters(store: Store, contents: seq<string>, inputs: seq<seq<int>>, m: nat, pivots: seq<int>)
    requires InputsShown(store, contents) && contents != [] && Parses(contents, inputs)
    requires Pivots(Sort(inputs[0]), m) == Some(pivots)
    ensures SortedShown(After(store, Sorters(|contents|, m)), Sorteds(inputs), pivots)
  {
    var n := |contents|;
    var group := Sorters(n, m);
    SortersDistinct(store, n, m);
    forall i | 0 <= i < n
      ensures SortedSlot(i) in After(store, group) && After(store, group)[SortedSlot(i)] == Numbers(Sort(inputs[i]))
      ensures PivotSlot(i) in After(store, group) && After(store, group)[PivotSlot(i)] == Numbers(pivots)
    {
      SorterOutputsAt(store, contents, m, i);
      assert Publishes(store, group[i], 0, SortedSlot(i));
      PublishedShows(store, group, i, 0, SortedSlot(i), Numbers(Sort(inputs[i])));
      SorterOutputsAt(store, contents, m, 0);
      assert Publishes(store, group[0], i + 1, PivotSlot(i));
      PublishedShows(store, group, 0, i + 1, PivotSlot(i), Numbers(pivots));
    }
  }

  ghost function Parts(sorteds: seq<seq<int>>, pivots: seq<int>): (r: seq<seq<seq<int>>>)
    ensures |r| == |sorteds| && forall i :: 0 <= i < |r| ==> r[i] == Split(sorteds[i], pivots)
  {
    seq(|sorteds|, i requires 0 <= i < |sorteds| => Split(sorteds[i], pivots))
  }

  lemma SplitterOutputsAt(store: Store, sorteds: seq<seq<int>>, pivots: seq<int>, i: nat)
    requires SortedShown(store, sorteds, pivots) && i < |sorteds|
    ensures Outputs(store, Splitter(i)).Some?
    ensures var outs, parts := Outputs(store, Splitter(i)).value, Split(sorteds[i], pivots);
            |outs| == |parts| && forall j :: 0 <= j < |parts| ==> outs[j] == (PartSlot(i, j), Numbers(parts[j]))
  {
    var app := Splitter(i);
    assert Available(store, app);
    assert Inputs(store, app) == [Numbers(sorteds[i]), Numbers(pivots)];
  }

  lemma AfterSplitters(store: Store, sorteds: seq<seq<int>>, pivots: seq<int>)
    requires SortedShown(store, sorteds, pivots) && forall s :: s in store ==> SortStage(s) != 3
    ensures Succeeds(store, Splitters(|sorteds|))
    ensures PartsShown(After(store, Splitters(|sorteds|)), Parts(sorteds, pivots))
  {
    var n := |sorteds|;
    var group, partss := Splitters(n), Parts(sorteds, pivots);
    var after := After(store, group);
    SplittersDistinct(store, n);
    forall i | 0 <= i < n ensures Outputs(store, group[i]).Some? {
      SplitterOutputsAt(store, sorteds, pivots, i);
    }
    forall i, j | 0 <= i < n && 0 <= j < |partss[i]|
      ensures PartSlot(i, j) in after && after[PartSlot(i, j)] == Numbers(partss[i][j])
    {
      SplitterOutputsAt(store, sorteds, pivots, i);
      assert Publishes(store, group[i], j, PartSlot(i, j));
      PublishedShows(store, group, i, j, PartSlot(i, j), Numbers(partss[i][j]));
    }
    forall i, j: nat | 0 <= i < n && PartSlot(i, j) in after ensures j < |partss[i]| {
      PartOnlyIfPublished(store, sorteds, pivots, i, j);
    }
  }

  lemma PartOnlyIfPublished(store: Store, sorteds: seq<seq<int>>, pivots: seq<int>, i: nat, j: nat)
    requires SortedShown(store, sorteds, pivots) && (forall s :: s in store ==> SortStage(s) != 3) && i < |sorteds|
    requires PartSlot(i, j) in After(store, Splitters(|sorteds|))
    ensures j < |Split(sorteds[i], pivots)|
  {
    var group, s := Splitters(|sorteds|), PartSlot(i, j);
    SplittersDistinct(store, |sorteds|);
    AfterHas(store, group, s);
    StageOfSlots(i, j);
    var k, l :| 0 <= k < |group| && Publishes(store, group[k], l, s);
    SplitterPublishes(store, k, l, s);
    PartSlotInjective(k, l, i, j);
    SplitterOutputsAt(store, sorteds, pivots, i);
  }

  lemma MergerOutputsAt(store: Store, partss: seq<seq<seq<int>>>, j: nat)
    requires PartsShown(store, partss)
    ensures Outputs(store, Merger(j, |partss|)).Some? <==> forall i :: 0 <= i < |partss| ==> j < |partss[i]|
    ensures Outputs(store, Merger(j, |partss|)).Some? ==>
              var column := seq(|partss|, i requires 0 <= i < |partss| && j < |partss[i]| => partss[i][j]);
              Outputs(store, Merger(j, |partss|)).value == [(ResultSlot(j), Numbers(Merged(column)))]
  {
    var n := |partss|;
    var app := Merger(j, n);
    if forall i :: 0 <= i < n ==> j < |partss[i]| {
      forall k | 0 <= k < |app.takes| ensures app.takes[k] in store && store[app.takes[k]] == Numbers(partss[k][j]) {
        assert app.takes[k] == PartSlot(k, j);
      }
      assert Available(store, app);
      var vals := Inputs(store, app);
      assert AllNumbers(vals);
      assert Arrays(vals) == seq(n, i requires 0 <= i < n && j < |partss[i]| => partss[i][j]);
    } else {
      var i :| 0 <= i < n && j >= |partss[i]|;
      assert app.takes[i] == PartSlot(i, j);
      assert !Available(store, app);
    }
  }

  /** The mergers succeed exactly when every splitter published a part for each of them. */
  lemma MergersSucceedIff(store: Store, sorteds: seq<seq<int>>, pivots: seq<int>)
    requires PartsShown(store, Parts(sorteds, pivots)) && sorteds != []
    ensures Succeeds(store, Mergers(|sorteds|, |pivots| + 1)) <==>
            forall i :: 0 <= i < |sorteds| ==> |Split(sorteds[i], pivots)| == |pivots| + 1
  {
    var n, m := |sorteds|, |pivots| + 1;
    var group, partss := Mergers(n, m), Parts(sorteds, pivots);
    forall j | 0 <= j < m
      ensures Outputs(store, group[j]).Some? <==> forall i :: 0 <= i < n ==> j < |partss[i]|
    {
      MergerOutputsAt(store, partss, j);
    }
    if Succeeds(store, group) { assert Outputs(store, group[m - 1]).Some?; }
  }

  /** Merger `j` publishes the merge of column `j`. */
  lemma MergerOutput(store: Store, sorteds: seq<seq<int>>, pivots: seq<int>, j: nat)
    requires PartsShown(store, Parts(sorteds, pivots)) && AllSorted(sorteds) && Sorted(pivots) && j <= |pivots|
    requires forall i :: 0 <= i < |sorteds| ==> |Split(sorteds[i], pivots)| == |pivots| + 1
    ensures Outputs(store, Merger(j, |sorteds|)) == Some([(ResultSlot(j), Numbers(Merged(Column(sorteds, pivots, j))))])
  {
    var n, partss := |sorteds|, Parts(sorteds, pivots);
    MergerOutputsAt(store, partss, j);
    var column := seq(n, i requires 0 <= i < n && j < |partss[i]| => partss[i][j]);
    forall i | 0 <= i < n ensures column[i] == Bucket(sorteds[i], pivots, j) {
      SplitIsClassification(sorteds[i], pivots, j);
    }
    assert column == Column(sorteds, pivots, j);
  }

  lemma AfterMergers(store: Store, sorteds: seq<seq<int>>, pivots: seq<int>)
    requires PartsShown(store, Parts(sorteds, pivots)) && AllSorted(sorteds) && Sorted(pivots)
    requires forall i :: 0 <= i < |sorteds| ==> |Split(sorteds[i], pivots)| == |pivots| + 1
    ensures ResultsShown(After(store, Mergers(|sorteds|, |pivots| + 1)), Results(sorteds, pivots))
  {
    var n, m := |sorteds|, |pivots| + 1;
    var group, results := Mergers(n, m), Results(sorteds, pivots);
    MergersDistinct(store, n, m);
    forall j | 0 <= j < m
      ensures ResultSlot(j) in After(store, group) && After(store, group)[ResultSlot(j)] == Numbers(results[j])
    {
      MergerOutput(store, sorteds, pivots, j);
      assert Publishes(store, group[j], 0, ResultSlot(j));
      PublishedShows(store, group, j, 0, ResultSlot(j), Numbers(results[j]));
    }
  }

  ghost function AsNumbers(arrays: seq<seq<int>>): (r: seq<SlotValue>)
    ensures |r| == |arrays| && forall k :: 0 <= k < |r| ==> r[k] == Numbers(arrays[k])
  {
    seq(|arrays|, k requires 0 <= k < |arrays| => Numbers(arrays[k]))
  }

  lemma CheckerReads(store: Store, results: seq<seq<int>>)
    requires ResultsShown(store, results)
    ensures Available(store, Checker(|results|)) && Inputs(store, Checker(|results|)) == AsNumbers(results)
    ensures Outputs(store, Checker(|results|)).Some? <==> Accepted(results)
  {
    var app := Checker(|results|);
    forall k | 0 <= k < |app.takes| ensures app.takes[k] in store && store[app.takes[k]] == Numbers(results[k]) {
      assert app.takes[k] == ResultSlot(k);
    }
    var vals := Inputs(store, app);
    assert vals == AsNumbers(results);
    assert AllNumbers(vals) && Arrays(vals) == results;
  }

  // ----- The workflow as a sequence of single steps -----

  lemma NoPartsYet(contents: seq<string>, m: nat)
    ensures forall s :: s in StoreAt(Groups(contents, m), 2) ==> SortStage(s) != 3
  {
    var groups: seq<Group> := Groups(contents, m);
    SortIsStaged(contents, m);
    forall h | 0 <= h < 2 ensures StageAdded(groups, SortStage, h) {
      GroupDistinct(contents, m, StoreAt(groups, h), h);
      forall s | s in StoreAt(groups, h + 1) ensures s in StoreAt(groups, h) || SortStage(s) == h + 1 {
        StagedAfter(groups, SortStage, h, s);
      }
    }
    StagedKeys(groups, SortStage, 2);
    StoreWritten(groups, 2);
  }

  lemma StoreUnfold(contents: seq<string>, m: nat)
    ensures var groups, n := Groups(contents, m), |contents|;
            && StoreAt(groups, 0) == map[]
            && StoreAt(groups, 1) == After(map[], Readers(contents))
            && StoreAt(groups, 2) == After(StoreAt(groups, 1), Sorters(n, m))
            && StoreAt(groups, 3) == After(StoreAt(groups, 2), Splitters(n))
            && StoreAt(groups, 4) == After(StoreAt(groups, 3), Mergers(n, m))
  {
  }

  /** Sorter 0 can choose its pivots, and every splitter gets a part for every merger. */
  ghost predicate AllParts(inputs: seq<seq<int>>, m: nat) {
    && inputs != [] && Pivots(Sort(inputs[0]), m).Some?
    && (forall i :: 0 <= i < |inputs| ==> |Split(Sort(inputs[i]), Pivots(Sort(inputs[0]), m).value)| == m)
  }

  /** The checker finds the merged columns of the inputs. */
  ghost predicate CheckerFinds(store: Store, inputs: seq<seq<int>>, m: nat)
    requires AllParts(inputs, m)
  {
    && Available(store, Checker(m))
    && Inputs(store, Checker(m)) == AsNumbers(Results(Sorteds(inputs), Pivots(Sort(inputs[0]), m).value))
  }

  /** The last two groups, from the store the splitters leave on. */
  lemma MergeAndCheck(split: Store, merged: Store, inputs: seq<seq<int>>, m: nat, pivots: seq<int>)
    requires inputs != [] && Pivots(Sort(inputs[0]), m) == Some(pivots)
    requires PartsShown(split, Parts(Sorteds(inputs), pivots)) && merged == After(split, Mergers(|inputs|, m))
    ensures Succeeds(split, Mergers(|inputs|, m)) <==> AllParts(inputs, m)
    ensures AllParts(inputs, m) ==> Succeeds(merged, [Checker(m)]) && CheckerFinds(merged, inputs, m)
  {
    MergersSucceedIff(split, Sorteds(inputs), pivots);
    if AllParts(inputs, m) { CheckerSucceeds(split, inputs, m, pivots); }
  }

  /** The last four groups, from the store the readers leave on. */
  lemma FromRead(read: Store, contents: seq<string>, inputs: seq<seq<int>>, m: nat, pivots: seq<int>)
    requires contents != [] && Parses(contents, inputs) && Pivots(Sort(inputs[0]), m) == Some(pivots)
    requires InputsShown(read, contents)
    requires forall s :: s in After(read, Sorters(|contents|, m)) ==> SortStage(s) != 3
    ensures var n := |contents|;
            var sorted := After(read, Sorters(n, m));
            var split := After(sorted, Splitters(n));
            var merged := After(split, Mergers(n, m));
            && Succeeds(sorted, Splitters(n))
            && (Succeeds(split, Mergers(n, m)) <==> AllParts(inputs, m))
            && (AllParts(inputs, m) ==> Succeeds(merged, [Checker(m)]) && CheckerFinds(merged, inputs, m))
  {
    var n := |contents|;
    var sorted := After(read, Sorters(n, m));
    var split := After(sorted, Splitters(n));
    AfterSorters(read, contents, inputs, m, pivots);
    AfterSplitters(sorted, Sorteds(inputs), pivots);
    MergeAndCheck(split, After(split, Mergers(n, m)), inputs, m, pivots);
  }

  lemma FiveGroups(groups: seq<Group>)
    requires |groups| == 5
    ensures SucceedsUpTo(groups, 5) <==>
            && Succeeds(StoreAt(groups, 0), groups[0]) && Succeeds(StoreAt(groups, 1), groups[1])
            && Succeeds(StoreAt(groups, 2), groups[2]) && Succeeds(StoreAt(groups, 3), groups[3])
            && Succeeds(StoreAt(groups, 4), groups[4])
  {
    if && Succeeds(StoreAt(groups, 0), groups[0]) && Succeeds(StoreAt(groups, 1), groups[1])
       && Succeeds(StoreAt(groups, 2), groups[2]) && Succeeds(StoreAt(groups, 3), groups[3])
       && Succeeds(StoreAt(groups, 4), groups[4])
    {
      forall h | 0 <= h < 5 ensures Succeeds(StoreAt(groups, h), groups[h]) {
      }
    }
  }

  /** How far the workflow gets, and what the checker reads if it gets there. */
  lemma SortMeaning(contents: seq<string>, inputs: seq<seq<int>>, m: nat)
    requires contents != [] && Parses(contents, inputs)
    ensures SucceedsUpTo(Groups(contents, m), 5) <==> AllParts(inputs, m)
    ensures AllParts(inputs, m) ==> CheckerFinds(StoreAt(Groups(contents, m), 4), inputs, m)
  {
    var groups: seq<Group> := Groups(contents, m);
    StoreUnfold(contents, m);
    FiveGroups(groups);
    AfterReaders(contents);
    SortersSucceedIff(StoreAt(groups, 1), contents, inputs, m);
    NoPartsYet(contents, m);
    if Pivots(Sort(inputs[0]), m).Some? {
      FromRead(StoreAt(groups, 1), contents, inputs, m, Pivots(Sort(inputs[0]), m).value);
    }
  }

  /** The mergers' results pass the checker. */
  lemma CheckerSucceeds(store: Store, inputs: seq<seq<int>>, m: nat, pivots: seq<int>)
    requires AllParts(inputs, m) && Pivots(Sort(inputs[0]), m) == Some(pivots)
    requires PartsShown(store, Parts(Sorteds(inputs), pivots))
    ensures var after := After(store, Mergers(|inputs|, m));
            && Succeeds(after, [Checker(m)]) && Available(after, Checker(m))
            && Inputs(after, Checker(m)) == AsNumbers(Results(Sorteds(inputs), pivots))
  {
    ResultsAccepted(inputs, m, pivots);
    AfterMergers(store, Sorteds(inputs), pivots);
    CheckerReads(After(store, Mergers(|inputs|, m)), Results(Sorteds(inputs), pivots));
  }

  lemma ResultsAccepted(inputs: seq<seq<int>>, m: nat, pivots: seq<int>)
    requires inputs != [] && Pivots(Sort(inputs[0]), m) == Some(pivots)
    ensures AllSorted(Sorteds(inputs)) && Sorted(pivots) && |pivots| + 1 == m
    ensures Accepted(Results(Sorteds(inputs), pivots))
  {
    SortedsSorted(inputs);
    SortSorts(inputs[0]);
    PivotsSorted(Sort(inputs[0]), m);
    ResultsSorted(Sorteds(inputs), pivots);
    ConcatSortedIff(Results(Sorteds(inputs), pivots));
  }

  // ----- When the workflow succeeds, told from its inputs -----

  /** With `m` mergers: one merger always works; with more, the first part must not be empty; with more
      than two, every part must reach the last pivot but one. */
  ghost predicate SortCondition(inputs: seq<seq<int>>, m: nat)
    requires inputs != []
  {
    m == 1 ||
    (m > 1 && inputs[0] != [] &&
     (m == 2 || forall i :: 0 <= i < |inputs| ==> SomeReaches(inputs[i], LastPivotButOne(inputs[0], m))))
  }

  ghost predicate SomeReaches(s: seq<int>, p: int) {
    exists x :: x in s && x >= p
  }

  ghost function LastPivotButOne(first: seq<int>, m: nat): int
    requires m > 2 && first != []
  {
    SortSorts(first);
    Pivots(Sort(first), m).value[m - 3]
  }

  /** It stands at this place of the sorted first part. */
  lemma LastPivotIs(first: seq<int>, m: nat)
    requires m > 2 && first != []
    ensures |Sort(first)| == |first| && 0 <= (m - 2) * |first| / m < |first|
    ensures LastPivotButOne(first, m) == Sort(first)[(m - 2) * |first| / m]
  {
    SortSorts(first);
    PivotIndex(m - 3, |first|, m);
  }

  lemma LastReaches(s: seq<int>, p: int)
    ensures Sort(s) != [] && Sort(s)[|Sort(s)| - 1] >= p <==> SomeReaches(s, p)
  {
    SortSorts(s);
    var t := Sort(s);
    if t != [] { SameElements(s, t, t[|t| - 1]); }
    if SomeReaches(s, p) {
      var x :| x in s && x >= p;
      SameElements(s, t, x);
    }
  }

  /** A part is cut into as many pieces as there are mergers exactly when it reaches the last pivot but one. */
  lemma ReachesIff(input: seq<int>, pivots: seq<int>)
    requires Sorted(pivots)
    ensures |Split(Sort(input), pivots)| == |pivots| + 1 <==> Reaches(input, pivots)
  {
    SortSorts(input);
    SplitCount(Sort(input), pivots);
    if |pivots| >= 2 { LastReaches(input, pivots[|pivots| - 2]); }
  }

  ghost predicate Reaches(input: seq<int>, pivots: seq<int>) {
    |pivots| < 2 || SomeReaches(input, pivots[|pivots| - 2])
  }

  ghost predicate AllReach(inputs: seq<seq<int>>, pivots: seq<int>) {
    forall i :: 0 <= i < |inputs| ==> Reaches(inputs[i], pivots)
  }

  lemma PivotsSomeIff(first: seq<int>, m: nat)
    ensures Pivots(Sort(first), m).Some? <==> m == 1 || (m > 1 && first != [])
  {
    SortSorts(first);
  }

  lemma ConditionIsReach(inputs: seq<seq<int>>, m: nat, pivots: seq<int>)
    requires inputs != [] && Pivots(Sort(inputs[0]), m) == Some(pivots)
    ensures SortCondition(inputs, m) <==> AllReach(inputs, pivots)
  {
    PivotsSomeIff(inputs[0], m);
    if m > 2 {
      assert pivots[|pivots| - 2] == LastPivotButOne(inputs[0], m);
    }
  }

  lemma AllPartsIff(inputs: seq<seq<int>>, m: nat)
    requires inputs != []
    ensures AllParts(inputs, m) <==> SortCondition(inputs, m)
  {
    PivotsSomeIff(inputs[0], m);
    if Pivots(Sort(inputs[0]), m).Some? {
      var pivots := Pivots(Sort(inputs[0]), m).value;
      SortSorts(inputs[0]);
      PivotsSorted(Sort(inputs[0]), m);
      forall i | 0 <= i < |inputs| ensures |Split(Sort(inputs[i]), pivots)| == m <==> Reaches(inputs[i], pivots) {
        ReachesIff(inputs[i], pivots);
      }
      ConditionIsReach(inputs, m, pivots);
    }
  }

  lemma {:induction false} ParseFieldsRange(fields: seq<string>, x: int)
    requires Decimal.ParseFields(fields).Some? && x in Decimal.ParseFields(fields).value
    ensures 0 <= x <= U32_MAX
  {
    var rest := Decimal.ParseFields(fields[1..]);
    if rest.Some? && x in rest.value { ParseFieldsRange(fields[1..], x); }
  }

  lemma InputsRange(contents: seq<string>, inputs: seq<seq<int>>, x: int)
    requires Parses(contents, inputs) && x in Concat(inputs)
    ensures 0 <= x <= U32_MAX
  {
    ConcatMember(inputs, x);
    var i :| 0 <= i < |inputs| && x in inputs[i];
    assert Decimal.Parse(contents[i]) == Some(inputs[i]);
    ParseFieldsRange(Decimal.SplitOn(contents[i], ','), x);
  }

  // ----- End to end, over every interleaving -----

  /** What a complete run of the workflow that was not aborted has established: the checker read `m`
      arrays that are sorted across all of them and hold every input number below the sentinel, and
      so all of them when the sentinel is not among the inputs. */
  ghost predicate SortedResults(inputs: seq<seq<int>>, m: nat, results: seq<seq<int>>) {
    && |results| == m
    && SortsBelowMax(inputs, results)
    && Accepted(results)
    && (multiset(Concat(results)) == multiset(Concat(inputs)) <==> NoMax(inputs))
  }

  lemma ResultsAreSorted(contents: seq<string>, inputs: seq<seq<int>>, m: nat)
    requires contents != [] && Parses(contents, inputs) && AllParts(inputs, m)
    ensures SortedResults(inputs, m, Results(Sorteds(inputs), Pivots(Sort(inputs[0]), m).value))
  {
    var pivots := Pivots(Sort(inputs[0]), m).value;
    SortSorts(inputs[0]);
    PivotsSorted(Sort(inputs[0]), m);
    var results := Results(Sorteds(inputs), pivots);
    ResultsSort(inputs, pivots);
    ConcatSortedIff(results);
    forall x | x in Concat(inputs) ensures x <= U32_MAX { InputsRange(contents, inputs, x); }
    PermutationIffNoMax(inputs, results);
  }

  /** Every complete run, in whatever order its functions interleave, succeeds if the inputs meet the
      condition and is aborted if they do not; when it succeeds its results are sorted. */
  lemma SortEndToEnd(contents: seq<string>, inputs: seq<seq<int>>, m: nat, steps: seq<R.Step>, s: R.State)
    requires contents != [] && Parses(contents, inputs)
    requires R.Reachable(Groups(contents, m), steps, s) && R.Terminal(Groups(contents, m), s)
    ensures !s.aborted <==> SortCondition(inputs, m)
    ensures R.Shaped(Groups(contents, m), s)
    ensures !s.aborted ==>
              exists results :: SortedResults(inputs, m, results) && s.locals[4][0].read == Some(AsNumbers(results))
  {
    var groups: seq<Group> := Groups(contents, m);
    SortIsWellFormed(contents, m);
    M.Outcome(groups, steps, s);
    M.InvReachable(groups, steps, s);
    SortMeaning(contents, inputs, m);
    AllPartsIff(inputs, m);
    if !s.aborted {
      assert M.FinishedAsMeant(groups, s, 4, 0);
      ResultsAreSorted(contents, inputs, m);
    }
  }

  lemma EmptyMergers(store: Store, m: nat)
    ensures Succeeds(store, Mergers(0, m)) && ResultsShown(After(store, Mergers(0, m)), seq(m, _ => []))
  {
    if m > 0 {
      var pivots := seq(m - 1, _ => 0);
      forall j | 0 <= j < m ensures Outputs(store, Mergers(0, m)[j]).Some? {
        MergerOutputsAt(store, Parts([], pivots), j);
      }
      AfterMergers(store, [], pivots);
      forall j | 0 <= j < m ensures Results([], pivots)[j] == [] { assert Column([], pivots, j) == []; }
    }
  }

  lemma EmptyMeaning(m: nat)
    ensures SucceedsUpTo(Groups([], m), 5)
    ensures var store := StoreAt(Groups([], m), 4);
            Available(store, Checker(m)) && Inputs(store, Checker(m)) == AsNumbers(seq(m, _ => []))
  {
    var groups: seq<Group> := Groups([], m);
    StoreUnfold([], m);
    EmptyMergers(StoreAt(groups, 3), m);
    ConcatSortedIff(seq(m, _ => []));
    CheckerReads(StoreAt(groups, 4), seq(m, _ => []));
    assert Succeeds(StoreAt(groups, 3), groups[3]) && Succeeds(StoreAt(groups, 4), groups[4]);
  }

  /** Without sorters every run succeeds, and the checker reads as many empty results as there are mergers. */
  lemma NothingToSort(m: nat, steps: seq<R.Step>, s: R.State)
    requires R.Reachable(Groups([], m), steps, s) && R.Terminal(Groups([], m), s)
    ensures R.Shaped(Groups([], m), s) && !s.aborted && s.locals[4][0].read == Some(AsNumbers(seq(m, _ => [])))
  {
    var groups: seq<Group> := Groups([], m);
    SortIsWellFormed([], m);
    EmptyMeaning(m);
    M.Outcome(groups, steps, s);
    M.InvReachable(groups, steps, s);
    assert M.FinishedAsMeant(groups, s, 4, 0);
  }

  /** A text that does not parse aborts every run. */
  lemma BadInputAborts(contents: seq<string>, m: nat, steps: seq<R.Step>, s: R.State, i: nat)
    requires i < |contents| && Decimal.Parse(contents[i]).None?
    requires R.Reachable(Groups(contents, m), steps, s) && R.Terminal(Groups(contents, m), s)
    ensures s.aborted
  {
    var groups: seq<Group> := Groups(contents, m);
    SortIsWellFormed(contents, m);
    M.Outcome(groups, steps, s);
    StoreUnfold(contents, m);
    AfterReaders(contents);
    SortersSucceedIff(StoreAt(groups, 1), contents, [], m);
    assert !Succeeds(StoreAt(groups, 1), groups[1]);
  }

  /** The same over files, for any serialiser that can be undone. */
  lemma SortEndToEndOverFiles(codec: F.Codec, contents: seq<string>, inputs: seq<seq<int>>, m: nat,
                              steps: seq<F.Step>, s: F.State)
    requires F.Invertible(codec) && contents != [] && Parses(contents, inputs)
    requires F.Reachable(codec, Groups(contents, m), steps, s) && F.Terminal(Groups(contents, m), s)
    ensures !s.aborted <==> SortCondition(inputs, m)
    ensures F.Shaped(Groups(contents, m), s)
    ensures !s.aborted ==>
              exists results :: SortedResults(inputs, m, results) && s.locals[4][0].read == Some(AsNumbers(results))
  {
    var groups: seq<Group> := Groups(contents, m);
    SortIsWellFormed(contents, m);
    F.InvReachable(codec, groups, steps, s);
    SortMeaning(contents, inputs, m);
    AllPartsIff(inputs, m);
    if !s.aborted {
      assert F.HasOutputs(StoreAt(groups, 4), groups[4][0], s.locals[4][0]);
      ResultsAreSorted(contents, inputs, m);
    }
  }

  /** Every run of the sort, over either transport, can be carried on to its end. */
  lemma SortCompletes(codec: F.Codec, contents: seq<string>, m: nat, steps: seq<R.Step>, s: R.State,
                      fileSteps: seq<F.Step>, f: F.State)
    returns (all: seq<R.Step>, end: R.State, allFiles: seq<F.Step>, endFiles: F.State)
    requires F.Invertible(codec) && R.Reachable(Groups(contents, m), steps, s)
    requires F.Reachable(codec, Groups(contents, m), fileSteps, f)
    ensures steps <= all && R.Reachable(Groups(contents, m), all, end) && R.Terminal(Groups(contents, m), end)
    ensures fileSteps <= allFiles && F.Reachable(codec, Groups(contents, m), allFiles, endFiles)
    ensures F.Terminal(Groups(contents, m), endFiles)
  {
    SortIsWellFormed(contents, m);
    all, end := M.EveryRunCompletes(Groups(contents, m), steps, s);
    allFiles, endFiles := F.EveryRunCompletes(codec, Groups(contents, m), fileSteps, f);
  }
}
