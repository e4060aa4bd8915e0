/** The word-count workflow: mappers count the words of their files and shuffle the counts over the
    reducers by a hash of the word (user/mapper/src/lib.rs), reducers add up what the mappers sent
    them (user/reducer/src/lib.rs). */
module WordCount {
  import opened Seqs
  import opened ByteSeqs
  import opened Decimal

  type Counter = map<string, nat>

  newtype u64 = x: int | 0 <= x < 0x1_0000_0000_0000_0000

  // ----- Words -----

  /** `str::lines`: what stands between line feeds, without an empty rest at the end. */
  function Lines(content: string): seq<string> {
    var fields := SplitOn(content, '\n');
    if fields[|fields| - 1] == [] then fields[..|fields| - 1] else fields
  }

  predicate AllIn(word: string, alphanumeric: char -> bool) {
    forall i :: 0 <= i < |word| ==> alphanumeric(word[i])
  }

  /** The fields all of whose characters are alphanumeric. */
  function Kept(fields: seq<string>, alphanumeric: char -> bool): seq<string> {
    if fields == [] then []
    else (if AllIn(fields[0], alphanumeric) then [fields[0]] else []) + Kept(fields[1..], alphanumeric)
  }

  /** The words of the lines: each line trimmed and cut at single spaces. Two spaces in a row give an empty
      word, which is kept. */
  function WordsOf(lines: seq<string>, alphanumeric: char -> bool): seq<string> {
    if lines == [] then []
    else Kept(SplitOn(Trim(lines[0]), ' '), alphanumeric) + WordsOf(lines[1..], alphanumeric)
  }

  function Words(content: string, alphanumeric: char -> bool): seq<string> {
    WordsOf(Lines(content), alphanumeric)
  }

  // ----- Hash -----

  /** The word as a number in base 31. */
  function Polynomial(word: string): nat {
    if word == [] then 0 else Polynomial(word[..|word| - 1]) * 31 + word[|word| - 1] as nat
  }

  lemma ModOfMultiple(n: nat, k: nat, x: nat)
    requires n > 0
    ensures (n * k + x) % n == x % n
  {
    if k > 0 {
      ModOfMultiple(n, k - 1, x);
      assert n * k + x == (n * (k - 1) + x) + n;
      ModPlus(n * (k - 1) + x, n);
    }
  }

  lemma ModPlus(a: nat, n: nat)
    requires n > 0
    ensures (a + n) % n == a % n
  {
    assert a + n == n * (a / n + 1) + a % n;
    ModUnique(n, a / n + 1, a % n, a + n);
  }

  lemma MulAtLeast(n: nat, k: nat)
    requires k > 0
    ensures n * k >= n
  {
  }

  lemma ModUnique(n: nat, q: nat, r: nat, a: nat)
    requires n > 0 && r < n && a == n * q + r
    ensures a % n == r
  {
    var q', r' := a / n, a % n;
    assert n * q' + r' == n * q + r;
    if q' < q { MulAtLeast(n, q - q'); } else if q < q' { MulAtLeast(n, q' - q); }
    assert n * (q - q') == n * q - n * q';
  }

  /** Reducing the running value early does not change the result. */
  lemma HashStep(n: nat, a: nat, c: nat)
    requires n > 0
    ensures ((a % n) * 31 + c) % n == (a * 31 + c) % n
  {
    var q, r := a / n, a % n;
    assert a == n * q + r;
    assert a * 31 + c == n * (q * 31) + (r * 31 + c);
    ModOfMultiple(n, q * 31, r * 31 + c);
  }

  /** `getidx`. On 64-bit integers no step overflows as long as a remainder times 31 plus the largest
      character fits. */
  method GetIdx(word: string, reducerNum: u64) returns (hash: u64)
    requires reducerNum > 0 && 31 * (reducerNum as nat - 1) + 0x10FFFF < 0x1_0000_0000_0000_0000
    ensures hash as nat == Polynomial(word) % reducerNum as nat
  {
    hash := 0;
    for k := 0 to |word|
      invariant hash < reducerNum
      invariant hash as nat == Polynomial(word[..k]) % reducerNum as nat
    {
      HashStep(reducerNum as nat, Polynomial(word[..k]), word[k] as nat);
      assert word[..k + 1][..k] == word[..k];
      assert hash as nat * 31 <= 31 * (reducerNum as nat - 1);
      hash := hash * 31 + (word[k] as int) as u64;
      hash := hash % reducerNum;
    }
    assert word[..|word|] == word;
  }

  /** Which reducer a word goes to. */
  type Route = string -> nat

  /** The route the mappers take: the hash modulo the number of reducers. */
  function ByHash(n: nat): Route
    requires n > 0
  {
    w => Polynomial(w) % n
  }

  lemma ByHashInRange(n: nat, w: string)
    requires n > 0
    ensures ByHash(n)(w) < n
  {
  }

  // ----- Mapper -----

  /** How often each word occurs, in 32 bits. */
  function CountOf(words: seq<string>): Counter {
    map w | w in words :: Wrap(multiset(words)[w])
  }

  /** What a mapper counts. A build that checks for overflow panics when the counts add up to more than 32
      bits hold; one that does not wraps around. */
  function Counted(words: seq<string>, checked: bool): Option<Counter> {
    if checked && |words| >= U32_BOUND then None else Some(CountOf(words))
  }

  lemma {:induction false} CountFits(words: seq<string>, w: string)
    ensures multiset(words)[w] <= |words|
  {
    if words != [] {
      HeadTail(words);
      CountFits(words[1..], w);
    }
  }

  /** No count has wrapped around so far. */
  ghost predicate NoWrap(words: seq<string>) {
    forall w :: multiset(words)[w] < U32_BOUND
  }

  lemma CountSnoc(words: seq<string>, word: string)
    ensures var before := CountOf(words);
            CountOf(words + [word]) == before[word := Wrap((if word in before then before[word] else 0) + 1)]
  {
    var all := words + [word];
    assert multiset(all) == multiset(words) + multiset{word};
    assert word !in words ==> multiset(words)[word] == 0;
    WrapAdd(multiset(words)[word], 1);
  }

  /** One word is counted, unless the addition is checked and overflows. */
  method CountWord(counter: Counter, word: string, checked: bool, ghost done: seq<string>) returns (r: Option<Counter>)
    requires counter == CountOf(done) && (checked ==> NoWrap(done))
    ensures r.Some? ==> r.value == CountOf(done + [word]) && (checked ==> NoWrap(done + [word]))
    ensures r.None? ==> checked && |done| + 1 >= U32_BOUND
  {
    var oldCount := if word in counter then counter[word] else 0;
    assert word !in done ==> multiset(done)[word] == 0;
    assert multiset(done + [word]) == multiset(done) + multiset{word};
    if checked && oldCount + 1 >= U32_BOUND {
      CountFits(done, word);
      return None;
    }
    CountSnoc(done, word);
    r := Some(counter[word := Wrap(oldCount + 1)]);
  }

  lemma KeptSnoc(fields: seq<string>, alphanumeric: char -> bool, k: nat, done: seq<string>)
    requires k < |fields|
    ensures var word := fields[k];
            done + Kept(fields[k..], alphanumeric)
            == (if AllIn(word, alphanumeric) then done + [word] else done) + Kept(fields[k + 1..], alphanumeric)
  {
    assert fields[k..][1..] == fields[k + 1..];
    assert (done + [fields[k]]) + Kept(fields[k + 1..], alphanumeric)
        == done + ([fields[k]] + Kept(fields[k + 1..], alphanumeric));
    assert [] + Kept(fields[k + 1..], alphanumeric) == Kept(fields[k + 1..], alphanumeric);
  }

  /** The inner loop, over the fields of a line. */
  method CountFields(counter0: Counter, fields: seq<string>, alphanumeric: char -> bool, checked: bool,
                     ghost done0: seq<string>) returns (r: Option<Counter>)
    requires counter0 == CountOf(done0) && (checked ==> NoWrap(done0))
    ensures var done := done0 + Kept(fields, alphanumeric);
            && (r.Some? ==> r.value == CountOf(done) && (checked ==> NoWrap(done)))
            && (r.None? ==> checked && |done| >= U32_BOUND)
  {
    var counter := counter0;
    ghost var done, all := done0, done0 + Kept(fields, alphanumeric);
    assert fields[0..] == fields;
    for k := 0 to |fields|
      invariant counter == CountOf(done) && (checked ==> NoWrap(done))
      invariant all == done + Kept(fields[k..], alphanumeric)
    {
      KeptSnoc(fields, alphanumeric, k, done);
      if AllIn(fields[k], alphanumeric) {
        var next := CountWord(counter, fields[k], checked, done);
        if next.None? {
          return None;
        }
        counter, done := next.value, done + [fields[k]];
      }
    }
    assert done == all;
    r := Some(counter);
  }

  lemma WordsSnoc(lines: seq<string>, alphanumeric: char -> bool, k: nat, done: seq<string>)
    requires k < |lines|
    ensures done + WordsOf(lines[k..], alphanumeric)
         == (done + Kept(SplitOn(Trim(lines[k]), ' '), alphanumeric)) + WordsOf(lines[k + 1..], alphanumeric)
  {
    assert lines[k..][1..] == lines[k + 1..];
  }

  /** The counting loops, on the lines of the file. */
  method CountLines(lines: seq<string>, alphanumeric: char -> bool, checked: bool) returns (r: Option<Counter>)
    ensures var words := WordsOf(lines, alphanumeric);
            && (r.Some? ==> r.value == CountOf(words) && (checked ==> NoWrap(words)))
            && (r.None? ==> checked && |words| >= U32_BOUND)
  {
    var counter: Counter := map[];
    ghost var done: seq<string>, words := [], WordsOf(lines, alphanumeric);
    assert lines[0..] == lines && done + words == words;
    for k := 0 to |lines|
      invariant counter == CountOf(done) && (checked ==> NoWrap(done))
      invariant words == done + WordsOf(lines[k..], alphanumeric)
    {
      WordsSnoc(lines, alphanumeric, k, done);
      var fields := SplitOn(Trim(lines[k]), ' ');
      var next := CountFields(counter, fields, alphanumeric, checked, done);
      done := done + Kept(fields, alphanumeric);
      if next.None? {
        return None;
      }
      counter := next.value;
    }
    assert done == words;
    r := Some(counter);
  }

  /** How many of the words are among the given ones. */
  ghost function Occurrences(words: seq<string>, keys: set<string>): nat {
    if words == [] then 0 else (if words[0] in keys then 1 else 0) + Occurrences(words[1..], keys)
  }

  lemma {:induction false} OccurrencesOfOne(words: seq<string>, keys: set<string>, w: string)
    requires w !in keys
    ensures Occurrences(words, keys + {w}) == Occurrences(words, keys) + multiset(words)[w]
  {
    if words != [] {
      OccurrencesOfOne(words[1..], keys, w);
      HeadTail(words);
    }
  }

  lemma {:induction false} OccurrencesBound(words: seq<string>, keys: set<string>)
    ensures Occurrences(words, keys) <= |words|
    ensures (forall w :: w in words ==> w in keys) ==> Occurrences(words, keys) == |words|
    ensures keys == {} ==> Occurrences(words, keys) == 0
  {
    if words != [] {
      OccurrencesBound(words[1..], keys);
      assert words[0] in words;
    }
  }

  /** The sum of all counts, which is only printed, but panics when it is checked and overflows. */
  method SumCounts(counter: Counter, checked: bool, ghost words: seq<string>) returns (ok: bool)
    requires counter == CountOf(words) && (checked ==> NoWrap(words))
    ensures ok <==> !checked || |words| < U32_BOUND
  {
    var total: nat, rest := 0, counter.Keys;
    ghost var done: set<string> := {};
    OccurrencesBound(words, {});
    while rest != {}
      invariant done !! rest && done + rest == counter.Keys
      invariant checked ==> total == Occurrences(words, done) < U32_BOUND
      decreases rest
    {
      var w :| w in rest;
      OccurrencesOfOne(words, done, w);
      OccurrencesBound(words, done + {w});
      if checked && total + counter[w] >= U32_BOUND {
        return false;
      }
      total := Wrap(total + counter[w]);
      done, rest := done + {w}, rest - {w};
    }
    OccurrencesBound(words, done);
    ok := true;
  }

  /** What the mapper does with its file before it shuffles. */
  method CountWords(content: string, alphanumeric: char -> bool, checked: bool) returns (r: Option<Counter>)
    ensures r == Counted(Words(content, alphanumeric), checked)
  {
    r := CountLines(Lines(content), alphanumeric, checked);
    if r.Some? {
      var ok := SumCounts(r.value, checked, Words(content, alphanumeric));
      if !ok {
        return None;
      }
    }
  }

  /** The part of a counter that goes to reducer `j`. */
  function Shard(counter: Counter, route: Route, j: nat): Counter {
    map w | w in counter && route(w) == j :: counter[w]
  }

  /** The shuffle loop, over the words of the counter in whatever order the hash map yields them. */
  method Shuffle(counter: Counter, reducers: u64) returns (buffers: seq<Counter>)
    requires reducers > 0 && 31 * (reducers as nat - 1) + 0x10FFFF < 0x1_0000_0000_0000_0000
    ensures |buffers| == reducers as nat
    ensures forall j :: 0 <= j < |buffers| ==> buffers[j] == Shard(counter, ByHash(|buffers|), j)
  {
    var n := reducers as nat;
    buffers := seq(n, _ => map[]);
    var rest := counter.Keys;
    while rest != {}
      invariant rest <= counter.Keys && |buffers| == n
      invariant forall j :: 0 <= j < n ==> buffers[j] == Shard(counter - rest, ByHash(n), j)
      decreases rest
    {
      var word :| word in rest;
      var hash := GetIdx(word, reducers);
      var idx := hash as nat;
      ShardGrows(counter, rest, ByHash(n), word);
      buffers := buffers[idx := buffers[idx][word := counter[word]]];
      rest := rest - {word};
    }
    assert counter - rest == counter;
  }

  lemma ShardGrows(counter: Counter, rest: set<string>, route: Route, w: string)
    requires w in rest && rest <= counter.Keys
    ensures Shard(counter - (rest - {w}), route, route(w)) == Shard(counter - rest, route, route(w))[w := counter[w]]
    ensures forall j :: j != route(w) ==> Shard(counter - (rest - {w}), route, j) == Shard(counter - rest, route, j)
  {
  }

  // ----- Reducer -----

  /** The sum of a word's counts in the given counters. */
  function Sum(shuffles: seq<Counter>, w: string): nat {
    if shuffles == [] then 0
    else Sum(shuffles[..|shuffles| - 1], w) + CountIn(shuffles[|shuffles| - 1], w)
  }

  function CountIn(counter: Counter, w: string): nat {
    if w in counter then counter[w] else 0
  }

  function AllKeys(shuffles: seq<Counter>): set<string> {
    if shuffles == [] then {} else AllKeys(shuffles[..|shuffles| - 1]) + shuffles[|shuffles| - 1].Keys
  }

  /** The sums of the given counters, in 32 bits. */
  function TotalOf(shuffles: seq<Counter>): Counter {
    map w | w in AllKeys(shuffles) :: Wrap(Sum(shuffles, w))
  }

  ghost predicate SumsFit(shuffles: seq<Counter>) {
    forall w :: Sum(shuffles, w) < U32_BOUND
  }

  /** What a reducer ends with: in a build that checks for overflow only if all sums fit. */
  ghost function Reduced(shuffles: seq<Counter>, checked: bool): Option<Counter> {
    if checked && !SumsFit(shuffles) then None else Some(TotalOf(shuffles))
  }

  lemma {:induction false} SumGrows(shuffles: seq<Counter>, i: nat, w: string)
    requires i <= |shuffles|
    ensures Sum(shuffles[..i], w) <= Sum(shuffles, w)
  {
    if i == |shuffles| {
      assert shuffles[..i] == shuffles;
    } else {
      var init := shuffles[..|shuffles| - 1];
      SumGrows(init, i, w);
      assert init[..i] == shuffles[..i];
    }
  }

  lemma {:induction false} SumElsewhere(shuffles: seq<Counter>, w: string)
    requires w !in AllKeys(shuffles)
    ensures Sum(shuffles, w) == 0
  {
    if shuffles != [] { SumElsewhere(shuffles[..|shuffles| - 1], w); }
  }

  /** The counter in the middle of a shuffle: the words of `rest` are still to be added. */
  ghost predicate Adding(counter: Counter, before: seq<Counter>, shuffle: Counter, rest: set<string>) {
    && (forall w :: w in counter <==> w in AllKeys(before) || (w in shuffle && w !in rest))
    && (forall w :: w in counter ==> counter[w] == Wrap(Sum(before, w) + Added(shuffle, rest, w)))
  }

  ghost function Added(shuffle: Counter, rest: set<string>, w: string): nat {
    if w in shuffle && w !in rest then shuffle[w] else 0
  }

  lemma AddingStarts(counter: Counter, before: seq<Counter>, shuffle: Counter)
    requires counter == TotalOf(before)
    ensures Adding(counter, before, shuffle, shuffle.Keys)
  {
  }

  lemma AddOne(counter: Counter, before: seq<Counter>, shuffle: Counter, rest: set<string>, w: string)
    requires Adding(counter, before, shuffle, rest) && w in rest && rest <= shuffle.Keys
    ensures CountIn(counter, w) == Wrap(Sum(before, w))
    ensures Adding(counter[w := Wrap(CountIn(counter, w) + shuffle[w])], before, shuffle, rest - {w})
  {
    if w !in counter { SumElsewhere(before, w); }
    WrapAdd(Sum(before, w), shuffle[w]);
    AddingOn(counter, before, shuffle, rest, w, Wrap(CountIn(counter, w) + shuffle[w]));
  }

  lemma AddingOn(counter: Counter, before: seq<Counter>, shuffle: Counter, rest: set<string>, w: string, x: nat)
    requires Adding(counter, before, shuffle, rest) && w in rest && rest <= shuffle.Keys
    requires x == Wrap(Sum(before, w) + shuffle[w])
    ensures Adding(counter[w := x], before, shuffle, rest - {w})
  {
    var next := counter[w := x];
    forall v | v in next ensures next[v] == Wrap(Sum(before, v) + Added(shuffle, rest - {w}, v)) {
      if v != w { assert Added(shuffle, rest - {w}, v) == Added(shuffle, rest, v); }
    }
  }

  ghost predicate AddedFit(before: seq<Counter>, shuffle: Counter, rest: set<string>) {
    forall w :: w in shuffle && w !in rest ==> Sum(before, w) + shuffle[w] < U32_BOUND
  }

  lemma AddOneFits(before: seq<Counter>, shuffle: Counter, rest: set<string>, w: string)
    requires AddedFit(before, shuffle, rest) && w in shuffle && Sum(before, w) + shuffle[w] < U32_BOUND
    ensures AddedFit(before, shuffle, rest - {w})
  {
  }

  lemma SumSnoc(before: seq<Counter>, shuffle: Counter, w: string)
    ensures Sum(before + [shuffle], w) == Sum(before, w) + CountIn(shuffle, w)
  {
    assert (before + [shuffle])[..|before|] == before;
  }

  /** The loop over the words of one mapper's shuffle, in whatever order. */
  method AddWords(counter0: Counter, shuffle: Counter, checked: bool, ghost before: seq<Counter>)
    returns (r: Option<Counter>)
    requires counter0 == TotalOf(before) && (checked ==> SumsFit(before))
    ensures r.None? ==> checked && !SumsFit(before + [shuffle])
    ensures r.Some? ==> Adding(r.value, before, shuffle, {})
    ensures r.Some? && checked ==> AddedFit(before, shuffle, {})
  {
    var counter: Counter, rest := counter0, shuffle.Keys;
    AddingStarts(counter0, before, shuffle);
    while rest != {}
      invariant rest <= shuffle.Keys && Adding(counter, before, shuffle, rest)
      invariant checked ==> AddedFit(before, shuffle, rest)
      decreases rest
    {
      var word :| word in rest;
      AddOne(counter, before, shuffle, rest, word);
      var oldCount := if word in counter then counter[word] else 0;
      if checked && oldCount + shuffle[word] >= U32_BOUND {
        SumSnoc(before, shuffle, word);
        return None;
      }
      if checked { AddOneFits(before, shuffle, rest, word); }
      counter := counter[word := Wrap(oldCount + shuffle[word])];
      rest := rest - {word};
    }
    r := Some(counter);
  }

  /** One mapper's shuffle is added. */
  method AddShuffle(counter0: Counter, shuffle: Counter, checked: bool, ghost before: seq<Counter>)
    returns (r: Option<Counter>)
    requires counter0 == TotalOf(before) && (checked ==> SumsFit(before))
    ensures r.None? <==> checked && !SumsFit(before + [shuffle])
    ensures r.Some? ==> r.value == TotalOf(before + [shuffle])
  {
    r := AddWords(counter0, shuffle, checked, before);
    if r.Some? {
      AddedAll(r.value, before, shuffle);
      forall w | checked ensures Sum(before + [shuffle], w) < U32_BOUND {
        SumSnoc(before, shuffle, w);
        assert Sum(before, w) < U32_BOUND;
      }
    }
  }

  lemma AddedAll(counter: Counter, before: seq<Counter>, shuffle: Counter)
    requires Adding(counter, before, shuffle, {})
    ensures counter == TotalOf(before + [shuffle])
  {
    var all := before + [shuffle];
    assert all[..|before|] == before;
    forall w | w in counter ensures counter[w] == Wrap(Sum(all, w)) {
      SumSnoc(before, shuffle, w);
    }
    forall w ensures w in counter <==> w in TotalOf(all) {
      assert AllKeys(all) == AllKeys(before) + shuffle.Keys;
    }
  }

  /** The loop of the reducer over its mappers. */
  method Reduce(shuffles: seq<Counter>, checked: bool) returns (r: Option<Counter>)
    ensures r == Reduced(shuffles, checked)
  {
    var counter: Counter := map[];
    assert TotalOf([]) == map[];
    for i := 0 to |shuffles|
      invariant counter == TotalOf(shuffles[..i]) && (checked ==> SumsFit(shuffles[..i]))
    {
      assert shuffles[..i + 1] == shuffles[..i] + [shuffles[i]];
      var next := AddShuffle(counter, shuffles[i], checked, shuffles[..i]);
      if next.None? {
        var w :| Sum(shuffles[..i + 1], w) >= U32_BOUND;
        SumGrows(shuffles, i + 1, w);
        return None;
      }
      counter := next.value;
    }
    assert shuffles[..|shuffles|] == shuffles;
    r := Some(counter);
  }

  // ----- Conservation -----

  ghost function Column(texts: seq<seq<string>>, route: Route, j: nat): (r: seq<Counter>)
    ensures |r| == |texts| && forall i :: 0 <= i < |r| ==> r[i] == Shard(CountOf(texts[i]), route, j)
  {
    seq(|texts|, i requires 0 <= i < |texts| => Shard(CountOf(texts[i]), route, j))
  }

  lemma CountInShard(words: seq<string>, route: Route, j: nat, w: string)
    ensures CountIn(Shard(CountOf(words), route, j), w) == if route(w) == j then Wrap(multiset(words)[w]) else 0
    ensures w in Shard(CountOf(words), route, j) <==> w in words && route(w) == j
  {
  }

  /** No mapper has more words than 32 bits count. */
  ghost predicate TextsFit(texts: seq<seq<string>>) {
    forall i :: 0 <= i < |texts| ==> |texts[i]| < U32_BOUND
  }

  ghost function Total(texts: seq<seq<string>>, w: string): nat {
    multiset(Concat(texts))[w]
  }

  lemma TotalOfLast(texts: seq<seq<string>>, w: string)
    requires texts != []
    ensures Total(texts, w) == Total(texts[..|texts| - 1], w) + multiset(texts[|texts| - 1])[w]
  {
    var init, last := texts[..|texts| - 1], texts[|texts| - 1];
    assert texts == init + [last];
    ConcatSnoc(init, last);
    assert multiset(Concat(texts)) == multiset(Concat(init)) + multiset(last);
  }

  lemma SumOfLast(texts: seq<seq<string>>, route: Route, j: nat, w: string)
    requires texts != []
    ensures Sum(Column(texts, route, j), w) == Sum(Column(texts[..|texts| - 1], route, j), w)
                                           + if route(w) == j then Wrap(multiset(texts[|texts| - 1])[w]) else 0
  {
    var init, last := texts[..|texts| - 1], texts[|texts| - 1];
    assert Column(texts, route, j)[..|texts| - 1] == Column(init, route, j);
    CountInShard(last, route, j, w);
  }

  lemma {:induction false} SameWrap(s: nat, t: nat, a: nat, b: nat, c: nat)
    requires s == a + Wrap(c) && t == b + c && Wrap(a) == Wrap(b)
    ensures Wrap(s) == Wrap(t)
    decreases c
  {
    if c < U32_BOUND {
      WrapBoth(a, b, c);
    } else {
      SameWrap(s, t - U32_BOUND, a, b, c - U32_BOUND);
    }
  }

  lemma WrapBoth(a: nat, b: nat, d: nat)
    requires Wrap(a) == Wrap(b)
    ensures Wrap(a + d) == Wrap(b + d)
  {
    WrapAdd(a, d);
    WrapAdd(b, d);
  }

  lemma {:induction false} SumMisses(texts: seq<seq<string>>, route: Route, j: nat, w: string)
    requires route(w) != j
    ensures Sum(Column(texts, route, j), w) == 0
  {
    if texts != [] {
      SumMisses(texts[..|texts| - 1], route, j, w);
      SumOfLast(texts, route, j, w);
    }
  }

  lemma {:induction false} SumWraps(texts: seq<seq<string>>, route: Route, w: string)
    ensures Wrap(Sum(Column(texts, route, route(w)), w)) == Wrap(Total(texts, w))
  {
    if texts != [] {
      var init, last := texts[..|texts| - 1], texts[|texts| - 1];
      var j := route(w);
      SumWraps(init, route, w);
      SumOfLast(texts, route, j, w);
      TotalOfLast(texts, w);
      SameWrap(Sum(Column(texts, route, j), w), Total(texts, w), Sum(Column(init, route, j), w), Total(init, w),
               multiset(last)[w]);
    }
  }

  lemma {:induction false} SumExact(texts: seq<seq<string>>, route: Route, w: string)
    requires TextsFit(texts)
    ensures Sum(Column(texts, route, route(w)), w) == Total(texts, w)
  {
    if texts != [] {
      SumExact(texts[..|texts| - 1], route, w);
      SumOfLast(texts, route, route(w), w);
      TotalOfLast(texts, w);
      CountFits(texts[|texts| - 1], w);
    }
  }

  /** What a reducer finds for a word adds up to its occurrences in all texts, up to 32 bits; exactly, if no
      mapper has wrapped around; and to nothing if the word goes elsewhere. */
  lemma SumOfShards(texts: seq<seq<string>>, route: Route, j: nat, w: string)
    ensures route(w) != j ==> Sum(Column(texts, route, j), w) == 0
    ensures route(w) == j ==> Wrap(Sum(Column(texts, route, j), w)) == Wrap(Total(texts, w))
    ensures route(w) == j && TextsFit(texts) ==> Sum(Column(texts, route, j), w) == Total(texts, w)
  {
    if route(w) != j { SumMisses(texts, route, j, w); }
    SumWraps(texts, route, w);
    if TextsFit(texts) { SumExact(texts, route, w); }
  }

  lemma {:induction false} KeysOfColumn(texts: seq<seq<string>>, route: Route, j: nat, w: string)
    ensures w in AllKeys(Column(texts, route, j)) <==> Total(texts, w) > 0 && route(w) == j
  {
    if texts != [] {
      var init, last := texts[..|texts| - 1], texts[|texts| - 1];
      KeysOfColumn(init, route, j, w);
      assert Column(texts, route, j)[..|texts| - 1] == Column(init, route, j);
      CountInShard(last, route, j, w);
      TotalOfLast(texts, w);
      assert w in last <==> multiset(last)[w] > 0;
    }
  }

  /** A reducer's share of the word count of all texts: the words its number is the hash of, with the
      number of their occurrences in all texts in 32 bits, and no others. */
  ghost predicate IsShare(texts: seq<seq<string>>, route: Route, counter: Counter, j: nat)
  {
    && (forall w :: w in counter <==> Total(texts, w) > 0 && route(w) == j)
    && (forall w :: w in counter ==> counter[w] == Wrap(Total(texts, w)))
  }

  /** What a reducer adds up from its column of the shuffles is its share of the word count. */
  lemma WordsConserved(texts: seq<seq<string>>, route: Route, j: nat)
    ensures IsShare(texts, route, TotalOf(Column(texts, route, j)), j)
  {
    forall w
      ensures w in AllKeys(Column(texts, route, j)) <==> Total(texts, w) > 0 && route(w) == j
      ensures route(w) == j ==> Wrap(Sum(Column(texts, route, j), w)) == Wrap(Total(texts, w))
    {
      KeysOfColumn(texts, route, j, w);
      SumOfShards(texts, route, j, w);
    }
  }

  /** The shares do not overlap, and together they hold every word. */
  lemma SharesPartition(texts: seq<seq<string>>, route: Route, n: nat, counters: seq<Counter>, w: string)
    requires route(w) < n == |counters| && forall j :: 0 <= j < n ==> IsShare(texts, route, counters[j], j)
    ensures w in Concat(texts) <==> exists j :: 0 <= j < n && w in counters[j]
    ensures forall i, j :: 0 <= i < n && 0 <= j < n && w in counters[i] && w in counters[j] ==> i == j
  {
    forall j | 0 <= j < n ensures w in counters[j] <==> Total(texts, w) > 0 && route(w) == j {
      assert IsShare(texts, route, counters[j], j);
    }
    if w in Concat(texts) { assert w in counters[route(w)]; }
  }

  /** All counts fit 32 bits: those of each mapper, and the total of every word. */
  ghost predicate CountsFit(texts: seq<seq<string>>) {
    TextsFit(texts) && forall w :: Total(texts, w) < U32_BOUND
  }

  /** Where the mappers' counts fit, the reducers' sums fit if and only if the totals do. */
  lemma SumsFitIff(texts: seq<seq<string>>, route: Route, n: nat)
    requires TextsFit(texts) && forall w :: route(w) < n
    ensures (forall j :: 0 <= j < n ==> SumsFit(Column(texts, route, j))) <==> CountsFit(texts)
  {
    if CountsFit(texts) {
      forall j, w | 0 <= j < n ensures Sum(Column(texts, route, j), w) < U32_BOUND {
        SumOfShards(texts, route, j, w);
      }
    } else {
      var w :| Total(texts, w) >= U32_BOUND;
      SumOfShards(texts, route, route(w), w);
      assert !SumsFit(Column(texts, route, route(w)));
    }
  }
}
