/** The slot names the functions of the sort and word-count workflows agree on. */
module SlotNames {
  import opened Decimal
  import opened Workflow

  function InputSlot(i: nat): Slot { "input-part-" + ToString(i) }
  function SortedSlot(i: nat): Slot { "sorter-resp-part-" + ToString(i) }
  function PivotSlot(i: nat): Slot { "pivots-" + ToString(i) }
  function PartSlot(i: nat, j: nat): Slot { "splitter-" + ToString(i) + "-resp-part-" + ToString(j) }
  function ResultSlot(j: nat): Slot { "merge_result_" + ToString(j) }
  function ShuffleSlot(i: nat, j: nat): Slot { ToString(i) + "-" + ToString(j) }

  lemma SamePrefix(p: string, x: string, y: string)
    requires p + x == p + y
    ensures x == y
  {
    assert (p + x)[|p|..] == x && (p + y)[|p|..] == y;
  }

  /** A prefix and a number: different numbers give different names. */
  lemma NumberedInjective(p: string, i: nat, j: nat)
    requires p + ToString(i) == p + ToString(j)
    ensures i == j
  {
    SamePrefix(p, ToString(i), ToString(j));
    ToStringInjective(i, j);
  }

  /** Two numbers around a separator that does not start with a digit. */
  lemma PairInjective(sep: string, i: nat, j: nat, k: nat, l: nat)
    requires sep != [] && !IsDigit(sep[0])
    requires ToString(i) + sep + ToString(j) == ToString(k) + sep + ToString(l)
    ensures i == k && j == l
  {
    PairSplits(ToString(i), ToString(j), sep, ToString(k), ToString(l));
    ToStringInjective(i, k);
    ToStringInjective(j, l);
  }

  lemma PairSplits(a: string, b: string, sep: string, c: string, d: string)
    requires AllDigits(a) && AllDigits(c) && sep != [] && !IsDigit(sep[0])
    requires a + sep + b == c + sep + d
    ensures a == c && b == d
  {
    assert a + sep + b == a + (sep + b) && c + sep + d == c + (sep + d);
    DigitsThenRest(a, sep + b, c, sep + d);
    SamePrefix(sep, b, d);
  }

  lemma PartSlotInjective(i: nat, j: nat, k: nat, l: nat)
    requires PartSlot(i, j) == PartSlot(k, l)
    ensures i == k && j == l
  {
    var p, sep := "splitter-", "-resp-part-";
    assert PartSlot(i, j) == p + (ToString(i) + sep + ToString(j));
    assert PartSlot(k, l) == p + (ToString(k) + sep + ToString(l));
    SamePrefix(p, ToString(i) + sep + ToString(j), ToString(k) + sep + ToString(l));
    PairInjective(sep, i, j, k, l);
  }

  lemma ShuffleSlotInjective(i: nat, j: nat, k: nat, l: nat)
    requires ShuffleSlot(i, j) == ShuffleSlot(k, l)
    ensures i == k && j == l
  {
    PairInjective("-", i, j, k, l);
  }

  /** The group of the sort workflow that takes the slot, told from its first two letters. */
  function SortStage(s: Slot): nat {
    if |s| < 2 then 0
    else if s[0] == 'i' then 1
    else if s[0] == 's' && s[1] == 'o' then 2
    else if s[0] == 'p' then 2
    else if s[0] == 's' then 3
    else if s[0] == 'm' then 4
    else 0
  }

  lemma StageOfSlots(i: nat, j: nat)
    ensures SortStage(InputSlot(i)) == 1
    ensures SortStage(SortedSlot(i)) == 2 && SortStage(PivotSlot(i)) == 2 && SortedSlot(i) != PivotSlot(j)
    ensures SortStage(PartSlot(i, j)) == 3
    ensures SortStage(ResultSlot(j)) == 4
  {
    assert InputSlot(i)[..2] == "in";
    assert SortedSlot(i)[..2] == "so" && PivotSlot(j)[..2] == "pi" && PivotSlot(i)[..2] == "pi";
    assert PartSlot(i, j)[..2] == "sp";
    assert ResultSlot(j)[..2] == "me";
  }
}
