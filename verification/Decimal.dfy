/** Decimal text: the number lists exchanged as comma-separated text
    (baseline/parallel_sort/splitter-rust/src/lib.rs) and the numbers inside slot names. */
module Decimal {
  import opened Seqs
  import opened ByteSeqs

  // ----- Digits -----

  predicate IsDigit(c: char) {
    '0' <= c <= '9'
  }

  predicate AllDigits(s: string) {
    forall i :: 0 <= i < |s| ==> IsDigit(s[i])
  }

  function Digit(d: nat): (c: char)
    requires d < 10
    ensures IsDigit(c) && c as int == '0' as int + d
  {
    '0' + d as char
  }

  /** `to_string` of an unsigned integer. */
  function ToString(n: nat): (s: string)
    ensures s != [] && AllDigits(s)
  {
    if n < 10 then [Digit(n)] else ToString(n / 10) + [Digit(n % 10)]
  }

  /** The number a digit string stands for. */
  function Value(s: string): nat
    requires AllDigits(s)
  {
    if s == [] then 0 else 10 * Value(s[..|s| - 1]) + (s[|s| - 1] as int - '0' as int)
  }

  lemma {:induction false} ValueOfToString(n: nat)
    ensures Value(ToString(n)) == n
  {
    if n >= 10 {
      ValueOfToString(n / 10);
      var s := ToString(n);
      assert s[..|s| - 1] == ToString(n / 10);
    }
  }

  lemma ToStringInjective(m: nat, n: nat)
    requires ToString(m) == ToString(n)
    ensures m == n
  {
    ValueOfToString(m);
    ValueOfToString(n);
  }

  /** A number followed by something that does not start with a digit can be read back. */
  lemma {:induction false} DigitsThenRest(a: string, x: string, b: string, y: string)
    requires AllDigits(a) && AllDigits(b)
    requires x == [] || !IsDigit(x[0])
    requires y == [] || !IsDigit(y[0])
    requires a + x == b + y
    ensures a == b && x == y
  {
    if a != [] && b != [] {
      assert a[0] == (a + x)[0] == b[0];
      assert a[1..] + x == (a + x)[1..] == b[1..] + y;
      DigitsThenRest(a[1..], x, b[1..], y);
      assert a == [a[0]] + a[1..] && b == [b[0]] + b[1..];
    } else {
      assert a == [] ==> (a + x) == x;
      assert b == [] ==> (b + y) == y;
    }
  }

  // ----- Fields -----

  /** The fields between separators, as `str::split` gives them: always at least one. */
  function SplitOn(s: string, c: char): (fields: seq<string>)
    ensures |fields| >= 1
  {
    if s == [] then [[]]
    else
      var fields := SplitOn(s[1..], c);
      if s[0] == c then [[]] + fields else [[s[0]] + fields[0]] + fields[1..]
  }

  /** `join` with a one-character separator. */
  function Join(fields: seq<string>, c: char): string {
    if fields == [] then [] else if |fields| == 1 then fields[0] else fields[0] + [c] + Join(fields[1..], c)
  }

  lemma {:induction false} SplitOnWhole(s: string, c: char)
    requires c !in s
    ensures SplitOn(s, c) == [s]
  {
    if s != [] {
      SplitOnWhole(s[1..], c);
      assert s == [s[0]] + s[1..];
    }
  }

  lemma {:induction false} SplitOnFirst(s: string, t: string, c: char)
    requires c !in s
    ensures SplitOn(s + [c] + t, c) == [s] + SplitOn(t, c)
  {
    var u := s + [c] + t;
    if s == [] {
      assert u == [c] + t && u[1..] == t;
    } else {
      SplitOnFirst(s[1..], t, c);
      assert u[1..] == s[1..] + [c] + t && u[0] == s[0];
      var fields := [s[1..]] + SplitOn(t, c);
      assert fields[1..] == SplitOn(t, c) && fields[0] == s[1..];
      assert [s[0]] + s[1..] == s;
    }
  }

  lemma {:induction false} SplitOfJoin(fields: seq<string>, c: char)
    requires fields != [] && forall i :: 0 <= i < |fields| ==> c !in fields[i]
    ensures SplitOn(Join(fields, c), c) == fields
  {
    if |fields| == 1 {
      SplitOnWhole(fields[0], c);
    } else {
      SplitOfJoin(fields[1..], c);
      SplitOnFirst(fields[0], Join(fields[1..], c), c);
      assert fields == [fields[0]] + fields[1..];
    }
  }

  /** The code points `str::trim` removes: Unicode White_Space. */
  predicate IsSpace(c: char) {
    var n := c as int;
    || 0x09 <= n <= 0x0D || n == 0x20 || n == 0x85 || n == 0xA0 || n == 0x1680
    || 0x2000 <= n <= 0x200A || n == 0x2028 || n == 0x2029 || n == 0x202F || n == 0x205F || n == 0x3000
  }

  function TrimStart(s: string): string {
    if s != [] && IsSpace(s[0]) then TrimStart(s[1..]) else s
  }

  function TrimEnd(s: string): string {
    if s != [] && IsSpace(s[|s| - 1]) then TrimEnd(s[..|s| - 1]) else s
  }

  function Trim(s: string): string {
    TrimEnd(TrimStart(s))
  }

  lemma TrimDigits(s: string)
    requires AllDigits(s)
    ensures Trim(s) == s
  {
    if s != [] { assert IsDigit(s[0]) && IsDigit(s[|s| - 1]); }
  }

  /** `str::parse::<u32>`: an optional plus sign, then at least one digit, in range. */
  function ParseU32(s: string): (r: Option<nat>)
    ensures r.Some? ==> r.value < U32_BOUND
  {
    var digits := if s != [] && s[0] == '+' then s[1..] else s;
    if digits != [] && AllDigits(digits) && Value(digits) < U32_BOUND then Some(Value(digits)) else None
  }

  // ----- Number lists -----

  /** The numbers of the fields; empty fields are skipped, any other bad field spoils the list. */
  function ParseFields(fields: seq<string>): Option<seq<int>> {
    if fields == [] then Some([])
    else
      var field := Trim(fields[0]);
      var rest := ParseFields(fields[1..]);
      if field == [] then rest
      else
        match ParseU32(field)
        case Some(n) => if rest.Some? then Some([n] + rest.value) else None
        case None => None
  }

  function Parse(text: string): Option<seq<int>> {
    ParseFields(SplitOn(text, ','))
  }

  /** `dump_to_string`. */
  function Dump(numbers: seq<int>): string
    requires forall i :: 0 <= i < |numbers| ==> 0 <= numbers[i]
  {
    Join(seq(|numbers|, i requires 0 <= i < |numbers| => ToString(numbers[i])), ',')
  }

  ghost function Prepend(numbers: seq<int>, rest: Option<seq<int>>): Option<seq<int>> {
    if rest.Some? then Some(numbers + rest.value) else None
  }

  lemma PrependNothing(numbers: seq<int>, r: Option<seq<int>>)
    ensures Prepend([], r) == r && Prepend(numbers, Some([])) == Some(numbers)
  {
    assert numbers + [] == numbers;
    if r.Some? { assert [] + r.value == r.value; }
  }

  lemma FieldStep(fields: seq<string>, k: nat, numbers: seq<int>)
    requires k < |fields|
    ensures var field := Trim(fields[k]);
            Prepend(numbers, ParseFields(fields[k..]))
            == if field == [] then Prepend(numbers, ParseFields(fields[k + 1..]))
               else if ParseU32(field).Some? then
                 Prepend(numbers + [ParseU32(field).value], ParseFields(fields[k + 1..]))
               else None
  {
    var rest := ParseFields(fields[k + 1..]);
    assert fields[k..][1..] == fields[k + 1..] && fields[k..][0] == fields[k];
    if rest.Some? && ParseU32(Trim(fields[k])).Some? {
      var n: int := ParseU32(Trim(fields[k])).value;
      assert numbers + ([n] + rest.value) == (numbers + [n]) + rest.value;
    }
  }

  /** The loop of `parse_to_vec`, which is also the parsing loop of the sorter. */
  method ParseToVec(text: string) returns (result: Option<seq<int>>)
    ensures result == Parse(text)
  {
    var fields := SplitOn(text, ',');
    result := ParseLoop(fields);
  }

  method ParseLoop(fields: seq<string>) returns (result: Option<seq<int>>)
    ensures result == ParseFields(fields)
  {
    var numbers: seq<int> := [];
    ghost var parsed := ParseFields(fields);
    assert fields[0..] == fields;
    PrependNothing(numbers, parsed);
    for k := 0 to |fields|
      invariant parsed == Prepend(numbers, ParseFields(fields[k..]))
    {
      FieldStep(fields, k, numbers);
      var num := Trim(fields[k]);
      if num == [] {
        continue;
      }
      match ParseU32(num) {
        case Some(n) =>
          numbers := numbers + [n];
        case None =>
          return None;
      }
    }
    PrependNothing(numbers, parsed);
    result := Some(numbers);
  }

  lemma {:induction false} ParseFieldsOfNumbers(numbers: seq<int>, fields: seq<string>)
    requires |fields| == |numbers|
    requires forall i :: 0 <= i < |numbers| ==> 0 <= numbers[i] < U32_BOUND && fields[i] == ToString(numbers[i])
    ensures ParseFields(fields) == Some(numbers)
  {
    if fields != [] {
      ParseFieldsOfNumbers(numbers[1..], fields[1..]);
      TrimDigits(fields[0]);
      ValueOfToString(numbers[0]);
      assert fields[0][0] != '+';
      assert numbers == [numbers[0]] + numbers[1..];
    }
  }

  /** Dumping and parsing gives every list of `u32` back, the empty one included. */
  lemma ParseOfDump(numbers: seq<int>)
    requires forall i :: 0 <= i < |numbers| ==> 0 <= numbers[i] < U32_BOUND
    ensures Parse(Dump(numbers)) == Some(numbers)
  {
    var fields := seq(|numbers|, i requires 0 <= i < |numbers| => ToString(numbers[i]));
    if numbers == [] {
      assert SplitOn("", ',') == [""];
      assert ParseFields([""]) == Some([]) by { assert [""][1..] == []; }
    } else {
      forall i | 0 <= i < |fields| ensures ',' !in fields[i] {
        assert AllDigits(fields[i]);
      }
      SplitOfJoin(fields, ',');
      ParseFieldsOfNumbers(numbers, fields);
    }
  }
}
