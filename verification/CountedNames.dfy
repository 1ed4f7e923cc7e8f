/**
 `counted_names` and `parse_counted_names`
 (scripts/verify_task6_deleted_test_parity.py): a multiset of names as sorted
 `name:count` items, and back.
 */
module CountedNames {
  import opened Outcome
  import opened Sorting
  import opened Delimited

  datatype Failure = Malformed

  type Counts = multiset<string>

  // ----- Decimal numbers -----

  predicate IsDigit(c: char) { '0' <= c <= '9' }

  /** `isdigit`, on ASCII. */
  predicate IsDigits(s: string) { s != "" && forall k :: 0 <= k < |s| ==> IsDigit(s[k]) }

  function DigitChar(d: nat): char
    requires d < 10
  {
    '0' + d as char
  }

  function DigitValue(c: char): nat
    requires IsDigit(c)
  {
    c as int - '0' as int
  }

  function Decimal(n: nat): (s: string)
    ensures IsDigits(s)
  {
    if n < 10 then [DigitChar(n)] else Decimal(n / 10) + [DigitChar(n % 10)]
  }

  /** `int`, on ASCII digits. */
  function Value(s: string): nat
    requires forall k :: 0 <= k < |s| ==> IsDigit(s[k])
  {
    if s == "" then 0 else 10 * Value(s[..|s| - 1]) + DigitValue(s[|s| - 1])
  }

  lemma {:induction false} ValueDecimal(n: nat)
    ensures Value(Decimal(n)) == n
  {
    if n < 10 {
      assert Decimal(n)[..0] == "";
    } else {
      ValueDecimal(n / 10);
      assert Decimal(n)[..|Decimal(n)| - 1] == Decimal(n / 10);
    }
  }

  // ----- Printing -----

  /** The distinct names in order. */
  function SortedKeys(names: seq<string>): seq<string> {
    if names == [] then []
    else
      var rest := SortedKeys(names[1..]);
      if names[0] in rest then rest else Insert(names[0], rest, StringLeq)
  }

  lemma {:induction false} KeysFacts(names: seq<string>)
    ensures Distinct(SortedKeys(names)) && Ordered(SortedKeys(names), StringLeq)
    ensures forall x :: x in SortedKeys(names) <==> x in names
  {
    if names != [] {
      var rest := SortedKeys(names[1..]);
      KeysFacts(names[1..]);
      assert names == [names[0]] + names[1..];
      if names[0] !in rest {
        InsertDistinct(names[0], rest, StringLeq);
        StringTotal();
        InsertOrdered(names[0], rest, StringLeq);
        forall x ensures x in SortedKeys(names) <==> x in names { InsertElements(names[0], rest, StringLeq, x); }
      }
    }
  }

  function Item(name: string, counts: Counts): string { name + ":" + Decimal(counts[name]) }

  function Items(keys: seq<string>, counts: Counts): (r: seq<string>)
    ensures |r| == |keys|
  {
    seq(|keys|, i requires 0 <= i < |keys| => Item(keys[i], counts))
  }

  function Render(names: seq<string>): string {
    if names == [] then "-" else Join(Items(SortedKeys(names), multiset(names)), ';')
  }

  // ----- Parsing -----

  /** Where the last colon stands. */
  function LastColon(s: string): (r: Option<nat>)
    ensures r.Some? ==> r.value < |s| && s[r.value] == ':' && ':' !in s[r.value + 1..]
    ensures r.None? ==> ':' !in s
  {
    if s == "" then None
    else
      var n := |s| - 1;
      assert s == s[..n] + [s[n]];
      if s[n] == ':' then Some(n)
      else
        var before := LastColon(s[..n]);
        assert before.Some? ==> s[before.value + 1..] == s[..n][before.value + 1..] + [s[n]];
        before
  }

  /** `rpartition(":")` and the checks on its parts. */
  function ParseItem(item: string): Option<(string, nat)> {
    var colon := LastColon(item);
    if colon.None? || colon.value == 0 then None
    else
      var digits := item[colon.value + 1..];
      if IsDigits(digits) && Value(digits) > 0 then Some((item[..colon.value], Value(digits))) else None
  }

  type Parsed = Option<(string, nat)>

  function ParseItems(items: seq<string>): (r: seq<Parsed>)
    ensures |r| == |items|
  {
    seq(|items|, i requires 0 <= i < |items| => ParseItem(items[i]))
  }

  /** The counts added up, unless some item is malformed. */
  function Tally(items: seq<Parsed>): Result<Counts, Failure> {
    if items == [] then Ok(multiset{}) else Added(Tally(items[..|items| - 1]), items[|items| - 1])
  }

  function Added(before: Result<Counts, Failure>, item: Parsed): Result<Counts, Failure> {
    if before.Err? || item.None? then Err(Malformed)
    else
      var (name, count) := item.value;
      Ok(before.value[name := before.value[name] + count])
  }

  lemma TallyNext(items: seq<Parsed>, i: nat)
    requires i < |items|
    ensures Tally(items[..i + 1]) == Added(Tally(items[..i]), items[i])
  {
    assert items[..i + 1][..i] == items[..i];
  }

  function Parse(value: string): Result<Counts, Failure> {
    if value == "-" then Ok(multiset{}) else Tally(ParseItems(Split(value, ';')))
  }

  method ParseCountedNames(value: string) returns (r: Result<Counts, Failure>)
    ensures r == Parse(value)
  {
    if value == "-" {
      return Ok(multiset{});
    }
    r := AddItems(Split(value, ';'));
  }

  method AddItems(items: seq<string>) returns (r: Result<Counts, Failure>)
    ensures r == Tally(ParseItems(items))
  {
    var counts: Counts := multiset{};
    ghost var parsed := ParseItems(items);
    assert parsed[..0] == [];
    for i := 0 to |items|
      invariant Tally(parsed[..i]) == Ok(counts)
    {
      TallyNext(parsed, i);
      var item := ParseItem(items[i]);
      if item.None? {
        FailsLater(parsed, i + 1);
        return Err(Malformed);
      }
      var (name, count) := item.value;
      counts := counts[name := counts[name] + count];
    }
    assert parsed[..|items|] == parsed;
    r := Ok(counts);
  }

  lemma {:induction false} FailsLater(items: seq<Parsed>, i: nat)
    requires i <= |items| && Tally(items[..i]) == Err(Malformed)
    ensures Tally(items) == Err(Malformed)
    decreases |items| - i
  {
    if i == |items| {
      assert items[..i] == items;
    } else {
      assert items[..i + 1][..i] == items[..i];
      FailsLater(items, i + 1);
    }
  }

  // ----- What is accepted -----

  /** A name, a colon and a positive decimal number. */
  ghost predicate IsItem(item: string, name: string, count: nat) {
    exists digits :: IsDigits(digits) && item == name + ":" + digits && name != "" && Value(digits) == count > 0
  }

  lemma ItemExactly(item: string, name: string, count: nat)
    ensures ParseItem(item) == Some((name, count)) <==> IsItem(item, name, count)
  {
    if digits :| IsDigits(digits) && item == name + ":" + digits && name != "" && Value(digits) == count > 0 {
      assert item[|name|] == ':' && item[|name| + 1..] == digits && item[..|name|] == name;
      ColonIsLast(item, |name|);
    }
    if ParseItem(item) == Some((name, count)) {
      var colon := LastColon(item).value;
      assert item == item[..colon] + ":" + item[colon + 1..];
    }
  }

  /** The counts of one name, added up. */
  ghost function Total(pairs: seq<(string, nat)>, name: string): nat {
    if pairs == [] then 0
    else
      var n := |pairs| - 1;
      Total(pairs[..n], name) + if pairs[n].0 == name then pairs[n].1 else 0
  }

  ghost predicate Totals(counts: Counts, pairs: seq<(string, nat)>) {
    forall name :: counts[name] == Total(pairs, name)
  }

  lemma SameTotals(a: Counts, b: Counts, pairs: seq<(string, nat)>)
    requires Totals(a, pairs) && Totals(b, pairs)
    ensures a == b
  {
    forall name ensures a[name] == b[name] {
      assert a[name] == Total(pairs, name) == b[name];
    }
  }

  /** The items read one by one. */
  ghost predicate Reads(items: seq<string>, pairs: seq<(string, nat)>) {
    |pairs| == |items| && forall i :: 0 <= i < |items| ==> IsItem(items[i], pairs[i].0, pairs[i].1)
  }

  lemma {:induction false} TallyReads(items: seq<string>, pairs: seq<(string, nat)>)
    requires Reads(items, pairs)
    ensures Tally(ParseItems(items)).Ok?
    ensures Totals(Tally(ParseItems(items)).value, pairs)
  {
    if items != [] {
      var n := |items| - 1;
      TallyReads(items[..n], pairs[..n]);
      ItemExactly(items[n], pairs[n].0, pairs[n].1);
      assert ParseItems(items)[..n] == ParseItems(items[..n]);
    }
  }

  lemma {:induction false} TallyRead(items: seq<string>) returns (pairs: seq<(string, nat)>)
    requires Tally(ParseItems(items)).Ok?
    ensures Reads(items, pairs)
  {
    if items == [] {
      pairs := [];
    } else {
      var n := |items| - 1;
      assert ParseItems(items)[..n] == ParseItems(items[..n]);
      var before := TallyRead(items[..n]);
      var (name, count) := ParseItem(items[n]).value;
      ItemExactly(items[n], name, count);
      pairs := before + [(name, count)];
    }
  }

  /** A list is accepted exactly when all its items can be read, and then the counts add up by name. */
  lemma ParseExactly(value: string, counts: Counts)
    requires value != "-"
    ensures Parse(value) == Ok(counts) <==>
            exists pairs :: Reads(Split(value, ';'), pairs) && Totals(counts, pairs)
  {
    var items := Split(value, ';');
    if Parse(value) == Ok(counts) {
      var pairs := TallyRead(items);
      TallyReads(items, pairs);
    }
    if pairs :| Reads(items, pairs) && Totals(counts, pairs) {
      TallyReads(items, pairs);
      SameTotals(counts, Parse(value).value, pairs);
    }
  }

  // ----- The round trip -----

  predicate GoodName(name: string) { name != "" && ';' !in name }

  lemma ParseItemOfItem(name: string, counts: Counts)
    requires name != "" && counts[name] > 0
    ensures ParseItem(Item(name, counts)) == Some((name, counts[name]))
  {
    var digits, item := Decimal(counts[name]), Item(name, counts);
    var colon := LastColon(item);
    assert item[|name|] == ':' && item[|name| + 1..] == digits;
    assert ':' in item;
    assert colon.value == |name| by {
      ColonIsLast(item, |name|);
    }
    assert item[..|name|] == name;
    ValueDecimal(counts[name]);
  }

  lemma {:induction false} ColonIsLast(s: string, k: nat)
    requires k < |s| && s[k] == ':' && ':' !in s[k + 1..]
    ensures LastColon(s) == Some(k)
  {
    var n := |s| - 1;
    if k < n {
      assert s[n] == s[k + 1..][n - k - 1];
      assert s[k + 1..] == s[..n][k + 1..] + [s[n]];
      ColonIsLast(s[..n], k);
    }
  }

  /** Adding up the counts of some names, one after the other. */
  ghost function Summed(keys: seq<string>, counts: Counts): Counts {
    if keys == [] then multiset{}
    else
      var before, key := Summed(keys[..|keys| - 1], counts), keys[|keys| - 1];
      before[key := before[key] + counts[key]]
  }

  lemma {:induction false} SummedCount(keys: seq<string>, counts: Counts, x: string)
    requires Distinct(keys)
    ensures Summed(keys, counts)[x] == if x in keys then counts[x] else 0
  {
    if keys != [] {
      var n := |keys| - 1;
      SummedCount(keys[..n], counts, x);
      assert keys == keys[..n] + [keys[n]];
      assert keys[n] !in keys[..n];
    }
  }

  ghost function Pairs(keys: seq<string>, counts: Counts): (r: seq<Parsed>)
    ensures |r| == |keys|
  {
    seq(|keys|, i requires 0 <= i < |keys| => Some((keys[i], counts[keys[i]])))
  }

  lemma {:induction false} TallyOfPairs(keys: seq<string>, counts: Counts)
    ensures Tally(Pairs(keys, counts)) == Ok(Summed(keys, counts))
  {
    if keys != [] {
      var n := |keys| - 1;
      TallyOfPairs(keys[..n], counts);
      assert Pairs(keys, counts)[..n] == Pairs(keys[..n], counts);
    }
  }

  lemma ParseOfItems(keys: seq<string>, counts: Counts)
    requires forall i :: 0 <= i < |keys| ==> keys[i] != "" && counts[keys[i]] > 0
    ensures ParseItems(Items(keys, counts)) == Pairs(keys, counts)
  {
    forall i | 0 <= i < |keys| ensures ParseItem(Item(keys[i], counts)) == Some((keys[i], counts[keys[i]])) {
      ParseItemOfItem(keys[i], counts);
    }
  }

  lemma DecimalHasNoSemicolon(n: nat)
    ensures ';' !in Decimal(n)
  {}

  lemma RenderSplits(names: seq<string>)
    requires names != [] && forall n :: n in names ==> GoodName(n)
    ensures Render(names) != "-" && Split(Render(names), ';') == Items(SortedKeys(names), multiset(names))
  {
    var keys := SortedKeys(names);
    var items := Items(keys, multiset(names));
    KeysFacts(names);
    assert names[0] in keys;
    forall i | 0 <= i < |items| ensures ';' !in items[i] {
      assert keys[i] in keys;
      DecimalHasNoSemicolon(multiset(names)[keys[i]]);
    }
    SplitJoin(items, ';');
    assert ':' in items[0] by { assert items[0][|keys[0]|] == ':'; }
    SplitPart("-", ';');
    assert ["-"][0] == "-" && ':' !in "-";
  }

  lemma {:induction false} TallyNames(items: seq<Parsed>, name: string) returns (i: nat)
    requires Tally(items).Ok? && name in Tally(items).value
    ensures i < |items| && items[i].Some? && items[i].value.0 == name
  {
    var n := |items| - 1;
    if name == items[n].value.0 {
      i := n;
    } else {
      i := TallyNames(items[..n], name);
    }
  }

  lemma GoodNamesRoundTrip(names: seq<string>)
    requires forall n :: n in names ==> GoodName(n)
    ensures Parse(Render(names)) == Ok(multiset(names))
  {
    if names != [] {
      var keys, counts := SortedKeys(names), multiset(names);
      KeysFacts(names);
      RenderSplits(names);
      forall i | 0 <= i < |keys| ensures keys[i] != "" && counts[keys[i]] > 0 {
        assert keys[i] in keys;
      }
      ParseOfItems(keys, counts);
      TallyOfPairs(keys, counts);
      forall x ensures Summed(keys, counts)[x] == counts[x] {
        SummedCount(keys, counts, x);
        assert x in names <==> x in counts;
      }
      assert Summed(keys, counts) == counts;
    } else {
      assert multiset(names) == multiset{};
    }
  }

  /**
   Parsing a rendered count list gives back the exact multiset, for counts of any size and
   for no names at all, if and only if every name is non-empty and free of semicolons.
   */
  lemma RoundTripExactly(names: seq<string>)
    ensures Parse(Render(names)) == Ok(multiset(names)) <==> forall n :: n in names ==> GoodName(n)
  {
    if forall n :: n in names ==> GoodName(n) {
      GoodNamesRoundTrip(names);
    } else {
      var bad :| bad in names && !GoodName(bad);
      assert bad in multiset(names);
      BadNameNotParsed(Render(names), bad);
    }
  }

  /** Every parsed name is non-empty and free of the separator. */
  lemma BadNameNotParsed(value: string, bad: string)
    requires !GoodName(bad)
    ensures Parse(value).Ok? ==> bad !in Parse(value).value
  {
    var items := Split(value, ';');
    forall i | 0 <= i < |items| && ParseItem(items[i]).Some? ensures GoodName(ParseItem(items[i]).value.0) {}
    if value != "-" && Tally(ParseItems(items)).Ok? && bad in Tally(ParseItems(items)).value {
      var i := TallyNames(ParseItems(items), bad);
    }
  }
}
