/**
 The single-counter block finders, `_balanced_block` over tokens and `matching_brace` over
 masked text: braces only, and yet the three-kind matcher's closer.
 */
module BraceCounters {
  import opened Outcome
  import opened Delimiters

  datatype BlockFailure = NotABlock | Unterminated

  function Weight(s: Shape): int {
    if s == Open(Brace) then 1 else if s == Close(Brace) then -1 else 0
  }

  /** Opening braces minus closing braces. */
  ghost function Net(s: seq<Shape>): int {
    if s == [] then 0 else Net(s[..|s| - 1]) + Weight(s[|s| - 1])
  }

  /** `c` is the first place after `o` where the braces opened from `o` on are all closed. */
  ghost predicate ClosesFirst(s: seq<Shape>, o: nat, c: nat) {
    && o < c < |s|
    && Net(s[o..c + 1]) == 0
    && forall k :: o < k <= c ==> Net(s[o..k]) > 0
  }

  lemma ClosesFirstUnique(s: seq<Shape>, o: nat, c: nat, e: nat)
    requires ClosesFirst(s, o, c) && ClosesFirst(s, o, e)
    ensures c == e
  {}

  lemma NetStep(s: seq<Shape>, o: nat, k: nat)
    requires o <= k < |s|
    ensures Net(s[o..k + 1]) == Net(s[o..k]) + Weight(s[k])
  {
    assert s[o..k + 1][..k - o] == s[o..k];
  }

  method BalancedBlock(s: seq<Shape>, opening: nat) returns (r: Result<(nat, nat), BlockFailure>)
    ensures r == Err(NotABlock) <==> opening >= |s| || s[opening] != Open(Brace)
    ensures r.Ok? ==> r.value.0 == opening && ClosesFirst(s, opening, r.value.1)
    ensures r == Err(Unterminated) ==> forall c :: !ClosesFirst(s, opening, c)
  {
    if opening >= |s| || s[opening] != Open(Brace) {
      return Err(NotABlock);
    }
    var depth := 1;
    var cursor := opening + 1;
    NetStep(s, opening, opening);
    while cursor < |s| && depth != 0
      invariant opening < cursor <= |s|
      invariant depth == Net(s[opening..cursor])
      invariant forall k :: opening < k < cursor ==> Net(s[opening..k]) > 0
      invariant depth >= 0
    {
      NetStep(s, opening, cursor);
      depth := depth + Weight(s[cursor]);
      cursor := cursor + 1;
    }
    if depth != 0 {
      return Err(Unterminated);
    }
    return Ok((opening, cursor - 1));
  }

  // ----- The character form -----

  function CharShape(c: char): Shape {
    match c
    case '(' => Open(Paren)
    case ')' => Close(Paren)
    case '[' => Open(Bracket)
    case ']' => Close(Bracket)
    case '{' => Open(Brace)
    case '}' => Close(Brace)
    case _ => Plain
  }

  function Shapes(text: string): (r: seq<Shape>)
    ensures |r| == |text|
    ensures forall i :: 0 <= i < |text| ==> r[i] == CharShape(text[i])
  {
    seq(|text|, i requires 0 <= i < |text| => CharShape(text[i]))
  }

  /** As many opening as closing braces. */
  ghost predicate Balanced(text: string) { multiset(text)['{'] == multiset(text)['}'] }

  /** The braces from `o` on balance for the first time at `c`. */
  ghost predicate BalancesFirst(text: string, o: nat, c: nat) {
    && o < c < |text| && Balanced(text[o..c + 1])
    && forall k :: o < k <= c ==> multiset(text[o..k])['{'] > multiset(text[o..k])['}']
  }

  lemma {:induction false} NetBraces(text: string)
    ensures Net(Shapes(text)) + multiset(text)['}'] == multiset(text)['{']
  {
    if text != "" {
      var n := |text| - 1;
      NetBraces(text[..n]);
      assert Shapes(text)[..n] == Shapes(text[..n]);
      assert text == text[..n] + [text[n]];
    }
  }

  lemma NetSlice(text: string, a: nat, b: nat)
    requires a <= b <= |text|
    ensures Net(Shapes(text)[a..b]) + multiset(text[a..b])['}'] == multiset(text[a..b])['{']
  {
    NetBraces(text[a..b]);
    assert Shapes(text[a..b]) == Shapes(text)[a..b];
  }

  lemma BalancesExactly(text: string, o: nat, c: nat)
    ensures ClosesFirst(Shapes(text), o, c) <==> BalancesFirst(text, o, c)
  {
    if o < c < |text| {
      NetSlice(text, o, c + 1);
      forall k | o < k <= c
        ensures Net(Shapes(text)[o..k]) > 0 <==> multiset(text[o..k])['{'] > multiset(text[o..k])['}']
      {
        NetSlice(text, o, k);
      }
    }
  }

  lemma NeverBalances(text: string, o: nat)
    requires o <= |text| && forall k :: o < k <= |text| ==> Net(Shapes(text)[o..k]) > 0
    ensures forall c :: !BalancesFirst(text, o, c)
  {
    forall c: nat ensures !BalancesFirst(text, o, c) { BalancesExactly(text, o, c); }
  }

  /** Masked text as the matcher of all three kinds reads it: the pairs are pairs of characters. */
  lemma MatchingCharacters(text: string, m: Pairing, a: nat)
    requires IsMatching(Shapes(text), m)
    ensures a in m <==> a < |text| && text[a] in "([{"
    ensures a in m ==> a < m[a] < |text| && [text[a], text[m[a]]] in ["()", "[]", "{}"]
    ensures a < |text| && text[a] in ")]}" ==> HasOpener(m, a)
  {
    if a in m { assert IsPair(Shapes(text), a, m[a]); }
    if a < |text| { CharShapes(text[a]); }
  }

  lemma CharShapes(c: char)
    ensures CharShape(c).Open? <==> c in "([{"
    ensures CharShape(c).Close? <==> c in ")]}"
  {}

  /** `opening` is the result of a search, -1 when the brace was not found. */
  method MatchingBrace(masked: string, opening: int) returns (r: Result<nat, BlockFailure>)
    requires opening < |masked|
    ensures r == Err(NotABlock) <==> opening < 0 || masked[opening] != '{'
    ensures r.Ok? ==> BalancesFirst(masked, opening, r.value)
    ensures r == Err(Unterminated) ==> forall c :: !BalancesFirst(masked, opening, c)
  {
    if opening < 0 || masked[opening] != '{' {
      return Err(NotABlock);
    }
    ghost var s := Shapes(masked);
    var depth, index := 0, opening;
    while index < |masked|
      invariant opening <= index <= |masked|
      invariant depth == Net(s[opening..index])
      invariant forall k :: opening < k <= index ==> Net(s[opening..k]) > 0
    {
      NetStep(s, opening, index);
      assert Weight(s[index]) == if masked[index] == '{' then 1 else if masked[index] == '}' then -1 else 0;
      if masked[index] == '{' {
        depth := depth + 1;
      } else if masked[index] == '}' {
        depth := depth - 1;
        if depth == 0 {
          BalancesExactly(masked, opening, index);
          return Ok(index);
        }
      }
      index := index + 1;
    }
    NeverBalances(masked, opening);
    return Err(Unterminated);
  }

  // ----- Agreement with the stack matcher -----

  lemma {:induction false} NetAppend(a: seq<Shape>, b: seq<Shape>)
    ensures Net(a + b) == Net(a) + Net(b)
  {
    if b == [] {
      assert a + b == a;
    } else {
      NetAppend(a, b[..|b| - 1]);
      assert (a + b)[..|a + b| - 1] == a + b[..|b| - 1];
    }
  }

  /** Inside a nested slice the brace count never goes below where it started, and ends there. */
  lemma {:induction false} NestedNet(s: seq<Shape>, lo: nat, hi: nat, k: nat)
    requires lo <= k <= hi <= |s| && Nested(s[lo..hi])
    ensures Net(s[lo..hi]) == 0 && Net(s[lo..k]) >= 0
    decreases hi - lo, hi - k
  {
    if lo < hi {
      if s[lo].Open? {
        var c := GroupEnd(s, lo, hi);
        NestedNet(s, lo + 1, c, if lo < k <= c then k else c);
        NestedNet(s, c + 1, hi, if c < k then k else hi);
        NetSplit(s, lo, c, hi);
        if c < k { NetSplit(s, lo, c, k); }
        if lo < k <= c { NetFirst(s, lo, k); }
      } else {
        assert s[lo..hi][0] == s[lo] && s[lo..hi][1..] == s[lo + 1..hi];
        NestedNet(s, lo + 1, hi, if lo < k then k else hi);
        NetFirst(s, lo, hi);
        if lo < k { NetFirst(s, lo, k); }
      }
    }
  }

  lemma NetFirst(s: seq<Shape>, lo: nat, k: nat)
    requires lo < k <= |s|
    ensures Net(s[lo..k]) == Weight(s[lo]) + Net(s[lo + 1..k])
  {
    NetAppend([s[lo]], s[lo + 1..k]);
    assert [s[lo]] + s[lo + 1..k] == s[lo..k];
    assert [s[lo]][..0] == [];
  }

  lemma NetSplit(s: seq<Shape>, lo: nat, c: nat, k: nat)
    requires lo < c < k <= |s|
    ensures Net(s[lo..k]) == Weight(s[lo]) + Net(s[lo + 1..c]) + Weight(s[c]) + Net(s[c + 1..k])
  {
    NetFirst(s, lo, k);
    NetFirst(s, c, k);
    NetAppend(s[lo + 1..c], s[c..k]);
    assert s[lo + 1..c] + s[c..k] == s[lo + 1..k];
  }

  lemma InnerSlice(s: seq<Shape>, m: Pairing, o: nat)
    requires IsMatching(s, m) && o in m
    ensures SliceClosed(m, o + 1, m[o])
  {
    forall a | a in m ensures o + 1 <= a < m[o] <==> o + 1 <= m[a] < m[o] {
      assert IsPair(s, a, m[a]) && IsPair(s, o, m[o]);
      assert Parted(m, a, o) && Enclosed(m, o, a) && Enclosed(m, a, o);
    }
  }

  /** On every accepted sequence the brace counter stops exactly at the matcher's closer. */
  lemma CounterAgreesWithMatcher(s: seq<Shape>, m: Pairing, o: nat, c: nat)
    requires IsMatching(s, m) && o < |s| && s[o] == Open(Brace)
    ensures ClosesFirst(s, o, c) <==> c == m[o]
  {
    var e := m[o];
    assert IsPair(s, o, e);
    InnerSlice(s, m, o);
    MatchingNested(s, m, o + 1, e);
    forall k | o < k <= e ensures Net(s[o..k]) > 0 {
      NestedNet(s, o + 1, e, k);
      NetFirst(s, o, k);
    }
    NestedNet(s, o + 1, e, e);
    NetSplit(s, o, e, e + 1);
    assert s[e + 1..e + 1] == [];
    assert ClosesFirst(s, o, e);
    if ClosesFirst(s, o, c) { ClosesFirstUnique(s, o, c, e); }
  }
}
