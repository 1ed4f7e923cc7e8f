/**
 Delimiter matching in the Rust source gates: the three-kind stack matcher
 `matching_delimiters` (scripts/verify_no_physical_standard.py).
 */
module Delimiters {
  import opened Outcome
  import opened Seqs

  datatype Kind = Paren | Bracket | Brace

  /** What a token means to the matchers. */
  datatype Shape = Open(kind: Kind) | Close(kind: Kind) | Plain

  datatype Failure = Unbalanced | Mismatched | Unclosed

  type Pairing = map<nat, nat>

  // ----- Two independent readings of "well nested" -----

  /** The grammar: plain tokens and bracketed groups, one after the other. */
  ghost predicate Nested(s: seq<Shape>)
    decreases |s|
  {
    || s == []
    || (s[0].Plain? && Nested(s[1..]))
    || (s[0].Open? && exists k :: GroupEnds(s, k) && Nested(s[1..k]) && Nested(s[k + 1..]))
  }

  ghost predicate GroupEnds(s: seq<Shape>, k: int)
    requires s != [] && s[0].Open?
  {
    0 < k < |s| && s[k] == Close(s[0].kind)
  }

  ghost predicate IsPair(s: seq<Shape>, a: nat, b: nat) {
    a < b < |s| && s[a].Open? && s[b] == Close(s[a].kind)
  }

  ghost predicate HasOpener(m: Pairing, j: nat) {
    exists a :: a in m && m[a] == j
  }

  ghost predicate Injective(m: Pairing) {
    forall a, b {:trigger Parted(m, a, b)} :: a in m && b in m ==> Parted(m, a, b)
  }

  ghost predicate Parted(m: Pairing, a: nat, b: nat)
    requires a in m && b in m
  {
    m[a] == m[b] ==> a == b
  }

  ghost predicate NonCrossing(m: Pairing) {
    forall a, b {:trigger Enclosed(m, a, b)} :: a in m && b in m ==> Enclosed(m, a, b)
  }

  ghost predicate Enclosed(m: Pairing, a: nat, b: nat)
    requires a in m && b in m
  {
    a < b < m[a] ==> m[b] < m[a]
  }

  /** A non-crossing bijection from all openers to all closers, respecting kinds. */
  ghost predicate IsMatching(s: seq<Shape>, m: Pairing) {
    && (forall a {:trigger IsPair(s, a, m[a])} :: a in m ==> IsPair(s, a, m[a]))
    && (forall i: nat :: i < |s| && s[i].Open? ==> i in m)
    && (forall j: nat {:trigger HasOpener(m, j)} :: j < |s| && s[j].Close? ==> HasOpener(m, j))
    && Injective(m)
    && NonCrossing(m)
  }

  // ----- The stack matcher -----

  /** The positions of the openers still waiting, the latest on top. */
  datatype Stack = Bottom | Push(top: nat, rest: Stack)

  ghost predicate Has(stack: Stack, p: nat) {
    stack.Push? && (stack.top == p || Has(stack.rest, p))
  }

  /** Every waiting opener of `s` lies before `bound`, the latest one highest. */
  predicate Waiting(s: seq<Shape>, stack: Stack, bound: nat) {
    stack.Push? ==>
      stack.top < bound && stack.top < |s| && s[stack.top].Open? && Waiting(s, stack.rest, stack.top)
  }

  /** One run of the stack matcher from token `i` on. */
  function Scan(s: seq<Shape>, i: nat, stack: Stack, result: Pairing): (r: Result<Pairing, Failure>)
    requires i <= |s| && Waiting(s, stack, i)
    decreases |s| - i
  {
    if i == |s| then (if stack.Bottom? then Ok(result) else Err(Unclosed))
    else if s[i].Open? then Scan(s, i + 1, Push(i, stack), result)
    else
      Relax(s, stack, i, i + 1);
      if s[i].Plain? then Scan(s, i + 1, stack, result)
      else if stack.Bottom? then Err(Unbalanced)
      else if s[stack.top].kind != s[i].kind then Err(Mismatched)
      else
        Relax(s, stack.rest, stack.top, i + 1);
        Scan(s, i + 1, stack.rest, result[stack.top := i])
  }

  lemma Relax(s: seq<Shape>, stack: Stack, low: nat, high: nat)
    requires Waiting(s, stack, low) && low <= high
    ensures Waiting(s, stack, high)
  {}

  lemma {:induction false} WaitingBelow(s: seq<Shape>, stack: Stack, bound: nat, p: nat)
    requires Waiting(s, stack, bound) && Has(stack, p)
    ensures p < bound && p < |s| && s[p].Open?
  {
    if stack.top != p { WaitingBelow(s, stack.rest, stack.top, p); }
  }

  method MatchingDelimiters(s: seq<Shape>) returns (r: Result<Pairing, Failure>)
    ensures r == Scan(s, 0, Bottom, map[])
    ensures r.Ok? ==> IsMatching(s, r.value)
    ensures r.Ok? <==> Nested(s)
  {
    AcceptedExactlyWhenNested(s);
    var stack, result: Pairing := Bottom, map[];
    for index := 0 to |s|
      invariant Waiting(s, stack, index)
      invariant Scan(s, 0, Bottom, map[]) == Scan(s, index, stack, result)
    {
      if s[index].Open? {
        stack := Push(index, stack);
      } else {
        Relax(s, stack, index, index + 1);
        if s[index].Close? {
          if stack.Bottom? {
            return Err(Unbalanced);
          }
          var opening := stack.top;
          stack := stack.rest;
          if s[opening].kind != s[index].kind {
            return Err(Mismatched);
          }
          result := result[opening := index];
          Relax(s, stack, opening, index + 1);
        }
      }
    }
    r := if stack.Bottom? then Ok(result) else Err(Unclosed);
  }

  // ----- Soundness: what the matcher returns is a matching -----

  /** The pairs found among the first `i` tokens. */
  ghost predicate PairsSoFar(s: seq<Shape>, i: nat, acc: Pairing) {
    && (forall a :: a in acc ==> IsPair(s, a, acc[a]) && acc[a] < i)
    && (forall j: nat {:trigger HasOpener(acc, j)} :: j < i <= |s| && s[j].Close? ==> HasOpener(acc, j))
    && Injective(acc)
    && NonCrossing(acc)
  }

  /** What the matcher knows after `i` tokens. */
  ghost predicate Partial(s: seq<Shape>, i: nat, stack: Stack, acc: Pairing) {
    && i <= |s|
    && PairsSoFar(s, i, acc)
    && Waiting(s, stack, i)
    && (forall k: nat :: k < i && s[k].Open? ==> k in acc || Has(stack, k))
    && (forall p :: Has(stack, p) ==> p !in acc)
    && (forall a, p :: a in acc && Has(stack, p) && a < p ==> acc[a] < p)
  }

  lemma PartialPush(s: seq<Shape>, i: nat, stack: Stack, acc: Pairing)
    requires Partial(s, i, stack, acc) && i < |s| && s[i].Open?
    ensures Partial(s, i + 1, Push(i, stack), acc)
  {
    var longer := Push(i, stack);
    forall p: nat ensures Has(longer, p) <==> p == i || Has(stack, p) {}
  }

  lemma AddPairShape(s: seq<Shape>, i: nat, acc: Pairing, top: nat)
    requires forall a :: a in acc ==> IsPair(s, a, acc[a]) && acc[a] < i
    requires Injective(acc) && NonCrossing(acc) && IsPair(s, top, i) && top !in acc
    requires forall a :: a in acc && a < top ==> acc[a] < top
    ensures Injective(acc[top := i]) && NonCrossing(acc[top := i])
  {
    var longer := acc[top := i];
    forall a, b | a in longer && b in longer ensures Parted(longer, a, b) && Enclosed(longer, a, b) {
      if a in acc && b in acc { assert Parted(acc, a, b) && Enclosed(acc, a, b); }
    }
  }

  lemma AddPairOpener(acc: Pairing, top: nat, i: nat, j: nat)
    requires top !in acc && (j == i || HasOpener(acc, j))
    ensures HasOpener(acc[top := i], j)
  {
    var longer := acc[top := i];
    if j == i {
      assert top in longer && longer[top] == j;
    } else {
      var a :| a in acc && acc[a] == j;
      assert a in longer && longer[a] == j;
    }
  }

  lemma AddPair(s: seq<Shape>, i: nat, acc: Pairing, top: nat)
    requires PairsSoFar(s, i, acc) && i < |s| && IsPair(s, top, i) && top !in acc
    requires forall a :: a in acc && a < top ==> acc[a] < top
    ensures PairsSoFar(s, i + 1, acc[top := i])
  {
    AddPairShape(s, i, acc, top);
    forall j: nat | j < i + 1 && s[j].Close? ensures HasOpener(acc[top := i], j) {
      AddPairOpener(acc, top, i, j);
    }
  }

  lemma PartialPop(s: seq<Shape>, i: nat, stack: Stack, acc: Pairing)
    requires Partial(s, i, stack, acc) && i < |s| && s[i].Close?
    requires stack.Push? && s[stack.top].kind == s[i].kind
    ensures Partial(s, i + 1, stack.rest, acc[stack.top := i])
  {
    assert Has(stack, stack.top);
    AddPair(s, i, acc, stack.top);
    Relax(s, stack.rest, stack.top, i + 1);
    forall p: nat | Has(stack.rest, p) ensures p < stack.top && Has(stack, p) {
      WaitingBelow(s, stack.rest, stack.top, p);
    }
  }

  lemma {:induction false} ScanSound(s: seq<Shape>, i: nat, stack: Stack, acc: Pairing)
    requires Partial(s, i, stack, acc)
    ensures Scan(s, i, stack, acc).Ok? ==> IsMatching(s, Scan(s, i, stack, acc).value)
    decreases |s| - i
  {
    if i < |s| && !Stuck(s, i, stack) {
      var stack', acc' := PartialNext(s, i, stack, acc);
      ScanSound(s, i + 1, stack', acc');
    }
  }

  /** Token `i` closes nothing that waits on top of the stack. */
  ghost predicate Stuck(s: seq<Shape>, i: nat, stack: Stack)
    requires i < |s| && Waiting(s, stack, i)
  {
    s[i].Close? && (stack.Bottom? || s[stack.top].kind != s[i].kind)
  }

  lemma PartialNext(s: seq<Shape>, i: nat, stack: Stack, acc: Pairing) returns (stack': Stack, acc': Pairing)
    requires Partial(s, i, stack, acc) && i < |s| && !Stuck(s, i, stack)
    ensures Partial(s, i + 1, stack', acc') && Scan(s, i, stack, acc) == Scan(s, i + 1, stack', acc')
  {
    if s[i].Open? {
      PartialPush(s, i, stack, acc);
      stack', acc' := Push(i, stack), acc;
    } else if s[i].Plain? {
      PartialSkip(s, i, stack, acc);
      stack', acc' := stack, acc;
    } else {
      PartialPop(s, i, stack, acc);
      stack', acc' := stack.rest, acc[stack.top := i];
    }
  }

  lemma PartialSkip(s: seq<Shape>, i: nat, stack: Stack, acc: Pairing)
    requires Partial(s, i, stack, acc) && i < |s| && s[i].Plain?
    ensures Partial(s, i + 1, stack, acc)
  {
    Relax(s, stack, i, i + 1);
  }

  // ----- Completeness: a matching, when there is one, is what the matcher returns -----

  /** The run so far agrees with the matching `m`. */
  ghost predicate Agrees(s: seq<Shape>, m: Pairing, i: nat, stack: Stack, acc: Pairing) {
    && i <= |s|
    && Waiting(s, stack, i)
    && (forall p :: Has(stack, p) ==> p in m && m[p] >= i)
    && (forall a :: a in acc ==> a in m && m[a] == acc[a] && acc[a] < i)
    && (forall k: nat :: k < i && s[k].Open? ==> k in acc || Has(stack, k))
  }

  lemma ClosesTop(s: seq<Shape>, m: Pairing, i: nat, stack: Stack, acc: Pairing)
    requires IsMatching(s, m) && Agrees(s, m, i, stack, acc) && i < |s| && s[i].Close?
    ensures stack.Push? && stack.top in m && m[stack.top] == i
  {
    assert HasOpener(m, i);
    var q :| q in m && m[q] == i;
    assert IsPair(s, q, i);
    assert Has(stack, q);
    assert Has(stack, stack.top);
    assert Parted(m, q, stack.top) && Enclosed(m, q, stack.top);
    if q != stack.top {
      WaitingBelow(s, stack.rest, stack.top, q);
      assert false;
    }
  }

  lemma AgreesPop(s: seq<Shape>, m: Pairing, i: nat, stack: Stack, acc: Pairing)
    requires IsMatching(s, m) && Agrees(s, m, i, stack, acc) && i < |s| && s[i].Close?
    requires stack.Push? && stack.top in m && m[stack.top] == i
    ensures Agrees(s, m, i + 1, stack.rest, acc[stack.top := i])
  {
    Relax(s, stack.rest, stack.top, i + 1);
    forall p: nat | Has(stack.rest, p) ensures p in m && m[p] >= i + 1 {
      assert Has(stack, p);
      WaitingBelow(s, stack.rest, stack.top, p);
      assert Parted(m, p, stack.top);
    }
    var longer := acc[stack.top := i];
    forall k: nat | k < i + 1 && s[k].Open? ensures k in longer || Has(stack.rest, k) {
      assert k in acc || Has(stack, k);
    }
  }

  lemma AgreesClose(s: seq<Shape>, m: Pairing, i: nat, stack: Stack, acc: Pairing)
    requires IsMatching(s, m) && Agrees(s, m, i, stack, acc) && i < |s| && s[i].Close?
    ensures stack.Push? && s[stack.top].kind == s[i].kind
    ensures Agrees(s, m, i + 1, stack.rest, acc[stack.top := i])
  {
    ClosesTop(s, m, i, stack, acc);
    assert IsPair(s, stack.top, i);
    AgreesPop(s, m, i, stack, acc);
  }

  lemma AgreesSkip(s: seq<Shape>, m: Pairing, i: nat, stack: Stack, acc: Pairing)
    requires IsMatching(s, m) && Agrees(s, m, i, stack, acc) && i < |s| && s[i].Plain?
    ensures Agrees(s, m, i + 1, stack, acc)
  {
    Relax(s, stack, i, i + 1);
    forall p: nat | Has(stack, p) ensures m[p] >= i + 1 {
      assert IsPair(s, p, m[p]);
    }
  }

  lemma AgreesPush(s: seq<Shape>, m: Pairing, i: nat, stack: Stack, acc: Pairing)
    requires IsMatching(s, m) && Agrees(s, m, i, stack, acc) && i < |s| && s[i].Open?
    ensures Agrees(s, m, i + 1, Push(i, stack), acc)
  {
    assert IsPair(s, i, m[i]);
    forall p: nat | Has(stack, p) ensures m[p] >= i + 1 {
      assert IsPair(s, p, m[p]);
    }
    var longer := Push(i, stack);
    forall p: nat ensures Has(longer, p) <==> p == i || Has(stack, p) {}
  }

  lemma AgreesAtEnd(s: seq<Shape>, m: Pairing, stack: Stack, acc: Pairing)
    requires IsMatching(s, m) && Agrees(s, m, |s|, stack, acc)
    ensures stack.Bottom? && acc == m
  {
    assert stack.Push? ==> Has(stack, stack.top);
    forall a | a in m ensures a in acc {
      assert IsPair(s, a, m[a]);
    }
  }

  /** One step of the matcher stays in agreement. */
  lemma AgreesNext(s: seq<Shape>, m: Pairing, i: nat, stack: Stack, acc: Pairing)
    returns (stack': Stack, acc': Pairing)
    requires IsMatching(s, m) && Agrees(s, m, i, stack, acc) && i < |s|
    ensures Agrees(s, m, i + 1, stack', acc') && Scan(s, i, stack, acc) == Scan(s, i + 1, stack', acc')
  {
    if s[i].Close? {
      AgreesClose(s, m, i, stack, acc);
      stack', acc' := stack.rest, acc[stack.top := i];
    } else if s[i].Open? {
      AgreesPush(s, m, i, stack, acc);
      stack', acc' := Push(i, stack), acc;
    } else {
      AgreesSkip(s, m, i, stack, acc);
      stack', acc' := stack, acc;
    }
  }

  lemma {:induction false} ScanComplete(s: seq<Shape>, m: Pairing, i: nat, stack: Stack, acc: Pairing)
    requires IsMatching(s, m) && Agrees(s, m, i, stack, acc)
    ensures Scan(s, i, stack, acc) == Ok(m)
    decreases |s| - i
  {
    if i == |s| {
      AgreesAtEnd(s, m, stack, acc);
    } else {
      var stack', acc' := AgreesNext(s, m, i, stack, acc);
      ScanComplete(s, m, i + 1, stack', acc');
    }
  }

  // ----- Matchings and the grammar -----

  /** No pair of `m` leaves the slice `[lo, hi)`. */
  ghost predicate SliceClosed(m: Pairing, lo: nat, hi: nat) {
    forall a :: a in m ==> (lo <= a < hi <==> lo <= m[a] < hi)
  }

  /** How a slice is put together: tokens and groups, each followed by the rest. */
  datatype Derivation = Nothing | Token(rest: Derivation) | Group(close: nat, inside: Derivation, rest: Derivation)

  ghost predicate Derives(s: seq<Shape>, lo: nat, hi: nat, d: Derivation)
    decreases d
  {
    && lo <= hi <= |s|
    && match d
       case Nothing => lo == hi
       case Token(rest) => lo < hi && s[lo].Plain? && Derives(s, lo + 1, hi, rest)
       case Group(c, inside, rest) =>
         lo < c < hi && IsPair(s, lo, c) && Derives(s, lo + 1, c, inside) && Derives(s, c + 1, hi, rest)
  }

  lemma {:induction false} Derive(s: seq<Shape>, m: Pairing, lo: nat, hi: nat) returns (d: Derivation)
    requires IsMatching(s, m) && lo <= hi <= |s| && SliceClosed(m, lo, hi)
    ensures Derives(s, lo, hi, d)
    decreases hi - lo
  {
    if lo == hi {
      d := Nothing;
    } else if s[lo].Open? {
      var c := GroupSlices(s, m, lo, hi);
      var inside := Derive(s, m, lo + 1, c);
      var rest := Derive(s, m, c + 1, hi);
      d := Group(c, inside, rest);
    } else {
      PlainSlice(s, m, lo, hi);
      var rest := Derive(s, m, lo + 1, hi);
      d := Token(rest);
    }
  }

  lemma {:induction false} DerivedIsNested(s: seq<Shape>, lo: nat, hi: nat, d: Derivation)
    requires Derives(s, lo, hi, d)
    ensures Nested(s[lo..hi])
    decreases d
  {
    match d
    case Nothing =>
    case Token(rest) =>
      DerivedIsNested(s, lo + 1, hi, rest);
      NestedPlain(s, lo, hi);
    case Group(c, inside, rest) =>
      DerivedIsNested(s, lo + 1, c, inside);
      DerivedIsNested(s, c + 1, hi, rest);
      NestedGroup(s, lo, c, hi);
  }

  /** Every slice no pair leaves is well nested. */
  lemma MatchingNested(s: seq<Shape>, m: Pairing, lo: nat, hi: nat)
    requires IsMatching(s, m) && lo <= hi <= |s| && SliceClosed(m, lo, hi)
    ensures Nested(s[lo..hi])
  {
    var d := Derive(s, m, lo, hi);
    DerivedIsNested(s, lo, hi, d);
  }

  lemma NestedPlain(s: seq<Shape>, lo: nat, hi: nat)
    requires lo < hi <= |s| && s[lo].Plain? && Nested(s[lo + 1..hi])
    ensures Nested(s[lo..hi])
  {
    assert s[lo..hi][1..] == s[lo + 1..hi];
  }

  lemma NestedGroup(s: seq<Shape>, lo: nat, c: nat, hi: nat)
    requires lo < c < hi <= |s| && IsPair(s, lo, c)
    requires Nested(s[lo + 1..c]) && Nested(s[c + 1..hi])
    ensures Nested(s[lo..hi])
  {
    var t, k := s[lo..hi], c - lo;
    SliceOfSlice(s, lo, hi, 1, k);
    SliceOfSlice(s, lo, hi, k + 1, hi - lo);
    assert t[k + 1..] == t[k + 1..hi - lo];
    assert GroupEnds(t, k);
  }

  lemma OpenerInside(s: seq<Shape>, m: Pairing, lo: nat, hi: nat, j: nat)
    requires IsMatching(s, m) && lo <= j < hi <= |s| && SliceClosed(m, lo, hi) && s[j].Close?
    ensures exists q :: lo <= q < j && q in m && m[q] == j
  {
    assert HasOpener(m, j);
    var q :| q in m && m[q] == j;
    assert IsPair(s, q, m[q]);
  }

  lemma PlainSlice(s: seq<Shape>, m: Pairing, lo: nat, hi: nat)
    requires IsMatching(s, m) && lo < hi <= |s| && SliceClosed(m, lo, hi) && !s[lo].Open?
    ensures s[lo].Plain? && SliceClosed(m, lo + 1, hi)
  {
    if s[lo].Close? { OpenerInside(s, m, lo, hi, lo); }
    forall a | a in m ensures lo + 1 <= a < hi <==> lo + 1 <= m[a] < hi { assert IsPair(s, a, m[a]); }
  }

  lemma GroupSlices(s: seq<Shape>, m: Pairing, lo: nat, hi: nat) returns (c: nat)
    requires IsMatching(s, m) && lo < hi <= |s| && SliceClosed(m, lo, hi) && s[lo].Open?
    ensures lo < c < hi && IsPair(s, lo, c) && SliceClosed(m, lo + 1, c) && SliceClosed(m, c + 1, hi)
  {
    c := m[lo];
    assert IsPair(s, lo, c);
    forall a | a in m
      ensures lo + 1 <= a < c <==> lo + 1 <= m[a] < c
      ensures c + 1 <= a < hi <==> c + 1 <= m[a] < hi
    {
      assert IsPair(s, a, m[a]);
      assert Parted(m, a, lo) && Enclosed(m, lo, a) && Enclosed(m, a, lo);
      assert lo <= a < hi <==> lo <= m[a] < hi;
    }
  }

  /** A nested slice takes the matcher across it with the same stack. */
  lemma {:induction false} NestedPasses(s: seq<Shape>, i: nat, j: nat, stack: Stack, acc: Pairing)
    returns (acc': Pairing)
    requires i <= j <= |s| && Nested(s[i..j]) && Waiting(s, stack, i)
    ensures Waiting(s, stack, j)
    ensures Scan(s, i, stack, acc) == Scan(s, j, stack, acc')
    decreases j - i
  {
    Relax(s, stack, i, j);
    if i == j {
      acc' := acc;
    } else if s[i].Open? {
      var k := GroupEnd(s, i, j);
      var inner := NestedPasses(s, i + 1, k, Push(i, stack), acc);
      Relax(s, stack, i, k + 1);
      acc' := NestedPasses(s, k + 1, j, stack, inner[i := k]);
    } else {
      assert s[i..j][0] == s[i] && s[i..j][1..] == s[i + 1..j];
      Relax(s, stack, i, i + 1);
      acc' := NestedPasses(s, i + 1, j, stack, acc);
    }
  }

  lemma GroupEnd(s: seq<Shape>, i: nat, j: nat) returns (c: nat)
    requires i < j <= |s| && Nested(s[i..j]) && s[i].Open?
    ensures i < c < j && IsPair(s, i, c) && Nested(s[i + 1..c]) && Nested(s[c + 1..j])
  {
    var t := s[i..j];
    assert t[0] == s[i];
    var k :| GroupEnds(t, k) && Nested(t[1..k]) && Nested(t[k + 1..]);
    c := i + k;
    assert t[k] == s[c];
    SliceOfSlice(s, i, j, 1, k);
    SliceOfSlice(s, i, j, k + 1, j - i);
    assert t[k + 1..] == t[k + 1..j - i];
  }

  /**
   The matcher accepts exactly the well-nested sequences, in both readings, and what it
   returns is the only matching there is.
   */
  lemma AcceptedExactlyWhenNested(s: seq<Shape>)
    ensures Scan(s, 0, Bottom, map[]).Ok? ==> IsMatching(s, Scan(s, 0, Bottom, map[]).value)
    ensures Scan(s, 0, Bottom, map[]).Ok? <==> Nested(s)
    ensures forall m :: IsMatching(s, m) ==> Scan(s, 0, Bottom, map[]) == Ok(m)
  {
    ScanSound(s, 0, Bottom, map[]);
    forall m | IsMatching(s, m) ensures Scan(s, 0, Bottom, map[]) == Ok(m) {
      ScanComplete(s, m, 0, Bottom, map[]);
    }
    assert s[0..|s|] == s;
    if Nested(s) {
      var acc := NestedPasses(s, 0, |s|, Bottom, map[]);
    }
    if Scan(s, 0, Bottom, map[]).Ok? {
      var m := Scan(s, 0, Bottom, map[]).value;
      assert SliceClosed(m, 0, |s|) by {
        forall a | a in m ensures 0 <= a < |s| <==> 0 <= m[a] < |s| { assert IsPair(s, a, m[a]); }
      }
      MatchingNested(s, m, 0, |s|);
    }
  }
}
