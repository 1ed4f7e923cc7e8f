/**
 Python's `sorted` over a total order, as the scripts use it: on names (strings by
 code point), on dataclass rows (tuples of strings) and on integers.
 */
module Sorting {

  /** A comparison by key: total and transitive, but unequal elements may tie. */
  ghost predicate TotalPreorder<T(!new)>(leq: (T, T) -> bool) {
    && (forall x, y :: leq(x, y) || leq(y, x))
    && (forall x, y, z :: leq(x, y) && leq(y, z) ==> leq(x, z))
  }

  ghost predicate Total<T(!new)>(leq: (T, T) -> bool) {
    TotalPreorder(leq) && forall x, y :: leq(x, y) && leq(y, x) ==> x == y
  }

  ghost predicate Ordered<T>(s: seq<T>, leq: (T, T) -> bool) {
    forall i, j :: 0 <= i < j < |s| ==> leq(s[i], s[j])
  }

  function Insert<T>(x: T, s: seq<T>, leq: (T, T) -> bool): (r: seq<T>)
    ensures multiset(r) == multiset{x} + multiset(s)
    ensures |r| == |s| + 1
  {
    if s == [] then [x]
    else if leq(x, s[0]) then [x] + s
    else
      assert s == [s[0]] + s[1..];
      [s[0]] + Insert(x, s[1..], leq)
  }

  lemma {:induction false} InsertOrdered<T(!new)>(x: T, s: seq<T>, leq: (T, T) -> bool)
    requires TotalPreorder(leq) && Ordered(s, leq)
    ensures Ordered(Insert(x, s, leq), leq)
  {
    if s != [] && !leq(x, s[0]) {
      InsertOrdered(x, s[1..], leq);
      var rest := Insert(x, s[1..], leq);
      forall j | 0 <= j < |rest| ensures leq(s[0], rest[j]) {
        assert rest[j] in multiset(rest);
        assert rest[j] == x || rest[j] in s[1..];
      }
    }
  }

  ghost predicate Distinct<T>(s: seq<T>) {
    forall i, j :: 0 <= i < j < |s| ==> s[i] != s[j]
  }

  lemma InsertElements<T>(x: T, s: seq<T>, leq: (T, T) -> bool, y: T)
    ensures y in Insert(x, s, leq) <==> y == x || y in s
  {
    assert y in Insert(x, s, leq) <==> y in multiset(Insert(x, s, leq));
  }

  lemma {:induction false} InsertDistinct<T>(x: T, s: seq<T>, leq: (T, T) -> bool)
    requires Distinct(s) && x !in s
    ensures Distinct(Insert(x, s, leq))
  {
    if s != [] && !leq(x, s[0]) {
      var rest := Insert(x, s[1..], leq);
      InsertDistinct(x, s[1..], leq);
      InsertElements(x, s[1..], leq, s[0]);
      assert s[0] !in s[1..];
      assert s[0] !in rest;
      assert Insert(x, s, leq) == [s[0]] + rest;
    }
  }

  /** `sorted` on a set of names. */
  method SortedNames(names: set<string>) returns (r: seq<string>)
    ensures forall n :: n in r <==> n in names
    ensures Ordered(r, StringLeq) && Distinct(r)
  {
    r := [];
    var rest := names;
    while rest != {}
      invariant rest <= names
      invariant forall n :: n in r <==> n in names - rest
      invariant Ordered(r, StringLeq) && Distinct(r)
      decreases |rest|
    {
      var n :| n in rest;
      StringTotal();
      InsertOrdered(n, r, StringLeq);
      InsertDistinct(n, r, StringLeq);
      forall m { InsertElements(n, r, StringLeq, m); }
      r := Insert(n, r, StringLeq);
      rest := rest - {n};
    }
  }

  function Sort<T>(s: seq<T>, leq: (T, T) -> bool): (r: seq<T>)
    ensures multiset(r) == multiset(s)
    ensures |r| == |s|
  {
    if s == [] then [] else
      assert s == [s[0]] + s[1..];
      Insert(s[0], Sort(s[1..], leq), leq)
  }

  lemma {:induction false} SortOrdered<T(!new)>(s: seq<T>, leq: (T, T) -> bool)
    requires TotalPreorder(leq)
    ensures Ordered(Sort(s, leq), leq)
  {
    if s != [] {
      SortOrdered(s[1..], leq);
      InsertOrdered(s[0], Sort(s[1..], leq), leq);
    }
  }

  /** Sorting is stable and leaves an ordered sequence alone. */
  lemma {:induction false} OrderedIsSorted<T>(s: seq<T>, leq: (T, T) -> bool)
    requires Ordered(s, leq)
    ensures Sort(s, leq) == s
  {
    if s != [] {
      OrderedIsSorted(s[1..], leq);
      assert s == [s[0]] + s[1..];
    }
  }

  /** The sorted arrangement of a multiset is unique, so `sorted` forgets the order of its input. */
  lemma {:induction false} OrderedUnique<T(!new)>(a: seq<T>, b: seq<T>, leq: (T, T) -> bool)
    requires Total(leq) && Ordered(a, leq) && Ordered(b, leq)
    requires multiset(a) == multiset(b)
    ensures a == b
  {
    SameLength(a, b);
    if a != [] {
      FirstsAgree(a, b, leq);
      TailsAgree(a, b);
      OrderedUnique(a[1..], b[1..], leq);
      assert a == [a[0]] + a[1..] && b == [b[0]] + b[1..];
    }
  }

  lemma SameLength<T>(a: seq<T>, b: seq<T>)
    requires multiset(a) == multiset(b)
    ensures |a| == |b|
  {
    assert |multiset(a)| == |a| && |multiset(b)| == |b|;
  }

  lemma TailsAgree<T>(a: seq<T>, b: seq<T>)
    requires a != [] && b != [] && a[0] == b[0] && multiset(a) == multiset(b)
    ensures multiset(a[1..]) == multiset(b[1..])
  {
    assert a == [a[0]] + a[1..] && b == [b[0]] + b[1..];
    assert multiset(a[1..]) == multiset(a) - multiset{a[0]};
    assert multiset(b[1..]) == multiset(b) - multiset{b[0]};
  }

  lemma FirstsAgree<T(!new)>(a: seq<T>, b: seq<T>, leq: (T, T) -> bool)
    requires Total(leq) && Ordered(a, leq) && Ordered(b, leq) && a != [] && b != []
    requires multiset(a) == multiset(b)
    ensures a[0] == b[0]
  {
    assert a[0] in multiset(b) && b[0] in multiset(a);
  }

  lemma SortForgetsOrder<T(!new)>(a: seq<T>, b: seq<T>, leq: (T, T) -> bool)
    requires Total(leq) && multiset(a) == multiset(b)
    ensures Sort(a, leq) == Sort(b, leq)
  {
    SortOrdered(a, leq);
    SortOrdered(b, leq);
    OrderedUnique(Sort(a, leq), Sort(b, leq), leq);
  }

  /** Python compares tuples and strings element by element, a proper prefix first. */
  predicate LexLeq<T(==)>(a: seq<T>, b: seq<T>, leq: (T, T) -> bool) {
    a == [] || (b != [] && if a[0] == b[0] then LexLeq(a[1..], b[1..], leq) else leq(a[0], b[0]))
  }

  /** The sequences are equal, one begins the other, or they first differ where `a` is smaller. */
  ghost predicate FirstDiffers<T(!new)>(a: seq<T>, b: seq<T>, leq: (T, T) -> bool, k: nat) {
    && k <= |a| && k <= |b| && a[..k] == b[..k]
    && (k == |a| || (k < |b| && a[k] != b[k] && leq(a[k], b[k])))
  }

  lemma {:induction false} LexExactly<T(!new)>(a: seq<T>, b: seq<T>, leq: (T, T) -> bool)
    ensures LexLeq(a, b, leq) <==> exists k: nat :: FirstDiffers(a, b, leq, k)
  {
    if a == [] {
      assert FirstDiffers(a, b, leq, 0);
    } else if b != [] && a[0] == b[0] {
      LexExactly(a[1..], b[1..], leq);
      if k: nat :| FirstDiffers(a[1..], b[1..], leq, k) {
        assert a[..k + 1] == [a[0]] + a[1..][..k] && b[..k + 1] == [b[0]] + b[1..][..k];
        assert FirstDiffers(a, b, leq, k + 1);
      }
      if k: nat :| FirstDiffers(a, b, leq, k) {
        assert k > 0;
        assert a[1..][..k - 1] == a[..k][1..] && b[1..][..k - 1] == b[..k][1..];
        assert FirstDiffers(a[1..], b[1..], leq, k - 1);
      }
    } else if b != [] {
      if leq(a[0], b[0]) { assert FirstDiffers(a, b, leq, 0); }
      forall k: nat | 0 < k <= |a| && k <= |b| ensures a[..k] == b[..k] ==> a[0] == b[0] { HeadsAgree(a, b, k); }
    }
  }

  lemma HeadsAgree<T>(a: seq<T>, b: seq<T>, k: nat)
    requires 0 < k <= |a| && k <= |b|
    ensures a[..k] == b[..k] ==> a[0] == b[0]
  {
    assert a[..k][0] == a[0] && b[..k][0] == b[0];
  }

  lemma {:induction false} LexConnected<T(!new)>(a: seq<T>, b: seq<T>, leq: (T, T) -> bool)
    requires Total(leq)
    ensures LexLeq(a, b, leq) || LexLeq(b, a, leq)
    ensures LexLeq(a, b, leq) && LexLeq(b, a, leq) ==> a == b
  {
    if a != [] && b != [] {
      assert a == [a[0]] + a[1..] && b == [b[0]] + b[1..];
      if a[0] == b[0] { LexConnected(a[1..], b[1..], leq); }
    }
  }

  lemma {:induction false} LexTransitive<T(!new)>(a: seq<T>, b: seq<T>, c: seq<T>, leq: (T, T) -> bool)
    requires Total(leq) && LexLeq(a, b, leq) && LexLeq(b, c, leq)
    ensures LexLeq(a, c, leq)
  {
    if a != [] && a[0] == b[0] && b[0] == c[0] {
      LexTransitive(a[1..], b[1..], c[1..], leq);
    }
  }

  lemma LexTotal<T(!new)>(leq: (T, T) -> bool)
    requires Total(leq)
    ensures Total((a: seq<T>, b: seq<T>) => LexLeq(a, b, leq))
  {
    forall a: seq<T>, b: seq<T> { LexConnected(a, b, leq); }
    forall a: seq<T>, b: seq<T>, c: seq<T> | LexLeq(a, b, leq) && LexLeq(b, c, leq) {
      LexTransitive(a, b, c, leq);
    }
  }

  predicate CharLeq(a: char, b: char) { a <= b }

  predicate StringLeq(a: string, b: string) { LexLeq(a, b, CharLeq) }

  /** `a` begins `b`, or has the smaller character where they first differ. */
  ghost predicate SmallerAt(a: string, b: string, k: nat) {
    && k <= |a| && k <= |b| && a[..k] == b[..k]
    && (k == |a| || (k < |b| && a[k] < b[k]))
  }

  lemma StringExactly(a: string, b: string)
    ensures StringLeq(a, b) <==> exists k: nat :: SmallerAt(a, b, k)
  {
    LexExactly(a, b, CharLeq);
    forall k: nat ensures FirstDiffers(a, b, CharLeq, k) <==> SmallerAt(a, b, k) {}
  }

  lemma StringTotal()
    ensures Total(StringLeq)
  {
    LexTotal(CharLeq);
    var order := (a: string, b: string) => LexLeq(a, b, CharLeq);
    forall a: string, b: string ensures StringLeq(a, b) == order(a, b) {}
  }
}
