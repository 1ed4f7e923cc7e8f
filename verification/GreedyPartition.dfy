/**
 The argument behind both splitters of scripts/migrate_task6_deleted_tests.py: always
 taking the longest part that fits uses the fewest parts, and getting stuck means that no
 partition exists at all.
 */
module GreedyPartition {

  type Cuts = seq<nat>
  type Fits = (nat, nat) -> bool
  type Allowed = nat -> bool

  /** Part budgets only get easier for shorter stretches. */
  ghost predicate Shrinks(fits: Fits) {
    forall a, b, c, d :: a <= b <= c <= d && fits(a, d) ==> fits(b, c)
  }

  /** `cuts` splits `[from, total)` at allowed places into `|cuts| + 1` parts that all fit. */
  ghost predicate Partition(cuts: Cuts, from: nat, total: nat, allowed: Allowed, fits: Fits)
    decreases |cuts|
  {
    if cuts == [] then from <= total && fits(from, total)
    else
      && from < cuts[0] <= total && allowed(cuts[0]) && fits(from, cuts[0])
      && Partition(cuts[1..], cuts[0], total, allowed, fits)
  }

  /** No allowed cut beyond `c` would still fit, and neither would the whole rest. */
  ghost predicate Farthest(c: nat, from: nat, total: nat, allowed: Allowed, fits: Fits) {
    !fits(from, total) && forall d :: c < d <= total && allowed(d) ==> !fits(from, d)
  }

  ghost predicate Greedy(cuts: Cuts, from: nat, total: nat, allowed: Allowed, fits: Fits)
    decreases |cuts|
  {
    cuts != [] ==>
      && cuts[0] <= total && Farthest(cuts[0], from, total, allowed, fits)
      && Greedy(cuts[1..], cuts[0], total, allowed, fits)
  }

  ghost function Last(cuts: Cuts, from: nat): nat {
    if cuts == [] then from else cuts[|cuts| - 1]
  }

  /** Greedy stays ahead: starting no earlier, it never needs more parts. */
  lemma {:induction false} FewestParts(g: Cuts, gf: nat, p: Cuts, pf: nat, total: nat, allowed: Allowed, fits: Fits)
    requires Shrinks(fits) && pf <= gf <= total
    requires Greedy(g, gf, total, allowed, fits) && Partition(p, pf, total, allowed, fits)
    ensures |g| <= |p|
    decreases |g| + |p|
  {
    if g != [] && p != [] {
      if p[0] <= gf {
        FewestParts(g, gf, p[1..], p[0], total, allowed, fits);
      } else {
        assert fits(gf, p[0]);
        FewestParts(g[1..], g[0], p[1..], p[0], total, allowed, fits);
      }
    }
  }

  /** When no allowed cut after `at` fits and the rest does not either, there is no partition. */
  lemma {:induction false} StuckMeansNone(at: nat, p: Cuts, pf: nat, total: nat, allowed: Allowed, fits: Fits)
    requires Shrinks(fits) && pf <= at <= total
    requires Farthest(at, at, total, allowed, fits)
    ensures !Partition(p, pf, total, allowed, fits)
    decreases |p|
  {
    if p != [] && p[0] <= at {
      StuckMeansNone(at, p[1..], p[0], total, allowed, fits);
    }
  }

  /** Appending the next greedy cut. */
  lemma {:induction false} GreedyAppend(cuts: Cuts, from: nat, c: nat, total: nat, allowed: Allowed, fits: Fits)
    requires Greedy(cuts, from, total, allowed, fits)
    requires c <= total && Farthest(c, Last(cuts, from), total, allowed, fits)
    ensures Greedy(cuts + [c], from, total, allowed, fits)
    decreases |cuts|
  {
    if cuts != [] {
      GreedyAppend(cuts[1..], cuts[0], c, total, allowed, fits);
      assert (cuts + [c])[1..] == cuts[1..] + [c];
    } else {
      assert (cuts + [c])[1..] == [];
    }
  }

  /** The cuts so far, without the last part. */
  ghost predicate Prefix(cuts: Cuts, from: nat, total: nat, allowed: Allowed, fits: Fits)
    decreases |cuts|
  {
    cuts != [] ==>
      && from < cuts[0] <= total && allowed(cuts[0]) && fits(from, cuts[0])
      && Prefix(cuts[1..], cuts[0], total, allowed, fits)
  }

  lemma {:induction false} PrefixAppend(cuts: Cuts, from: nat, c: nat, total: nat, allowed: Allowed, fits: Fits)
    requires Prefix(cuts, from, total, allowed, fits)
    requires Last(cuts, from) < c <= total && allowed(c) && fits(Last(cuts, from), c)
    ensures Prefix(cuts + [c], from, total, allowed, fits)
    decreases |cuts|
  {
    if cuts != [] {
      PrefixAppend(cuts[1..], cuts[0], c, total, allowed, fits);
      assert (cuts + [c])[1..] == cuts[1..] + [c];
    } else {
      assert (cuts + [c])[1..] == [];
    }
  }

  lemma {:induction false} PrefixCloses(cuts: Cuts, from: nat, total: nat, allowed: Allowed, fits: Fits)
    requires Prefix(cuts, from, total, allowed, fits) && from <= total
    requires fits(Last(cuts, from), total)
    ensures Partition(cuts, from, total, allowed, fits)
    decreases |cuts|
  {
    if cuts != [] { PrefixCloses(cuts[1..], cuts[0], total, allowed, fits); }
  }

  // ----- The parts themselves -----

  /** The parts that end at a cut; the last part is what remains after the last cut. */
  function Parts<T>(s: seq<T>, from: nat, cuts: Cuts): (r: seq<seq<T>>)
    requires from <= |s| && Ascending(cuts, from, |s|)
    ensures |r| == |cuts|
    decreases |cuts|
  {
    if cuts == [] then [] else [s[from..cuts[0]]] + Parts(s, cuts[0], cuts[1..])
  }

  predicate Ascending(cuts: Cuts, from: nat, total: nat)
    decreases |cuts|
  {
    cuts != [] ==> from < cuts[0] <= total && Ascending(cuts[1..], cuts[0], total)
  }

  lemma {:induction false} PartsAppend<T>(s: seq<T>, from: nat, cuts: Cuts, c: nat)
    requires from <= |s| && Ascending(cuts, from, |s|) && Last(cuts, from) < c <= |s|
    ensures Ascending(cuts + [c], from, |s|)
    ensures Parts(s, from, cuts + [c]) == Parts(s, from, cuts) + [s[Last(cuts, from)..c]]
    decreases |cuts|
  {
    if cuts != [] {
      PartsAppend(s, cuts[0], cuts[1..], c);
      assert (cuts + [c])[1..] == cuts[1..] + [c];
    } else {
      assert (cuts + [c])[1..] == [];
    }
  }

  function Flatten<T>(parts: seq<seq<T>>): seq<T> {
    if parts == [] then [] else parts[0] + Flatten(parts[1..])
  }

  /** Nothing is lost or moved: the parts and the rest make up the sequence. */
  lemma {:induction false} PartsFlatten<T>(s: seq<T>, from: nat, cuts: Cuts)
    requires from <= |s| && Ascending(cuts, from, |s|)
    ensures Last(cuts, from) <= |s| && Flatten(Parts(s, from, cuts)) + s[Last(cuts, from)..] == s[from..]
    decreases |cuts|
  {
    if cuts != [] {
      PartsFlatten(s, cuts[0], cuts[1..]);
      assert s[from..] == s[from..cuts[0]] + s[cuts[0]..];
      var parts := Parts(s, from, cuts);
      assert parts[1..] == Parts(s, cuts[0], cuts[1..]);
      assert Flatten(parts) == parts[0] + Flatten(parts[1..]);
    }
  }

  /** Every part of a partition is a stretch that fits. */
  lemma {:induction false} PartStretches<T>(s: seq<T>, from: nat, cuts: Cuts, allowed: Allowed, fits: Fits, i: nat)
    returns (a: nat, b: nat)
    requires from <= |s| && Ascending(cuts, from, |s|) && Last(cuts, from) <= |s| && i <= |cuts|
    requires Partition(cuts, from, |s|, allowed, fits)
    ensures a <= b <= |s| && fits(a, b) && (Parts(s, from, cuts) + [s[Last(cuts, from)..]])[i] == s[a..b]
    ensures i < |cuts| ==> a < b && allowed(b)
    ensures i == |cuts| ==> a == Last(cuts, from) && b == |s|
    decreases |cuts|
  {
    if cuts == [] {
      a, b := from, |s|;
      assert s[from..] == s[from..|s|];
    } else if i == 0 {
      a, b := from, cuts[0];
    } else {
      a, b := PartStretches(s, cuts[0], cuts[1..], allowed, fits, i - 1);
    }
  }

  lemma {:induction false} FlattenAppend<T>(a: seq<seq<T>>, b: seq<seq<T>>)
    ensures Flatten(a + b) == Flatten(a) + Flatten(b)
  {
    if a == [] {
      assert a + b == b;
    } else {
      FlattenAppend(a[1..], b);
      assert (a + b)[0] == a[0] && (a + b)[1..] == a[1..] + b;
    }
  }
}
