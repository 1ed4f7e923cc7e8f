/**
 Splicing replacements into a source (`rename_all_tests` and `without_ranges`,
 scripts/migrate_task6_deleted_tests.py).

 `rename_all_tests` replaces ranges from the last one to the first, so that the offsets of
 the ranges still to come stay valid although the replacements have lengths of their own.
 The reference is a substitution that reads the source once from left to right and copies
 what lies between the ranges. For ranges in order both agree; the outside pieces are the
 same whatever is put in their place, interleaved with the replacements they give the
 result, and interleaved with what the ranges held they give the source back.
 */
module Splicing {
  import opened GeneratedFiles

  /** A half-open range and the text that takes its place. */
  datatype Edit = Edit(start: nat, end: nat, text: string)

  /** Ranges in source order that do not overlap, all from `cursor` on. */
  predicate InOrder(edits: seq<Edit>, cursor: nat, length: nat) {
    if edits == [] then cursor <= length
    else cursor <= edits[0].start <= edits[0].end && InOrder(edits[1..], edits[0].end, length)
  }

  /** Simultaneous substitution: outside pieces and replacements in turn. */
  function Substitute(source: string, edits: seq<Edit>, cursor: nat): string
    requires InOrder(edits, cursor, |source|)
  {
    if edits == [] then source[cursor..]
    else
      InOrderEnds(edits, cursor, |source|);
      source[cursor..edits[0].start] + edits[0].text + Substitute(source, edits[1..], edits[0].end)
  }

  lemma {:induction false} InOrderEnds(edits: seq<Edit>, cursor: nat, length: nat)
    requires InOrder(edits, cursor, length)
    ensures cursor <= length
    ensures edits != [] ==> edits[0].end <= length
  {
    if edits != [] { InOrderEnds(edits[1..], edits[0].end, length); }
  }

  lemma {:induction false} InOrderInit(edits: seq<Edit>, cursor: nat, length: nat)
    requires edits != [] && InOrder(edits, cursor, length)
    ensures var n := |edits| - 1;
            && InOrder(edits[..n], cursor, edits[n].start)
            && InOrder(edits[..n], cursor, length)
            && edits[n].start <= edits[n].end <= length
  {
    var n := |edits| - 1;
    if n > 0 {
      InOrderInit(edits[1..], edits[0].end, length);
      assert edits[1..][..n - 1] == edits[..n][1..];
    } else {
      InOrderEnds(edits[1..], edits[0].end, length);
      assert edits[..0] == [];
    }
  }

  /** `s[:n]` and `s[n:]`, which Python clamps to the text. */
  function Take(s: string, n: nat): string { if n <= |s| then s[..n] else s }

  function Drop(s: string, n: nat): string { if n <= |s| then s[n..] else "" }

  function Splice(source: string, e: Edit): string { Take(source, e.start) + e.text + Drop(source, e.end) }

  lemma SpliceKeeps(source: string, e: Edit, a: nat, b: nat)
    requires a <= b <= e.start <= e.end <= |source|
    ensures e.start <= |Splice(source, e)|
    ensures Splice(source, e)[a..b] == source[a..b]
    ensures Splice(source, e)[a..] == source[a..e.start] + e.text + source[e.end..]
  {}

  /** The last edit can be made first: it changes nothing before its range. */
  lemma {:induction false} LastFirst(source: string, edits: seq<Edit>, cursor: nat, last: Edit)
    requires InOrder(edits, cursor, last.start) && InOrder(edits + [last], cursor, |source|)
    requires last.start <= last.end <= |source|
    ensures InOrder(edits, cursor, |Splice(source, last)|)
    ensures Substitute(source, edits + [last], cursor) == Substitute(Splice(source, last), edits, cursor)
  {
    InOrderEnds(edits, cursor, last.start);
    SpliceKeeps(source, last, cursor, last.start);
    Widen(edits, cursor, last.start, |Splice(source, last)|);
    var all := edits + [last];
    if edits == [] {
      assert all[1..] == [] && all[0] == last;
    } else {
      assert all[0] == edits[0] && all[1..] == edits[1..] + [last];
      LastFirst(source, edits[1..], edits[0].end, last);
      SpliceKeeps(source, last, cursor, edits[0].start);
    }
  }

  lemma {:induction false} Widen(edits: seq<Edit>, cursor: nat, short: nat, long: nat)
    requires InOrder(edits, cursor, short) && short <= long
    ensures InOrder(edits, cursor, long)
  {
    if edits != [] { Widen(edits[1..], edits[0].end, short, long); }
  }

  /** The edits made one after the other, the last one first. */
  function SpliceAll(source: string, edits: seq<Edit>): string
    decreases |edits|
  {
    if edits == [] then source
    else SpliceAll(Splice(source, edits[|edits| - 1]), edits[..|edits| - 1])
  }

  /** For ranges in order, splicing backwards is simultaneous substitution. */
  lemma {:induction false} SpliceAllSubstitutes(source: string, edits: seq<Edit>)
    requires InOrder(edits, 0, |source|)
    ensures SpliceAll(source, edits) == Substitute(source, edits, 0)
    decreases |edits|
  {
    if edits == [] {
      assert source[0..] == source;
    } else {
      var n := |edits| - 1;
      InOrderInit(edits, 0, |source|);
      assert edits == edits[..n] + [edits[n]];
      LastFirst(source, edits[..n], 0, edits[n]);
      SpliceAllSubstitutes(Splice(source, edits[n]), edits[..n]);
    }
  }

  /** The loop over `reversed(replacements)`. */
  method SpliceBackwards(source: string, edits: seq<Edit>) returns (migrated: string)
    ensures migrated == SpliceAll(source, edits)
    ensures InOrder(edits, 0, |source|) ==> migrated == Substitute(source, edits, 0)
  {
    if InOrder(edits, 0, |source|) { SpliceAllSubstitutes(source, edits); }
    migrated := source;
    var n := |edits|;
    assert edits[..n] == edits;
    while n > 0
      invariant 0 <= n <= |edits|
      invariant SpliceAll(migrated, edits[..n]) == SpliceAll(source, edits)
    {
      n := n - 1;
      assert edits[..n + 1][..n] == edits[..n];
      migrated := Take(migrated, edits[n].start) + edits[n].text + Drop(migrated, edits[n].end);
    }
  }

  // ----- Text outside the ranges -----

  /** The pieces before, between and after the ranges. */
  function Outside(source: string, edits: seq<Edit>, cursor: nat): (r: seq<string>)
    requires InOrder(edits, cursor, |source|)
    ensures |r| == |edits| + 1
  {
    if edits == [] then [source[cursor..]]
    else
      InOrderEnds(edits, cursor, |source|);
      [source[cursor..edits[0].start]] + Outside(source, edits[1..], edits[0].end)
  }

  /** Pieces and fillers in turn, a piece at both ends. */
  function Interleave(pieces: seq<string>, fillers: seq<string>): string
    requires |pieces| == |fillers| + 1
  {
    if fillers == [] then pieces[0] else pieces[0] + fillers[0] + Interleave(pieces[1..], fillers[1..])
  }

  function Texts(edits: seq<Edit>): (r: seq<string>)
    ensures |r| == |edits|
  {
    seq(|edits|, i requires 0 <= i < |edits| => edits[i].text)
  }

  /** The text each range held. */
  function Held(source: string, edits: seq<Edit>, cursor: nat): (r: seq<string>)
    requires InOrder(edits, cursor, |source|)
    ensures |r| == |edits|
  {
    if edits == [] then []
    else
      InOrderEnds(edits, cursor, |source|);
      [source[edits[0].start..edits[0].end]] + Held(source, edits[1..], edits[0].end)
  }

  /** The result keeps every outside piece, in order, around the replacements. */
  lemma {:induction false} SubstituteInterleaves(source: string, edits: seq<Edit>, cursor: nat)
    requires InOrder(edits, cursor, |source|)
    ensures Substitute(source, edits, cursor) == Interleave(Outside(source, edits, cursor), Texts(edits))
  {
    if edits != [] {
      SubstituteInterleaves(source, edits[1..], edits[0].end);
      assert Texts(edits)[1..] == Texts(edits[1..]);
      assert Outside(source, edits, cursor)[1..] == Outside(source, edits[1..], edits[0].end);
    }
  }

  /** The outside pieces and what the ranges held rebuild the source. */
  lemma {:induction false} OutsideRebuilds(source: string, edits: seq<Edit>, cursor: nat)
    requires InOrder(edits, cursor, |source|)
    ensures cursor <= |source|
    ensures Interleave(Outside(source, edits, cursor), Held(source, edits, cursor)) == source[cursor..]
  {
    InOrderEnds(edits, cursor, |source|);
    if edits != [] {
      OutsideRebuilds(source, edits[1..], edits[0].end);
      assert Outside(source, edits, cursor)[1..] == Outside(source, edits[1..], edits[0].end);
      assert Held(source, edits, cursor)[1..] == Held(source, edits[1..], edits[0].end);
      ThreeSlices(source, cursor, edits[0].start, edits[0].end);
    }
  }

  lemma ThreeSlices(s: string, a: nat, b: nat, c: nat)
    requires a <= b <= c <= |s|
    ensures s[a..] == s[a..b] + s[b..c] + s[c..]
  {}

  function Erased(edits: seq<Edit>): (r: seq<Edit>)
    ensures |r| == |edits|
  {
    seq(|edits|, i requires 0 <= i < |edits| => edits[i].(text := ""))
  }

  lemma {:induction false} ErasedInOrder(edits: seq<Edit>, cursor: nat, length: nat)
    requires InOrder(edits, cursor, length)
    ensures InOrder(Erased(edits), cursor, length)
  {
    if edits != [] {
      ErasedInOrder(edits[1..], edits[0].end, length);
      assert Erased(edits)[1..] == Erased(edits[1..]);
    }
  }

  /** The text `without_ranges` keeps from `cursor` on: an empty slice where a range starts before it. */
  function Kept(source: string, ranges: seq<Edit>, cursor: nat): string {
    if ranges == [] then Drop(source, cursor)
    else Gap(source, cursor, ranges[0].start) + Kept(source, ranges[1..], ranges[0].end)
  }

  /** `s[a:b]`. */
  function Gap(s: string, a: nat, b: nat): string { Drop(Take(s, b), a) }

  /** For ranges in order, that is the source with the ranges replaced by nothing. */
  lemma {:induction false} KeptIsOutside(source: string, ranges: seq<Edit>, cursor: nat)
    requires InOrder(ranges, cursor, |source|)
    ensures InOrder(Erased(ranges), cursor, |source|)
    ensures Kept(source, ranges, cursor) == Substitute(source, Erased(ranges), cursor)
  {
    InOrderEnds(ranges, cursor, |source|);
    ErasedInOrder(ranges, cursor, |source|);
    if ranges != [] {
      KeptIsOutside(source, ranges[1..], ranges[0].end);
      assert Erased(ranges)[1..] == Erased(ranges[1..]);
      InOrderEnds(ranges[1..], ranges[0].end, |source|);
      var s := ranges[0].start;
      assert source[..s][cursor..] == source[cursor..s];
      assert source[cursor..s] + "" == source[cursor..s];
    }
  }

  lemma Assoc(a: string, b: string, c: string)
    ensures a + (b + c) == (a + b) + c
  {}

  /** `without_ranges`: what is kept, trimmed at the end, and a blank line. */
  method WithoutRanges(source: string, ranges: seq<Edit>) returns (r: string)
    ensures r == TrimEnd(Kept(source, ranges, 0)) + "\n\n"
  {
    var kept := "";
    var cursor: nat := 0;
    assert ranges[0..] == ranges && "" + Kept(source, ranges, 0) == Kept(source, ranges, 0);
    for i := 0 to |ranges|
      invariant kept + Kept(source, ranges[i..], cursor) == Kept(source, ranges, 0)
    {
      var range := ranges[i];
      assert ranges[i..][0] == range && ranges[i..][1..] == ranges[i + 1..];
      Assoc(kept, Gap(source, cursor, range.start), Kept(source, ranges[i + 1..], range.end));
      kept := kept + Gap(source, cursor, range.start);
      cursor := range.end;
    }
    r := TrimEnd(kept + Drop(source, cursor)) + "\n\n";
  }
}
