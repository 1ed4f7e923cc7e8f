/**
 The parts of `top_level_parts` (scripts/migrate_task6_deleted_tests.py) as sources of their
 own: when each can be masked alone, and a source that is cut inside a comment.
 */
module PartMasks {
  import opened Outcome
  import opened Lexing
  import opened Lines
  import opened GreedyPartition
  import opened GeneratedFiles
  import opened BraceDepths
  import opened TopLevelParts
  import opened MaskCuts
  import RustMasker

  type Pieces = seq<Piece<RustMasker.Kind>>

  lemma {:induction false} LinesTerminated(s: string, i: nat)
    requires i + 1 < |Split(s)|
    ensures Terminated(Split(s)[i])
    decreases |s|
  {
    var n := LineLength(s);
    assert n < |s| && Split(s) == [s[..n + 1]] + Split(s[n + 1..]);
    if i > 0 { LinesTerminated(s[n + 1..], i - 1); }
  }

  lemma {:induction false} ConcatTerminated(lines: seq<string>)
    requires forall i :: 0 <= i < |lines| ==> Terminated(lines[i])
    ensures Terminated(Concat(lines))
  {
    if lines != [] { ConcatTerminated(lines[1..]); }
  }

  lemma {:induction false} PartsSeamed(lines: seq<string>, from: nat, cuts: Cuts)
    requires from <= |lines| && Ascending(cuts, from, |lines|)
    requires forall i :: 0 <= i < |lines| - 1 ==> Terminated(lines[i])
    ensures Seamed(PartTexts(lines, from, cuts))
    decreases |cuts|
  {
    var parts := PartTexts(lines, from, cuts);
    if cuts == [] {
      assert parts[1..] == [];
    } else {
      PartsSeamed(lines, cuts[0], cuts[1..]);
      assert parts[1..] == PartTexts(lines, cuts[0], cuts[1..]);
      if cuts[0] < |lines| {
        ConcatTerminated(lines[from..cuts[0]]);
      } else {
        assert cuts[1..] == [] && parts[1..][1..] == [] && lines[cuts[0]..] == [];
        assert Concat(parts[1..]) == "" + "";
      }
    }
  }

  /**
   The parts of a split mask on their own to their slices of the mask of the source if and
   only if no comment and no literal of the source straddles a cut.
   */
  lemma SplitPartsMaskAlone(source: string, maxLines: int, oversized: Option<int>)
    requires SplitOf(source, maxLines, oversized).Ok?
    ensures RustMasker.Mask(source).Ok?
    ensures var parts := SplitOf(source, maxLines, oversized).value;
            EachMasks(parts, RustMasker.Mask(source).value) <==> StartsBetween(parts, RustMasker.PiecesOf(source), 0)
  {
    var parts := SplitOf(source, maxLines, oversized).value;
    SplitSeamed(source, maxLines, oversized);
    PartsMaskAlone(parts);
  }

  lemma SplitSeamed(source: string, maxLines: int, oversized: Option<int>)
    requires SplitOf(source, maxLines, oversized).Ok?
    ensures var parts := SplitOf(source, maxLines, oversized).value; Concat(parts) == source && Seamed(parts)
  {
    var lines, masked := Split(source), Split(RustMasker.Mask(source).value);
    SameLines(source, RustMasker.Mask(source).value);
    PartsConserve(lines, masked, maxLines, oversized);
    ConcatSplit(source);
    forall i: nat | i < |lines| - 1 ensures Terminated(lines[i]) { LinesTerminated(source, i); }
    PartsSeamed(lines, 0, CutsOf(masked, maxLines, oversized).value);
  }

  // ----- A check before the split -----

  /** The end of line `k` lies between two pieces of the source. */
  ghost predicate CleanAt(lines: seq<string>, pieces: Pieces, k: nat)
    requires k <= |lines|
  {
    Between(pieces, |Concat(lines[..k])|)
  }

  /** No comment and no literal straddles a line end, in front of the last one, at which an item ends. */
  ghost predicate CleanCandidates(lines: seq<string>, masked: seq<string>, pieces: Pieces)
    requires |lines| == |masked|
  {
    forall k: nat :: k < |lines| && ItemEnds(masked, k) ==> CleanAt(lines, pieces, k)
  }

  lemma {:induction false} PartsStart(lines: seq<string>, pieces: Pieces, from: nat, cuts: Cuts)
    requires from <= |lines| && Ascending(cuts, from, |lines|) && CleanAt(lines, pieces, from)
    requires forall c :: c in cuts ==> c <= |lines| && CleanAt(lines, pieces, c)
    ensures StartsBetween(PartTexts(lines, from, cuts), pieces, |Concat(lines[..from])|)
    decreases |cuts|
  {
    var parts := PartTexts(lines, from, cuts);
    if cuts == [] {
      assert parts[1..] == [];
    } else {
      assert forall c :: c in cuts[1..] ==> c in cuts;
      PartsStart(lines, pieces, cuts[0], cuts[1..]);
      ConcatSlice(lines, from, cuts[0]);
      assert parts[1..] == PartTexts(lines, cuts[0], cuts[1..]);
    }
  }

  lemma EndsClean(source: string)
    requires RustMasker.Mask(source).Ok?
    ensures CleanAt(Split(source), RustMasker.PiecesOf(source), 0)
    ensures CleanAt(Split(source), RustMasker.PiecesOf(source), |Split(source)|)
  {
    PiecesTotal(source);
    BetweenTotal(RustMasker.PiecesOf(source));
    WholeText(source);
  }

  lemma WholeText(source: string)
    ensures var lines := Split(source); Concat(lines[..0]) == "" && Concat(lines[..|lines|]) == source
  {
    var lines := Split(source);
    ConcatSplit(source);
    assert lines[..|lines|] == lines && lines[..0] == [];
  }

  lemma CutsClean(lines: seq<string>, masked: seq<string>, pieces: Pieces, maxLines: int, oversized: Option<int>)
    requires |lines| == |masked| && CleanCandidates(lines, masked, pieces) && CleanAt(lines, pieces, |lines|)
    requires CutsOf(masked, maxLines, oversized).Ok?
    ensures forall c :: c in CutsOf(masked, maxLines, oversized).value ==> c <= |lines| && CleanAt(lines, pieces, c)
  {
    var cs, n := Candidates(masked, |masked|), |masked|;
    CandidatesBounded(masked, n);
    forall c | c in CutsOf(masked, maxLines, oversized).value ensures c <= |lines| && CleanAt(lines, pieces, c) {
      CutsAreCandidates(cs, n, 0, maxLines, oversized, c);
      CandidatesExact(masked, n, c);
      CandidateExactly(masked, c);
    }
  }

  function MaskedLines(source: string): (r: seq<string>)
    requires RustMasker.Mask(source).Ok?
    ensures |r| == |Split(source)|
  {
    SameLines(source, RustMasker.Mask(source).value);
    Split(RustMasker.Mask(source).value)
  }

  // ----- The check is exact for sources that end behind an item -----

  /** With a candidate at the end and a wide oversized limit, every run of the loop succeeds. */
  lemma {:induction false} AlwaysCuts(cs: seq<nat>, total: nat, start: nat, maxLines: int)
    requires Bounded(cs, total) && start <= total && total in cs && maxLines >= 1
    ensures CutsFrom(cs, total, start, maxLines, Some(total + 1)).Ok?
    decreases total - start
  {
    if total - start > maxLines - 1 {
      var next := NextCut(cs, start, maxLines, Some(total + 1));
      AlwaysCuts(cs, total, next.value, maxLines);
    }
  }

  /** With a limit right behind it, a candidate is the first cut. */
  lemma FirstCut(cs: seq<nat>, total: nat, k: nat)
    requires Rising(cs) && Bounded(cs, total) && total in cs && 0 < k < total && k in cs
    ensures var r := CutsFrom(cs, total, 0, k + 1, Some(total + 1)); r.Ok? && r.value != [] && r.value[0] == k
  {
    AlwaysCuts(cs, total, 0, k + 1);
    LastInIsMax(cs, 0, k, k);
  }

  lemma StraddledParts(lines: seq<string>, pieces: Pieces, cuts: Cuts)
    requires Ascending(cuts, 0, |lines|) && cuts != [] && cuts[0] <= |lines| && !CleanAt(lines, pieces, cuts[0])
    ensures !StartsBetween(PartTexts(lines, 0, cuts), pieces, 0)
  {
    var parts := PartTexts(lines, 0, cuts);
    assert parts[0] == Concat(lines[0..cuts[0]]) && lines[0..cuts[0]] == lines[..cuts[0]];
    assert parts[1..] == PartTexts(lines, cuts[0], cuts[1..]);
  }

  /** A successful split starts every part between two pieces. */
  ghost predicate StartsClean(split: PartsResult, pieces: Pieces) {
    split.Ok? ==> StartsBetween(split.value, pieces, 0)
  }

  lemma StraddledLines(lines: seq<string>, masked: seq<string>, pieces: Pieces, k: nat)
    requires |lines| == |masked| && k < |lines|
    requires IsCandidate(masked, |masked|) && IsCandidate(masked, k) && !CleanAt(lines, pieces, k)
    ensures !StartsClean(PartsOf(lines, masked, k + 1, Some(|lines| + 1)), pieces)
  {
    var n := |masked|;
    CandidatesBounded(masked, n);
    CandidatesExact(masked, n, k);
    CandidatesExact(masked, n, n);
    FirstCut(Candidates(masked, n), n, k);
    DepthEnds(masked);
    var cuts := CutsOf(masked, k + 1, Some(n + 1));
    assert cuts.Ok? && cuts.value[0] == k;
    StraddledParts(lines, pieces, cuts.value);
  }

  lemma CleanLines(lines: seq<string>, masked: seq<string>, pieces: Pieces, maxLines: int, oversized: Option<int>)
    requires |lines| == |masked| && CleanAt(lines, pieces, 0) && CleanAt(lines, pieces, |lines|)
    requires CleanCandidates(lines, masked, pieces)
    ensures StartsClean(PartsOf(lines, masked, maxLines, oversized), pieces)
  {
    if PartsOf(lines, masked, maxLines, oversized).Ok? {
      CutsClean(lines, masked, pieces, maxLines, oversized);
      PartsStart(lines, pieces, 0, CutsOf(masked, maxLines, oversized).value);
      assert lines[..0] == [];
    }
  }

  lemma LinesExact(lines: seq<string>, masked: seq<string>, pieces: Pieces)
    requires |lines| == |masked| && CleanAt(lines, pieces, 0) && CleanAt(lines, pieces, |lines|)
    requires ItemEnds(masked, |masked|)
    ensures CleanCandidates(lines, masked, pieces) <==>
            forall maxLines, oversized :: StartsClean(PartsOf(lines, masked, maxLines, oversized), pieces)
  {
    if CleanCandidates(lines, masked, pieces) {
      forall maxLines, oversized ensures StartsClean(PartsOf(lines, masked, maxLines, oversized), pieces) {
        CleanLines(lines, masked, pieces, maxLines, oversized);
      }
    } else {
      var k: nat :| k < |lines| && ItemEnds(masked, k) && !CleanAt(lines, pieces, k);
      CandidateExactly(masked, k);
      CandidateExactly(masked, |masked|);
      StraddledLines(lines, masked, pieces, k);
    }
  }

  /** The parts of a successful split mask on their own to their slices of the mask of the source. */
  ghost predicate MasksAlone(source: string, maxLines: int, oversized: Option<int>)
    requires RustMasker.Mask(source).Ok?
  {
    SplitOf(source, maxLines, oversized).Ok? ==>
      EachMasks(SplitOf(source, maxLines, oversized).value, RustMasker.Mask(source).value)
  }

  lemma AloneIsClean(source: string, maxLines: int, oversized: Option<int>)
    requires RustMasker.Mask(source).Ok?
    ensures MasksAlone(source, maxLines, oversized) <==>
            StartsClean(PartsOf(Split(source), MaskedLines(source), maxLines, oversized), RustMasker.PiecesOf(source))
  {
    if SplitOf(source, maxLines, oversized).Ok? { SplitPartsMaskAlone(source, maxLines, oversized); }
  }

  /**
   What can be checked before a split: when no comment and no literal straddles a
   candidate line end, the parts of every successful split mask on their own.
   */
  lemma CleanSplitsMaskAlone(source: string, maxLines: int, oversized: Option<int>)
    requires RustMasker.Mask(source).Ok?
    requires CleanCandidates(Split(source), MaskedLines(source), RustMasker.PiecesOf(source))
    ensures MasksAlone(source, maxLines, oversized)
  {
    EndsClean(source);
    CleanLines(Split(source), MaskedLines(source), RustMasker.PiecesOf(source), maxLines, oversized);
    AloneIsClean(source, maxLines, oversized);
  }

  /**
   For a source whose last line ends an item, the check is exact: the parts of every
   successful split, at any limits, mask on their own if and only if no comment and no
   literal straddles a candidate line end.
   */
  lemma CheckIsExact(source: string)
    requires RustMasker.Mask(source).Ok? && ItemEnds(MaskedLines(source), |MaskedLines(source)|)
    ensures CleanCandidates(Split(source), MaskedLines(source), RustMasker.PiecesOf(source)) <==>
            forall maxLines, oversized :: MasksAlone(source, maxLines, oversized)
  {
    EndsClean(source);
    LinesExact(Split(source), MaskedLines(source), RustMasker.PiecesOf(source));
    forall maxLines, oversized { AloneIsClean(source, maxLines, oversized); }
  }
}
