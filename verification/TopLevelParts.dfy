/**
 `top_level_parts` and the fragment loop of `write_include_target`
 (scripts/migrate_task6_deleted_tests.py): cuts a Rust source at the ends of top-level
 items into include fragments of bounded length.
 */
module TopLevelParts {
  import opened Outcome
  import opened Lexing
  import opened Lines
  import opened GreedyPartition
  import opened GeneratedFiles
  import opened BraceDepths
  import RustMasker

  datatype PartsFailure =
    | CannotMask(why: RustMasker.Unterminated)
    | UnbalancedSource
    | ItemTooLong(lines: int)

  // ----- Where a cut is allowed -----

  /** The line ends with `;` or `}`, spaces aside. */
  predicate EndsItem(line: string) {
    var text := TrimEnd(line);
    text != "" && (text[|text| - 1] == ';' || text[|text| - 1] == '}')
  }

  /** The counters after the first `k` lines. */
  function DepthAfter(lines: seq<string>, k: nat): Depth
    requires k <= |lines|
  {
    TextDepth(Concat(lines[..k]))
  }

  lemma DepthStep(lines: seq<string>, i: nat)
    requires i < |lines|
    ensures DepthAfter(lines, i + 1) == Add(DepthAfter(lines, i), TextDepth(lines[i]))
  {
    ConcatSnoc(lines, i);
    TextDepthAppend(Concat(lines[..i]), lines[i]);
  }

  lemma DepthEnds(lines: seq<string>)
    ensures DepthAfter(lines, 0) == LEVEL && DepthAfter(lines, |lines|) == TextDepth(Concat(lines))
  {
    assert lines[..0] == [] && lines[..|lines|] == lines;
  }

  /** A cut after line `k` leaves no delimiter open and ends an item. */
  predicate IsCandidate(lines: seq<string>, k: nat) {
    0 < k <= |lines| && DepthAfter(lines, k) == LEVEL && EndsItem(lines[k - 1])
  }

  /** The last character of the line that is no space is `;` or `}`. */
  ghost predicate ClosesItem(line: string) {
    exists j :: 0 <= j < |line| && LastVisible(line, j) && (line[j] == ';' || line[j] == '}')
  }

  ghost predicate LastVisible(line: string, j: nat) {
    j < |line| && !IsSpace(line[j]) && forall k :: j < k < |line| ==> IsSpace(line[k])
  }

  /** Up to the end of line `k`, every kind of delimiter opens as often as it closes, and an item ends there. */
  ghost predicate ItemEnds(lines: seq<string>, k: nat) {
    0 < k <= |lines| && Level(Concat(lines[..k])) && ClosesItem(lines[k - 1])
  }

  lemma EndsItemExactly(line: string)
    ensures EndsItem(line) <==> ClosesItem(line)
  {
    var text := TrimEnd(line);
    if text != "" { assert LastVisible(line, |text| - 1); }
    if j :| 0 <= j < |line| && LastVisible(line, j) && (line[j] == ';' || line[j] == '}') {
      assert j < |text|;
      assert j == |text| - 1;
    }
  }

  lemma CandidateExactly(lines: seq<string>, k: nat)
    ensures IsCandidate(lines, k) <==> ItemEnds(lines, k)
  {
    if 0 < k <= |lines| {
      LevelExactly(Concat(lines[..k]));
      EndsItemExactly(lines[k - 1]);
    }
  }

  ghost function At(candidates: seq<nat>): Allowed {
    (k: nat) => k in candidates
  }

  ghost function Within(limit: int): Fits {
    (a: nat, b: nat) => a <= b && b - a <= limit
  }

  lemma WithinShrinks(limit: int)
    ensures Shrinks(Within(limit))
  {}

  /** The candidate line numbers up to `n`, ascending. */
  function Candidates(lines: seq<string>, n: nat): seq<nat>
    requires n <= |lines|
  {
    if n == 0 then []
    else Candidates(lines, n - 1) + if IsCandidate(lines, n) then [n] else []
  }

  lemma {:induction false} CandidatesExact(lines: seq<string>, n: nat, k: nat)
    requires n <= |lines|
    ensures k in Candidates(lines, n) <==> k <= n && IsCandidate(lines, k)
  {
    if n > 0 { CandidatesExact(lines, n - 1, k); }
  }

  method ScanCandidates(lines: seq<string>) returns (candidates: seq<nat>, depth: Depth)
    ensures depth == TextDepth(Concat(lines))
    ensures candidates == Candidates(lines, |lines|)
  {
    candidates, depth := [], LEVEL;
    DepthEnds(lines);
    for i := 0 to |lines|
      invariant depth == DepthAfter(lines, i)
      invariant candidates == Candidates(lines, i)
    {
      depth := ScanLine(depth, lines[i]);
      DepthStep(lines, i);
      if depth == LEVEL && EndsItem(lines[i]) {
        candidates := candidates + [i + 1];
      }
    }
  }

  // ----- The cuts -----

  /** The last of the ascending candidates in `(lo, hi]`. */
  function LastIn(candidates: seq<nat>, lo: int, hi: int): (r: Option<nat>)
    ensures r.Some? ==> r.value in candidates && lo < r.value <= hi
    ensures r.None? ==> forall c :: c in candidates ==> !(lo < c <= hi)
  {
    if candidates == [] then None
    else
      var n := |candidates| - 1;
      var c := candidates[n];
      assert candidates == candidates[..n] + [c];
      if lo < c <= hi then Some(c) else LastIn(candidates[..n], lo, hi)
  }

  function FirstIn(candidates: seq<nat>, lo: int, hi: int): (r: Option<nat>)
    ensures r.Some? ==> r.value in candidates && lo < r.value <= hi
    ensures r.None? ==> forall c :: c in candidates ==> !(lo < c <= hi)
  {
    if candidates == [] then None
    else
      var c := candidates[0];
      assert candidates == [c] + candidates[1..];
      if lo < c <= hi then Some(c) else FirstIn(candidates[1..], lo, hi)
  }

  /** Where the part starting after line `start` ends. */
  function NextCut(candidates: seq<nat>, start: nat, maxLines: int,
                   oversized: Option<int>): (r: Result<nat, PartsFailure>)
    ensures r.Ok? ==> r.value in candidates && start < r.value
  {
    var possible := LastIn(candidates, start, start + maxLines - 1);
    if possible.Some? then Ok(possible.value)
    else if oversized.None? then Err(ItemTooLong(maxLines - 1))
    else
      var extended := FirstIn(candidates, start, start + oversized.value - 1);
      if extended.Some? then Ok(extended.value) else Err(ItemTooLong(oversized.value - 1))
  }

  predicate Bounded(candidates: seq<nat>, total: nat) {
    forall c :: c in candidates ==> c <= total
  }

  /** The cuts of the loop from line `start` on. */
  function CutsFrom(candidates: seq<nat>, total: nat, start: nat, maxLines: int, oversized: Option<int>)
    : (r: Result<Cuts, PartsFailure>)
    requires Bounded(candidates, total) && start <= total
    ensures r.Ok? ==> Ascending(r.value, start, total)
    decreases total - start
  {
    if total - start <= maxLines - 1 then Ok([])
    else
      var next := NextCut(candidates, start, maxLines, oversized);
      if next.Err? then Err(next.error)
      else
        var rest := CutsFrom(candidates, total, next.value, maxLines, oversized);
        if rest.Err? then rest else Ok([next.value] + rest.value)
  }

  lemma {:induction false} CandidatesBounded(lines: seq<string>, n: nat)
    requires n <= |lines|
    ensures Bounded(Candidates(lines, n), n)
    ensures Rising(Candidates(lines, n))
  {
    if n > 0 {
      var before := Candidates(lines, n - 1);
      CandidatesBounded(lines, n - 1);
      forall i | 0 <= i < |before| ensures before[i] < n { assert before[i] in before; }
    }
  }

  ghost predicate Rising(c: seq<nat>) {
    forall i, j :: 0 <= i < j < |c| ==> c[i] < c[j]
  }

  lemma {:induction false} LastInIsMax(candidates: seq<nat>, lo: int, hi: int, c: nat)
    requires Rising(candidates) && c in candidates && lo < c <= hi
    ensures LastIn(candidates, lo, hi).Some? && c <= LastIn(candidates, lo, hi).value
  {
    var n := |candidates| - 1;
    if !(lo < candidates[n] <= hi) {
      assert candidates == candidates[..n] + [candidates[n]];
      LastInIsMax(candidates[..n], lo, hi, c);
    }
  }

  lemma {:induction false} FirstInIsMin(candidates: seq<nat>, lo: int, hi: int, c: nat)
    requires Rising(candidates) && c in candidates && lo < c <= hi
    ensures FirstIn(candidates, lo, hi).Some? && FirstIn(candidates, lo, hi).value <= c
  {
    if !(lo < candidates[0] <= hi) {
      assert candidates == [candidates[0]] + candidates[1..];
      FirstInIsMin(candidates[1..], lo, hi, c);
    }
  }

  // ----- What a cut is -----

  ghost predicate CandidateWithin(cs: seq<nat>, a: nat, limit: int) {
    exists c: nat :: a < c <= a + limit && c in cs
  }

  /**
   The end of the part after line `a`: the farthest candidate within `maxLines - 1` lines
   or, when there is none, the nearest candidate within the oversized limit.
   */
  ghost predicate Chosen(cs: seq<nat>, a: nat, b: nat, maxLines: int, oversized: Option<int>) {
    && a < b && b in cs
    && if CandidateWithin(cs, a, maxLines - 1)
       then b <= a + maxLines - 1 && forall c: nat :: b < c <= a + maxLines - 1 ==> c !in cs
       else oversized.Some? && b <= a + oversized.value - 1 && forall c: nat :: a < c < b ==> c !in cs
  }

  lemma NextCutChosen(cs: seq<nat>, a: nat, maxLines: int, oversized: Option<int>)
    requires Rising(cs)
    ensures var r := NextCut(cs, a, maxLines, oversized);
            && (r.Ok? ==> Chosen(cs, a, r.value, maxLines, oversized))
            && (r.Err? ==> !CandidateWithin(cs, a, maxLines - 1))
            && (r.Err? ==> oversized.Some? ==> !CandidateWithin(cs, a, oversized.value - 1))
  {
    forall c: nat | c in cs && a < c <= a + maxLines - 1
      ensures LastIn(cs, a, a + maxLines - 1).Some? && c <= LastIn(cs, a, a + maxLines - 1).value
    {
      LastInIsMax(cs, a, a + maxLines - 1, c);
    }
    if oversized.Some? {
      var hi := a + oversized.value - 1;
      forall c: nat | c in cs && a < c <= hi
        ensures FirstIn(cs, a, hi).Some? && FirstIn(cs, a, hi).value <= c
      {
        FirstInIsMin(cs, a, hi, c);
      }
    }
  }

  /** Every part but the last ends at the chosen cut; the last one is what fits. */
  ghost predicate Follows(cs: seq<nat>, total: nat, start: nat, cuts: Cuts, maxLines: int, oversized: Option<int>)
    decreases |cuts|
  {
    if cuts == [] then total - start <= maxLines - 1
    else
      && total - start > maxLines - 1
      && Chosen(cs, start, cuts[0], maxLines, oversized)
      && Follows(cs, total, cuts[0], cuts[1..], maxLines, oversized)
  }

  lemma {:induction false} CutsFollow(cs: seq<nat>, total: nat, start: nat, maxLines: int, oversized: Option<int>)
    requires Rising(cs) && Bounded(cs, total) && start <= total
    requires CutsFrom(cs, total, start, maxLines, oversized).Ok?
    ensures Follows(cs, total, start, CutsFrom(cs, total, start, maxLines, oversized).value, maxLines, oversized)
    decreases total - start
  {
    if total - start > maxLines - 1 {
      NextCutChosen(cs, start, maxLines, oversized);
      var next := NextCut(cs, start, maxLines, oversized).value;
      CutsFollow(cs, total, next, maxLines, oversized);
      var cuts := CutsFrom(cs, total, start, maxLines, oversized).value;
      assert cuts[1..] == CutsFrom(cs, total, next, maxLines, oversized).value;
    }
  }

  // ----- With no oversized limit: the fewest parts, and failure only when there is no partition -----

  lemma {:induction false} FollowsGreedily(cs: seq<nat>, total: nat, start: nat, cuts: Cuts, maxLines: int)
    requires Bounded(cs, total) && start <= total && Follows(cs, total, start, cuts, maxLines, None)
    ensures Partition(cuts, start, total, At(cs), Within(maxLines - 1))
    ensures Greedy(cuts, start, total, At(cs), Within(maxLines - 1))
    decreases |cuts|
  {
    if cuts != [] { FollowsGreedily(cs, total, cuts[0], cuts[1..], maxLines); }
  }

  lemma {:induction false} FailureIsStuck(cs: seq<nat>, total: nat, start: nat, maxLines: int) returns (at: nat)
    requires Rising(cs) && Bounded(cs, total) && start <= total
    requires CutsFrom(cs, total, start, maxLines, None).Err?
    ensures start <= at <= total
    ensures Farthest(at, at, total, At(cs), Within(maxLines - 1))
    decreases total - start
  {
    NextCutChosen(cs, start, maxLines, None);
    var next := NextCut(cs, start, maxLines, None);
    if next.Ok? {
      at := FailureIsStuck(cs, total, next.value, maxLines);
    } else {
      at := start;
    }
  }

  /**
   Without an oversized limit the splitter fails only when no partition at candidate
   lines within `maxLines - 1` exists, and otherwise uses as few parts as any of them.
   */
  lemma FewestOrNone(cs: seq<nat>, total: nat, maxLines: int, p: Cuts)
    requires Rising(cs) && Bounded(cs, total)
    ensures var r := CutsFrom(cs, total, 0, maxLines, None);
            && (r.Ok? ==> Partition(r.value, 0, total, At(cs), Within(maxLines - 1)))
            && (Partition(p, 0, total, At(cs), Within(maxLines - 1)) ==> r.Ok? && |r.value| <= |p|)
  {
    var r := CutsFrom(cs, total, 0, maxLines, None);
    WithinShrinks(maxLines - 1);
    if r.Ok? {
      CutsFollow(cs, total, 0, maxLines, None);
      FollowsGreedily(cs, total, 0, r.value, maxLines);
      if Partition(p, 0, total, At(cs), Within(maxLines - 1)) {
        FewestParts(r.value, 0, p, 0, total, At(cs), Within(maxLines - 1));
      }
    } else {
      var at := FailureIsStuck(cs, total, 0, maxLines);
      StuckMeansNone(at, p, 0, total, At(cs), Within(maxLines - 1));
    }
  }

  // ----- With any limits: every part is bounded -----

  function Larger(maxLines: int, oversized: Option<int>): int {
    if oversized.Some? && oversized.value > maxLines then oversized.value else maxLines
  }

  lemma {:induction false} FollowsBounded(cs: seq<nat>, total: nat, start: nat, cuts: Cuts,
                                          maxLines: int, oversized: Option<int>)
    requires Bounded(cs, total) && start <= total && Follows(cs, total, start, cuts, maxLines, oversized)
    ensures Partition(cuts, start, total, At(cs), Within(Larger(maxLines, oversized) - 1))
    decreases |cuts|
  {
    if cuts != [] { FollowsBounded(cs, total, cuts[0], cuts[1..], maxLines, oversized); }
  }

  // ----- The parts -----

  type PartsResult = Result<seq<string>, PartsFailure>

  function PartTexts(lines: seq<string>, from: nat, cuts: Cuts): (r: seq<string>)
    requires from <= |lines| && Ascending(cuts, from, |lines|)
    ensures |r| == |cuts| + 1
    decreases |cuts|
  {
    if cuts == [] then [Concat(lines[from..])]
    else [Concat(lines[from..cuts[0]])] + PartTexts(lines, cuts[0], cuts[1..])
  }

  function PartsFrom(cs: seq<nat>, lines: seq<string>, start: nat, maxLines: int, oversized: Option<int>): PartsResult
    requires Bounded(cs, |lines|) && start <= |lines|
  {
    match CutsFrom(cs, |lines|, start, maxLines, oversized)
    case Ok(cuts) => Ok(PartTexts(lines, start, cuts))
    case Err(why) => Err(why)
  }

  function InFront(head: seq<string>, tail: PartsResult): PartsResult {
    if tail.Ok? then Ok(head + tail.value) else tail
  }

  lemma PartsStep(cs: seq<nat>, lines: seq<string>, start: nat, maxLines: int,
                  oversized: Option<int>, done: seq<string>)
    requires Bounded(cs, |lines|) && start <= |lines| && |lines| - start > maxLines - 1
    ensures var next := NextCut(cs, start, maxLines, oversized);
            if next.Err? then PartsFrom(cs, lines, start, maxLines, oversized) == Err(next.error)
            else
              InFront(done, PartsFrom(cs, lines, start, maxLines, oversized)) ==
              InFront(done + [Concat(lines[start..next.value])], PartsFrom(cs, lines, next.value, maxLines, oversized))
  {
    var next := NextCut(cs, start, maxLines, oversized);
    if next.Ok? {
      var rest := CutsFrom(cs, |lines|, next.value, maxLines, oversized);
      if rest.Ok? {
        var cuts := [next.value] + rest.value;
        assert cuts[1..] == rest.value;
        var part := [Concat(lines[start..next.value])];
        assert done + (part + PartTexts(lines, next.value, rest.value)) ==
               (done + part) + PartTexts(lines, next.value, rest.value);
      }
    }
  }

  /** The loop that cuts. */
  method CutParts(cs: seq<nat>, lines: seq<string>, maxLines: int, oversized: Option<int>) returns (r: PartsResult)
    requires Bounded(cs, |lines|)
    ensures r == PartsFrom(cs, lines, 0, maxLines, oversized)
  {
    var parts: seq<string> := [];
    var start: nat := 0;
    ghost var whole := PartsFrom(cs, lines, 0, maxLines, oversized);
    assert whole.Ok? ==> parts + whole.value == whole.value;
    while |lines| - start > maxLines - 1
      invariant start <= |lines|
      invariant whole == InFront(parts, PartsFrom(cs, lines, start, maxLines, oversized))
      decreases |lines| - start
    {
      PartsStep(cs, lines, start, maxLines, oversized, parts);
      var next := NextCut(cs, start, maxLines, oversized);
      if next.Err? {
        return Err(next.error);
      }
      parts := parts + [Concat(lines[start..next.value])];
      start := next.value;
    }
    parts := parts + [Concat(lines[start..])];
    r := Ok(parts);
  }

  function CutsOf(masked: seq<string>, maxLines: int, oversized: Option<int>): (r: Result<Cuts, PartsFailure>)
    ensures r.Ok? ==> Ascending(r.value, 0, |masked|)
  {
    CandidatesBounded(masked, |masked|);
    CutsFrom(Candidates(masked, |masked|), |masked|, 0, maxLines, oversized)
  }

  /** The parts of some lines, cut where their masked counterparts allow it. */
  function PartsOf(lines: seq<string>, masked: seq<string>, maxLines: int, oversized: Option<int>): PartsResult
    requires |lines| == |masked|
  {
    if TextDepth(Concat(masked)) != LEVEL then Err(UnbalancedSource)
    else
      match CutsOf(masked, maxLines, oversized)
      case Err(why) => Err(why)
      case Ok(cuts) => Ok(PartTexts(lines, 0, cuts))
  }

  function SplitOf(source: string, maxLines: int, oversized: Option<int>): PartsResult {
    match RustMasker.Mask(source)
    case Err(why) => Err(CannotMask(why))
    case Ok(masked) =>
      SameLines(source, masked);
      PartsOf(Split(source), Split(masked), maxLines, oversized)
  }

  /** Every part has fewer lines than the larger limit. */
  ghost predicate AllBounded(parts: seq<string>, maxLines: int, oversized: Option<int>) {
    forall i :: 0 <= i < |parts| ==> Count(parts[i]) <= Larger(maxLines, oversized) - 1
  }

  method SplitTopLevel(source: string, maxLines: int, oversized: Option<int>) returns (r: PartsResult)
    ensures r == SplitOf(source, maxLines, oversized)
    ensures r.Ok? ==> Concat(r.value) == source && AllBounded(r.value, maxLines, oversized)
  {
    var masking := RustMasker.MaskNonCode(source);
    if masking.Err? {
      return Err(CannotMask(masking.error));
    }
    SameLines(source, masking.value);
    r := SplitLines(Split(source), Split(masking.value), maxLines, oversized);
    SplitIntoLines(source);
    ConcatSplit(source);
  }

  method SplitLines(lines: seq<string>, masked: seq<string>, maxLines: int, oversized: Option<int>)
    returns (r: PartsResult)
    requires |lines| == |masked|
    ensures r == PartsOf(lines, masked, maxLines, oversized)
    ensures r.Ok? ==> Concat(r.value) == Concat(lines)
    ensures r.Ok? && (forall k :: 0 <= k < |lines| ==> IsLine(lines[k])) ==> AllBounded(r.value, maxLines, oversized)
  {
    var candidates, depth := ScanCandidates(masked);
    if depth != LEVEL {
      return Err(UnbalancedSource);
    }
    CandidatesBounded(masked, |masked|);
    r := CutParts(candidates, lines, maxLines, oversized);
    if r.Ok? {
      PartsConserve(lines, masked, maxLines, oversized);
      if forall k :: 0 <= k < |lines| ==> IsLine(lines[k]) {
        forall i: nat | i < |r.value| ensures Count(r.value[i]) <= Larger(maxLines, oversized) - 1 {
          PartsAreBounded(lines, masked, maxLines, oversized, i);
        }
      }
    }
  }

  // ----- Masked and original lines have the same lengths -----

  ghost predicate SameBreaks(s: string, t: string) {
    |s| == |t| && forall k :: 0 <= k < |s| ==> (s[k] == '\n' <==> t[k] == '\n')
  }

  ghost predicate SameShape(a: seq<string>, b: seq<string>) {
    |a| == |b| && forall i :: 0 <= i < |a| ==> |a[i]| == |b[i]|
  }

  lemma {:induction false} SplitSameShape(s: string, t: string)
    requires SameBreaks(s, t)
    ensures SameShape(Split(s), Split(t))
    decreases |s|
  {
    var n := LineLength(s);
    LineStops(t, n);
    if s != "" && n < |s| {
      assert SameBreaks(s[n + 1..], t[n + 1..]);
      SplitSameShape(s[n + 1..], t[n + 1..]);
    }
  }

  lemma SameLines(source: string, masked: string)
    requires RustMasker.Mask(source) == Ok(masked)
    ensures SameShape(Split(source), Split(masked))
  {
    RustMasker.MaskKeepsOffsets(source);
    SplitSameShape(source, masked);
  }

  // ----- Conservation, balance and budgets -----

  lemma {:induction false} PartTextsConcat(lines: seq<string>, from: nat, cuts: Cuts)
    requires from <= |lines| && Ascending(cuts, from, |lines|)
    ensures Concat(PartTexts(lines, from, cuts)) == Concat(lines[from..])
    decreases |cuts|
  {
    var texts := PartTexts(lines, from, cuts);
    if cuts == [] {
      ConcatOne(texts[0]);
    } else {
      PartTextsConcat(lines, cuts[0], cuts[1..]);
      assert texts[1..] == PartTexts(lines, cuts[0], cuts[1..]);
      ConcatAppend(lines[from..cuts[0]], lines[cuts[0]..]);
      assert lines[from..cuts[0]] + lines[cuts[0]..] == lines[from..];
    }
  }

  /** The parts concatenate to the source. */
  lemma PartsConserve(lines: seq<string>, masked: seq<string>, maxLines: int, oversized: Option<int>)
    requires |lines| == |masked| && PartsOf(lines, masked, maxLines, oversized).Ok?
    ensures Concat(PartsOf(lines, masked, maxLines, oversized).value) == Concat(lines)
  {
    PartTextsConcat(lines, 0, CutsOf(masked, maxLines, oversized).value);
    assert lines[0..] == lines;
  }

  /** Part `i` spans the lines between two neighbouring cuts. */
  lemma {:induction false} PartSpan(lines: seq<string>, from: nat, cuts: Cuts, i: nat) returns (a: nat, b: nat)
    requires from <= |lines| && Ascending(cuts, from, |lines|) && i <= |cuts|
    ensures a <= b <= |lines| && PartTexts(lines, from, cuts)[i] == Concat(lines[a..b])
    ensures a == from || a in cuts
    ensures b == |lines| || b in cuts
    decreases |cuts|
  {
    if cuts == [] {
      a, b := from, |lines|;
      assert lines[from..] == lines[from..|lines|];
    } else if i == 0 {
      a, b := from, cuts[0];
    } else {
      a, b := PartSpan(lines, cuts[0], cuts[1..], i - 1);
      assert forall x :: x in cuts[1..] ==> x in cuts;
    }
  }

  lemma LevelSlice(lines: seq<string>, a: nat, b: nat)
    requires a <= b <= |lines| && DepthAfter(lines, a) == LEVEL && DepthAfter(lines, b) == LEVEL
    ensures TextDepth(Concat(lines[a..b])) == LEVEL
  {
    ConcatSlice(lines, a, b);
    TextDepthAppend(Concat(lines[..a]), Concat(lines[a..b]));
  }

  lemma {:induction false} CutsAreCandidates(cs: seq<nat>, total: nat, start: nat,
                                             maxLines: int, oversized: Option<int>, c: nat)
    requires Bounded(cs, total) && start <= total && CutsFrom(cs, total, start, maxLines, oversized).Ok?
    requires c in CutsFrom(cs, total, start, maxLines, oversized).value
    ensures c in cs
    decreases total - start
  {
    var next := NextCut(cs, start, maxLines, oversized).value;
    if c != next {
      CutsAreCandidates(cs, total, next, maxLines, oversized, c);
    }
  }

  lemma CutIsLevel(lines: seq<string>, maxLines: int, oversized: Option<int>, c: nat)
    requires CutsOf(lines, maxLines, oversized).Ok? && c in CutsOf(lines, maxLines, oversized).value
    ensures c <= |lines| && DepthAfter(lines, c) == LEVEL
  {
    CandidatesBounded(lines, |lines|);
    CutsAreCandidates(Candidates(lines, |lines|), |lines|, 0, maxLines, oversized, c);
    CandidatesExact(lines, |lines|, c);
  }

  /**
   In the masked text, every part closes what it opens: braces, parentheses and brackets
   open as often as they close.
   */
  lemma PartsAreBalanced(lines: seq<string>, masked: seq<string>, maxLines: int, oversized: Option<int>, i: nat)
    requires |lines| == |masked| && PartsOf(lines, masked, maxLines, oversized).Ok?
    requires i <= |CutsOf(masked, maxLines, oversized).value|
    ensures Level(PartTexts(masked, 0, CutsOf(masked, maxLines, oversized).value)[i])
  {
    var cuts := CutsOf(masked, maxLines, oversized).value;
    var a, b := PartSpan(masked, 0, cuts, i);
    DepthEnds(masked);
    if a in cuts { CutIsLevel(masked, maxLines, oversized, a); }
    if b in cuts { CutIsLevel(masked, maxLines, oversized, b); }
    LevelSlice(masked, a, b);
    LevelExactly(Concat(masked[a..b]));
  }

  lemma {:induction false} CountOfLines(lines: seq<string>)
    requires forall i :: 0 <= i < |lines| ==> IsLine(lines[i])
    ensures Count(Concat(lines)) <= |lines|
  {
    if lines != [] {
      CountOfLines(lines[1..]);
      CountAppend(lines[0], Concat(lines[1..]));
      LineCountsOne(lines[0]);
    }
  }

  lemma LineCountsOne(l: string)
    requires IsLine(l)
    ensures Count(l) == 1
  {
    var n := |l| - 1;
    NoBreaks(l[..n]);
    BreaksAppend(l[..n], [l[n]]);
    assert l == l[..n] + [l[n]];
    assert Breaks([l[n]]) == if l[n] == '\n' then 1 else 0;
    CountIsBreaks(l);
  }

  lemma {:induction false} PartTextsCount(cs: seq<nat>, lines: seq<string>, from: nat, cuts: Cuts, limit: int, i: nat)
    requires from <= |lines| && Ascending(cuts, from, |lines|) && i <= |cuts|
    requires Partition(cuts, from, |lines|, At(cs), Within(limit))
    requires forall k :: 0 <= k < |lines| ==> IsLine(lines[k])
    ensures Count(PartTexts(lines, from, cuts)[i]) <= limit
    decreases |cuts|
  {
    if cuts == [] {
      CountOfLines(lines[from..]);
    } else if i == 0 {
      CountOfLines(lines[from..cuts[0]]);
    } else {
      PartTextsCount(cs, lines, cuts[0], cuts[1..], limit, i - 1);
    }
  }

  /** Each part has at most one line less than the larger of the two limits. */
  lemma PartsAreBounded(lines: seq<string>, masked: seq<string>, maxLines: int, oversized: Option<int>, i: nat)
    requires |lines| == |masked| && PartsOf(lines, masked, maxLines, oversized).Ok?
    requires i < |PartsOf(lines, masked, maxLines, oversized).value|
    requires forall k :: 0 <= k < |lines| ==> IsLine(lines[k])
    ensures Count(PartsOf(lines, masked, maxLines, oversized).value[i]) <= Larger(maxLines, oversized) - 1
  {
    var n, cuts := |masked|, CutsOf(masked, maxLines, oversized).value;
    var cs := Candidates(masked, n);
    CandidatesBounded(masked, n);
    CutsFollow(cs, n, 0, maxLines, oversized);
    FollowsBounded(cs, n, 0, cuts, maxLines, oversized);
    PartTextsCount(cs, lines, 0, cuts, Larger(maxLines, oversized) - 1, i);
  }

  lemma FragmentCount(part: string)
    ensures Count(FRAGMENT_MARKER + part) == 1 + Count(part) && FRAGMENT_MARKER + part != ""
  {
    MarkersAreOneLine();
    CountAppend(FRAGMENT_MARKER, part);
    assert FRAGMENT_MARKER + part == "" ==> |FRAGMENT_MARKER| == 0;
  }

  /**
   The fragment writer never refuses a part when neither split limit exceeds the file
   limit: the marker takes the one line the splitter leaves free.
   */
  lemma FragmentsFit(parts: seq<string>, splitLines: int, oversized: Option<int>, maxLines: int, i: nat)
    requires AllBounded(parts, splitLines, oversized) && i < |parts|
    requires splitLines <= maxLines && (oversized.Some? ==> oversized.value <= maxLines)
    ensures Count(FRAGMENT_MARKER + parts[i]) <= maxLines
  {
    FragmentCount(parts[i]);
  }

  // ----- The theorem about the whole splitter -----

  ghost function AtItemEnds(masked: seq<string>): Allowed {
    (k: nat) => ItemEnds(masked, k)
  }

  lemma {:induction false} AllowedAlike(p: Cuts, from: nat, total: nat, one: Allowed, two: Allowed, fits: Fits)
    requires forall k: nat :: k <= total ==> (one(k) <==> two(k))
    requires Partition(p, from, total, one, fits)
    ensures Partition(p, from, total, two, fits)
    decreases |p|
  {
    if p != [] { AllowedAlike(p[1..], p[0], total, one, two, fits); }
  }

  /** `p` cuts the lines at item ends into parts of at most `maxLines - 1` lines. */
  ghost predicate IsSplit(masked: seq<string>, maxLines: int, p: Cuts) {
    Partition(p, 0, |masked|, AtItemEnds(masked), Within(maxLines - 1))
  }

  /** Without an oversized limit, the cuts are such a split, no other has fewer, and failure means there is none. */
  lemma CutsAreBest(masked: seq<string>, maxLines: int, p: Cuts)
    ensures var r := CutsOf(masked, maxLines, None);
            && (r.Ok? ==> IsSplit(masked, maxLines, r.value))
            && (IsSplit(masked, maxLines, p) ==> r.Ok? && |r.value| <= |p|)
  {
    var total := |masked|;
    var cs := Candidates(masked, total);
    var ends := AtItemEnds(masked);
    CandidatesBounded(masked, total);
    forall k: nat | k <= total ensures At(cs)(k) <==> ends(k) {
      CandidatesExact(masked, total, k);
      CandidateExactly(masked, k);
    }
    if Partition(p, 0, total, ends, Within(maxLines - 1)) {
      AllowedAlike(p, 0, total, ends, At(cs), Within(maxLines - 1));
    }
    FewestOrNone(cs, total, maxLines, p);
    var r := CutsOf(masked, maxLines, None);
    if r.Ok? { AllowedAlike(r.value, 0, total, At(cs), ends, Within(maxLines - 1)); }
  }

  /** All delimiters close, and the lines have a split. */
  ghost predicate Splittable(masked: seq<string>, maxLines: int) {
    Level(Concat(masked)) && exists p :: IsSplit(masked, maxLines, p)
  }

  ghost predicate FewestIn(parts: seq<string>, masked: seq<string>, maxLines: int) {
    && (exists p :: IsSplit(masked, maxLines, p) && |parts| == |p| + 1)
    && (forall p :: IsSplit(masked, maxLines, p) ==> |parts| <= |p| + 1)
  }

  lemma PartsAreBest(lines: seq<string>, masked: seq<string>, maxLines: int)
    requires |lines| == |masked|
    ensures var r := PartsOf(lines, masked, maxLines, None);
            (r.Ok? <==> Splittable(masked, maxLines)) && (r.Ok? ==> FewestIn(r.value, masked, maxLines))
  {
    var cuts := CutsOf(masked, maxLines, None);
    LevelExactly(Concat(masked));
    forall p ensures IsSplit(masked, maxLines, p) ==> cuts.Ok? && |cuts.value| <= |p| {
      CutsAreBest(masked, maxLines, p);
    }
    CutsAreBest(masked, maxLines, []);
  }

  /**
   Without an oversized limit the splitter succeeds exactly on sources that can be masked,
   whose delimiters close, and that have a split at item ends; then no split has fewer parts.
   */
  lemma SplitIsBest(source: string, maxLines: int)
    ensures var r, masking := SplitOf(source, maxLines, None), RustMasker.Mask(source);
            && (r.Ok? <==> masking.Ok? && Splittable(Split(masking.value), maxLines))
            && (r.Ok? ==> FewestIn(r.value, Split(masking.value), maxLines))
  {
    var masking := RustMasker.Mask(source);
    if masking.Ok? {
      SameLines(source, masking.value);
      PartsAreBest(Split(source), Split(masking.value), maxLines);
    }
  }

  function LastLimit(maxLines: int, oversized: Option<int>): int {
    if oversized.Some? then oversized.value else maxLines
  }

  /**
   The failures: a source that cannot be masked, one whose mask opens more or less than it
   closes, and else an item longer than the last limit tried.
   */
  lemma SplitFails(source: string, maxLines: int, oversized: Option<int>)
    ensures var r, masking := SplitOf(source, maxLines, oversized), RustMasker.Mask(source);
            && (forall why :: r == Err(CannotMask(why)) <==> masking == Err(why))
            && (r == Err(UnbalancedSource) <==> masking.Ok? && !Level(masking.value))
            && (r.Err? && masking.Ok? && Level(masking.value) ==>
                  r == Err(ItemTooLong(LastLimit(maxLines, oversized) - 1)))
  {
    var masking := RustMasker.Mask(source);
    if masking.Ok? {
      ConcatSplit(masking.value);
      LevelExactly(masking.value);
      CutsFailLate(Split(masking.value), maxLines, oversized);
    }
  }

  lemma CutsFailLate(masked: seq<string>, maxLines: int, oversized: Option<int>)
    ensures CutsOf(masked, maxLines, oversized).Err? ==>
              CutsOf(masked, maxLines, oversized).error == ItemTooLong(LastLimit(maxLines, oversized) - 1)
  {
    CandidatesBounded(masked, |masked|);
    FailsTooLong(Candidates(masked, |masked|), |masked|, 0, maxLines, oversized);
  }

  lemma {:induction false} FailsTooLong(cs: seq<nat>, total: nat, start: nat, maxLines: int, oversized: Option<int>)
    requires Bounded(cs, total) && start <= total
    ensures var r := CutsFrom(cs, total, start, maxLines, oversized);
            r.Err? ==> r.error == ItemTooLong(LastLimit(maxLines, oversized) - 1)
    decreases total - start
  {
    if total - start > maxLines - 1 {
      var next := NextCut(cs, start, maxLines, oversized);
      if next.Ok? { FailsTooLong(cs, total, next.value, maxLines, oversized); }
    }
  }

  datatype FragmentFailure = CannotSplit(why: PartsFailure) | TooManyLines(lines: nat)

  /** Splits a source and writes one fragment per part, as `write_include_target` does. */
  method WriteFragments(source: string, maxLines: int, splitLines: int, oversized: Option<int>)
    returns (r: Result<seq<string>, FragmentFailure>)
    ensures SplitOf(source, splitLines, oversized).Err? ==>
              r == Err(CannotSplit(SplitOf(source, splitLines, oversized).error))
    ensures SplitOf(source, splitLines, oversized).Ok? && splitLines <= maxLines &&
            (oversized.Some? ==> oversized.value <= maxLines) ==>
              r.Ok?
    ensures SplitOf(source, splitLines, oversized).Ok? && r.Ok? ==>
              r.value == Fragments(FRAGMENT_MARKER, SplitOf(source, splitLines, oversized).value)
  {
    var split := SplitTopLevel(source, splitLines, oversized);
    if split.Err? {
      return Err(CannotSplit(split.error));
    }
    r := WriteParts(split.value, maxLines, splitLines, oversized);
  }

  method WriteParts(parts: seq<string>, maxLines: int, splitLines: int, oversized: Option<int>)
    returns (r: Result<seq<string>, FragmentFailure>)
    requires AllBounded(parts, splitLines, oversized)
    ensures splitLines <= maxLines && (oversized.Some? ==> oversized.value <= maxLines) ==> r.Ok?
    ensures r.Ok? ==> r.value == Fragments(FRAGMENT_MARKER, parts)
  {
    if splitLines <= maxLines && (oversized.Some? ==> oversized.value <= maxLines) {
      forall i: nat | i < |parts| ensures Count(FRAGMENT_MARKER + parts[i]) <= maxLines {
        FragmentsFit(parts, splitLines, oversized, maxLines, i);
      }
    }
    FragmentCount("");
    r := WriteAll(FRAGMENT_MARKER, parts, maxLines);
  }

  /** Each part behind the marker line, as the file holds it. */
  function Fragments(marker: string, parts: seq<string>): (r: seq<string>)
    ensures |r| == |parts|
  {
    seq(|parts|, i requires 0 <= i < |parts| => Normalize(marker + parts[i]))
  }

  lemma FragmentsNext(marker: string, parts: seq<string>, k: nat)
    requires k < |parts|
    ensures Fragments(marker, parts[..k + 1]) == Fragments(marker, parts[..k]) + [Normalize(marker + parts[k])]
  {}

  method WriteFragment(marker: string, part: string, maxLines: int) returns (r: Result<string, nat>)
    requires marker != ""
    ensures r.Ok? ==> r.value == Normalize(marker + part)
    ensures r.Ok? <==> Count(marker + part) <= maxLines
  {
    assert marker + part != "";
    r := WriteGenerated(marker + part, maxLines);
  }

  method WriteAll(marker: string, parts: seq<string>, maxLines: int) returns (r: Result<seq<string>, FragmentFailure>)
    requires marker != ""
    ensures (forall i :: 0 <= i < |parts| ==> Count(marker + parts[i]) <= maxLines) ==> r.Ok?
    ensures r.Ok? ==> r.value == Fragments(marker, parts)
  {
    var written: seq<string> := [];
    for index := 0 to |parts|
      invariant written == Fragments(marker, parts[..index])
    {
      FragmentsNext(marker, parts, index);
      var file := WriteFragment(marker, parts[index], maxLines);
      if file.Err? {
        return Err(TooManyLines(file.error));
      }
      written := written + [file.value];
    }
    assert parts[..|parts|] == parts;
    r := Ok(written);
  }
}
