/**
 `chunk_tests` (scripts/migrate_task6_deleted_tests.py): distributes whole test functions
 over generated files, and the assembly of each file by `migrate_sources`.
 */
module TestChunks {
  import opened Outcome
  import opened Seqs
  import opened Lines
  import opened GreedyPartition
  import opened GeneratedFiles

  datatype Test = Test(function_: string, snippet: string)

  datatype ChunkFailure = SupportTooLong(lines: nat) | TestTooLong(function_: string)

  function PrefixLines(prefix: string): nat { Count(GENERATED_MARKER + prefix) }

  /** A snippet is charged one line more than it has. */
  function Charge(t: Test): nat { Count(t.snippet) + 1 }

  function Charges(tests: seq<Test>): nat {
    if tests == [] then 0 else Charges(tests[..|tests| - 1]) + Charge(tests[|tests| - 1])
  }

  /** `base` is the length of what every file starts with. */
  predicate FitsOneFile(base: nat, tests: seq<Test>) {
    base + Charges(tests) <= MAX_GENERATED_LINES
  }

  /** The budget of the stretch `[a, b)` of the tests. */
  ghost function Budget(base: nat, tests: seq<Test>): Fits {
    (a: nat, b: nat) => a <= b <= |tests| && FitsOneFile(base, tests[a..b])
  }

  ghost function Anywhere(): Allowed { (c: nat) => true }

  lemma {:induction false} ChargesAppend(a: seq<Test>, b: seq<Test>)
    ensures Charges(a + b) == Charges(a) + Charges(b)
  {
    if b == [] {
      assert a + b == a;
    } else {
      ChargesAppend(a, b[..|b| - 1]);
      assert (a + b)[..|a + b| - 1] == a + b[..|b| - 1];
    }
  }

  lemma ChargesSlice(tests: seq<Test>, a: nat, b: nat, c: nat, d: nat)
    requires a <= b <= c <= d <= |tests|
    ensures Charges(tests[b..c]) <= Charges(tests[a..d])
  {
    ChargesAppend(tests[a..b], tests[b..c]);
    ChargesAppend(tests[a..b] + tests[b..c], tests[c..d]);
    SplitThree(tests, a, b, c, d);
  }

  lemma ChargesStep(tests: seq<Test>, a: nat, i: nat)
    requires a <= i < |tests|
    ensures Charges(tests[a..i + 1]) == Charges(tests[a..i]) + Charge(tests[i])
  {
    assert tests[a..i + 1][..i - a] == tests[a..i];
  }

  lemma BudgetShrinks(base: nat, tests: seq<Test>)
    ensures Shrinks(Budget(base, tests))
  {
    var fits := Budget(base, tests);
    forall a, b, c, d | a <= b <= c <= d && fits(a, d) ensures fits(b, c) {
      ChargesSlice(tests, a, b, c, d);
    }
  }

  /** Every single test fits a file of its own. */
  predicate EachFits(base: nat, tests: seq<Test>) {
    && base < MAX_GENERATED_LINES
    && forall i :: 0 <= i < |tests| ==> base + Charge(tests[i]) <= MAX_GENERATED_LINES
  }

  /** The cuts made before test `i`: greedy so far, and what follows the last one still fits. */
  ghost predicate Filling(base: nat, tests: seq<Test>, i: nat, cuts: Cuts) {
    && i <= |tests|
    && Prefix(cuts, 0, |tests|, Anywhere(), Budget(base, tests))
    && Greedy(cuts, 0, |tests|, Anywhere(), Budget(base, tests))
    && Last(cuts, 0) <= i
    && (0 < i ==> Last(cuts, 0) < i)
    && Budget(base, tests)(Last(cuts, 0), i)
  }

  lemma CutIsFarthest(base: nat, tests: seq<Test>, from: nat, i: nat)
    requires from <= i < |tests| && !Budget(base, tests)(from, i + 1)
    ensures Farthest(i, from, |tests|, Anywhere(), Budget(base, tests))
  {
    var fits := Budget(base, tests);
    forall d | i < d <= |tests| ensures !fits(from, d) {
      ChargesSlice(tests, from, from, i + 1, d);
    }
  }

  lemma OneTest(base: nat, tests: seq<Test>, i: nat)
    requires i < |tests|
    ensures Budget(base, tests)(i, i + 1) <==> base + Charge(tests[i]) <= MAX_GENERATED_LINES
  {
    ChargesStep(tests, i, i);
    assert tests[i..i] == [];
  }

  /** Test `i` joins the open chunk when it fits and starts the next one otherwise. */
  lemma FillNext(base: nat, tests: seq<Test>, i: nat, cuts: Cuts)
    requires Filling(base, tests, i, cuts) && i < |tests|
    requires base + Charge(tests[i]) <= MAX_GENERATED_LINES
    ensures Budget(base, tests)(Last(cuts, 0), i + 1) ==> Filling(base, tests, i + 1, cuts)
    ensures !Budget(base, tests)(Last(cuts, 0), i + 1) ==> 0 < i && Filling(base, tests, i + 1, cuts + [i])
  {
    var fits, from := Budget(base, tests), Last(cuts, 0);
    OneTest(base, tests, i);
    if !fits(from, i + 1) {
      assert from != i;
      PrefixAppend(cuts, 0, i, |tests|, Anywhere(), fits);
      CutIsFarthest(base, tests, from, i);
      GreedyAppend(cuts, 0, i, |tests|, Anywhere(), fits);
    }
  }

  /** The chunks on the way: the closed ones, then the open one. */
  ghost predicate Chunked(tests: seq<Test>, i: nat, cuts: Cuts, chunks: seq<seq<Test>>, current: seq<Test>) {
    && Ascending(cuts, 0, |tests|)
    && Last(cuts, 0) <= i <= |tests|
    && chunks == Parts(tests, 0, cuts)
    && current == tests[Last(cuts, 0)..i]
  }

  lemma ChunkNext(tests: seq<Test>, i: nat, cuts: Cuts, chunks: seq<seq<Test>>, current: seq<Test>)
    requires Chunked(tests, i, cuts, chunks, current) && i < |tests|
    ensures Chunked(tests, i + 1, cuts, chunks, current + [tests[i]])
    ensures current != [] ==> Chunked(tests, i + 1, cuts + [i], chunks + [current], [tests[i]])
  {
    if current != [] { PartsAppend(tests, 0, cuts, i); }
  }

  /** The loop invariant before test `i`. */
  ghost predicate Working(base: nat, tests: seq<Test>, i: nat, cuts: Cuts,
                          chunks: seq<seq<Test>>, current: seq<Test>, lines: nat)
  {
    && Chunked(tests, i, cuts, chunks, current)
    && Filling(base, tests, i, cuts)
    && lines == base + Charges(current)
  }

  predicate Overflows(current: seq<Test>, lines: nat, charge: nat) {
    current != [] && lines + charge > MAX_GENERATED_LINES
  }

  lemma WorkNext(base: nat, tests: seq<Test>, i: nat, cuts: Cuts,
                 chunks: seq<seq<Test>>, current: seq<Test>, lines: nat)
    requires Working(base, tests, i, cuts, chunks, current, lines) && i < |tests|
    requires base + Charge(tests[i]) <= MAX_GENERATED_LINES
    ensures
      if Overflows(current, lines, Charge(tests[i])) then
        Working(base, tests, i + 1, cuts + [i], chunks + [current], [tests[i]], base + Charge(tests[i]))
      else
        Working(base, tests, i + 1, cuts, chunks, current + [tests[i]], lines + Charge(tests[i]))
  {
    FillNext(base, tests, i, cuts);
    ChunkNext(tests, i, cuts, chunks, current);
    ChargesStep(tests, Last(cuts, 0), i);
    ChargesAppend([], [tests[i]]);
    ChargesAppend(current, [tests[i]]);
    assert [] + [tests[i]] == [tests[i]];
  }

  /** The chunks cut the tests greedily and within budget. */
  ghost predicate IsGreedyChunking(base: nat, tests: seq<Test>, cuts: Cuts, chunks: seq<seq<Test>>) {
    && Partition(cuts, 0, |tests|, Anywhere(), Budget(base, tests))
    && Greedy(cuts, 0, |tests|, Anywhere(), Budget(base, tests))
    && Ascending(cuts, 0, |tests|) && Last(cuts, 0) < |tests|
    && chunks == Parts(tests, 0, cuts) + [tests[Last(cuts, 0)..]]
  }

  lemma WorkDone(base: nat, tests: seq<Test>, cuts: Cuts, chunks: seq<seq<Test>>, current: seq<Test>, lines: nat)
    requires Working(base, tests, |tests|, cuts, chunks, current, lines)
    ensures tests == [] ==> chunks == [] && current == []
    ensures tests != [] ==> current != [] && IsGreedyChunking(base, tests, cuts, chunks + [current])
  {
    PrefixCloses(cuts, 0, |tests|, Anywhere(), Budget(base, tests));
    assert current == tests[Last(cuts, 0)..];
  }

  /** The run of the loop from test `i` on. */
  function ChunkFrom(base: nat, tests: seq<Test>, i: nat,
                     chunks: seq<seq<Test>>, current: seq<Test>, lines: nat): Result<seq<seq<Test>>, ChunkFailure>
    requires i <= |tests|
    decreases |tests| - i
  {
    if i == |tests| then Ok(if current == [] then chunks else chunks + [current])
    else
      var charge := Charge(tests[i]);
      if base + charge > MAX_GENERATED_LINES then Err(TestTooLong(tests[i].function_))
      else if Overflows(current, lines, charge) then
        ChunkFrom(base, tests, i + 1, chunks + [current], [tests[i]], base + charge)
      else ChunkFrom(base, tests, i + 1, chunks, current + [tests[i]], lines + charge)
  }

  function Chunks(base: nat, tests: seq<Test>): Result<seq<seq<Test>>, ChunkFailure> {
    if base >= MAX_GENERATED_LINES then Err(SupportTooLong(base))
    else ChunkFrom(base, tests, 0, [], [], base)
  }

  method ChunkTests(prefix: string, tests: seq<Test>) returns (r: Result<seq<seq<Test>>, ChunkFailure>)
    ensures r == Chunks(PrefixLines(prefix), tests)
  {
    r := ChunkAfter(PrefixLines(prefix), tests);
  }

  method ChunkAfter(prefixLines: nat, tests: seq<Test>) returns (r: Result<seq<seq<Test>>, ChunkFailure>)
    ensures r == Chunks(prefixLines, tests)
  {
    if prefixLines >= MAX_GENERATED_LINES {
      return Err(SupportTooLong(prefixLines));
    }
    var chunks: seq<seq<Test>> := [];
    var current: seq<Test> := [];
    var currentLines: nat := prefixLines;
    for i := 0 to |tests|
      invariant ChunkFrom(prefixLines, tests, i, chunks, current, currentLines) == Chunks(prefixLines, tests)
    {
      var lines := Charge(tests[i]);
      if prefixLines + lines > MAX_GENERATED_LINES {
        return Err(TestTooLong(tests[i].function_));
      }
      if current != [] && currentLines + lines > MAX_GENERATED_LINES {
        chunks := chunks + [current];
        current := [];
        currentLines := prefixLines;
        assert current + [tests[i]] == [tests[i]];
      }
      current := current + [tests[i]];
      currentLines := currentLines + lines;
    }
    r := Ok(if current == [] then chunks else chunks + [current]);
  }

  lemma {:induction false} ChunkFromSucceeds(base: nat, tests: seq<Test>, i: nat,
                                             chunks: seq<seq<Test>>, current: seq<Test>, lines: nat)
    requires i <= |tests|
    ensures ChunkFrom(base, tests, i, chunks, current, lines).Ok? <==>
            forall j :: i <= j < |tests| ==> base + Charge(tests[j]) <= MAX_GENERATED_LINES
    decreases |tests| - i
  {
    if i < |tests| && base + Charge(tests[i]) <= MAX_GENERATED_LINES {
      var charge := Charge(tests[i]);
      if Overflows(current, lines, charge) {
        ChunkFromSucceeds(base, tests, i + 1, chunks + [current], [tests[i]], base + charge);
      } else {
        ChunkFromSucceeds(base, tests, i + 1, chunks, current + [tests[i]], lines + charge);
      }
    }
  }

  /** A failing run names the first test that fits no file. */
  lemma {:induction false} ChunkFromFails(base: nat, tests: seq<Test>, i: nat,
                                          chunks: seq<seq<Test>>, current: seq<Test>, lines: nat, k: nat)
    requires i <= k < |tests| && base + Charge(tests[k]) > MAX_GENERATED_LINES
    requires forall j :: i <= j < k ==> base + Charge(tests[j]) <= MAX_GENERATED_LINES
    ensures ChunkFrom(base, tests, i, chunks, current, lines) == Err(TestTooLong(tests[k].function_))
    decreases |tests| - i
  {
    if i < k {
      var charge := Charge(tests[i]);
      if Overflows(current, lines, charge) {
        ChunkFromFails(base, tests, i + 1, chunks + [current], [tests[i]], base + charge, k);
      } else {
        ChunkFromFails(base, tests, i + 1, chunks, current + [tests[i]], lines + charge, k);
      }
    }
  }

  /** What a finished run has produced. */
  ghost predicate Finished(base: nat, tests: seq<Test>, cuts: Cuts, r: Result<seq<seq<Test>>, ChunkFailure>) {
    r.Ok? ==> if tests == [] then r.value == [] else IsGreedyChunking(base, tests, cuts, r.value)
  }

  lemma {:induction false} ChunkFromGreedy(base: nat, tests: seq<Test>, i: nat, before: Cuts,
                                           chunks: seq<seq<Test>>, current: seq<Test>, lines: nat)
    returns (cuts: Cuts)
    requires i <= |tests| && Working(base, tests, i, before, chunks, current, lines)
    ensures Finished(base, tests, cuts, ChunkFrom(base, tests, i, chunks, current, lines))
    decreases |tests| - i
  {
    cuts := before;
    if i == |tests| {
      WorkDone(base, tests, cuts, chunks, current, lines);
    } else if base + Charge(tests[i]) <= MAX_GENERATED_LINES {
      var next, chunks', current', lines' := ChunkStep(base, tests, i, before, chunks, current, lines);
      cuts := ChunkFromGreedy(base, tests, i + 1, next, chunks', current', lines');
    }
  }

  lemma ChunkUnfold(base: nat, tests: seq<Test>, i: nat, chunks: seq<seq<Test>>, current: seq<Test>, lines: nat)
    requires i < |tests| && base + Charge(tests[i]) <= MAX_GENERATED_LINES
    ensures var charge := Charge(tests[i]);
            ChunkFrom(base, tests, i, chunks, current, lines) ==
            if Overflows(current, lines, charge)
            then ChunkFrom(base, tests, i + 1, chunks + [current], [tests[i]], base + charge)
            else ChunkFrom(base, tests, i + 1, chunks, current + [tests[i]], lines + charge)
  {}

  lemma ChunkStep(base: nat, tests: seq<Test>, i: nat, before: Cuts,
                  chunks: seq<seq<Test>>, current: seq<Test>, lines: nat)
    returns (next: Cuts, chunks': seq<seq<Test>>, current': seq<Test>, lines': nat)
    requires i < |tests| && Working(base, tests, i, before, chunks, current, lines)
    requires base + Charge(tests[i]) <= MAX_GENERATED_LINES
    ensures Working(base, tests, i + 1, next, chunks', current', lines')
    ensures ChunkFrom(base, tests, i, chunks, current, lines) ==
            ChunkFrom(base, tests, i + 1, chunks', current', lines')
  {
    WorkNext(base, tests, i, before, chunks, current, lines);
    ChunkUnfold(base, tests, i, chunks, current, lines);
    var charge := Charge(tests[i]);
    if Overflows(current, lines, charge) {
      next, chunks', current', lines' := before + [i], chunks + [current], [tests[i]], base + charge;
    } else {
      next, chunks', current', lines' := before, chunks, current + [tests[i]], lines + charge;
    }
  }

  // ----- What the chunks are worth -----

  /** Chunking fails exactly when the support is too long or some test fits no file. */
  lemma ChunksSucceed(base: nat, tests: seq<Test>)
    ensures Chunks(base, tests).Ok? <==> EachFits(base, tests)
  {
    if base < MAX_GENERATED_LINES {
      ChunkFromSucceeds(base, tests, 0, [], [], base);
    }
  }

  /** A support that leaves no line free is reported first, then the first test that fits no file. */
  lemma ChunksFail(base: nat, tests: seq<Test>, k: nat)
    requires k < |tests| && base + Charge(tests[k]) > MAX_GENERATED_LINES
    requires forall j :: 0 <= j < k ==> base + Charge(tests[j]) <= MAX_GENERATED_LINES
    ensures Chunks(base, tests) ==
            Err(if base >= MAX_GENERATED_LINES then SupportTooLong(base) else TestTooLong(tests[k].function_))
  {
    ChunkFromFails(base, tests, 0, [], [], base, k);
  }

  /** Failure means that no way of grouping the tests into files within the limit exists. */
  lemma FailureMeansNoChunking(base: nat, tests: seq<Test>, p: Cuts)
    requires tests != [] && Chunks(base, tests).Err?
    ensures !Partition(p, 0, |tests|, Anywhere(), Budget(base, tests))
  {
    ChunksSucceed(base, tests);
    BudgetShrinks(base, tests);
    var i: nat := if base >= MAX_GENERATED_LINES then 0 else
      var j :| 0 <= j < |tests| && base + Charge(tests[j]) > MAX_GENERATED_LINES; j;
    OneTest(base, tests, i);
    CutIsFarthest(base, tests, i, i);
    StuckMeansNone(i, p, 0, |tests|, Anywhere(), Budget(base, tests));
  }

  /** All tests in order, no empty chunk, every chunk within the limit, and as few chunks as possible. */
  lemma ChunksAreBest(base: nat, tests: seq<Test>)
    requires tests != [] && Chunks(base, tests).Ok?
    ensures var chunks := Chunks(base, tests).value;
            && Flatten(chunks) == tests
            && (forall i :: 0 <= i < |chunks| ==> chunks[i] != [] && FitsOneFile(base, chunks[i]))
            && (forall p :: Partition(p, 0, |tests|, Anywhere(), Budget(base, tests)) ==> |chunks| <= |p| + 1)
  {
    assert tests[0..0] == [];
    var cuts := ChunkFromGreedy(base, tests, 0, [], [], [], base);
    var chunks := Chunks(base, tests).value;
    var fits := Budget(base, tests);
    ChunksKeepTests(tests, cuts);
    forall i | 0 <= i < |chunks| ensures chunks[i] != [] && FitsOneFile(base, chunks[i]) {
      var a, b := PartStretches(tests, 0, cuts, Anywhere(), fits, i);
    }
    BudgetShrinks(base, tests);
    forall p | Partition(p, 0, |tests|, Anywhere(), fits) ensures |chunks| <= |p| + 1 {
      FewestParts(cuts, 0, p, 0, |tests|, Anywhere(), fits);
    }
  }

  lemma ChunksKeepTests(tests: seq<Test>, cuts: Cuts)
    requires Ascending(cuts, 0, |tests|) && Last(cuts, 0) < |tests|
    ensures Flatten(Parts(tests, 0, cuts) + [tests[Last(cuts, 0)..]]) == tests
  {
    var last := [tests[Last(cuts, 0)..]];
    FlattenAppend(Parts(tests, 0, cuts), last);
    PartsFlatten(tests, 0, cuts);
    assert Flatten(last) == last[0] + Flatten(last[1..]) == last[0];
  }

  // ----- The assembled file -----

  /** `"\n".join` of the snippets. */
  function JoinSnippets(chunk: seq<Test>): string
    requires chunk != []
  {
    if |chunk| == 1 then chunk[0].snippet
    else JoinSnippets(chunk[..|chunk| - 1]) + "\n" + chunk[|chunk| - 1].snippet
  }

  function Payload(prefix: string, chunk: seq<Test>): string
    requires chunk != []
  {
    GENERATED_MARKER + GENERATED_ALLOW + prefix + JoinSnippets(chunk)
  }

  /** From `at` on, the text is the snippets in order, one line break between two. */
  ghost predicate LaidOut(text: string, at: nat, chunk: seq<Test>)
    requires chunk != []
    decreases |chunk|
  {
    var s, end := chunk[0].snippet, at + |chunk[0].snippet|;
    && end <= |text| && text[at..end] == s
    && if |chunk| == 1 then end == |text| else end < |text| && text[end] == '\n' && LaidOut(text, end + 1, chunk[1..])
  }

  /** The marker line, the allow line and the support, then the snippets. */
  ghost predicate IsPayload(text: string, prefix: string, chunk: seq<Test>)
    requires chunk != []
  {
    && GENERATED_MARKER <= text
    && GENERATED_ALLOW <= text[|GENERATED_MARKER|..]
    && prefix <= text[|GENERATED_MARKER| + |GENERATED_ALLOW|..]
    && LaidOut(text, |GENERATED_MARKER| + |GENERATED_ALLOW| + |prefix|, chunk)
  }

  lemma {:induction false} JoinFirst(chunk: seq<Test>)
    requires |chunk| > 1
    ensures JoinSnippets(chunk) == chunk[0].snippet + "\n" + JoinSnippets(chunk[1..])
    decreases |chunk|
  {
    var n := |chunk| - 1;
    assert chunk[..n][0] == chunk[0] && chunk[1..][n - 1] == chunk[n] && chunk[1..][..n - 1] == chunk[..n][1..];
    if n > 1 {
      JoinFirst(chunk[..n]);
      JoinAssoc(chunk[0].snippet, JoinSnippets(chunk[..n][1..]), chunk[n].snippet);
    } else {
      assert JoinSnippets(chunk[..1]) == chunk[0].snippet && JoinSnippets(chunk[1..]) == chunk[1].snippet;
    }
  }

  lemma JoinAssoc(a: string, b: string, c: string)
    ensures (a + "\n" + b) + "\n" + c == a + "\n" + (b + "\n" + c)
  {}

  lemma {:induction false} JoinLaidOut(head: string, chunk: seq<Test>)
    requires chunk != []
    ensures LaidOut(head + JoinSnippets(chunk), |head|, chunk)
    decreases |chunk|
  {
    var text, s := head + JoinSnippets(chunk), chunk[0].snippet;
    if |chunk| > 1 {
      JoinFirst(chunk);
      JoinLaidOut(head + s + "\n", chunk[1..]);
      assert text == (head + s + "\n") + JoinSnippets(chunk[1..]);
    }
  }

  lemma PayloadHolds(prefix: string, chunk: seq<Test>)
    requires chunk != []
    ensures IsPayload(Payload(prefix, chunk), prefix, chunk)
  {
    JoinLaidOut(GENERATED_MARKER + GENERATED_ALLOW + prefix, chunk);
    Heads(GENERATED_MARKER, GENERATED_ALLOW, prefix, JoinSnippets(chunk));
  }

  lemma Heads(a: string, b: string, c: string, d: string)
    ensures var text := a + b + c + d; a <= text && b <= text[|a|..] && c <= text[|a| + |b|..]
  {
    assert (a + b + c + d)[|a|..] == b + c + d && (a + b + c + d)[|a| + |b|..] == c + d;
  }

  /** The file holds the lines of such a payload, without the white space at their ends. */
  ghost predicate FileOf(file: string, prefix: string, chunk: seq<Test>)
    requires chunk != []
  {
    exists payload :: IsPayload(payload, prefix, chunk) && StripsLines(payload, file)
  }

  ghost predicate StripsLines(payload: string, file: string) {
    && Count(file) == Count(payload)
    && forall i :: 0 <= i < Count(payload) ==> Stripped(Split(payload)[i], Split(file)[i])
  }

  lemma FileHolds(prefix: string, chunk: seq<Test>)
    requires chunk != []
    ensures FileOf(Normalize(Payload(prefix, chunk)), prefix, chunk)
  {
    PayloadHolds(prefix, chunk);
    MarkersAreOneLine();
    assert Payload(prefix, chunk) == "" ==> GENERATED_MARKER == "";
    NormalizedLines(Payload(prefix, chunk));
    assert StripsLines(Payload(prefix, chunk), Normalize(Payload(prefix, chunk)));
  }

  /** Every snippet but the last ends in a line break, or is empty. */
  predicate SeparatorsCount(chunk: seq<Test>) {
    forall i :: 0 <= i < |chunk| - 1 ==> Terminated(chunk[i].snippet)
  }

  lemma {:induction false} JoinCount(chunk: seq<Test>)
    requires chunk != []
    ensures Count(JoinSnippets(chunk)) + 1 <= Charges(chunk)
    ensures Count(JoinSnippets(chunk)) + 1 == Charges(chunk) <==> SeparatorsCount(chunk)
    ensures Terminated(JoinSnippets(chunk)) <==> Terminated(chunk[|chunk| - 1].snippet)
  {
    var n := |chunk| - 1;
    if n == 0 {
      assert chunk[..0] == [];
    } else {
      var init, last := chunk[..n], chunk[n].snippet;
      JoinCount(init);
      JoinTwo(JoinSnippets(init), last);
      SeparatorsStep(chunk, n);
    }
  }

  lemma SeparatorsStep(chunk: seq<Test>, n: nat)
    requires 0 < n == |chunk| - 1
    ensures SeparatorsCount(chunk) <==> SeparatorsCount(chunk[..n]) && Terminated(chunk[n - 1].snippet)
  {
    forall i | 0 <= i < n ensures chunk[..n][i] == chunk[i] {}
  }

  lemma JoinTwo(a: string, b: string)
    ensures Count(a + "\n" + b) <= Count(a) + 1 + Count(b)
    ensures Count(a + "\n" + b) == Count(a) + 1 + Count(b) <==> Terminated(a)
    ensures Terminated(a + "\n" + b) <==> Terminated(b)
  {
    BreaksAppend(a, "\n");
    BreaksAppend(a + "\n", b);
    assert Breaks("\n") == 1;
    CountIsBreaks(a);
    CountIsBreaks(b);
    CountIsBreaks(a + "\n" + b);
  }

  /**
   The extra line per snippet pays for the allow line and the separators, so the writer's
   check cannot fire; nothing is left of it if and only if the prefix and every snippet in
   front of another text end in a line break.
   */
  lemma ChargePaysForFile(prefix: string, chunk: seq<Test>)
    requires chunk != []
    ensures Count(Payload(prefix, chunk)) <= PrefixLines(prefix) + Charges(chunk)
    ensures Count(Payload(prefix, chunk)) == PrefixLines(prefix) + Charges(chunk) <==>
            (Terminated(prefix) || JoinSnippets(chunk) == "") && SeparatorsCount(chunk)
  {
    MarkersAreOneLine();
    AllowIsOneLine();
    JoinCount(chunk);
    FourPieces(GENERATED_MARKER, GENERATED_ALLOW, prefix, JoinSnippets(chunk));
  }

  lemma FourPieces(marker: string, allow: string, prefix: string, body: string)
    requires Count(marker) == 1 && Terminated(marker) && marker != ""
    requires Count(allow) == 1 && Terminated(allow) && allow != ""
    ensures Count(marker + allow + prefix + body) <= 1 + Count(marker + prefix) + Count(body)
    ensures Count(marker + allow + prefix + body) == 1 + Count(marker + prefix) + Count(body) <==>
            Terminated(prefix) || body == ""
  {
    CountAppend(marker, prefix);
    CountAppend(marker, allow);
    CountAppend(marker + allow, prefix);
    CountAppend(marker + allow + prefix, body);
  }

  /** Within the budget, the writer does not refuse the file. */
  method WriteChunk(prefix: string, chunk: seq<Test>) returns (file: string)
    requires chunk != [] && FitsOneFile(PrefixLines(prefix), chunk)
    ensures FileOf(file, prefix, chunk) && Count(file) <= MAX_GENERATED_LINES
  {
    FileHolds(prefix, chunk);
    ChargePaysForFile(prefix, chunk);
    NormalizeKeepsCount(Payload(prefix, chunk));
    var written := WriteGenerated(Payload(prefix, chunk), MAX_GENERATED_LINES);
    file := written.value;
  }
}
