/**
 Sources that `top_level_parts` (scripts/migrate_task6_deleted_tests.py) cuts inside a
 comment, one for every line limit.
 */
module CommentCuts {
  import opened Outcome
  import opened Lexing
  import opened Lines
  import opened GeneratedFiles
  import opened BraceDepths
  import opened TopLevelParts
  import opened DullText
  import RustMasker

  /** One line of code without comments and literals that ends an item and closes what it opens. */
  ghost predicate ItemLine(code: string) {
    AllDull(code) && '\n' !in code && TextDepth(code) == LEVEL && EndsItem(code)
  }

  /** `n` blank lines. */
  function Breaks(n: nat): (s: string)
    ensures |s| == n && forall k :: 0 <= k < n ==> s[k] == '\n'
  {
    if n == 0 then "" else "\n" + Breaks(n - 1)
  }

  /** The item line with a block comment opened behind it, which `n` blank lines and a line of its own close. */
  function Source(code: string, n: nat): string { code + "/*\n" + (Breaks(n) + "*/\n") }

  function Masked(code: string, n: nat): string { code + "  \n" + (Breaks(n) + "  \n") }

  // ----- Masking -----

  lemma {:induction false} CommentLength(n: nat, rest: string)
    ensures RustMasker.BlockLength(Breaks(n) + ("*/" + rest), 1) == Some(n + 2)
  {
    var tail := "*/" + rest;
    if n == 0 {
      assert Breaks(0) + tail == tail && tail[2..] == rest;
    } else {
      CommentLength(n - 1, rest);
      var s := Breaks(n) + tail;
      assert s[0] == '\n' && s[1..] == Breaks(n - 1) + tail;
    }
  }

  lemma CommentMasks(n: nat, rest: string)
    ensures RustMasker.Mask("/*" + (Breaks(n) + ("*/" + rest))) ==
            Prepend("  " + Breaks(n) + "  ", RustMasker.Mask(rest))
  {
    var s := "/*" + (Breaks(n) + ("*/" + rest));
    CommentLength(n, rest);
    CommentShape(n, rest);
    BlockMasks(s, n + 4);
  }

  lemma CommentShape(n: nat, rest: string)
    ensures var s := "/*" + (Breaks(n) + ("*/" + rest));
            && s[2..] == Breaks(n) + ("*/" + rest) && s[n + 4..] == rest
            && Blanks(s[..n + 4]) == "  " + Breaks(n) + "  "
  {
    var s, text := "/*" + (Breaks(n) + ("*/" + rest)), "/*" + Breaks(n) + "*/";
    assert s == text + rest && s[..n + 4] == text;
  }

  lemma BlockMasks(s: string, n: nat)
    requires StartsWith(s, '/', '*') && RustMasker.BlockLength(s[2..], 1) == Some(n - 2) && 2 <= n <= |s|
    ensures RustMasker.Mask(s) == Prepend(Blanks(s[..n]), RustMasker.Mask(s[n..]))
  {
    assert RustMasker.First(s) == Ok(Piece(RustMasker.Block, n));
  }

  lemma OpenCommentFails()
    ensures RustMasker.Mask("/*\n") == Err(RustMasker.BlockComment)
  {
    var s := "/*\n";
    assert s[2..] == "\n" && "\n"[1..] == "";
    assert RustMasker.BlockLength("\n", 1).None?;
  }

  lemma OpenLineFails(code: string)
    requires AllDull(code)
    ensures RustMasker.Mask(code + "/*\n").Err?
  {
    MaskDull(code, "/*\n");
    OpenCommentFails();
  }

  lemma BreakMasks()
    ensures RustMasker.Mask("\n") == Ok("\n")
  {
    assert AllDull("\n") && "\n" + "" == "\n";
    MaskDull("\n", "");
  }

  lemma SourceMasks(code: string, n: nat)
    requires AllDull(code)
    ensures RustMasker.Mask(Source(code, n)) == Ok(Masked(code, n))
  {
    SourceShape(code, n);
    MaskedShape(code, n);
    MaskDull(code, "/*" + (Breaks(n + 1) + ("*/" + "\n")));
    CommentMasks(n + 1, "\n");
    BreakMasks();
  }

  lemma SourceShape(code: string, n: nat)
    ensures Source(code, n) == code + ("/*" + (Breaks(n + 1) + ("*/" + "\n")))
  {
    assert Breaks(n + 1) == "\n" + Breaks(n);
    assert "/*\n" + (Breaks(n) + "*/\n") == "/*" + (Breaks(n + 1) + ("*/" + "\n"));
  }

  lemma MaskedShape(code: string, n: nat)
    ensures Masked(code, n) == code + (("  " + Breaks(n + 1) + "  ") + "\n")
  {
    assert Breaks(n + 1) == "\n" + Breaks(n);
    assert "  \n" + (Breaks(n) + "  \n") == ("  " + Breaks(n + 1) + "  ") + "\n";
  }

  // ----- Lines -----

  ghost predicate OneLine(l: string) {
    l != "" && l[|l| - 1] == '\n' && forall k :: 0 <= k < |l| - 1 ==> l[k] != '\n'
  }

  lemma FirstLine(a: string, b: string)
    requires OneLine(a)
    ensures Split(a + b) == [a] + Split(b)
  {
    var s, n := a + b, |a| - 1;
    assert s[n] == '\n';
    LineStops(s, n);
    assert s[..n + 1] == a && s[n + 1..] == b;
  }

  /** A first line, blank lines, and a last line. */
  function Around(first: string, n: nat, last: string): seq<string> { [first] + (BlankSeq(n) + [last]) }

  function BlankSeq(n: nat): (r: seq<string>)
    ensures |r| == n && forall k :: 0 <= k < n ==> r[k] == "\n"
  {
    if n == 0 then [] else ["\n"] + BlankSeq(n - 1)
  }

  lemma {:induction false} BlankLines(n: nat, last: string)
    requires OneLine(last)
    ensures Split(Breaks(n) + last) == BlankSeq(n) + [last]
  {
    if n == 0 {
      LastLine(last);
      assert Breaks(0) + last == last && BlankSeq(0) + [last] == [last];
    } else {
      BlankLines(n - 1, last);
      FirstLine("\n", Breaks(n - 1) + last);
      OneMore(n, last);
    }
  }

  lemma LastLine(last: string)
    requires OneLine(last)
    ensures Split(last) == [last]
  {
    FirstLine(last, "");
    assert last + "" == last && Split("") == [] && [last] + [] == [last];
  }

  lemma OneMore(n: nat, last: string)
    requires n > 0
    ensures Breaks(n) + last == "\n" + (Breaks(n - 1) + last)
    ensures BlankSeq(n) + [last] == ["\n"] + (BlankSeq(n - 1) + [last])
  {}

  lemma SplitAround(first: string, n: nat, last: string)
    requires OneLine(first) && OneLine(last)
    ensures Split(first + (Breaks(n) + last)) == Around(first, n, last)
  {
    FirstLine(first, Breaks(n) + last);
    BlankLines(n, last);
  }

  // ----- The masked lines -----

  lemma TrimOne(s: string, c: char)
    requires IsSpace(c)
    ensures TrimEnd(s + [c]) == TrimEnd(s)
  {
    assert (s + [c])[..|s|] == s;
  }

  /** Blanks and a line break at the end are trimmed. */
  lemma TrimBlank(s: string)
    ensures TrimEnd(s + "  \n") == TrimEnd(s)
  {
    assert s + "  \n" == s + [' '] + [' '] + ['\n'];
    TrimOne(s, ' ');
    TrimOne(s + [' '], ' ');
    TrimOne(s + [' '] + [' '], '\n');
  }

  lemma BlankLineEnds()
    ensures !EndsItem("\n") && !EndsItem("  \n")
  {
    TrimOne("", '\n');
    TrimBlank("");
    assert "" + ['\n'] == "\n" && "" + "  \n" == "  \n" && TrimEnd("") == "";
  }

  lemma {:induction false} BlankDepth(s: string, t: string)
    requires forall k :: 0 <= k < |t| ==> t[k] == ' ' || t[k] == '\n'
    ensures TextDepth(s + t) == TextDepth(s)
    decreases |t|
  {
    var n := |t| - 1;
    if t == "" {
      assert s + t == s;
    } else {
      assert (s + t)[..|s + t| - 1] == s + t[..n];
      assert CharDepth(t[n]) == LEVEL;
      BlankDepth(s, t[..n]);
    }
  }

  /** Only the first line ends an item. */
  ghost predicate FirstOnly(lines: seq<string>) {
    && lines != [] && TextDepth(lines[0]) == LEVEL && EndsItem(lines[0])
    && forall i :: 0 < i < |lines| ==> !EndsItem(lines[i])
  }

  lemma {:induction false} OneCandidate(lines: seq<string>, n: nat)
    requires FirstOnly(lines) && 1 <= n <= |lines|
    ensures Candidates(lines, n) == [1]
  {
    if n == 1 {
      assert lines[..1] == [lines[0]];
      ConcatOne(lines[0]);
      assert IsCandidate(lines, 1) && Candidates(lines, 0) == [];
    } else {
      OneCandidate(lines, n - 1);
      assert !IsCandidate(lines, n);
    }
  }

  lemma OneCut(total: nat)
    requires total >= 2
    ensures Bounded([1], total) && CutsFrom([1], total, 0, total, None) == Ok([1])
  {
    assert LastIn([1], 0, total - 1) == Some(1);
    assert NextCut([1], 0, total, None) == Ok(1);
    var rest := CutsFrom([1], total, 1, total, None);
    assert rest == Ok([]) && [1] + [] == [1];
  }

  lemma CutBehindFirst(lines: seq<string>, masked: seq<string>)
    requires |lines| == |masked| >= 2 && FirstOnly(masked) && TextDepth(Concat(masked)) == LEVEL
    ensures PartsOf(lines, masked, |lines|, None) == Ok([lines[0], Concat(lines[1..])])
  {
    CutsOne(masked);
    PartsOne(lines);
  }

  lemma CutsOne(masked: seq<string>)
    requires |masked| >= 2 && FirstOnly(masked)
    ensures CutsOf(masked, |masked|, None) == Ok([1])
  {
    OneCandidate(masked, |masked|);
    OneCut(|masked|);
  }

  lemma PartsOne(lines: seq<string>)
    requires |lines| >= 2
    ensures PartTexts(lines, 0, [1]) == [lines[0], Concat(lines[1..])]
  {
    ConcatOne(lines[0]);
    assert lines[0..1] == [lines[0]] && [1][1..] == [];
    assert PartTexts(lines, 1, []) == [Concat(lines[1..])];
  }

  lemma MaskedLinesFit(code: string, n: nat)
    requires TextDepth(code) == LEVEL && EndsItem(code)
    ensures FirstOnly(Around(code + "  \n", n, "  \n")) && TextDepth(Masked(code, n)) == LEVEL
  {
    LevelAround(code, "  \n", n);
    TrimBlank(code);
    BlankLineEnds();
    FirstOnlyAround(code + "  \n", n, "  \n");
  }

  lemma LevelAround(code: string, gap: string, n: nat)
    requires TextDepth(code) == LEVEL && forall k :: 0 <= k < |gap| ==> gap[k] == ' ' || gap[k] == '\n'
    ensures TextDepth(code + gap) == LEVEL && TextDepth(code + gap + (Breaks(n) + gap)) == LEVEL
  {
    BlankDepth(code, gap);
    BlankDepth(code + gap, Breaks(n) + gap);
  }

  lemma FirstOnlyAround(first: string, n: nat, last: string)
    requires TextDepth(first) == LEVEL && EndsItem(first) && !EndsItem(last) && !EndsItem("\n")
    ensures FirstOnly(Around(first, n, last))
  {}

  lemma RestText(first: string, n: nat, last: string)
    requires OneLine(last)
    ensures Concat(Around(first, n, last)[1..]) == Breaks(n) + last
  {
    BlankLines(n, last);
    ConcatSplit(Breaks(n) + last);
    assert Around(first, n, last)[1..] == BlankSeq(n) + [last];
  }

  /**
   For every limit of at least two lines there is a source of that many lines which is cut
   behind its first line, inside a comment, so that the first part cannot be masked.
   */
  lemma CutInsideComment(code: string, maxLines: nat)
    requires ItemLine(code) && maxLines >= 2
    ensures var n := maxLines - 2;
            SplitOf(Source(code, n), maxLines, None) == Ok([code + "/*\n", Breaks(n) + "*/\n"])
    ensures RustMasker.Mask(code + "/*\n").Err?
  {
    var n := maxLines - 2;
    SourceMasks(code, n);
    LinesCut(code, n);
    OpenLineFails(code);
  }

  lemma LinesCut(code: string, n: nat)
    requires ItemLine(code)
    ensures var lines, masked := Split(Source(code, n)), Split(Masked(code, n));
            && |lines| == |masked|
            && PartsOf(lines, masked, n + 2, None) == Ok([code + "/*\n", Breaks(n) + "*/\n"])
  {
    LineShapes(code, n);
    MaskedLinesFit(code, n);
    CutAround(Source(code, n), code + "/*\n", n, "*/\n", Masked(code, n), code + "  \n", "  \n");
  }

  lemma CutAround(source: string, first: string, n: nat, last: string,
                  masked: string, maskedFirst: string, maskedLast: string)
    requires Split(source) == Around(first, n, last) && Split(masked) == Around(maskedFirst, n, maskedLast)
    requires FirstOnly(Around(maskedFirst, n, maskedLast)) && OneLine(last) && TextDepth(masked) == LEVEL
    ensures |Split(source)| == |Split(masked)|
    ensures PartsOf(Split(source), Split(masked), n + 2, None) == Ok([first, Breaks(n) + last])
  {
    ConcatSplit(masked);
    RestText(first, n, last);
    CutBehindFirst(Around(first, n, last), Around(maskedFirst, n, maskedLast));
  }

  lemma LineShapes(code: string, n: nat)
    requires '\n' !in code
    ensures Split(Source(code, n)) == Around(code + "/*\n", n, "*/\n")
    ensures Split(Masked(code, n)) == Around(code + "  \n", n, "  \n")
  {
    SplitAround(code + "/*\n", n, "*/\n");
    SplitAround(code + "  \n", n, "  \n");
  }

  lemma SemicolonIsItem()
    ensures ItemLine(";")
  {
    LevelExactly(";");
    EndsItemExactly(";");
    assert LastVisible(";", 0);
  }

  /** At the script's own limit of 780 lines, a semicolon and a comment of 780 lines are enough. */
  lemma ScriptLimitCuts()
    ensures SplitOf(Source(";", MAX_GENERATED_LINES - 2), MAX_GENERATED_LINES, None).Ok?
    ensures RustMasker.Mask(SplitOf(Source(";", MAX_GENERATED_LINES - 2), MAX_GENERATED_LINES, None).value[0]).Err?
  {
    SemicolonIsItem();
    CutInsideComment(";", MAX_GENERATED_LINES);
  }
}
