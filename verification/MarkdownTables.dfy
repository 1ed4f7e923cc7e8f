/**
 The Markdown rendering of scripts/render_task6_migration_document.py, and why its two
 tables satisfy what the write/check argument of MigrationDocument asks of them.

 A rendered table is a sequence of lines, a line a sequence of cells between bars. A header
 found anywhere in a rendered table would have to start at one of its bars, so that the cell
 behind that bar begins like the header's first cell; a heading holds no bar and no line
 break, so it would have to lie inside one cell. Quoted cells begin with a backquote, so
 only header and rule lines need a closer look, and two characters of each cell decide.
 The last section checks this for the headers and headings of the script itself. Their
 texts are put together from short pieces, each of which is checked on its own.
 */
module MarkdownTables {
  import opened Outcome
  import opened TextSearch
  import opened MigrationDocument
  import opened DocumentOffsets

  type Cells = seq<string>

  /** `| a | b |`, or a bare bar for no cells. */
  function Line(cells: Cells): (r: string)
    ensures r != "" && r[0] == '|'
  {
    if cells == [] then "|" else "| " + cells[0] + " " + Line(cells[1..])
  }

  function Body(lines: seq<Cells>): string {
    if lines == [] then "" else Line(lines[0]) + "\n" + Body(lines[1..])
  }

  predicate SafeCell(cell: string) { '|' !in cell && '\n' !in cell && '\r' !in cell }

  predicate SafeRow(row: Cells) { forall i :: 0 <= i < |row| ==> SafeCell(row[i]) }

  function Quoted(row: Cells): (r: Cells)
    ensures |r| == |row|
  {
    seq(|row|, i requires 0 <= i < |row| => "`" + row[i] + "`")
  }

  function QuotedAll(rows: seq<Cells>): (r: seq<Cells>)
    ensures |r| == |rows|
  {
    seq(|rows|, i requires 0 <= i < |rows| => Quoted(rows[i]))
  }

  /** `render_table`: the header, the rule, and one line of quoted cells per row. */
  function Render(header: Cells, rule: Cells, rows: seq<Cells>): Option<string> {
    if forall i :: 0 <= i < |rows| ==> SafeRow(rows[i])
    then Some(Body([header, rule] + QuotedAll(rows))) else None
  }

  // ----- Bars in a line -----

  /** Cells of at least two characters and without bars. */
  ghost predicate Plain(cells: Cells) {
    forall i :: 0 <= i < |cells| ==> |cells[i]| >= 2 && '|' !in cells[i]
  }

  ghost predicate Starts(cell: string, x: char, y: char) {
    |cell| >= 2 && cell[0] == x && cell[1] == y
  }

  /** A bar at `pos`, a space, then `x` and `y`. */
  ghost predicate BarThen(s: string, pos: int, x: char, y: char) {
    0 <= pos && pos + 3 < |s| && s[pos] == '|' && s[pos + 2] == x && s[pos + 3] == y
  }

  lemma LineHead(cells: Cells, pos: int)
    requires cells != [] && Plain(cells)
    ensures var n := |cells[0]| + 3;
            && Line(cells)[n..] == Line(cells[1..])
            && (0 < pos < n ==> Line(cells)[pos] != '|')
            && Line(cells)[2] == cells[0][0] && Line(cells)[3] == cells[0][1]
  {
    var s, c := Line(cells), cells[0];
    assert s == ("| " + c + " ") + Line(cells[1..]);
    if 2 <= pos < |c| + 2 { assert s[pos] == c[pos - 2]; }
  }

  /** A bar in a line is followed by the start of a cell. */
  lemma {:induction false} BarStartsCell(cells: Cells, pos: int, x: char, y: char) returns (i: nat)
    requires Plain(cells) && BarThen(Line(cells), pos, x, y)
    ensures i < |cells| && Starts(cells[i], x, y) && (pos > 0 ==> i > 0)
    decreases |cells|
  {
    LineHead(cells, pos);
    if pos == 0 {
      i := 0;
    } else {
      var n := |cells[0]| + 3;
      assert Line(cells[1..])[pos - n] == Line(cells)[pos];
      assert BarThen(Line(cells[1..]), pos - n, x, y);
      var k := BarStartsCell(cells[1..], pos - n, x, y);
      i := k + 1;
    }
  }

  lemma {:induction false} LineEnds(cells: Cells)
    requires Plain(cells) && cells != []
    ensures var s := Line(cells);
            |s| >= 4 && s[|s| - 1] == '|' && s[|s| - 2] == ' ' && s[|s| - 3] != '|'
    decreases |cells|
  {
    LineHead(cells, 1);
    var c, s := cells[0], Line(cells);
    assert s == ("| " + c + " ") + Line(cells[1..]);
    if |cells| == 1 {
      assert Line(cells[1..]) == "|";
      assert s[|s| - 3] == c[|c| - 1];
    } else {
      LineEnds(cells[1..]);
    }
  }

  /** Two header lines only overlap where a later cell starts like the other's first cell. */
  lemma OverlapNeedsCell(p: Cells, q: Cells, k: nat) returns (i: nat)
    requires Plain(p) && Plain(q) && p != [] && q != [] && Overlaps(Line(p), Line(q), k)
    ensures 0 < i < |p| && Starts(p[i], q[0][0], q[0][1])
  {
    var a, b := Line(p), Line(q);
    var pos := |a| - k;
    LineEnds(p);
    LineHead(q, 1);
    assert a[pos..][0] == b[..k][0];
    assert k >= 4;
    assert a[pos..][2] == b[..k][2] && a[pos..][3] == b[..k][3];
    assert BarThen(a, pos, q[0][0], q[0][1]);
    i := BarStartsCell(p, pos, q[0][0], q[0][1]);
  }

  /** A whole line inside another needs a cell that starts like its first one. */
  lemma LineInLine(cells: Cells, q: Cells, j: int) returns (i: nat)
    requires Plain(cells) && Plain(q) && q != [] && OccursAt(Line(cells), Line(q), j)
    ensures i < |cells| && Starts(cells[i], q[0][0], q[0][1])
  {
    var s, p := Line(cells), Line(q);
    LineHead(q, 1);
    LineEnds(q);
    assert s[j..j + |p|][0] == p[0] && s[j..j + |p|][2] == p[2] && s[j..j + |p|][3] == p[3];
    i := BarStartsCell(cells, j, q[0][0], q[0][1]);
  }

  /** A bar-free text that neither starts nor ends with a space lies inside one cell. */
  lemma {:induction false} TextInLine(cells: Cells, p: string, j: int) returns (i: nat)
    requires Plain(cells) && p != "" && '|' !in p && p[0] != ' ' && p[|p| - 1] != ' ' && OccursAt(Line(cells), p, j)
    ensures i < |cells| && Occurs(cells[i], p)
    decreases |cells|
  {
    var s := Line(cells);
    Covers(s, p, j, 0);
    assert cells != [];
    var c := cells[0];
    var n := |c| + 3;
    LineHead(cells, 1);
    assert s == ("| " + c + " ") + Line(cells[1..]);
    assert s[n] == '|';
    Covers(s, p, j, n);
    if n < j {
      assert s[j..j + |p|] == Line(cells[1..])[j - n..j - n + |p|];
      var k := TextInLine(cells[1..], p, j - n);
      i := k + 1;
    } else {
      assert s[j..j + |p|][0] == s[j] && s[j..j + |p|][|p| - 1] == s[j + |p| - 1];
      assert 2 <= j && j + |p| <= n - 1;
      assert s[j..j + |p|] == c[j - 2..j - 2 + |p|];
      assert OccursAt(c, p, j - 2);
      i := 0;
    }
  }

  /** A text without line breaks occurs in one of the lines. */
  lemma {:induction false} InOneLine(lines: seq<Cells>, p: string, j: int) returns (i: nat)
    requires p != "" && '\n' !in p && OccursAt(Body(lines), p, j)
    ensures i < |lines| && Occurs(Line(lines[i]), p)
    decreases |lines|
  {
    var s, l := Body(lines), Line(lines[0]);
    Covers(s, p, j, |l|);
    assert s == l + ("\n" + Body(lines[1..])) && s[|l|] == '\n';
    OccursIn(l, "\n" + Body(lines[1..]), p, j);
    if |l| < j {
      OccursIn("\n", Body(lines[1..]), p, j - |l|);
      var k := InOneLine(lines[1..], p, j - |l| - 1);
      i := k + 1;
    } else {
      i := 0;
    }
  }

  // ----- The two tables of the script -----

  datatype Spec = Spec(header: Cells, legacy: Cells, rule: Cells, heading: string)

  function TableOf(spec: Spec): Table {
    Table(Line(spec.header), Line(spec.legacy), spec.heading)
  }

  /** Cells written by hand: no bar, line break, hash or backtick. */
  ghost predicate Tame(cells: Cells) {
    cells != [] && forall i :: 0 <= i < |cells| ==> TameCell(cells[i])
  }

  ghost predicate TameCell(cell: string) {
    |cell| >= 2 && '|' !in cell && '\n' !in cell && '#' !in cell && cell[0] != '`'
  }

  ghost predicate NoneStarts(cells: Cells, from: nat, like: string) {
    |like| >= 2 && forall i :: from <= i < |cells| ==> !Starts(cells[i], like[0], like[1])
  }

  ghost predicate ValidSpec(spec: Spec) {
    && Tame(spec.header) && Tame(spec.legacy) && Tame(spec.rule) && spec.legacy[0] == spec.header[0]
    && NoneStarts(spec.header, 1, spec.header[0])
    && NoneStarts(spec.legacy, 1, spec.header[0])
    && NoneStarts(spec.rule, 0, spec.header[0])
    && !(Line(spec.legacy) <= Line(spec.header))
    && ValidHeading(spec.heading)
  }

  ghost predicate Unlike(spec: Spec, other: Spec) {
    && other.header != [] && NoneStarts(spec.header, 0, other.header[0])
    && NoneStarts(spec.legacy, 0, other.header[0]) && NoneStarts(spec.rule, 0, other.header[0])
  }

  /** No cell mentions the heading. */
  ghost predicate Unmentioned(rows: seq<Cells>, heading: string) {
    forall i, k :: 0 <= i < |rows| && 0 <= k < |rows[i]| ==> !Occurs(rows[i][k], heading)
  }

  lemma {:induction false} LineHasNoBreak(cells: Cells)
    requires Tame(cells)
    ensures '\n' !in Line(cells)
    decreases |cells|
  {
    var s := Line(cells);
    assert s == ("| " + cells[0] + " ") + Line(cells[1..]);
    if |cells| > 1 { LineHasNoBreak(cells[1..]); } else { assert Line(cells[1..]) == "|"; }
  }

  lemma SpecGivesTable(spec: Spec)
    requires ValidSpec(spec)
    ensures ValidTable(TableOf(spec))
  {
    LineHasNoBreak(spec.header);
    forall k ensures !Overlaps(Line(spec.header), Line(spec.header), k) {
      if k >= 0 && Overlaps(Line(spec.header), Line(spec.header), k) {
        var i := OverlapNeedsCell(spec.header, spec.header, k);
      }
    }
  }

  lemma TameHasNoHeading(cells: Cells, heading: string)
    requires Tame(cells) && heading != "" && heading[0] == '#'
    ensures forall i :: 0 <= i < |cells| ==> !Occurs(cells[i], heading)
  {
    forall i | 0 <= i < |cells| ensures !Occurs(cells[i], heading) {
      FirstCharPresent(cells[i], heading);
    }
  }

  lemma FirstCharPresent(s: string, p: string)
    requires p != ""
    ensures Occurs(s, p) ==> p[0] in s
  {
    if Occurs(s, p) {
      var j :| OccursAt(s, p, j);
      assert s[j..j + |p|][0] == s[j];
    }
  }

  lemma QuotedHeading(cell: string, heading: string)
    requires heading != "" && '`' !in heading && Occurs("`" + cell + "`", heading)
    ensures Occurs(cell, heading)
  {
    var s := "`" + cell + "`";
    var j :| OccursAt(s, heading, j);
    Covers(s, heading, j, 0);
    Covers(s, heading, j, |s| - 1);
    assert s[0] == '`' && s[|s| - 1] == '`';
    assert 1 <= j && j + |heading| <= 1 + |cell|;
    OccursIn("`" + cell, "`", heading, j);
    OccursIn("`", cell, heading, j);
  }

  ghost predicate AnyCellStarts(cells: Cells, q: string) {
    exists i :: 0 <= i < |cells| && |q| >= 2 && Starts(cells[i], q[0], q[1])
  }

  ghost predicate AnyCellMentions(cells: Cells, p: string) {
    exists i :: 0 <= i < |cells| && Occurs(cells[i], p)
  }

  /** A header or heading found in a rendered line betrays a cell. */
  lemma LineBetrays(cells: Cells, other: Cells, heading: string)
    requires Plain(cells) && Plain(other) && other != []
    requires heading != "" && '|' !in heading && heading[0] != ' ' && heading[|heading| - 1] != ' '
    ensures Occurs(Line(cells), Line(other)) ==> AnyCellStarts(cells, other[0])
    ensures Occurs(Line(cells), heading) ==> AnyCellMentions(cells, heading)
  {
    if Occurs(Line(cells), Line(other)) {
      var j :| OccursAt(Line(cells), Line(other), j);
      var i := LineInLine(cells, other, j);
    }
    if Occurs(Line(cells), heading) {
      var j :| OccursAt(Line(cells), heading, j);
      var i := TextInLine(cells, heading, j);
    }
  }

  /** Nothing in the line starts like the other table's header or mentions the heading. */
  ghost predicate Quiet(cells: Cells, other: Cells, heading: string)
    requires other != []
  {
    Plain(cells) && !AnyCellStarts(cells, other[0]) && !AnyCellMentions(cells, heading)
  }

  lemma BodyIsQuiet(lines: seq<Cells>, other: Cells, heading: string)
    requires Tame(other) && forall i :: 0 <= i < |lines| ==> Quiet(lines[i], other, heading)
    requires heading != "" && '|' !in heading && '\n' !in heading && heading[0] != ' ' && heading[|heading| - 1] != ' '
    ensures !Occurs(Body(lines), Line(other)) && !Occurs(Body(lines), heading)
  {
    LineHasNoBreak(other);
    forall i | 0 <= i < |lines| ensures !Occurs(Line(lines[i]), Line(other)) && !Occurs(Line(lines[i]), heading) {
      LineBetrays(lines[i], other, heading);
    }
    if Occurs(Body(lines), Line(other)) {
      var j :| OccursAt(Body(lines), Line(other), j);
      var i := InOneLine(lines, Line(other), j);
    }
    if Occurs(Body(lines), heading) {
      var j :| OccursAt(Body(lines), heading, j);
      var i := InOneLine(lines, heading, j);
    }
  }

  lemma TameIsQuiet(cells: Cells, other: Cells, heading: string)
    requires Tame(cells) && Tame(other) && NoneStarts(cells, 0, other[0]) && heading != "" && heading[0] == '#'
    ensures Quiet(cells, other, heading)
  {
    TameHasNoHeading(cells, heading);
  }

  lemma QuotedIsQuiet(row: Cells, other: Cells, heading: string)
    requires SafeRow(row) && Tame(other) && heading != "" && '`' !in heading
    requires forall k :: 0 <= k < |row| ==> !Occurs(row[k], heading)
    ensures Quiet(Quoted(row), other, heading)
  {
    var cells := Quoted(row);
    forall i | 0 <= i < |cells|
      ensures |cells[i]| >= 2 && '|' !in cells[i] && cells[i][0] == '`' && !Occurs(cells[i], heading)
    {
      assert cells[i] == "`" + row[i] + "`";
      if Occurs(cells[i], heading) { QuotedHeading(row[i], heading); }
    }
  }

  lemma RenderedIsQuiet(spec: Spec, q: Cells, rows: seq<Cells>, heading: string)
    requires ValidSpec(spec) && Tame(q) && NoneStarts(spec.header, 0, q[0]) && NoneStarts(spec.rule, 0, q[0])
    requires ValidHeading(heading)
    requires (forall i :: 0 <= i < |rows| ==> SafeRow(rows[i])) && Unmentioned(rows, heading)
    ensures !Occurs(Body([spec.header, spec.rule] + QuotedAll(rows)), Line(q))
    ensures !Occurs(Body([spec.header, spec.rule] + QuotedAll(rows)), heading)
  {
    var lines := [spec.header, spec.rule] + QuotedAll(rows);
    TameIsQuiet(spec.header, q, heading);
    TameIsQuiet(spec.rule, q, heading);
    forall i | 0 <= i < |lines| ensures Quiet(lines[i], q, heading) {
      if i >= 2 {
        assert lines[i] == Quoted(rows[i - 2]);
        QuotedIsQuiet(rows[i - 2], q, heading);
      }
    }
    BodyIsQuiet(lines, q, heading);
  }

  /** What `render_table` returns is a valid rendering when no cell mentions a section heading. */
  lemma RenderingIsValid(spec: Spec, other: Spec, rows: seq<Cells>, rendered: string)
    requires ValidSpec(spec) && ValidSpec(other) && Unlike(spec, other) && Unlike(other, spec)
    requires Render(spec.header, spec.rule, rows) == Some(rendered)
    requires Unmentioned(rows, spec.heading) && Unmentioned(rows, other.heading)
    ensures ValidRendering(rendered, TableOf(spec), TableOf(other))
  {
    RenderedIsQuiet(spec, other.header, rows, spec.heading);
    RenderedIsQuiet(spec, other.header, rows, other.heading);
    HeaderFirst(spec.header, spec.rule, QuotedAll(rows));
    forall k ensures !Overlaps(Line(other.header), Line(spec.header), k) {
      if k >= 0 && Overlaps(Line(other.header), Line(spec.header), k) {
        var i := OverlapNeedsCell(other.header, spec.header, k);
      }
    }
  }

  /** The other table's older header is kept apart as well. */
  lemma RenderingApart(spec: Spec, other: Spec, rows: seq<Cells>, rendered: string)
    requires ValidSpec(spec) && ValidSpec(other) && Unlike(spec, other) && Unlike(other, spec)
    requires Render(spec.header, spec.rule, rows) == Some(rendered) && Unmentioned(rows, spec.heading)
    ensures LegacyApart(TableOf(other), TableOf(spec), rendered)
  {
    LineHasNoBreak(other.legacy);
    RenderedIsQuiet(spec, other.legacy, rows, spec.heading);
    forall k ensures !Overlaps(Line(other.legacy), Line(spec.header), k) {
      if k >= 0 && Overlaps(Line(other.legacy), Line(spec.header), k) {
        var i := OverlapNeedsCell(other.legacy, spec.header, k);
      }
    }
  }

  lemma HeaderFirst(header: Cells, rule: Cells, rows: seq<Cells>)
    ensures Line(header) + "\n" <= Body([header, rule] + rows)
  {
    var lines := [header, rule] + rows;
    assert Body(lines) == (Line(lines[0]) + "\n") + Body(lines[1..]);
  }

  /** Headers that start unlike the other table's cannot be bridged into one of its headers. */
  lemma LinesUnbridged(cells: Cells, q: Cells)
    requires Tame(cells) && Tame(q) && NoneStarts(cells, 0, q[0])
    ensures NoBridge(Line(cells), Line(q))
  {
    if j :| OccursAt(Line(cells), Line(q), j) {
      var i := LineInLine(cells, q, j);
    }
    forall k ensures !Overlaps(Line(cells), Line(q), k) {
      if k >= 0 && Overlaps(Line(cells), Line(q), k) {
        var i := OverlapNeedsCell(cells, q, k);
      }
    }
  }

  lemma TablesUnbridged(one: Spec, two: Spec)
    requires ValidSpec(one) && ValidSpec(two) && Unlike(two, one)
    ensures Unbridged(TableOf(one), TableOf(two))
  {
    LinesUnbridged(two.header, one.header);
    LinesUnbridged(two.header, one.legacy);
    LinesUnbridged(two.legacy, one.header);
    LinesUnbridged(two.legacy, one.legacy);
  }

  /** Only at the start of its header line does a table start like its header. */
  lemma HeaderLineOnce(spec: Spec, q: Cells, j: int)
    requires ValidSpec(spec) && (q == spec.header || q == spec.legacy) && OccursAt(Line(spec.header), Line(q), j)
    ensures j == 0 && q == spec.header
  {
    var s, p := Line(spec.header), Line(q);
    LineHead(q, 1);
    LineEnds(q);
    assert s[j..j + |p|][0] == p[0] && s[j..j + |p|][2] == p[2] && s[j..j + |p|][3] == p[3];
    var i := BarStartsCell(spec.header, j, q[0][0], q[0][1]);
    assert j == 0 ==> p <= s;
  }

  lemma BehindHeader(spec: Spec, q: Cells, rows: seq<Cells>)
    requires ValidSpec(spec) && (q == spec.header || q == spec.legacy)
    requires (forall i :: 0 <= i < |rows| ==> SafeRow(rows[i])) && Unmentioned(rows, spec.heading)
    ensures !Occurs(Body([spec.rule] + QuotedAll(rows)), Line(q))
  {
    var lines := [spec.rule] + QuotedAll(rows);
    TameIsQuiet(spec.rule, q, spec.heading);
    forall i | 0 <= i < |lines| ensures Quiet(lines[i], q, spec.heading) {
      if i >= 1 {
        assert lines[i] == Quoted(rows[i - 1]);
        QuotedIsQuiet(rows[i - 1], q, spec.heading);
      }
    }
    BodyIsQuiet(lines, q, spec.heading);
  }

  lemma InFirstLine(s: string, l: string, rest: string, p: string, j: int)
    requires s == l + "\n" + rest && p != "" && '\n' !in p && OccursAt(s, p, j) && !Occurs(rest, p)
    ensures OccursAt(l, p, j)
  {
    assert s == l + ("\n" + rest) && s[|l|] == '\n';
    Covers(s, p, j, |l|);
    OccursIn(l, "\n" + rest, p, j);
    OccursIn("\n", rest, p, j - |l|);
  }

  lemma InHeaderLine(spec: Spec, q: Cells, rows: seq<Cells>, rendered: string, j: int)
    requires ValidSpec(spec) && (q == spec.header || q == spec.legacy)
    requires Render(spec.header, spec.rule, rows) == Some(rendered) && Unmentioned(rows, spec.heading)
    requires OccursAt(rendered, Line(q), j)
    ensures j == 0 && q == spec.header
  {
    var l, rest := Line(spec.header), Body([spec.rule] + QuotedAll(rows));
    assert ([spec.header, spec.rule] + QuotedAll(rows))[1..] == [spec.rule] + QuotedAll(rows);
    LineHasNoBreak(q);
    BehindHeader(spec, q, rows);
    InFirstLine(rendered, l, rest, Line(q), j);
    HeaderLineOnce(spec, q, j);
  }

  /** A rendering holds its own header once, and its older header nowhere. */
  lemma RenderedOnce(spec: Spec, rows: seq<Cells>, rendered: string)
    requires ValidSpec(spec)
    requires Render(spec.header, spec.rule, rows) == Some(rendered) && Unmentioned(rows, spec.heading)
    ensures RendersOnce(rendered, TableOf(spec))
  {
    LineHasNoBreak(spec.legacy);
    forall j | OccursAt(rendered, Line(spec.header), j) ensures j == 0 {
      InHeaderLine(spec, spec.header, rows, rendered, j);
    }
    forall j ensures !OccursAt(rendered, Line(spec.legacy), j) {
      if OccursAt(rendered, Line(spec.legacy), j) { InHeaderLine(spec, spec.legacy, rows, rendered, j); }
    }
    forall k ensures !Overlaps(Line(spec.legacy), Line(spec.header), k) {
      if k >= 0 && Overlaps(Line(spec.legacy), Line(spec.header), k) {
        var i := OverlapNeedsCell(spec.legacy, spec.header, k);
      }
    }
  }

  const OLD_PATH: string := "old_path"
  const DISPOSITION: string := "disposition"
  const TARGET_PATH: string := "target_path"
  const TARGET_TASK: string := "target_task"
  const STATE: string := "state"
  const EVIDENCE: string := "evidence"
  const TEST_PATH: string := "deleted_test_path"
  const TEST_FUNCTIONS: string := "base_test_functions"
  const HANDOFF: string := "exact_handoff"
  const THEMES: string := "behavioral_themes"
  const REPLACEMENTS: string := "replacement_tests"
  const ASSERTIONS: string := "behavioral_" + "assertions"

  const NEXT_HEADING: string := "## Deleted " + "integration-test " + "dispositions"
  const FINAL_HEADING: string := "## Final " + "cutover " + "invariants"

  const OLD_PATHS: Spec := Spec(
    [OLD_PATH, DISPOSITION, TARGET_PATH, TARGET_TASK, STATE, EVIDENCE],
    [OLD_PATH, DISPOSITION, TARGET_PATH, EVIDENCE],
    ["---", "---", "---", "---", "---", "---"],
    NEXT_HEADING)

  const DELETED_TESTS: Spec := Spec(
    [TEST_PATH, TEST_FUNCTIONS, DISPOSITION, HANDOFF, THEMES],
    [TEST_PATH, DISPOSITION, REPLACEMENTS, ASSERTIONS],
    ["---", "---:", "---", "---", "---"],
    FINAL_HEADING)

  /** A tame cell and its first two characters. */
  ghost predicate TameStart(cell: string, x: char, y: char) {
    TameCell(cell) && Starts(cell, x, y)
  }

  lemma PathCells()
    ensures TameStart(OLD_PATH, 'o', 'l') && TameStart(DISPOSITION, 'd', 'i')
    ensures TameStart(TARGET_PATH, 't', 'a') && TameStart(TARGET_TASK, 't', 'a')
  {}

  lemma StateCells()
    ensures TameStart(STATE, 's', 't') && TameStart(EVIDENCE, 'e', 'v')
    ensures TameStart("---", '-', '-') && TameStart("---:", '-', '-')
  {}

  lemma TestPathCell()
    ensures TameStart(TEST_PATH, 'd', 'e')
  {}

  lemma TestFunctionsCell()
    ensures TameStart(TEST_FUNCTIONS, 'b', 'a')
  {}

  lemma HandoffCell()
    ensures TameStart(HANDOFF, 'e', 'x')
  {}

  lemma ThemesCell()
    ensures TameStart(THEMES, 'b', 'e')
  {}

  lemma LegacyCells()
    ensures TameStart(REPLACEMENTS, 'r', 'e') && TameStart(ASSERTIONS, 'b', 'e')
  {
    assert TameStart("behavioral_", 'b', 'e') && '|' !in "assertions" && '\n' !in "assertions" && '#' !in "assertions";
  }

  ghost predicate ValidHeading(heading: string) {
    && |heading| >= 2 && heading[0] == '#' && heading[|heading| - 1] != ' '
    && '|' !in heading && '\n' !in heading && '`' !in heading
  }

  lemma OldPathsHeading()
    ensures ValidHeading(NEXT_HEADING)
  {
    assert ValidHeading("## Deleted " + "x") && ValidHeading("#" + "integration-test " + "x");
    assert ValidHeading("#" + "dispositions");
  }

  lemma DeletedTestsHeading()
    ensures ValidHeading(FINAL_HEADING)
  {
    assert ValidHeading("## Final " + "x") && ValidHeading("#" + "cutover " + "x") && ValidHeading("#" + "invariants");
  }

  lemma TameSix(a: string, b: string, c: string, d: string, e: string, f: string)
    requires TameCell(a) && TameCell(b) && TameCell(c) && TameCell(d) && TameCell(e) && TameCell(f)
    ensures Tame([a, b, c, d, e, f]) && Tame([a, b, c, d, e]) && Tame([a, b, c, d])
  {}

  /** None of the listed cells starts with `x` and `y`. */
  lemma OtherStarts(cells: Cells, from: nat, like: string, starts: seq<(char, char)>)
    requires |starts| == |cells| && |like| >= 2
    requires forall i :: 0 <= i < |cells| ==> Starts(cells[i], starts[i].0, starts[i].1)
    requires forall i :: from <= i < |cells| ==> starts[i] != (like[0], like[1])
    ensures NoneStarts(cells, from, like)
  {}

  lemma LineTail(c: string, r: Cells, s: Cells)
    requires Line([c] + r) <= Line([c] + s)
    ensures Line(r) <= Line(s)
  {
    var n := |c| + 3;
    assert ([c] + r)[1..] == r && ([c] + s)[1..] == s;
    assert Line([c] + r) == ("| " + c + " ") + Line(r) && Line([c] + s) == ("| " + c + " ") + Line(s);
    assert Line([c] + r)[n..] == Line(r) && Line([c] + s)[n..][..|Line(r)|] == Line(s)[..|Line(r)|];
  }

  /** Lines whose first cells part: the first does not begin the second. */
  lemma LinesPart(x: string, r: Cells, y: string, s: Cells)
    requires x != "" && y != "" && x[0] != y[0]
    ensures !(Line([x] + r) <= Line([y] + s))
  {
    assert Line([x] + r)[2] == x[0] && Line([y] + s)[2] == y[0];
  }

  lemma OlderPathsPart(a: string, b: string, c: string, d: string, e: string, f: string)
    requires d != "" && f != "" && d[0] != f[0]
    ensures !(Line([a, b, c, f]) <= Line([a, b, c, d, e, f]))
  {
    if Line([a, b, c, f]) <= Line([a, b, c, d, e, f]) {
      assert [a, b, c, f] == [a] + [b, c, f] && [a, b, c, d, e, f] == [a] + [b, c, d, e, f];
      LineTail(a, [b, c, f], [b, c, d, e, f]);
      assert [b, c, f] == [b] + [c, f] && [b, c, d, e, f] == [b] + [c, d, e, f];
      LineTail(b, [c, f], [c, d, e, f]);
      assert [c, f] == [c] + [f] && [c, d, e, f] == [c] + [d, e, f];
      LineTail(c, [f], [d, e, f]);
    }
    assert [f] == [f] + [] && [d, e, f] == [d] + [e, f];
    LinesPart(f, [], d, [e, f]);
  }

  lemma OlderTestsPart(a: string, b: string, c: string, rest: Cells, others: Cells)
    requires b != "" && c != "" && c[0] != b[0]
    ensures !(Line([a, c] + rest) <= Line([a, b] + others))
  {
    assert [a, c] + rest == [a] + ([c] + rest) && [a, b] + others == [a] + ([b] + others);
    if Line([a, c] + rest) <= Line([a, b] + others) { LineTail(a, [c] + rest, [b] + others); }
    LinesPart(c, rest, b, others);
  }

  lemma PathsSpec(a: string, b: string, c: string, d: string, e: string, f: string, r: string, other: string, h: string)
    requires TameStart(a, 'o', 'l') && TameStart(b, 'd', 'i') && TameStart(c, 't', 'a') && TameStart(d, 't', 'a')
    requires TameStart(e, 's', 't') && TameStart(f, 'e', 'v') && TameStart(r, '-', '-') && TameStart(other, 'd', 'e')
    requires ValidHeading(h)
    ensures ValidSpec(Spec([a, b, c, d, e, f], [a, b, c, f], [r, r, r, r, r, r], h))
    ensures NoneStarts([a, b, c, d, e, f], 0, other) && NoneStarts([r, r, r, r, r, r], 0, other)
    ensures NoneStarts([a, b, c, f], 0, other)
  {
    TameSix(a, b, c, d, e, f);
    TameSix(a, b, c, f, f, f);
    TameSix(r, r, r, r, r, r);
    var starts := [('o', 'l'), ('d', 'i'), ('t', 'a'), ('t', 'a'), ('s', 't'), ('e', 'v')];
    var dash := ('-', '-');
    OtherStarts([a, b, c, d, e, f], 1, a, starts);
    OtherStarts([a, b, c, d, e, f], 0, other, starts);
    OtherStarts([a, b, c, f], 0, other, [('o', 'l'), ('d', 'i'), ('t', 'a'), ('e', 'v')]);
    OtherStarts([a, b, c, f], 1, a, [('o', 'l'), ('d', 'i'), ('t', 'a'), ('e', 'v')]);
    OtherStarts([r, r, r, r, r, r], 0, a, [dash, dash, dash, dash, dash, dash]);
    OlderPathsPart(a, b, c, d, e, f);
    OtherStarts([r, r, r, r, r, r], 0, other, [dash, dash, dash, dash, dash, dash]);
  }

  lemma TestsSpec(a: string, b: string, c: string, d: string, e: string, f: string, g: string, r: string, q: string,
                  other: string, h: string)
    requires TameStart(a, 'd', 'e') && TameStart(b, 'b', 'a') && TameStart(c, 'd', 'i') && TameStart(d, 'e', 'x')
    requires TameStart(e, 'b', 'e') && TameStart(f, 'r', 'e') && TameStart(g, 'b', 'e')
    requires TameStart(r, '-', '-') && TameStart(q, '-', '-') && TameStart(other, 'o', 'l') && ValidHeading(h)
    ensures ValidSpec(Spec([a, b, c, d, e], [a, c, f, g], [r, q, r, r, r], h))
    ensures NoneStarts([a, b, c, d, e], 0, other) && NoneStarts([r, q, r, r, r], 0, other)
    ensures NoneStarts([a, c, f, g], 0, other)
  {
    TameSix(a, b, c, d, e, e);
    TameSix(a, c, f, g, g, g);
    TameSix(r, q, r, r, r, r);
    var starts := [('d', 'e'), ('b', 'a'), ('d', 'i'), ('e', 'x'), ('b', 'e')];
    var dash := ('-', '-');
    OtherStarts([a, b, c, d, e], 1, a, starts);
    OtherStarts([a, b, c, d, e], 0, other, starts);
    OtherStarts([a, c, f, g], 0, other, [('d', 'e'), ('d', 'i'), ('r', 'e'), ('b', 'e')]);
    OtherStarts([a, c, f, g], 1, a, [('d', 'e'), ('d', 'i'), ('r', 'e'), ('b', 'e')]);
    OtherStarts([r, q, r, r, r], 0, a, [dash, dash, dash, dash, dash]);
    OlderTestsPart(a, b, c, [f, g], [c, d, e]);
    assert [a, c, f, g] == [a, c] + [f, g] && [a, b, c, d, e] == [a, b] + [c, d, e];
    OtherStarts([r, q, r, r, r], 0, other, [dash, dash, dash, dash, dash]);
  }

  lemma OldPathsValid()
    ensures ValidSpec(OLD_PATHS) && Unlike(OLD_PATHS, DELETED_TESTS)
  {
    PathCells();
    StateCells();
    TestPathCell();
    OldPathsHeading();
    PathsSpec(OLD_PATH, DISPOSITION, TARGET_PATH, TARGET_TASK, STATE, EVIDENCE, "---", TEST_PATH, NEXT_HEADING);
  }

  lemma DeletedTestsValid()
    ensures ValidSpec(DELETED_TESTS) && Unlike(DELETED_TESTS, OLD_PATHS)
  {
    PathCells();
    StateCells();
    TestPathCell();
    TestFunctionsCell();
    HandoffCell();
    ThemesCell();
    LegacyCells();
    DeletedTestsHeading();
    TestsSpec(TEST_PATH, TEST_FUNCTIONS, DISPOSITION, HANDOFF, THEMES, REPLACEMENTS, ASSERTIONS, "---", "---:",
              OLD_PATH, FINAL_HEADING);
  }

  /**
   The script's own document: after a successful write, the check run finds both tables
   fresh, provided the second table does not enclose the first one and no cell mentions a
   section heading.
   */
  lemma DocumentIsStable(d: string, paths: seq<Cells>, tests: seq<Cells>, first: string, second: string)
    requires Render(OLD_PATHS.header, OLD_PATHS.rule, paths) == Some(first)
    requires Render(DELETED_TESTS.header, DELETED_TESTS.rule, tests) == Some(second)
    requires Unmentioned(paths, OLD_PATHS.heading) && Unmentioned(paths, DELETED_TESTS.heading)
    requires Unmentioned(tests, OLD_PATHS.heading) && Unmentioned(tests, DELETED_TESTS.heading)
    requires ExpectedDocument(d, TableOf(OLD_PATHS), first, TableOf(DELETED_TESTS), second).Ok?
    requires !Encloses(d, TableOf(OLD_PATHS), TableOf(DELETED_TESTS))
    ensures var written := ExpectedDocument(d, TableOf(OLD_PATHS), first, TableOf(DELETED_TESTS), second).value;
            Check(written, TableOf(OLD_PATHS), first, TableOf(DELETED_TESTS), second) == Fresh
  {
    OldPathsValid();
    DeletedTestsValid();
    StableFor(OLD_PATHS, DELETED_TESTS, d, paths, tests, first, second);
  }

  lemma StableFor(one: Spec, two: Spec, d: string, paths: seq<Cells>, tests: seq<Cells>, first: string, second: string)
    requires ValidSpec(one) && ValidSpec(two) && Unlike(one, two) && Unlike(two, one)
    requires Render(one.header, one.rule, paths) == Some(first)
    requires Render(two.header, two.rule, tests) == Some(second)
    requires Unmentioned(paths, one.heading) && Unmentioned(paths, two.heading)
    requires Unmentioned(tests, one.heading) && Unmentioned(tests, two.heading)
    requires ExpectedDocument(d, TableOf(one), first, TableOf(two), second).Ok?
    requires !Encloses(d, TableOf(one), TableOf(two))
    ensures var written := ExpectedDocument(d, TableOf(one), first, TableOf(two), second).value;
            Check(written, TableOf(one), first, TableOf(two), second) == Fresh
  {
    SpecGivesTable(one);
    SpecGivesTable(two);
    RenderingIsValid(one, two, paths, first);
    RenderingIsValid(two, one, tests, second);
    RenderingApart(one, two, paths, first);
    TablesUnbridged(one, two);
    OverlapOnInput(d, TableOf(one), first, TableOf(two));
    WriteThenCheckIsFresh(d, TableOf(one), first, TableOf(two), second);
  }

  /**
   The exact condition for the script's own tables: in a document that holds the first
   table once, the check after a write passes if and only if the second table does not
   enclose the first one there.
   */
  lemma DocumentFreshExactly(d: string, paths: seq<Cells>, tests: seq<Cells>, first: string, second: string)
    requires Render(OLD_PATHS.header, OLD_PATHS.rule, paths) == Some(first)
    requires Render(DELETED_TESTS.header, DELETED_TESTS.rule, tests) == Some(second)
    requires Unmentioned(paths, OLD_PATHS.heading) && Unmentioned(paths, DELETED_TESTS.heading)
    requires Unmentioned(tests, OLD_PATHS.heading) && Unmentioned(tests, DELETED_TESTS.heading)
    requires ExpectedDocument(d, TableOf(OLD_PATHS), first, TableOf(DELETED_TESTS), second).Ok?
    requires SingleTable(d, TableOf(OLD_PATHS))
    ensures var written := ExpectedDocument(d, TableOf(OLD_PATHS), first, TableOf(DELETED_TESTS), second).value;
            var r := Check(written, TableOf(OLD_PATHS), first, TableOf(DELETED_TESTS), second);
            (r == Fresh <==> !Encloses(d, TableOf(OLD_PATHS), TableOf(DELETED_TESTS))) && r != Stale
  {
    OldPathsValid();
    DeletedTestsValid();
    FreshExactlyFor(OLD_PATHS, DELETED_TESTS, d, paths, tests, first, second);
  }

  lemma FreshExactlyFor(one: Spec, two: Spec, d: string, paths: seq<Cells>,
                        tests: seq<Cells>, first: string, second: string)
    requires ValidSpec(one) && ValidSpec(two) && Unlike(one, two) && Unlike(two, one)
    requires Render(one.header, one.rule, paths) == Some(first) && Render(two.header, two.rule, tests) == Some(second)
    requires Unmentioned(paths, one.heading) && Unmentioned(paths, two.heading)
    requires Unmentioned(tests, one.heading) && Unmentioned(tests, two.heading)
    requires ExpectedDocument(d, TableOf(one), first, TableOf(two), second).Ok?
    requires SingleTable(d, TableOf(one))
    ensures var written := ExpectedDocument(d, TableOf(one), first, TableOf(two), second).value;
            var r := Check(written, TableOf(one), first, TableOf(two), second);
            (r == Fresh <==> !Encloses(d, TableOf(one), TableOf(two))) && r != Stale
  {
    SpecGivesTable(one);
    SpecGivesTable(two);
    RenderingIsValid(one, two, paths, first);
    RenderingIsValid(two, one, tests, second);
    RenderingApart(one, two, paths, first);
    RenderingApart(two, one, tests, second);
    TablesUnbridged(one, two);
    RenderedOnce(one, paths, first);
    FreshExactlyOnInput(d, TableOf(one), first, TableOf(two), second);
  }

  // ----- A document of the script whose regions overlap -----

  /** `## ` and a letter, and no other hash. */
  ghost predicate SecondLevel(heading: string, letter: char) {
    |heading| > 3 && heading[1] == '#' && heading[3] == letter && forall k :: 2 <= k < |heading| ==> heading[k] != '#'
  }

  lemma HeadingInHeading(a: string, b: string, x: char, y: char)
    requires ValidHeading(a) && ValidHeading(b) && SecondLevel(a, x) && SecondLevel(b, y) && x != y
    ensures !Occurs(a, b)
  {
    if j :| OccursAt(a, b, j) {
      HeadChars(a, b, j);
    }
  }

  lemma HeadChars(s: string, p: string, j: int)
    requires OccursAt(s, p, j) && |p| > 3
    ensures s[j] == p[0] && s[j + 1] == p[1] && s[j + 3] == p[3]
  {
    var t := s[j..j + |p|];
    assert t[0] == s[j] && t[1] == s[j + 1] && t[3] == s[j + 3];
  }

  lemma NextHeadingLevel()
    ensures SecondLevel(NEXT_HEADING, 'D')
  {
    assert NEXT_HEADING[2..] == " Deleted " + "integration-test " + "dispositions";
    assert '#' !in " Deleted " && '#' !in "integration-test " && '#' !in "dispositions";
    forall k | 2 <= k < |NEXT_HEADING| ensures NEXT_HEADING[k] != '#' {
      assert NEXT_HEADING[k] == NEXT_HEADING[2..][k - 2];
    }
  }

  lemma FinalHeadingLevel()
    ensures SecondLevel(FINAL_HEADING, 'F')
  {
    assert FINAL_HEADING[2..] == " Final " + "cutover " + "invariants";
    assert '#' !in " Final " && '#' !in "cutover " && '#' !in "invariants";
    forall k | 2 <= k < |FINAL_HEADING| ensures FINAL_HEADING[k] != '#' {
      assert FINAL_HEADING[k] == FINAL_HEADING[2..][k - 2];
    }
  }

  lemma TablesApart(one: Spec, two: Spec)
    requires ValidSpec(one) && ValidSpec(two) && Unlike(two, one) && !Occurs(one.heading, two.heading)
    ensures Apart(TableOf(one), TableOf(two))
  {
    TameIsQuiet(two.header, one.header, one.heading);
    LineBetrays(two.header, one.header, one.heading);
    LineBetrays(two.header, one.header, two.heading);
    TameHasNoHeading(two.header, two.heading);
    LineBetrays(one.header, one.header, one.heading);
    TameHasNoHeading(one.header, one.heading);
  }

  /**
   With the second header in front of the first table, a write with the script's own
   tables erases the first one, and the next check finds its boundaries missing.
   */
  lemma OverlappingDocumentBreaks(paths: seq<Cells>, tests: seq<Cells>, first: string, second: string)
    requires Render(OLD_PATHS.header, OLD_PATHS.rule, paths) == Some(first)
    requires Render(DELETED_TESTS.header, DELETED_TESTS.rule, tests) == Some(second)
    requires Unmentioned(paths, OLD_PATHS.heading) && Unmentioned(paths, DELETED_TESTS.heading)
    requires Unmentioned(tests, OLD_PATHS.heading) && Unmentioned(tests, DELETED_TESTS.heading)
    ensures var one, two := TableOf(OLD_PATHS), TableOf(DELETED_TESTS);
            var written := ExpectedDocument(Overlapping(one, two), one, first, two, second);
            written.Ok? && Check(written.value, one, first, two, second) == Broken
  {
    OldPathsValid();
    DeletedTestsValid();
    NextHeadingLevel();
    FinalHeadingLevel();
    HeadingInHeading(NEXT_HEADING, FINAL_HEADING, 'D', 'F');
    BreaksFor(OLD_PATHS, DELETED_TESTS, paths, tests, first, second);
  }

  lemma BreaksFor(one: Spec, two: Spec, paths: seq<Cells>, tests: seq<Cells>, first: string, second: string)
    requires ValidSpec(one) && ValidSpec(two) && Unlike(one, two) && Unlike(two, one)
    requires !Occurs(one.heading, two.heading)
    requires Render(one.header, one.rule, paths) == Some(first) && Render(two.header, two.rule, tests) == Some(second)
    requires Unmentioned(paths, one.heading) && Unmentioned(paths, two.heading)
    requires Unmentioned(tests, one.heading) && Unmentioned(tests, two.heading)
    ensures var d := Overlapping(TableOf(one), TableOf(two));
            var written := ExpectedDocument(d, TableOf(one), first, TableOf(two), second);
            written.Ok? && Check(written.value, TableOf(one), first, TableOf(two), second) == Broken
  {
    SpecGivesTable(one);
    SpecGivesTable(two);
    RenderingIsValid(one, two, paths, first);
    RenderingIsValid(two, one, tests, second);
    RenderingApart(two, one, tests, second);
    TablesApart(one, two);
    OverlappingBreaks(TableOf(one), first, TableOf(two), second);
  }
}
