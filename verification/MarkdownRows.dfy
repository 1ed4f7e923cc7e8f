/**
 What a rendered table of scripts/render_task6_migration_document.py holds: cut at its line
 breaks and bars, it gives back the header, the rule and every row, cell by cell and in order.
 */
module MarkdownRows {
  import opened Outcome
  import opened MarkdownTables
  import Delimited

  /** The pieces between the bars of a line: nothing, each cell between two spaces, nothing. */
  ghost predicate HoldsCells(line: string, cells: Cells) {
    var pieces := Delimited.Split(line, '|');
    && |pieces| == |cells| + 2
    && pieces[0] == "" && pieces[|cells| + 1] == ""
    && forall k :: 0 <= k < |cells| ==> pieces[k + 1] == " " + cells[k] + " "
  }

  ghost predicate NoneHas(cells: Cells, c: char) {
    forall k :: 0 <= k < |cells| ==> c !in cells[k]
  }

  lemma FirstPiece(cell: string, rest: string)
    requires '|' !in cell
    ensures Delimited.Split("| " + cell + " " + ("|" + rest), '|') ==
            ["", " " + cell + " "] + Delimited.Split(rest, '|')
  {
    var padded := " " + cell + " ";
    var s := "| " + cell + " " + ("|" + rest);
    assert s[1..] == padded + ['|'] + rest;
    assert '|' !in padded;
    Delimited.SplitAt(padded, rest, '|');
    assert [""] + ([padded] + Delimited.Split(rest, '|')) == ["", padded] + Delimited.Split(rest, '|');
  }

  lemma {:induction false} LineHolds(cells: Cells)
    requires NoneHas(cells, '|')
    ensures HoldsCells(Line(cells), cells)
    decreases |cells|
  {
    if cells == [] {
      Delimited.SplitPart("", '|');
    } else {
      var rest := Line(cells[1..]);
      LineHolds(cells[1..]);
      assert rest == "|" + rest[1..];
      FirstPiece(cells[0], rest[1..]);
      assert Delimited.Split(rest, '|') == [""] + Delimited.Split(rest[1..], '|');
      MoreCells(Line(cells), cells, Delimited.Split(rest[1..], '|'));
    }
  }

  lemma MoreCells(line: string, cells: Cells, later: seq<string>)
    requires cells != [] && Delimited.Split(line, '|') == ["", " " + cells[0] + " "] + later
    requires |later| == |cells| && later[|cells| - 1] == ""
    requires forall k :: 0 <= k < |cells| - 1 ==> later[k] == " " + cells[1..][k] + " "
    ensures HoldsCells(line, cells)
  {
    var pieces := Delimited.Split(line, '|');
    forall k | 0 <= k < |cells| ensures pieces[k + 1] == " " + cells[k] + " " {
      if k > 0 {
        assert pieces[k + 1] == later[k - 1];
        assert cells[1..][k - 1] == cells[k];
      }
    }
  }

  lemma {:induction false} LineStays(cells: Cells)
    requires NoneHas(cells, '\n')
    ensures '\n' !in Line(cells)
    decreases |cells|
  {
    if cells != [] { LineStays(cells[1..]); }
  }

  /** Cut at its line breaks, the table gives its lines and an empty end. */
  lemma {:induction false} BodyHolds(lines: seq<Cells>)
    requires forall i :: 0 <= i < |lines| ==> NoneHas(lines[i], '\n')
    ensures var texts := Delimited.Split(Body(lines), '\n');
            && |texts| == |lines| + 1 && texts[|lines|] == ""
            && forall i :: 0 <= i < |lines| ==> texts[i] == Line(lines[i])
    decreases |lines|
  {
    if lines != [] {
      BodyHolds(lines[1..]);
      LineStays(lines[0]);
      Delimited.SplitAt(Line(lines[0]), Body(lines[1..]), '\n');
      assert Body(lines) == Line(lines[0]) + ['\n'] + Body(lines[1..]);
    }
  }

  /** A quoted row. */
  ghost predicate HoldsRow(line: string, row: Cells) {
    exists cells :: HoldsCells(line, cells) && IsQuoted(cells, row)
  }

  ghost predicate IsQuoted(cells: Cells, row: Cells) {
    |cells| == |row| && forall k :: 0 <= k < |row| ==> cells[k] == "`" + row[k] + "`"
  }

  lemma RowHolds(row: Cells)
    requires SafeRow(row)
    ensures HoldsRow(Line(Quoted(row)), row) && NoneHas(Quoted(row), '\n')
  {
    var cells := Quoted(row);
    forall k | 0 <= k < |cells| ensures '|' !in cells[k] && '\n' !in cells[k] {
      assert cells[k] == "`" + row[k] + "`";
    }
    LineHolds(cells);
    assert IsQuoted(cells, row);
  }

  /** The rendered text is the header, the rule and all rows. */
  ghost predicate HoldsTable(rendered: string, header: Cells, rule: Cells, rows: seq<Cells>) {
    var lines := Delimited.Split(rendered, '\n');
    && |lines| == |rows| + 3 && lines[|rows| + 2] == ""
    && HoldsCells(lines[0], header) && HoldsCells(lines[1], rule)
    && forall i :: 0 <= i < |rows| ==> HoldsRow(lines[i + 2], rows[i])
  }

  /** The cell would break its row. */
  ghost predicate Unsafe(cell: string) { '|' in cell || '\n' in cell || '\r' in cell }

  /** Rendering fails exactly when some cell holds a bar or a line break, and otherwise holds every cell. */
  lemma RenderHolds(header: Cells, rule: Cells, rows: seq<Cells>)
    requires NoneHas(header, '|') && NoneHas(header, '\n') && NoneHas(rule, '|') && NoneHas(rule, '\n')
    ensures var r := Render(header, rule, rows);
            && (r.None? <==> exists i, k :: 0 <= i < |rows| && 0 <= k < |rows[i]| && Unsafe(rows[i][k]))
            && (r.Some? ==> HoldsTable(r.value, header, rule, rows))
  {
    if Render(header, rule, rows).Some? {
      var lines := [header, rule] + QuotedAll(rows);
      forall i | 0 <= i < |lines| ensures NoneHas(lines[i], '\n') {
        if i >= 2 { RowHolds(rows[i - 2]); }
      }
      BodyHolds(lines);
      LineHolds(header);
      LineHolds(rule);
      TableHolds(lines, header, rule, rows);
    }
  }

  lemma TableHolds(lines: seq<Cells>, header: Cells, rule: Cells, rows: seq<Cells>)
    requires lines == [header, rule] + QuotedAll(rows) && forall i :: 0 <= i < |rows| ==> SafeRow(rows[i])
    requires HoldsCells(Line(header), header) && HoldsCells(Line(rule), rule)
    requires var texts := Delimited.Split(Body(lines), '\n');
             && |texts| == |lines| + 1 && texts[|lines|] == ""
             && forall i :: 0 <= i < |lines| ==> texts[i] == Line(lines[i])
    ensures HoldsTable(Body(lines), header, rule, rows)
  {
    var texts := Delimited.Split(Body(lines), '\n');
    forall i | 0 <= i < |rows| ensures HoldsRow(texts[i + 2], rows[i]) {
      RowHolds(rows[i]);
      assert lines[i + 2] == Quoted(rows[i]);
    }
    assert texts[0] == Line(lines[0]) && texts[1] == Line(lines[1]);
  }
}
