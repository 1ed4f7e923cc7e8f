/**
 `parse_semantic_payload` and `canonical_semantic_payload`
 (scripts/verify_jdbc42_semantic_inventory.py): the canonical TSV of the JDBC inventory,
 on the decoded text of the payload.
 */
module SemanticInventory {
  import opened Outcome
  import opened Sorting
  import opened Delimited

  type Fields = seq<string>

  datatype Failure =
    | FinalNewline
    | ControlByte
    | HeaderDrift
    | WrongFieldCount
    | EmptyField
    | ControlCharacter
    | NotSorted
    | NotCanonical

  const FIELD_COUNT := 19

  /** Unicode category Cc. */
  predicate IsControl(c: char) { c < ' ' || '\U{7F}' <= c <= '\U{9F}' }

  /** What the byte check forbids: ASCII control characters other than tab and line feed. */
  predicate IsForbidden(c: char) { (c < ' ' && c != '\t' && c != '\n') || c == '\U{7F}' }

  predicate EndsWith(s: string, tail: string) { |tail| <= |s| && s[|s| - |tail|..] == tail }

  predicate KeyLeq(a: Fields, b: Fields) {
    a == [] || (b != [] && StringLeq(a[0], b[0]))
  }

  function RowText(row: Fields): string { Join(row, '\t') }

  function RowTexts(rows: seq<Fields>): (r: seq<string>)
    ensures |r| == |rows|
  {
    seq(|rows|, i requires 0 <= i < |rows| => RowText(rows[i]))
  }

  /** The one accepted serialization. */
  function Print(header: string, rows: seq<Fields>): string {
    header + "\n" + Join(RowTexts(rows), '\n') + "\n"
  }

  function SplitRows(lines: seq<string>): (r: seq<Fields>)
    ensures |r| == |lines|
  {
    seq(|lines|, i requires 0 <= i < |lines| => Split(lines[i], '\t'))
  }

  function RowFailure(row: Fields): Option<Failure> {
    if |row| != FIELD_COUNT then Some(WrongFieldCount)
    else if exists k :: 0 <= k < |row| && row[k] == "" then Some(EmptyField)
    else if exists k, j :: 0 <= k < |row| && 0 <= j < |row[k]| && IsControl(row[k][j]) then Some(ControlCharacter)
    else None
  }

  function FirstRowFailure(rows: seq<Fields>): (r: Option<Failure>)
    ensures r.Some? ==> r.value == WrongFieldCount || r.value == EmptyField || r.value == ControlCharacter
  {
    if rows == [] then None
    else if RowFailure(rows[0]).Some? then RowFailure(rows[0])
    else FirstRowFailure(rows[1..])
  }

  /** The lines before the final line break. */
  function Lines(payload: string): seq<string> {
    var all := Split(payload, '\n');
    all[..|all| - 1]
  }

  function Rows(payload: string): seq<Fields> {
    if Lines(payload) == [] then [] else SplitRows(Lines(payload)[1..])
  }

  /** Every check before the final comparison. */
  function EarlyFailure(header: string, payload: string): Option<Failure> {
    if !EndsWith(payload, "\n") || EndsWith(payload, "\n\n") then Some(FinalNewline)
    else if exists k :: 0 <= k < |payload| && IsForbidden(payload[k]) then Some(ControlByte)
    else if Lines(payload) == [] || Lines(payload)[0] != header then Some(HeaderDrift)
    else if FirstRowFailure(Rows(payload)).Some? then FirstRowFailure(Rows(payload))
    else if Rows(payload) != Sort(Rows(payload), KeyLeq) then Some(NotSorted)
    else None
  }

  function Parse(header: string, payload: string): Result<seq<Fields>, Failure> {
    var early := EarlyFailure(header, payload);
    if early.Some? then Err(early.value)
    else if payload != Print(header, Rows(payload)) then Err(NotCanonical)
    else Ok(Rows(payload))
  }

  // ----- Valid rows -----

  ghost predicate ValidField(field: string) {
    field != "" && forall j :: 0 <= j < |field| ==> !IsControl(field[j])
  }

  ghost predicate ValidRow(row: Fields) {
    |row| == FIELD_COUNT && forall k :: 0 <= k < |row| ==> ValidField(row[k])
  }

  ghost predicate ValidRows(rows: seq<Fields>) {
    && (forall i :: 0 <= i < |rows| ==> ValidRow(rows[i]))
    && (forall i, j :: 0 <= i < j < |rows| ==> StringLeq(rows[i][0], rows[j][0]))
  }

  /** The header is one line of printable text and tabs. */
  ghost predicate ValidHeader(header: string) {
    header != "" && forall k :: 0 <= k < |header| ==> header[k] == '\t' || !IsControl(header[k])
  }

  lemma RowFailureExact(row: Fields)
    ensures RowFailure(row).None? <==> ValidRow(row)
  {
    if |row| == FIELD_COUNT && forall k :: 0 <= k < |row| ==> row[k] != "" {
      if RowFailure(row).None? {
        forall k | 0 <= k < |row| ensures ValidField(row[k]) {}
      }
    }
  }

  lemma {:induction false} FirstRowFailureExact(rows: seq<Fields>)
    ensures FirstRowFailure(rows).None? <==> forall i :: 0 <= i < |rows| ==> ValidRow(rows[i])
  {
    if rows != [] {
      RowFailureExact(rows[0]);
      FirstRowFailureExact(rows[1..]);
      forall i | 0 <= i < |rows| - 1 ensures rows[1..][i] == rows[i + 1] {}
      assert rows == [rows[0]] + rows[1..];
    }
  }

  lemma KeyPreorder()
    ensures TotalPreorder(KeyLeq)
  {
    StringTotal();
  }

  lemma SortedExact(rows: seq<Fields>)
    ensures Sort(rows, KeyLeq) == rows <==> Ordered(rows, KeyLeq)
  {
    KeyPreorder();
    SortOrdered(rows, KeyLeq);
    if Ordered(rows, KeyLeq) { OrderedIsSorted(rows, KeyLeq); }
  }

  // ----- Printing, then parsing -----

  lemma RowTextFacts(row: Fields)
    requires ValidRow(row)
    ensures RowText(row) != "" && Split(RowText(row), '\t') == row
    ensures forall k :: 0 <= k < |RowText(row)| ==> RowText(row)[k] == '\t' || !IsControl(RowText(row)[k])
  {
    var s := RowText(row);
    forall k | 0 <= k < |row| ensures '\t' !in row[k] {
      assert ValidField(row[k]);
    }
    SplitJoin(row, '\t');
    forall k | 0 <= k < |s| ensures s[k] == '\t' || !IsControl(s[k]) {
      JoinChars(row, '\t', s[k]);
      if s[k] != '\t' {
        var i :| 0 <= i < |row| && s[k] in row[i];
        assert ValidField(row[i]);
      }
    }
    assert ValidField(row[0]);
  }

  lemma {:induction false} JoinEnds(parts: seq<string>, c: char)
    requires parts != [] && parts[|parts| - 1] != ""
    ensures Join(parts, c) != ""
    ensures Join(parts, c)[|Join(parts, c)| - 1] == parts[|parts| - 1][|parts[|parts| - 1]| - 1]
  {
    if |parts| > 1 { JoinEnds(parts[1..], c); }
  }

  /** The payload is the header and row lines joined, with a final line break. */
  lemma PrintIsJoin(header: string, rows: seq<Fields>)
    requires rows != []
    ensures Print(header, rows) == Join([header] + RowTexts(rows) + [""], '\n')
    ensures Print(header, rows) == Join([header] + RowTexts(rows), '\n') + "\n"
  {
    var lines := [header] + RowTexts(rows);
    JoinSnoc(lines, '\n', "");
    assert lines[1..] == RowTexts(rows);
    assert Join(lines, '\n') + ['\n'] + "" == Join(lines, '\n') + "\n";
  }

  lemma PrintedLines(header: string, rows: seq<Fields>)
    requires ValidHeader(header) && rows != [] && forall i :: 0 <= i < |rows| ==> ValidRow(rows[i])
    ensures Lines(Print(header, rows)) == [header] + RowTexts(rows)
    ensures Rows(Print(header, rows)) == rows
  {
    var lines := [header] + RowTexts(rows);
    var all := lines + [""];
    PrintIsJoin(header, rows);
    forall i | 0 <= i < |rows| ensures '\n' !in RowText(rows[i]) && Split(RowText(rows[i]), '\t') == rows[i] {
      RowTextFacts(rows[i]);
    }
    forall i | 0 <= i < |all| ensures '\n' !in all[i] {
      if 0 < i <= |rows| { assert all[i] == RowText(rows[i - 1]); }
    }
    SplitJoin(all, '\n');
    assert all[..|all| - 1] == lines;
    assert lines[1..] == RowTexts(rows);
    assert SplitRows(RowTexts(rows)) == rows;
  }

  lemma PrintedCharacters(header: string, rows: seq<Fields>, k: nat)
    requires ValidHeader(header) && rows != [] && forall i :: 0 <= i < |rows| ==> ValidRow(rows[i])
    requires k < |Print(header, rows)|
    ensures !IsForbidden(Print(header, rows)[k])
  {
    var lines, c := [header] + RowTexts(rows) + [""], Print(header, rows)[k];
    PrintIsJoin(header, rows);
    JoinChars(lines, '\n', c);
    if c != '\n' {
      var i :| 0 <= i < |lines| && c in lines[i];
      if i > 0 {
        assert lines[i] == RowText(rows[i - 1]);
        RowTextFacts(rows[i - 1]);
      }
    }
  }

  lemma PrintedEnd(header: string, rows: seq<Fields>)
    requires rows != [] && ValidRow(rows[|rows| - 1])
    ensures EndsWith(Print(header, rows), "\n") && !EndsWith(Print(header, rows), "\n\n")
  {
    var lines := [header] + RowTexts(rows);
    var text, last := Join(lines, '\n'), RowText(rows[|rows| - 1]);
    PrintIsJoin(header, rows);
    RowTextFacts(rows[|rows| - 1]);
    assert lines[|lines| - 1] == last;
    JoinEnds(lines, '\n');
    var p := text + "\n";
    assert p[|p| - 1..] == "\n";
    assert p[|p| - 2] == last[|last| - 1] != '\n';
    assert p[|p| - 2..][0] == p[|p| - 2];
  }

  /** Parsing undoes printing on every non-empty key-sorted list of valid rows. */
  lemma ParsePrint(header: string, rows: seq<Fields>)
    requires ValidHeader(header) && rows != [] && ValidRows(rows)
    ensures Parse(header, Print(header, rows)) == Ok(rows)
  {
    var payload := Print(header, rows);
    PrintedLines(header, rows);
    PrintedEnd(header, rows);
    forall k | 0 <= k < |payload| ensures !IsForbidden(payload[k]) {
      PrintedCharacters(header, rows, k);
    }
    FirstRowFailureExact(rows);
    SortedExact(rows);
    PassesAll(header, payload, rows);
  }

  lemma PassesAll(header: string, payload: string, rows: seq<Fields>)
    requires EndsWith(payload, "\n") && !EndsWith(payload, "\n\n")
    requires forall k :: 0 <= k < |payload| ==> !IsForbidden(payload[k])
    requires Lines(payload) != [] && Lines(payload)[0] == header && Rows(payload) == rows
    requires FirstRowFailure(rows).None? && rows == Sort(rows, KeyLeq) && payload == Print(header, rows)
    ensures Parse(header, payload) == Ok(rows)
  {}

  // ----- Parsing, then printing -----

  lemma ParsedRows(header: string, payload: string)
    requires Parse(header, payload).Ok?
    ensures Parse(header, payload).value == Rows(payload) && payload == Print(header, Rows(payload))
    ensures FirstRowFailure(Rows(payload)).None? && Rows(payload) == Sort(Rows(payload), KeyLeq)
    ensures !EndsWith(payload, "\n\n")
  {}

  lemma RowsValid(rows: seq<Fields>)
    requires FirstRowFailure(rows).None? && rows == Sort(rows, KeyLeq)
    ensures ValidRows(rows)
  {
    FirstRowFailureExact(rows);
    SortedExact(rows);
    forall i, j | 0 <= i < j < |rows| ensures StringLeq(rows[i][0], rows[j][0]) {
      assert KeyLeq(rows[i], rows[j]);
    }
  }

  /** Printing undoes parsing, and what is parsed is non-empty, valid and sorted. */
  lemma PrintParse(header: string, payload: string)
    requires Parse(header, payload).Ok?
    ensures var rows := Parse(header, payload).value;
            Print(header, rows) == payload && rows != [] && ValidRows(rows)
  {
    ParsedRows(header, payload);
    RowsValid(Rows(payload));
    EmptyPrint(header);
  }

  lemma EmptyPrint(header: string)
    ensures EndsWith(Print(header, []), "\n\n")
  {
    var p := Print(header, []);
    assert RowTexts([]) == [];
    assert p == header + "\n\n";
    assert p[|p| - 2..] == "\n\n";
  }

  lemma RejoinRows(lines: seq<string>)
    ensures RowTexts(SplitRows(lines)) == lines
  {
    forall i | 0 <= i < |lines| ensures RowTexts(SplitRows(lines))[i] == lines[i] {
      JoinSplit(lines[i], '\t');
    }
  }

  /** The final comparison only ever rejects the file that holds nothing but the header. */
  lemma CanonicalRejectsHeaderOnly(header: string, payload: string)
    requires ValidHeader(header)
    ensures Parse(header, payload) == Err(NotCanonical) <==> payload == header + "\n"
  {
    if EarlyFailure(header, payload).None? {
      EarlyPassed(header, payload);
    }
    if payload == header + "\n" {
      HeaderOnly(header);
    }
  }

  lemma EarlyPassed(header: string, payload: string)
    requires EndsWith(payload, "\n") && Lines(payload) != [] && Lines(payload)[0] == header
    ensures payload == Print(header, Rows(payload)) || payload == header + "\n"
  {
    var all := Split(payload, '\n');
    var lines, last := Lines(payload), all[|all| - 1];
    JoinSplit(payload, '\n');
    assert all == lines + [last];
    JoinSnoc(lines, '\n', last);
    assert last == "" by { LastLineEmpty(payload); }
    assert payload == Join(lines, '\n') + "\n";
    RejoinRows(lines[1..]);
    if |lines| > 1 {
      assert lines == [header] + lines[1..];
    }
  }

  lemma {:induction false} LastLineEmpty(payload: string)
    requires EndsWith(payload, "\n")
    ensures var all := Split(payload, '\n'); all[|all| - 1] == "" && |all| >= 2
    decreases |payload|
  {
    if |payload| > 1 {
      assert EndsWith(payload[1..], "\n");
      LastLineEmpty(payload[1..]);
    } else {
      assert payload == "\n" && payload[1..] == "";
    }
  }

  lemma HeaderOnly(header: string)
    requires ValidHeader(header)
    ensures Parse(header, header + "\n") == Err(NotCanonical)
  {
    var p := header + "\n";
    assert p == header + ['\n'] + "";
    SplitAt(header, "", '\n');
    assert Split(p, '\n') == [header, ""];
    assert Lines(p) == [header] && Rows(p) == [];
    assert p[|p| - 1..] == "\n" && p[|p| - 2..][0] == header[|header| - 1];
    assert RowTexts([]) == [] && |Print(header, [])| == |p| + 1;
  }

  // ----- The header of the inventory -----

  const FIELD_NAMES: seq<string> := [
    "item_key",
    "java_fqcn",
    "java_member",
    "rust_shape",
    "semantic_" + "disposition",
    "canonical_" + "rust_entry",
    "target_state",
    "normalized_" + "signature",
    "call_kind",
    "index_null_" + "adapter",
    "error_adapter",
    "lifecycle_" + "owner",
    "adapter_" + "implementation",
    "adapter_state",
    "logical_" + "implementation",
    "logical_state",
    "evidence_level",
    "capability_" + "state",
    "notes"
  ]

  const SEMANTIC_HEADER: string := Join(FIELD_NAMES, '\t')

  ghost predicate PlainName(s: string) {
    s != "" && forall j :: 0 <= j < |s| ==> !IsControl(s[j])
  }

  lemma PlainConcat(a: string, b: string)
    requires PlainName(a) && PlainName(b)
    ensures PlainName(a + b)
  {}

  lemma HeaderFromNames(names: seq<string>)
    requires names != [] && forall i :: 0 <= i < |names| ==> PlainName(names[i])
    ensures ValidHeader(Join(names, '\t'))
  {
    var s := Join(names, '\t');
    JoinEnds(names, '\t');
    forall k | 0 <= k < |s| ensures s[k] == '\t' || !IsControl(s[k]) {
      JoinChars(names, '\t', s[k]);
      if s[k] != '\t' {
        var i :| 0 <= i < |names| && s[k] in names[i];
        assert PlainName(names[i]);
      }
    }
  }

  lemma IdentityNames()
    ensures PlainName("item_key") && PlainName("java_fqcn") && PlainName("java_member") && PlainName("rust_shape")
  {}

  lemma TargetNames()
    ensures PlainName("semantic_") && PlainName("disposition")
    ensures PlainName("canonical_") && PlainName("rust_entry") && PlainName("target_state")
  {}

  lemma CallNames()
    ensures PlainName("normalized_") && PlainName("signature") && PlainName("call_kind")
    ensures PlainName("index_null_") && PlainName("adapter") && PlainName("error_adapter")
  {}

  lemma OwnerNames()
    ensures PlainName("lifecycle_") && PlainName("owner")
    ensures PlainName("adapter_") && PlainName("implementation") && PlainName("adapter_state")
  {}

  lemma EvidenceNames()
    ensures PlainName("logical_") && PlainName("logical_state") && PlainName("evidence_level")
    ensures PlainName("capability_") && PlainName("state") && PlainName("notes")
  {}

  lemma SemanticHeaderValid()
    ensures ValidHeader(SEMANTIC_HEADER)
  {
    IdentityNames();
    TargetNames();
    CallNames();
    OwnerNames();
    EvidenceNames();
    PlainConcat("semantic_", "disposition");
    PlainConcat("canonical_", "rust_entry");
    PlainConcat("normalized_", "signature");
    PlainConcat("index_null_", "adapter");
    PlainConcat("lifecycle_", "owner");
    PlainConcat("adapter_", "implementation");
    PlainConcat("logical_", "implementation");
    PlainConcat("capability_", "state");
    HeaderFromNames(FIELD_NAMES);
  }
}
