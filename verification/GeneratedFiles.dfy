/**
 The writer of generated test sources (`write_generated`,
 scripts/migrate_task6_deleted_tests.py): normalizes every line and refuses a payload
 that exceeds its line limit.
 */
module GeneratedFiles {
  import opened Outcome
  import opened Lexing
  import opened Lines

  const MAX_GENERATED_LINES: int := 780

  const ORIGIN: string := " Generated from " + "the pinned Task 6 " + "BASE test " + "denominator."
  const GENERATED_MARKER: string := "//!" + ORIGIN + "\n"
  const FRAGMENT_MARKER: string := "//" + ORIGIN + "\n"
  const GENERATED_ALLOW: string := "#![allow(dead_code" + ", unused_imports" + ", deprecated)]" + "\n"

  predicate IsSpace(c: char) {
    c == ' ' || '\t' <= c <= '\r' || '\U{1C}' <= c <= '\U{1F}'
  }

  /** `rstrip`. */
  function TrimEnd(s: string): (r: string)
    ensures r <= s && (r != "" ==> !IsSpace(r[|r| - 1]))
    ensures forall k :: |r| <= k < |s| ==> IsSpace(s[k])
    decreases |s|
  {
    if s == "" || !IsSpace(s[|s| - 1]) then s else TrimEnd(s[..|s| - 1])
  }

  /** `"\n".join(line.rstrip() for line in lines) + "\n"` for at least one line. */
  function Rejoin(lines: seq<string>): string {
    if lines == [] then "" else TrimEnd(lines[0]) + "\n" + Rejoin(lines[1..])
  }

  function Normalize(payload: string): string {
    if payload == "" then "\n" else Rejoin(Split(payload))
  }

  /** A line as `splitlines(keepends=True)` yields it: a break, if any, only at the end. */
  ghost predicate IsLine(l: string) {
    l != "" && forall k :: 0 <= k < |l| - 1 ==> l[k] != '\n'
  }

  lemma {:induction false} SplitIntoLines(s: string)
    ensures forall i :: 0 <= i < |Split(s)| ==> IsLine(Split(s)[i])
    decreases |s|
  {
    if s != "" && LineLength(s) < |s| { SplitIntoLines(s[LineLength(s) + 1..]); }
  }

  lemma TrimmedLineHasNoBreak(l: string)
    requires IsLine(l)
    ensures Breaks(TrimEnd(l)) == 0
  {
    NoBreaks(TrimEnd(l));
  }

  lemma {:induction false} RejoinBreaks(lines: seq<string>)
    requires forall i :: 0 <= i < |lines| ==> IsLine(lines[i])
    ensures Breaks(Rejoin(lines)) == |lines| && Terminated(Rejoin(lines))
  {
    if lines != [] {
      var head, tail := TrimEnd(lines[0]), Rejoin(lines[1..]);
      RejoinBreaks(lines[1..]);
      TrimmedLineHasNoBreak(lines[0]);
      BreaksAppend(head, "\n");
      BreaksAppend(head + "\n", tail);
      assert Breaks("\n") == 1;
    }
  }

  /** Normalizing keeps the line count, so the limit is on the payload's own lines. */
  lemma NormalizeKeepsCount(payload: string)
    ensures Count(Normalize(payload)) == if payload == "" then 1 else Count(payload)
  {
    CountIsBreaks(Normalize(payload));
    if payload == "" {
      assert Breaks("\n") == 1;
    } else {
      SplitIntoLines(payload);
      RejoinBreaks(Split(payload));
    }
  }

  /** `line` is what is left of `full` when the white space at its end is replaced by one line break. */
  ghost predicate Stripped(full: string, line: string) {
    exists n: nat :: StrippedAt(full, line, n)
  }

  ghost predicate StrippedAt(full: string, line: string, n: nat) {
    && n <= |full| && line == full[..n] + "\n"
    && (n > 0 ==> !IsSpace(full[n - 1]))
    && forall k :: n <= k < |full| ==> IsSpace(full[k])
  }

  lemma {:induction false} RejoinLines(lines: seq<string>)
    requires forall i :: 0 <= i < |lines| ==> IsLine(lines[i])
    ensures |Split(Rejoin(lines))| == |lines|
    ensures forall i :: 0 <= i < |lines| ==> Stripped(lines[i], Split(Rejoin(lines))[i])
  {
    if lines != [] {
      var rest := Split(Rejoin(lines[1..]));
      RejoinLines(lines[1..]);
      StripLine(lines[0], Rejoin(lines[1..]));
      forall i | 0 < i < |lines| ensures Stripped(lines[i], ([TrimEnd(lines[0]) + "\n"] + rest)[i]) {
        assert lines[1..][i - 1] == lines[i];
      }
    }
  }

  lemma StripLine(line: string, tail: string)
    requires IsLine(line)
    ensures Split(TrimEnd(line) + "\n" + tail) == [TrimEnd(line) + "\n"] + Split(tail)
    ensures Stripped(line, TrimEnd(line) + "\n")
  {
    TrimmedLineHasNoBreak(line);
    LineOf(TrimEnd(line));
    SplitHead(TrimEnd(line), tail);
    assert StrippedAt(line, TrimEnd(line) + "\n", |TrimEnd(line)|);
  }

  lemma {:induction false} LineOf(s: string)
    ensures Breaks(s) == 0 <==> '\n' !in s
  {
    if s != "" {
      LineOf(s[1..]);
      assert s == [s[0]] + s[1..];
    }
  }

  lemma SplitHead(head: string, tail: string)
    requires '\n' !in head
    ensures Split(head + "\n" + tail) == [head + "\n"] + Split(tail)
  {
    var s := head + "\n" + tail;
    LineStops(s, |head|);
    assert s[..|head| + 1] == head + "\n" && s[|head| + 1..] == tail;
  }

  /** Normalizing strips the white space at the end of each line and keeps everything else. */
  lemma NormalizedLines(payload: string)
    requires payload != ""
    ensures Count(Normalize(payload)) == Count(payload)
    ensures forall i :: 0 <= i < Count(payload) ==> Stripped(Split(payload)[i], Split(Normalize(payload))[i])
  {
    SplitIntoLines(payload);
    RejoinLines(Split(payload));
  }

  /** The text written, or the number of lines that was too many. */
  method WriteGenerated(payload: string, maxLines: int) returns (r: Result<string, nat>)
    ensures r.Ok? ==> r.value == Normalize(payload)
    ensures r.Ok? <==> Count(payload) <= maxLines && (payload == "" ==> 1 <= maxLines)
    ensures r.Err? ==> r.error > maxLines
  {
    NormalizeKeepsCount(payload);
    var text := Normalize(payload);
    var lines := Count(text);
    r := if lines > maxLines then Err(lines) else Ok(text);
  }

  lemma OriginHasNoBreak()
    ensures '\n' !in ORIGIN
  {
    assert '\n' !in " Generated from ";
    assert '\n' !in "the pinned Task 6 ";
    assert '\n' !in "BASE test " + "denominator.";
  }

  lemma MarkersAreOneLine()
    ensures Count(GENERATED_MARKER) == 1 && Terminated(GENERATED_MARKER)
    ensures Count(FRAGMENT_MARKER) == 1 && Terminated(FRAGMENT_MARKER)
  {
    OriginHasNoBreak();
    OneLine("//!" + ORIGIN);
    OneLine("//" + ORIGIN);
  }

  lemma AllowIsOneLine()
    ensures Count(GENERATED_ALLOW) == 1 && Terminated(GENERATED_ALLOW)
  {
    assert '\n' !in "#![allow(dead_code";
    assert '\n' !in ", unused_imports";
    assert '\n' !in ", deprecated)]";
    OneLine("#![allow(dead_code" + ", unused_imports" + ", deprecated)]");
  }

  lemma OneLine(s: string)
    requires '\n' !in s
    ensures Count(s + "\n") == 1 && Terminated(s + "\n")
  {
    NoBreaks(s);
    BreaksAppend(s, "\n");
    CountIsBreaks(s + "\n");
    assert Breaks("\n") == 1;
  }
}
