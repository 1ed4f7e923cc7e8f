/** Python's `splitlines` on text whose only line break is the line feed. */
module Lines {
  import opened Lexing

  /** `splitlines(keepends=True)`. */
  function Split(s: string): (r: seq<string>)
    decreases |s|
  {
    if s == "" then []
    else
      var n := LineLength(s);
      if n == |s| then [s] else [s[..n + 1]] + Split(s[n + 1..])
  }

  /** `"".join`. */
  function Concat(parts: seq<string>): string {
    if parts == [] then "" else parts[0] + Concat(parts[1..])
  }

  function Count(s: string): nat { |Split(s)| }

  predicate Terminated(s: string) { s == "" || s[|s| - 1] == '\n' }

  lemma {:induction false} ConcatSplit(s: string)
    ensures Concat(Split(s)) == s
    decreases |s|
  {
    if s != "" && LineLength(s) < |s| {
      ConcatSplit(s[LineLength(s) + 1..]);
    } else if s != "" {
      assert Split(s)[1..] == [] && Concat([s]) == s + Concat([s][1..]);
    }
  }

  lemma {:induction false} ConcatAppend(a: seq<string>, b: seq<string>)
    ensures Concat(a + b) == Concat(a) + Concat(b)
  {
    if a == [] {
      assert a + b == b;
    } else {
      ConcatAppend(a[1..], b);
      assert (a + b)[0] == a[0] && (a + b)[1..] == a[1..] + b;
      assert a[0] + (Concat(a[1..]) + Concat(b)) == (a[0] + Concat(a[1..])) + Concat(b);
    }
  }

  lemma ConcatSnoc(lines: seq<string>, i: nat)
    requires i < |lines|
    ensures Concat(lines[..i + 1]) == Concat(lines[..i]) + lines[i]
  {
    ConcatAppend(lines[..i], [lines[i]]);
    ConcatOne(lines[i]);
    assert lines[..i + 1] == lines[..i] + [lines[i]];
  }

  lemma ConcatSlice(lines: seq<string>, a: nat, b: nat)
    requires a <= b <= |lines|
    ensures Concat(lines[..b]) == Concat(lines[..a]) + Concat(lines[a..b])
  {
    ConcatAppend(lines[..a], lines[a..b]);
    assert lines[..a] + lines[a..b] == lines[..b];
  }

  lemma ConcatOne(line: string)
    ensures Concat([line]) == line
  {
    assert [line][1..] == [];
  }

  /** How many line feeds the text holds. */
  function Breaks(s: string): nat {
    if s == "" then 0 else (if s[0] == '\n' then 1 else 0) + Breaks(s[1..])
  }

  lemma {:induction false} BreaksAppend(a: string, b: string)
    ensures Breaks(a + b) == Breaks(a) + Breaks(b)
  {
    if a == "" {
      assert a + b == b;
    } else {
      BreaksAppend(a[1..], b);
      assert (a + b)[1..] == a[1..] + b;
    }
  }

  lemma {:induction false} NoBreaks(s: string)
    requires forall k :: 0 <= k < |s| ==> s[k] != '\n'
    ensures Breaks(s) == 0
  {
    if s != "" { NoBreaks(s[1..]); }
  }

  lemma CutAfter(s: string, n: nat)
    requires n < |s|
    ensures s[..n + 1] == s[..n] + [s[n]] && s == s[..n + 1] + s[n + 1..]
  {}

  /** One line per line feed, and one more for an unterminated rest. */
  lemma {:induction false} CountIsBreaks(s: string)
    ensures Count(s) == Breaks(s) + if Terminated(s) then 0 else 1
    decreases |s|
  {
    var n := LineLength(s);
    if s != "" && n < |s| {
      CountIsBreaks(s[n + 1..]);
      NoBreaks(s[..n]);
      BreaksAppend(s[..n], ['\n']);
      BreaksAppend(s[..n + 1], s[n + 1..]);
      CutAfter(s, n);
      assert Breaks(['\n']) == 1;
    } else if s != "" {
      NoBreaks(s);
    }
  }

  /** Joining two texts never adds a line, and loses one only when the first is unterminated. */
  lemma CountAppend(a: string, b: string)
    ensures Count(a + b) <= Count(a) + Count(b)
    ensures Count(a + b) == Count(a) + Count(b) <==> Terminated(a) || b == ""
  {
    CountIsBreaks(a);
    CountIsBreaks(b);
    CountIsBreaks(a + b);
    BreaksAppend(a, b);
    assert b == "" ==> a + b == a;
  }
}
