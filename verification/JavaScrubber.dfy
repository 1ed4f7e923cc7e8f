/**
 `strip_java_comments_and_literals` (scripts/generate_jdbc42_semantic_inventory.py): a
 five-state machine that blanks Java comments and literals and keeps everything else in
 place.

 The module has three layers. The grammar says what a source is made of: code characters,
 line comments, block comments and quoted literals, each a whole segment that names no
 scanner. The scanner reads one segment at a time and is shown to recognize exactly the
 grammar, which gives offsets, surviving openers and idempotence. The machine of the script
 moves by one or two characters and remembers only its state; started in any state on any
 text, it contributes what the scanner contributes from there on, so both scrub alike and
 fail alike.
 */
module JavaScrubber {
  import opened Outcome
  import opened Lexing

  datatype Unterminated = BlockComment | StringLiteral | CharLiteral

  type Scrub = Result<string, Unterminated>

  datatype Kind = CodeChar | LineComment | Block | Quoted(q: char)

  /** A maximal piece of Java source of one kind. */
  datatype Segment = Segment(kind: Kind, text: string)

  // ----- The grammar of a source, independent of any scanner -----

  /** `text` is a whole piece of kind `kind` when `rest` follows it. */
  ghost predicate IsSegment(kind: Kind, text: string, rest: string) {
    match kind
    case CodeChar =>
      && |text| == 1 && text[0] != '"' && text[0] != '\''
      && (text[0] == '/' && rest != "" ==> rest[0] != '/' && rest[0] != '*')
    case LineComment =>
      StartsWith(text, '/', '/') && '\n' !in text && (rest == "" || rest[0] == '\n')
    case Block =>
      StartsWith(text, '/', '*') && |text| >= 4 && EndsFirst(text[2..], |text| - 4)
    case Quoted(q) =>
      (q == '"' || q == '\'') && |text| >= 2 && text[0] == q && QuoteCloses(text[1..], q, |text| - 2)
  }

  /** The first `*``/` of `s` stands at `k`. */
  ghost predicate EndsFirst(s: string, k: nat) {
    k <= |s| && StartsWith(s[k..], '*', '/') && forall j: nat :: j < k ==> !StartsWith(s[j..], '*', '/')
  }

  ghost predicate Splits(s: string, segments: seq<Segment>)
    decreases |segments|
  {
    if segments == [] then s == ""
    else
      var text := segments[0].text;
      text != "" && text <= s && IsSegment(segments[0].kind, text, s[|text|..]) && Splits(s[|text|..], segments[1..])
  }

  /** Code stays; comments keep their line breaks; literals become spaces. */
  function Scrubbed(x: Segment): (r: string)
    ensures |r| == |x.text|
  {
    match x.kind
    case CodeChar => x.text
    case Quoted(_) => Spaces(|x.text|)
    case _ => Blanks(x.text)
  }

  function ScrubbedAll(segments: seq<Segment>): string {
    if segments == [] then "" else Scrubbed(segments[0]) + ScrubbedAll(segments[1..])
  }

  function Spaces(n: nat): (r: string)
    ensures |r| == n && forall k :: 0 <= k < n ==> r[k] == ' '
  {
    seq(n, _ => ' ')
  }

  // ----- The scanner -----

  function BlockLength(s: string): (r: Option<nat>)
    ensures r.Some? ==> 2 <= r.value <= |s|
  {
    if s == "" then None
    else if StartsWith(s, '*', '/') then Some(2)
    else Plus(1, BlockLength(s[1..]))
  }

  /** The first piece of a non-empty text. */
  function First(s: string): (r: Result<Piece<Kind>, Unterminated>)
    requires s != ""
    ensures r.Ok? ==> 1 <= r.value.length <= |s|
  {
    if StartsWith(s, '/', '/') then Ok(Piece(LineComment, 2 + LineLength(s[2..])))
    else if StartsWith(s, '/', '*') then Measured(Block, BlockComment, Plus(2, BlockLength(s[2..])))
    else if s[0] == '"' then Measured(Quoted('"'), StringLiteral, Plus(1, QuoteLength(s[1..], '"')))
    else if s[0] == '\'' then Measured(Quoted('\''), CharLiteral, Plus(1, QuoteLength(s[1..], '\'')))
    else Ok(Piece(CodeChar, 1))
  }

  function Strip(s: string): (r: Scrub)
    ensures r.Ok? ==> |r.value| == |s|
  {
    if s == "" then Ok("")
    else
      match First(s)
      case Err(why) => Err(why)
      case Ok(Piece(kind, n)) => Prepend(Scrubbed(Segment(kind, s[..n])), Strip(s[n..]))
  }

  function SegmentsOf(s: string): seq<Segment>
    requires Strip(s).Ok?
    decreases |s|
  {
    if s == "" then []
    else
      var n := First(s).value.length;
      [Segment(First(s).value.kind, s[..n])] + SegmentsOf(s[n..])
  }

  // ----- The scanner recognizes exactly the grammar -----

  lemma {:induction false} BlockLengthEnds(s: string, k: nat)
    ensures BlockLength(s) == Some(k + 2) <==> EndsFirst(s, k)
  {
    assert s[0..] == s;
    if s != "" && !StartsWith(s, '*', '/') {
      if k >= 1 {
        BlockLengthEnds(s[1..], k - 1);
        forall j: nat | 1 <= j <= |s| ensures s[j..] == s[1..][j - 1..] {}
        forall j: nat | j < |s| ensures s[1..][j..] == s[j + 1..] {}
      } else {
        assert BlockLength(s) != Some(2);
      }
    } else if s != "" && k > 0 {
      assert StartsWith(s[0..], '*', '/');
    }
  }

  lemma FirstIsSegment(s: string)
    requires s != "" && First(s).Ok?
    ensures var p := First(s).value; IsSegment(p.kind, s[..p.length], s[p.length..])
  {
    var n := First(s).value.length;
    if StartsWith(s, '/', '/') {
      assert s[..n] == s[..2] + s[2..][..n - 2];
    } else if StartsWith(s, '/', '*') {
      BlockLengthEnds(s[2..], n - 4);
      EndsFirstTake(s[2..], n - 4, n - 2);
      assert s[..n][2..] == s[2..][..n - 2];
    } else if s[0] == '"' || s[0] == '\'' {
      QuoteLengthTake(s[1..], s[0]);
      assert s[..n][1..] == s[1..][..n - 1];
      QuoteLengthCloses(s[..n][1..], s[0], n - 2);
    }
  }

  lemma EndsFirstTake(s: string, k: nat, n: nat)
    requires n <= |s| && k + 2 <= n
    ensures EndsFirst(s, k) <==> EndsFirst(s[..n], k)
  {
    forall j: nat | j <= k ensures StartsWith(s[j..], '*', '/') <==> StartsWith(s[..n][j..], '*', '/') {}
  }

  lemma SegmentIsFirst(kind: Kind, text: string, rest: string)
    requires text != "" && IsSegment(kind, text, rest)
    ensures First(text + rest) == Ok(Piece(kind, |text|))
  {
    var s := text + rest;
    match kind
    case CodeChar =>
    case LineComment =>
      LineStops(s[2..], |text| - 2);
    case Block =>
      assert s[2..][..|text| - 2] == text[2..];
      EndsFirstTake(s[2..], |text| - 4, |text| - 2);
      BlockLengthEnds(s[2..], |text| - 4);
    case Quoted(q) =>
      QuoteLengthCloses(text[1..], q, |text| - 2);
      QuoteLengthPrefix(text[1..], rest, q);
      assert s[1..] == text[1..] + rest;
  }

  lemma {:induction false} SplitsDeterminesStrip(s: string, segments: seq<Segment>)
    requires Splits(s, segments)
    ensures Strip(s) == Ok(ScrubbedAll(segments)) && SegmentsOf(s) == segments
    decreases |segments|
  {
    if segments != [] {
      var n := |segments[0].text|;
      SplitsHead(s, segments);
      SplitsDeterminesStrip(s[n..], segments[1..]);
      StripUnfold(s, segments[0].kind, n);
      assert segments == [segments[0]] + segments[1..];
    }
  }

  lemma StripUnfold(s: string, kind: Kind, n: nat)
    requires s != "" && First(s) == Ok(Piece(kind, n))
    ensures n <= |s| && Strip(s) == Prepend(Scrubbed(Segment(kind, s[..n])), Strip(s[n..]))
    ensures Strip(s).Ok? ==> SegmentsOf(s) == [Segment(kind, s[..n])] + SegmentsOf(s[n..])
  {}

  lemma SplitsHead(s: string, segments: seq<Segment>)
    requires segments != [] && Splits(s, segments)
    ensures s != "" && First(s) == Ok(Piece(segments[0].kind, |segments[0].text|))
    ensures s[..|segments[0].text|] == segments[0].text
  {
    var text := segments[0].text;
    assert s == text + s[|text|..];
    SegmentIsFirst(segments[0].kind, text, s[|text|..]);
  }

  lemma {:induction false} StripSplits(s: string)
    requires Strip(s).Ok?
    ensures Splits(s, SegmentsOf(s))
    decreases |s|
  {
    if s != "" {
      var p := First(s).value;
      FirstIsSegment(s);
      StripSplits(s[p.length..]);
      assert SegmentsOf(s)[1..] == SegmentsOf(s[p.length..]);
    }
  }

  /**
   The scrubber succeeds exactly on the sources that split into pieces, the split is
   unique, and the result is the source with each piece scrubbed according to its kind.
   */
  lemma ScrubsExactlyTheGrammar(s: string, m: string)
    ensures Strip(s) == Ok(m) <==> exists segments :: Splits(s, segments) && ScrubbedAll(segments) == m
    ensures forall x, y :: Splits(s, x) && Splits(s, y) ==> x == y
  {
    if Strip(s).Ok? {
      StripSplits(s);
      SplitsDeterminesStrip(s, SegmentsOf(s));
    }
    forall x | Splits(s, x) ensures Strip(s) == Ok(ScrubbedAll(x)) && SegmentsOf(s) == x {
      SplitsDeterminesStrip(s, x);
    }
  }

  // ----- Offsets, surviving openers, and a second pass -----

  /** Every character of `r` is the source character at its offset, or a space. */
  ghost predicate KeepsOffsets(s: string, r: string) {
    |r| == |s| && forall k :: 0 <= k < |s| ==> r[k] == s[k] || r[k] == ' '
  }

  ghost predicate OpensComment(r: string, k: nat) {
    k + 1 < |r| && r[k] == '/' && (r[k + 1] == '/' || r[k + 1] == '*')
  }

  ghost predicate NoOpeners(r: string) {
    '"' !in r && '\'' !in r && forall k: nat :: !OpensComment(r, k)
  }

  lemma {:induction false} StripKeepsOffsets(s: string)
    requires Strip(s).Ok?
    ensures KeepsOffsets(s, Strip(s).value)
    decreases |s|
  {
    if s != "" {
      var p := First(s).value;
      StripKeepsOffsets(s[p.length..]);
      var head, tail := Scrubbed(Segment(p.kind, s[..p.length])), Strip(s[p.length..]).value;
      JoinKeepsOffsets(s, p.length, head, tail);
    }
  }

  lemma JoinKeepsOffsets(s: string, n: nat, head: string, tail: string)
    requires n <= |s| && KeepsOffsets(s[..n], head) && KeepsOffsets(s[n..], tail)
    ensures KeepsOffsets(s, head + tail)
  {
    forall k | 0 <= k < |s| ensures (head + tail)[k] == s[k] || (head + tail)[k] == ' ' {
      if k >= n { assert s[n..][k - n] == s[k]; }
    }
  }

  lemma JoinNoOpeners(head: string, tail: string)
    requires NoOpeners(head) && NoOpeners(tail)
    requires head != "" && head[|head| - 1] == '/' && tail != "" ==> tail[0] != '/' && tail[0] != '*'
    ensures NoOpeners(head + tail)
  {
    var r := head + tail;
    forall k: nat ensures !OpensComment(r, k) {
      if k + 1 < |head| {
        assert !OpensComment(head, k);
      } else if |head| <= k {
        assert !OpensComment(tail, k - |head|);
      }
    }
  }

  lemma {:induction false} StripLeavesNoOpeners(s: string)
    requires Strip(s).Ok?
    ensures NoOpeners(Strip(s).value)
    decreases |s|
  {
    if s != "" {
      var p := First(s).value;
      var head, rest := Scrubbed(Segment(p.kind, s[..p.length])), s[p.length..];
      StripLeavesNoOpeners(rest);
      StripKeepsOffsets(rest);
      assert NoOpeners(head);
      JoinNoOpeners(head, Strip(rest).value);
    }
  }

  lemma {:induction false} CleanIsFixed(r: string)
    requires NoOpeners(r)
    ensures Strip(r) == Ok(r)
    decreases |r|
  {
    if r != "" {
      assert !OpensComment(r, 0);
      assert r[0] != '"' && r[0] != '\'';
      forall k: nat ensures !OpensComment(r[1..], k) {
        assert !OpensComment(r, k + 1);
      }
      CleanIsFixed(r[1..]);
      assert r == r[..1] + r[1..];
    }
  }

  /** Scrubbing a scrubbed source succeeds and changes nothing. */
  lemma StripIdempotent(s: string)
    requires Strip(s).Ok?
    ensures Strip(Strip(s).value) == Strip(s)
  {
    StripLeavesNoOpeners(s);
    CleanIsFixed(Strip(s).value);
  }

  // ----- The state machine -----

  datatype State = Code | InLine | InBlock | InString | InChar

  /** What the rest of the text contributes when the machine is in `state`. */
  function Continue(state: State, s: string): Scrub {
    match state
    case Code => Strip(s)
    case InLine => Prepend(Blanks(s[..LineLength(s)]), Strip(s[LineLength(s)..]))
    case InBlock =>
      var n := BlockLength(s);
      if n.None? then Err(BlockComment) else Prepend(Blanks(s[..n.value]), Strip(s[n.value..]))
    case InString => Literal(s, '"', StringLiteral)
    case InChar => Literal(s, '\'', CharLiteral)
  }

  function Literal(s: string, q: char, why: Unterminated): Scrub
    requires q != '\\'
  {
    var n := QuoteLength(s, q);
    if n.None? then Err(why) else Prepend(Spaces(n.value), Strip(s[n.value..]))
  }

  lemma EnterComment(s: string)
    requires StartsWith(s, '/', '/') || StartsWith(s, '/', '*')
    ensures Strip(s) == Prepend("  ", Continue(if s[1] == '/' then InLine else InBlock, s[2..]))
  {
    if First(s).Ok? {
      var n := First(s).value;
      assert Blanks(s[..n.length]) == "  " + Blanks(s[2..][..n.length - 2]);
      assert s[n.length..] == s[2..][n.length - 2..];
      PrependAssoc("  ", Blanks(s[2..][..n.length - 2]), Strip(s[n.length..]));
    }
  }

  lemma EnterLiteral(s: string)
    requires s != "" && (s[0] == '"' || s[0] == '\'')
    ensures Strip(s) == Prepend(" ", Continue(if s[0] == '"' then InString else InChar, s[1..]))
  {
    var n := QuoteLength(s[1..], s[0]);
    StripLiteral(s, s[0], if s[0] == '"' then StringLiteral else CharLiteral);
    if n.Some? {
      LiteralTail(s, 1, n.value);
      assert Spaces(1) == " ";
    }
  }

  lemma StripLiteral(s: string, q: char, why: Unterminated)
    requires s != "" && s[0] == q && ((q == '"' && why == StringLiteral) || (q == '\'' && why == CharLiteral))
    ensures var n := QuoteLength(s[1..], q);
            Strip(s) == if n.None? then Err(why) else Prepend(Spaces(1 + n.value), Strip(s[1 + n.value..]))
  {}

  lemma LiteralTail(s: string, d: nat, n: nat)
    requires d + n <= |s|
    ensures Prepend(Spaces(d + n), Strip(s[d + n..])) == Prepend(Spaces(d), Prepend(Spaces(n), Strip(s[d..][n..])))
  {
    assert s[d + n..] == s[d..][n..];
    SpacesJoin(d, n, Strip(s[d + n..]));
  }

  lemma SpacesJoin(d: nat, n: nat, tail: Scrub)
    ensures Prepend(Spaces(d + n), tail) == Prepend(Spaces(d), Prepend(Spaces(n), tail))
  {
    assert Spaces(d + n) == Spaces(d) + Spaces(n);
    PrependAssoc(Spaces(d), Spaces(n), tail);
  }

  lemma LiteralSkip(s: string, q: char, why: Unterminated, d: nat)
    requires q != '\\' && d <= |s| && QuoteLength(s, q) == Plus(d, QuoteLength(s[d..], q))
    ensures Literal(s, q, why) == Prepend(Spaces(d), Literal(s[d..], q, why))
  {
    var n := QuoteLength(s[d..], q);
    if n.Some? { LiteralSome(s, q, why, d, n.value); }
  }

  lemma LiteralSome(s: string, q: char, why: Unterminated, d: nat, n: nat)
    requires q != '\\' && d <= |s| && QuoteLength(s, q) == Some(d + n) && QuoteLength(s[d..], q) == Some(n)
    ensures Literal(s, q, why) == Prepend(Spaces(d), Literal(s[d..], q, why))
  {
    LiteralTail(s, d, n);
  }

  lemma LineStep(s: string)
    requires s != ""
    ensures s[0] == '\n' ==> Continue(InLine, s) == Prepend("\n", Strip(s[1..]))
    ensures s[0] != '\n' ==> Continue(InLine, s) == Prepend(" ", Continue(InLine, s[1..]))
  {
    var n := LineLength(s);
    if s[0] == '\n' {
      assert s[..0] == "" && s[0..] == s && s[..1] == "\n";
      assert Blanks("") == "";
      assert Strip(s) == Prepend("\n", Strip(s[1..]));
      PrependEmpty(Strip(s));
    } else {
      assert Blanks(s[..n]) == " " + Blanks(s[1..][..n - 1]);
      assert s[n..] == s[1..][n - 1..];
      PrependAssoc(" ", Blanks(s[1..][..n - 1]), Strip(s[n..]));
    }
  }

  lemma BlockStep(s: string)
    requires s != ""
    ensures StartsWith(s, '*', '/') ==> Continue(InBlock, s) == Prepend("  ", Strip(s[2..]))
    ensures !StartsWith(s, '*', '/') ==>
              Continue(InBlock, s) == Prepend(if s[0] == '\n' then "\n" else " ", Continue(InBlock, s[1..]))
  {
    var n := BlockLength(s);
    if StartsWith(s, '*', '/') {
      assert Blanks(s[..2]) == "  ";
    } else if n.Some? {
      var head := if s[0] == '\n' then "\n" else " ";
      assert Blanks(s[..n.value]) == head + Blanks(s[1..][..n.value - 1]);
      assert s[n.value..] == s[1..][n.value - 1..];
      PrependAssoc(head, Blanks(s[1..][..n.value - 1]), Strip(s[n.value..]));
    }
  }

  lemma LiteralStep(q: char, why: Unterminated, s: string)
    requires s != "" && q != '\\'
    ensures
      if s[0] == '\\' && |s| > 1 then Literal(s, q, why) == Prepend("  ", Literal(s[2..], q, why))
      else if s[0] == q then Literal(s, q, why) == Prepend(" ", Strip(s[1..]))
      else Literal(s, q, why) == Prepend(" ", Literal(s[1..], q, why))
  {
    assert Spaces(1) == " " && Spaces(2) == "  ";
    if s[0] == '\\' && |s| > 1 {
      LiteralSkip(s, q, why, 2);
    } else if s[0] != q {
      assert s[0] == '\\' ==> s[1..] == "";
      LiteralSkip(s, q, why, 1);
    }
  }

  /** One turn of the loop: how far to move, what to append, and the next state. */
  datatype Emission = Emission(length: nat, piece: string, next: State)

  function Emit(state: State, rest: string): (e: Emission)
    requires rest != ""
    ensures 1 <= e.length <= |rest|
  {
    var character := rest[0];
    match state
    case Code =>
      if StartsWith(rest, '/', '/') then Emission(2, "  ", InLine)
      else if StartsWith(rest, '/', '*') then Emission(2, "  ", InBlock)
      else if character == '"' then Emission(1, " ", InString)
      else if character == '\'' then Emission(1, " ", InChar)
      else Emission(1, [character], Code)
    case InLine => if character == '\n' then Emission(1, "\n", Code) else Emission(1, " ", InLine)
    case InBlock =>
      if StartsWith(rest, '*', '/') then Emission(2, "  ", Code)
      else Emission(1, if character == '\n' then "\n" else " ", InBlock)
    case InString => EmitLiteral(state, '"', rest)
    case InChar => EmitLiteral(state, '\'', rest)
  }

  function EmitLiteral(state: State, q: char, rest: string): (e: Emission)
    requires rest != ""
    ensures 1 <= e.length <= |rest|
  {
    if rest[0] == '\\' && |rest| > 1 then Emission(2, "  ", state)
    else Emission(1, " ", if rest[0] == q then Code else state)
  }

  /** The verdict at the end of the source. */
  function Ending(state: State): Scrub {
    match state
    case InBlock => Err(BlockComment)
    case InString => Err(StringLiteral)
    case InChar => Err(CharLiteral)
    case _ => Ok("")
  }

  /** The whole machine, run on what is left. */
  function Run(state: State, s: string): Scrub
    decreases |s|
  {
    if s == "" then Ending(state)
    else var e := Emit(state, s); Prepend(e.piece, Run(e.next, s[e.length..]))
  }

  lemma AtEnd(state: State)
    ensures Continue(state, "") == Ending(state)
  {
    var none: string := "";
    assert LineLength(none) == 0 && none[..0] == none && none[0..] == none;
    assert Blanks(none) == none && none + none == none;
  }

  lemma CodeStep(s: string)
    requires s != ""
    ensures var e := Emit(Code, s); Strip(s) == Prepend(e.piece, Continue(e.next, s[e.length..]))
  {
    if StartsWith(s, '/', '/') || StartsWith(s, '/', '*') {
      EnterComment(s);
    } else if s[0] == '"' || s[0] == '\'' {
      EnterLiteral(s);
    } else {
      assert s[..1] == [s[0]];
    }
  }

  lemma MachineStep(state: State, s: string)
    requires s != ""
    ensures var e := Emit(state, s); Continue(state, s) == Prepend(e.piece, Continue(e.next, s[e.length..]))
  {
    match state
    case Code => CodeStep(s);
    case InLine => LineStep(s);
    case InBlock => BlockStep(s);
    case InString => LiteralStep('"', StringLiteral, s);
    case InChar => LiteralStep('\'', CharLiteral, s);
  }

  /** The machine, started in any state, contributes what the grammar says. */
  lemma {:induction false} RunContinues(state: State, s: string)
    ensures Run(state, s) == Continue(state, s)
    decreases |s|
  {
    if s == "" {
      AtEnd(state);
    } else {
      var e := Emit(state, s);
      MachineStep(state, s);
      RunContinues(e.next, s[e.length..]);
    }
  }

  lemma RunIsStrip(s: string)
    ensures Run(Code, s) == Strip(s)
  {
    RunContinues(Code, s);
  }

  method StripCommentsAndLiterals(source: string) returns (r: Scrub)
    ensures r == Strip(source)
  {
    r := RunMachine(source);
    RunIsStrip(source);
  }

  method RunMachine(source: string) returns (r: Scrub)
    ensures r == Run(Code, source)
  {
    var output, index, state := "", 0, Code;
    assert source[0..] == source;
    PrependEmpty(Run(Code, source));
    while index < |source|
      invariant index <= |source|
      invariant Prepend(output, Run(state, source[index..])) == Run(Code, source)
      decreases |source| - index
    {
      var e := Emit(state, source[index..]);
      assert source[index..][e.length..] == source[index + e.length..];
      PrependAssoc(output, e.piece, Run(e.next, source[index + e.length..]));
      output, index, state := output + e.piece, index + e.length, e.next;
    }
    assert source[index..] == "" && output + "" == output;
    r := Prepend(output, Ending(state));
  }
}
