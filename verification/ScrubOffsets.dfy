/**
 What `strip_java_comments_and_literals` (scripts/generate_jdbc42_semantic_inventory.py) puts
 at every offset, and why it fails, in terms of the grammar alone: a comment keeps its line
 breaks and is blank otherwise, a literal is all spaces, code is the source.
 */
module ScrubOffsets {
  import opened Outcome
  import opened Lexing
  import opened JavaScrubber

  /** Where segment `i` starts. */
  function StartOf(segments: seq<Segment>, i: nat): nat
    requires i <= |segments|
  {
    if i == 0 then 0 else |segments[0].text| + StartOf(segments[1..], i - 1)
  }

  ghost predicate InSegment(segments: seq<Segment>, i: nat, k: nat) {
    i < |segments| && StartOf(segments, i) <= k < StartOf(segments, i) + |segments[i].text|
  }

  ghost predicate ShownAt(s: string, m: string, kind: Kind, k: nat) {
    k < |s| == |m| &&
    match kind
    case CodeChar => m[k] == s[k]
    case Quoted(_) => m[k] == ' '
    case _ => if s[k] == '\n' then m[k] == '\n' else m[k] == ' '
  }

  ghost predicate Shows(s: string, m: string, segments: seq<Segment>) {
    |m| == |s| && forall i: nat, k: nat :: InSegment(segments, i, k) ==> ShownAt(s, m, segments[i].kind, k)
  }

  /** Every offset lies in a segment. */
  lemma {:induction false} SegmentAt(s: string, segments: seq<Segment>, k: nat) returns (i: nat)
    requires Splits(s, segments) && k < |s|
    ensures InSegment(segments, i, k)
    decreases |segments|
  {
    var n := |segments[0].text|;
    if k < n {
      i := 0;
    } else {
      var j := SegmentAt(s[n..], segments[1..], k - n);
      i := j + 1;
    }
  }

  lemma SegmentShown(s: string, x: Segment, k: nat)
    requires x.text <= s && k < |x.text|
    ensures Scrubbed(x)[k] ==
            if x.kind.CodeChar? then s[k] else if x.kind.Quoted? then ' ' else if s[k] == '\n' then '\n' else ' '
  {
    assert x.text[k] == s[k];
  }

  lemma ShownBehind(s: string, head: string, tail: string, kind: Kind, k: nat)
    requires |head| <= |s| && |head| <= k && ShownAt(s[|head|..], tail, kind, k - |head|)
    ensures ShownAt(s, head + tail, kind, k)
  {
    assert s[|head|..][k - |head|] == s[k];
  }

  lemma ScrubbedLength(s: string, segments: seq<Segment>)
    requires Splits(s, segments)
    ensures |ScrubbedAll(segments)| == |s|
  {
    SplitsDeterminesStrip(s, segments);
  }

  lemma {:induction false} SegmentsShow(s: string, segments: seq<Segment>, i: nat, k: nat)
    requires Splits(s, segments) && InSegment(segments, i, k)
    ensures |ScrubbedAll(segments)| == |s| && ShownAt(s, ScrubbedAll(segments), segments[i].kind, k)
    decreases |segments|
  {
    var n := |segments[0].text|;
    ScrubbedLength(s, segments);
    var head, tail := Scrubbed(segments[0]), ScrubbedAll(segments[1..]);
    if i > 0 {
      SegmentsShow(s[n..], segments[1..], i - 1, k - n);
      ShownBehind(s, head, tail, segments[i].kind, k);
    } else {
      SegmentShown(s, segments[0], k);
      assert (head + tail)[k] == head[k];
    }
  }

  lemma SplitShows(s: string, m: string, segments: seq<Segment>)
    requires Splits(s, segments)
    ensures Shows(s, m, segments) <==> m == ScrubbedAll(segments)
  {
    var scrub := ScrubbedAll(segments);
    ScrubbedLength(s, segments);
    forall i: nat, k: nat | InSegment(segments, i, k) ensures ShownAt(s, scrub, segments[i].kind, k) {
      SegmentsShow(s, segments, i, k);
    }
    if Shows(s, m, segments) {
      forall k | 0 <= k < |s| ensures m[k] == scrub[k] {
        var i := SegmentAt(s, segments, k);
        assert ShownAt(s, scrub, segments[i].kind, k) && ShownAt(s, m, segments[i].kind, k);
      }
    }
  }

  /**
   The scrub is `m` if and only if the source splits into whole segments and `m` shows the
   code, the line breaks of the comments and spaces elsewhere. The split is unique.
   */
  lemma ScrubbedExactly(s: string, m: string)
    ensures Strip(s) == Ok(m) <==> exists segments :: Splits(s, segments) && Shows(s, m, segments)
    ensures forall x, y :: Splits(s, x) && Splits(s, y) ==> x == y
  {
    ScrubsExactlyTheGrammar(s, m);
    forall segments | Splits(s, segments) ensures Shows(s, m, segments) <==> m == ScrubbedAll(segments) {
      SplitShows(s, m, segments);
    }
  }

  // ----- Failures -----

  /** `segments` are whole segments of the text, one after the other, up to `rest`. */
  ghost predicate Leaves(s: string, segments: seq<Segment>, rest: string)
    decreases |segments|
  {
    if segments == [] then s == rest
    else
      var text := segments[0].text;
      && text != "" && text <= s && IsSegment(segments[0].kind, text, s[|text|..])
      && Leaves(s[|text|..], segments[1..], rest)
  }

  /** The construct that `why` names begins here and is no whole segment. */
  ghost predicate NeverCloses(why: Unterminated, s: string) {
    && (match why
        case BlockComment => StartsWith(s, '/', '*')
        case StringLiteral => s != "" && s[0] == '"'
        case CharLiteral => s != "" && s[0] == '\'')
    && forall kind, n :: 1 <= n <= |s| ==> !IsSegment(kind, s[..n], s[n..])
  }

  ghost predicate LeadsTo(s: string, segments: seq<Segment>, rest: string, why: Unterminated) {
    Leaves(s, segments, rest) && NeverCloses(why, rest)
  }

  lemma SegmentReads(s: string, kind: Kind, n: nat)
    requires 1 <= n <= |s| && IsSegment(kind, s[..n], s[n..])
    ensures First(s) == Ok(Piece(kind, n))
  {
    SegmentIsFirst(kind, s[..n], s[n..]);
    assert s == s[..n] + s[n..];
  }

  lemma FailureOpens(s: string, why: Unterminated)
    requires s != "" && First(s) == Err(why)
    ensures NeverCloses(why, s)
  {
    forall kind, n | 1 <= n <= |s| ensures !IsSegment(kind, s[..n], s[n..]) {
      if IsSegment(kind, s[..n], s[n..]) { SegmentReads(s, kind, n); }
    }
  }

  lemma NoSegmentFails(s: string)
    requires s != "" && forall kind, n :: 1 <= n <= |s| ==> !IsSegment(kind, s[..n], s[n..])
    ensures First(s).Err?
  {
    if First(s).Ok? { FirstIsSegment(s); }
  }

  lemma OpenFails(s: string, why: Unterminated)
    requires NeverCloses(why, s)
    ensures s != "" && First(s) == Err(why)
  {
    NoSegmentFails(s);
  }

  lemma {:induction false} LeadsToFailure(s: string, segments: seq<Segment>, rest: string, why: Unterminated)
    requires LeadsTo(s, segments, rest, why)
    ensures Strip(s) == Err(why)
    decreases |segments|
  {
    if segments == [] {
      OpenFails(s, why);
    } else {
      var kind, n := segments[0].kind, |segments[0].text|;
      assert s[..n] == segments[0].text;
      SegmentReads(s, kind, n);
      LeadsToFailure(s[n..], segments[1..], rest, why);
      StripUnfold(s, kind, n);
    }
  }

  lemma {:induction false} UpToFailure(s: string, why: Unterminated) returns (segments: seq<Segment>, rest: string)
    requires Strip(s) == Err(why)
    ensures LeadsTo(s, segments, rest, why)
    decreases |s|
  {
    if First(s).Err? {
      FailureOpens(s, why);
      segments, rest := [], s;
    } else {
      var Piece(kind, n) := First(s).value;
      FirstIsSegment(s);
      StripUnfold(s, kind, n);
      var more, end := UpToFailure(s[n..], why);
      segments, rest := [Segment(kind, s[..n])] + more, end;
      assert segments[1..] == more;
    }
  }

  /** The scrub fails for a reason exactly when whole segments lead up to such a construct. */
  lemma FailsExactly(s: string, why: Unterminated)
    ensures Strip(s) == Err(why) <==> exists segments, rest :: LeadsTo(s, segments, rest, why)
  {
    if segments, rest :| LeadsTo(s, segments, rest, why) {
      LeadsToFailure(s, segments, rest, why);
    }
    if Strip(s) == Err(why) {
      var segments, rest := UpToFailure(s, why);
    }
  }
}
