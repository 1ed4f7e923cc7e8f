/**
 What `mask_non_code` (scripts/verify_task6_deleted_test_parity.py) puts at every offset, and
 why it fails, in terms of the grammar alone: a space or the line break that stands there
 inside a comment or literal, the source character everywhere else; a failure names the
 construct that opens where the last whole piece ends and never closes.
 */
module MaskOffsets {
  import opened Outcome
  import opened Lexing
  import opened RustMasker

  /** Where piece `i` starts. */
  function StartOf(pieces: seq<Piece<Kind>>, i: nat): nat
    requires i <= |pieces|
  {
    if i == 0 then 0 else pieces[0].length + StartOf(pieces[1..], i - 1)
  }

  ghost predicate InPiece(pieces: seq<Piece<Kind>>, i: nat, k: nat) {
    i < |pieces| && StartOf(pieces, i) <= k < StartOf(pieces, i) + pieces[i].length
  }

  ghost predicate ShownAt(s: string, m: string, kind: Kind, k: nat) {
    k < |s| == |m| &&
    match kind
    case CodeChar => m[k] == s[k]
    case Lifetime => m[k] == s[k]
    case _ => if s[k] == '\n' then m[k] == '\n' else m[k] == ' '
  }

  /** Code and lifetimes as they are, spaces and line breaks for everything else. */
  ghost predicate Shows(s: string, m: string, pieces: seq<Piece<Kind>>) {
    |m| == |s| && forall i: nat, k: nat :: InPiece(pieces, i, k) ==> ShownAt(s, m, pieces[i].kind, k)
  }

  /** Every offset lies in a piece. */
  lemma {:induction false} PieceAt(s: string, pieces: seq<Piece<Kind>>, k: nat) returns (i: nat)
    requires Splits(s, pieces) && k < |s|
    ensures InPiece(pieces, i, k)
    decreases |pieces|
  {
    var n := pieces[0].length;
    if k < n {
      i := 0;
    } else {
      var j := PieceAt(s[n..], pieces[1..], k - n);
      i := j + 1;
    }
  }

  lemma PieceShown(s: string, kind: Kind, n: nat, k: nat)
    requires k < n <= |s|
    ensures MaskPiece(kind, s[..n])[k] ==
            if kind.CodeChar? || kind.Lifetime? then s[k] else if s[k] == '\n' then '\n' else ' '
  {
    assert s[..n][k] == s[k];
  }

  lemma ShownBehind(s: string, head: string, tail: string, kind: Kind, k: nat)
    requires |head| <= |s| && |head| <= k && ShownAt(s[|head|..], tail, kind, k - |head|)
    ensures ShownAt(s, head + tail, kind, k)
  {
    assert s[|head|..][k - |head|] == s[k];
  }

  lemma {:induction false} PiecesShow(s: string, pieces: seq<Piece<Kind>>, i: nat, k: nat)
    requires Splits(s, pieces) && InPiece(pieces, i, k)
    ensures |MaskPieces(s, pieces)| == |s| && ShownAt(s, MaskPieces(s, pieces), pieces[i].kind, k)
    decreases |pieces|
  {
    var n, kind := pieces[0].length, pieces[0].kind;
    MaskedLength(s, pieces);
    var head := MaskPiece(kind, s[..n]);
    var tail := MaskPieces(s[n..], pieces[1..]);
    if i > 0 {
      PiecesShow(s[n..], pieces[1..], i - 1, k - n);
      ShownBehind(s, head, tail, pieces[i].kind, k);
    } else {
      PieceShown(s, kind, n, k);
      assert (head + tail)[k] == head[k];
    }
  }

  lemma MaskedLength(s: string, pieces: seq<Piece<Kind>>)
    requires Splits(s, pieces)
    ensures |MaskPieces(s, pieces)| == |s|
  {
    SplitsDeterminesMask(s, pieces);
  }

  lemma SplitShows(s: string, m: string, pieces: seq<Piece<Kind>>)
    requires Splits(s, pieces)
    ensures Shows(s, m, pieces) <==> m == MaskPieces(s, pieces)
  {
    var mask := MaskPieces(s, pieces);
    MaskedLength(s, pieces);
    forall i: nat, k: nat | InPiece(pieces, i, k) ensures ShownAt(s, mask, pieces[i].kind, k) {
      PiecesShow(s, pieces, i, k);
    }
    if Shows(s, m, pieces) {
      forall k | 0 <= k < |s| ensures m[k] == mask[k] {
        var i := PieceAt(s, pieces, k);
        assert ShownAt(s, mask, pieces[i].kind, k) && ShownAt(s, m, pieces[i].kind, k);
      }
    }
  }

  /**
   Masking gives `m` if and only if the source splits into whole pieces and `m` shows, offset
   by offset, the code and lifetimes of the source and blanks elsewhere. The split is unique.
   */
  lemma MaskedExactly(s: string, m: string)
    ensures Mask(s) == Ok(m) <==> exists pieces :: Splits(s, pieces) && Shows(s, m, pieces)
    ensures forall x, y :: Splits(s, x) && Splits(s, y) ==> x == y
  {
    MasksExactlyTheGrammar(s, m);
    forall pieces | Splits(s, pieces) ensures Shows(s, m, pieces) <==> m == MaskPieces(s, pieces) {
      SplitShows(s, m, pieces);
    }
  }

  // ----- Failures -----

  /** `pieces` are whole pieces of the text, one after the other, up to `rest`. */
  ghost predicate Leaves(s: string, pieces: seq<Piece<Kind>>, rest: string)
    decreases |pieces|
  {
    if pieces == [] then s == rest
    else IsPiece(pieces[0].kind, s, pieces[0].length) && Leaves(s[pieces[0].length..], pieces[1..], rest)
  }

  /** The construct that `why` names begins here. */
  ghost predicate Opens(why: Unterminated, s: string) {
    match why
    case BlockComment => StartsWith(s, '/', '*')
    case RawText => exists p, h :: RawOpens(s, p, h)
    case StringLiteral => TextOpens(s, 1) || TextOpens(s, 2)
    case CharLiteral => s != "" && s[0] == '\''
  }

  /** Such a construct begins and is no whole piece of any kind. */
  ghost predicate NeverCloses(why: Unterminated, s: string) {
    Opens(why, s) && forall kind, n :: !IsPiece(kind, s, n)
  }

  lemma FailureOpens(s: string, why: Unterminated)
    requires s != "" && First(s) == Err(why)
    ensures NeverCloses(why, s)
  {
    if RawHead(s).Some? {
      var (p, h) := RawHead(s).value;
      RawHeadOpens(s, p, h);
    }
    forall kind, n ensures !IsPiece(kind, s, n) {
      if IsPiece(kind, s, n) { PieceIsFirst(s, kind, n); }
    }
  }

  lemma NoPieceFails(s: string)
    requires s != "" && forall kind, n :: !IsPiece(kind, s, n)
    ensures First(s).Err?
  {
    if First(s).Ok? { FirstIsPiece(s); }
  }

  lemma OpenFails(s: string, why: Unterminated)
    requires NeverCloses(why, s)
    ensures s != "" && First(s) == Err(why)
  {
    NoPieceFails(s);
    if why.RawText? {
      var p, h :| RawOpens(s, p, h);
      RawHeadOpens(s, p, h);
    }
  }

  /** Whole pieces lead up to a construct that never closes. */
  ghost predicate LeadsTo(s: string, pieces: seq<Piece<Kind>>, rest: string, why: Unterminated) {
    Leaves(s, pieces, rest) && NeverCloses(why, rest)
  }

  /** Masking fails for a reason exactly when whole pieces lead up to such a construct. */
  lemma FailsExactly(s: string, why: Unterminated)
    ensures Mask(s) == Err(why) <==> exists pieces, rest :: LeadsTo(s, pieces, rest, why)
  {
    if pieces, rest :| LeadsTo(s, pieces, rest, why) {
      LeadsToFailure(s, pieces, rest, why);
    }
    if Mask(s) == Err(why) {
      var pieces, rest := UpToFailure(s, why);
    }
  }

  lemma {:induction false} LeadsToFailure(s: string, pieces: seq<Piece<Kind>>, rest: string, why: Unterminated)
    requires LeadsTo(s, pieces, rest, why)
    ensures Mask(s) == Err(why)
    decreases |pieces|
  {
    if pieces == [] {
      OpenFails(s, why);
    } else {
      PieceIsFirst(s, pieces[0].kind, pieces[0].length);
      LeadsToFailure(s[pieces[0].length..], pieces[1..], rest, why);
      MaskUnfold(s, pieces[0]);
    }
  }

  lemma {:induction false} UpToFailure(s: string, why: Unterminated) returns (pieces: seq<Piece<Kind>>, rest: string)
    requires Mask(s) == Err(why)
    ensures LeadsTo(s, pieces, rest, why)
    decreases |s|
  {
    if First(s).Err? {
      FailureOpens(s, why);
      pieces, rest := [], s;
    } else {
      var piece := First(s).value;
      FirstIsPiece(s);
      MaskUnfold(s, piece);
      var more, end := UpToFailure(s[piece.length..], why);
      pieces, rest := [piece] + more, end;
      assert pieces[1..] == more;
    }
  }
}
