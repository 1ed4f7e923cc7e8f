/**
 `mask_non_code` (scripts/verify_task6_deleted_test_parity.py): a hand-written Rust lexer
 that blanks comments, strings and character literals in place. It knows nested block
 comments, raw strings with hash fences, byte strings, and lifetimes versus characters.
 */
module RustMasker {
  import opened Outcome
  import opened Lexing

  datatype Unterminated = BlockComment | RawText | StringLiteral | CharLiteral

  type Masking = Result<string, Unterminated>

  /** `prefix` counts the characters before the fence or the opening quote's end. */
  datatype Kind =
    | CodeChar
    | Lifetime
    | LineComment
    | Block
    | Raw(prefix: nat, hashes: nat)
    | Text(prefix: nat)
    | Character

  // ----- The grammar of a source, independent of any scanner -----

  /** The first `n` characters of `s` are a whole piece of the given kind. */
  ghost predicate IsPiece(kind: Kind, s: string, n: nat) {
    && 1 <= n <= |s|
    && match kind
       case CodeChar => n == 1 && IsCode(s)
       case Lifetime => IsLifetime(s, n)
       case LineComment =>
         n >= 2 && StartsWith(s, '/', '/') && '\n' !in s[..n] && (n < |s| ==> s[n] == '\n')
       case Block => n >= 2 && StartsWith(s, '/', '*') && exists ts :: IsBlockBody(s[2..n], ts)
       case Raw(p, h) =>
         RawOpens(s, p, h) && n >= p + 2 * h + 2 && RawCloses(s[p + h + 1..], h, n - p - 2 * h - 2)
       case Text(p) =>
         TextOpens(s, p) && n > p && QuoteCloses(s[p..], '"', n - p - 1)
       case Character =>
         n >= 2 && s[0] == '\'' && (forall m :: !IsLifetime(s, m)) && QuoteCloses(s[1..], '\'', n - 2)
  }

  /** A character that opens nothing. */
  ghost predicate IsCode(s: string) {
    && s != "" && s[0] != '\''
    && !StartsWith(s, '/', '/') && !StartsWith(s, '/', '*')
    && (forall p :: !TextOpens(s, p))
    && (forall p, h :: !RawOpens(s, p, h))
  }

  predicate TextOpens(s: string, p: nat) {
    (p == 1 && s != "" && s[0] == '"') || (p == 2 && StartsWith(s, 'b', '"'))
  }

  predicate IdentStart(c: char) { 'A' <= c <= 'Z' || 'a' <= c <= 'z' || c == '_' }

  predicate IdentChar(c: char) { IdentStart(c) || '0' <= c <= '9' }

  /** A quote, a maximal identifier, and no closing quote after it. */
  ghost predicate IsLifetime(s: string, n: nat) {
    && 2 <= n <= |s| && s[0] == '\'' && IdentStart(s[1])
    && (forall k :: 1 <= k < n ==> IdentChar(s[k]))
    && (n < |s| ==> !IdentChar(s[n]) && s[n] != '\'')
  }

  ghost predicate AllHashes(s: string, lo: nat, hi: nat) {
    hi <= |s| && forall k :: lo <= k < hi ==> s[k] == '#'
  }

  /** `r` or `br`, at most 255 hashes, a quote. */
  ghost predicate RawOpens(s: string, p: nat, h: nat) {
    && ((p == 1 && s != "" && s[0] == 'r') || (p == 2 && StartsWith(s, 'b', 'r')))
    && h <= 255 && p + h < |s| && AllHashes(s, p, p + h) && s[p + h] == '"'
  }

  ghost predicate Fenced(s: string, k: nat, h: nat) {
    k < |s| && s[k] == '"' && AllHashes(s, k + 1, k + 1 + h)
  }

  /** The first quote of `s` with `h` hashes after it stands at `k`. */
  ghost predicate RawCloses(s: string, h: nat, k: nat) {
    Fenced(s, k, h) && forall j: nat :: j < k ==> !Fenced(s, j, h)
  }

  /** Block comment text, cut from left to right into openers, closers and other characters. */
  datatype BlockToken = Opener | Closer | Other(c: char)

  ghost function TokenText(t: BlockToken): string {
    match t
    case Opener => "/*"
    case Closer => "*/"
    case Other(c) => [c]
  }

  ghost function BlockText(ts: seq<BlockToken>): string {
    if ts == [] then "" else TokenText(ts[0]) + BlockText(ts[1..])
  }

  /** No opener or closer is left cut in two. */
  ghost predicate Munched(ts: seq<BlockToken>) {
    ts != [] ==>
      && Munched(ts[1..])
      && (ts[0].Other? ==> !StartsWith(BlockText(ts), '/', '*') && !StartsWith(BlockText(ts), '*', '/'))
  }

  ghost function Step(t: BlockToken): int {
    match t
    case Opener => 1
    case Closer => -1
    case Other(_) => 0
  }

  ghost function Nesting(ts: seq<BlockToken>): int {
    if ts == [] then 0
    else Nesting(ts[1..]) + Step(ts[0])
  }

  /** Starting `depth` levels deep, the tokens close the last level with their last token and not before. */
  ghost predicate ClosesAll(ts: seq<BlockToken>, depth: nat) {
    depth + Nesting(ts) == 0 && forall k :: 0 <= k < |ts| ==> depth + Nesting(ts[..k]) > 0
  }

  ghost predicate IsBlockBody(s: string, ts: seq<BlockToken>) {
    s == BlockText(ts) && Munched(ts) && ClosesAll(ts, 1)
  }

  ghost predicate Splits(s: string, pieces: seq<Piece<Kind>>)
    decreases |pieces|
  {
    if pieces == [] then s == ""
    else IsPiece(pieces[0].kind, s, pieces[0].length) && Splits(s[pieces[0].length..], pieces[1..])
  }

  predicate IsKept(kind: Kind) { kind.CodeChar? || kind.Lifetime? }

  /** Code and lifetimes stay; everything else is blanked up to its line breaks. */
  function MaskPiece(kind: Kind, text: string): (r: string)
    ensures |r| == |text|
  {
    if IsKept(kind) then text else Blanks(text)
  }

  ghost function MaskPieces(s: string, pieces: seq<Piece<Kind>>): string
    requires Splits(s, pieces)
    decreases |pieces|
  {
    if pieces == [] then ""
    else
      var n := pieces[0].length;
      MaskPiece(pieces[0].kind, s[..n]) + MaskPieces(s[n..], pieces[1..])
  }

  // ----- The scanners -----

  function BlockLength(s: string, depth: nat): (r: Option<nat>)
    ensures r.Some? ==> r.value <= |s|
  {
    if depth == 0 then Some(0)
    else if s == "" then None
    else if StartsWith(s, '/', '*') then Plus(2, BlockLength(s[2..], depth + 1))
    else if StartsWith(s, '*', '/') then Plus(2, BlockLength(s[2..], depth - 1))
    else Plus(1, BlockLength(s[1..], depth))
  }

  function HashCount(s: string): (h: nat)
    ensures h <= |s| && (forall k :: 0 <= k < h ==> s[k] == '#') && (h < |s| ==> s[h] != '#')
  {
    if s == "" || s[0] != '#' then 0 else 1 + HashCount(s[1..])
  }

  function RawHead(s: string): (r: Option<(nat, nat)>)
    ensures r.Some? ==> r.value.0 + r.value.1 < |s|
  {
    var p := if s != "" && s[0] == 'r' then 1 else if StartsWith(s, 'b', 'r') then 2 else 0;
    if p == 0 then None
    else
      var h := HashCount(s[p..]);
      if h <= 255 && p + h < |s| && s[p + h] == '"' then Some((p, h)) else None
  }

  /** The characters up to and including the closing fence, from just after the opening quote. */
  function RawLength(s: string, h: nat): (r: Option<nat>)
    ensures r.Some? ==> r.value <= |s|
  {
    if s == "" then None
    else if s[0] == '"' && HashCount(s[1..]) >= h then Some(1 + h)
    else Plus(1, RawLength(s[1..], h))
  }

  function IdentLength(s: string): (n: nat)
    ensures n <= |s| && (forall k :: 0 <= k < n ==> IdentChar(s[k])) && (n < |s| ==> !IdentChar(s[n]))
  {
    if s == "" || !IdentChar(s[0]) then 0 else 1 + IdentLength(s[1..])
  }

  function LifetimeLength(s: string): (r: Option<nat>)
    ensures r.Some? ==> 2 <= r.value <= |s|
  {
    if |s| < 2 || s[0] != '\'' || !IdentStart(s[1]) then None
    else
      var n := 1 + IdentLength(s[1..]);
      if n < |s| && s[n] == '\'' then None else Some(n)
  }

  /** The first piece of a non-empty text. */
  function First(s: string): (r: Result<Piece<Kind>, Unterminated>)
    requires s != ""
    ensures r.Ok? ==> 1 <= r.value.length <= |s|
  {
    if StartsWith(s, '/', '/') then Ok(Piece(LineComment, 2 + LineLength(s[2..])))
    else if StartsWith(s, '/', '*') then Measured(Block, BlockComment, Plus(2, BlockLength(s[2..], 1)))
    else if RawHead(s).Some? then
      var (p, h) := RawHead(s).value;
      Measured(Raw(p, h), RawText, Plus(p + h + 1, RawLength(s[p + h + 1..], h)))
    else if StartsWith(s, 'b', '"') then Measured(Text(2), StringLiteral, Plus(2, QuoteLength(s[2..], '"')))
    else if s[0] == '"' then Measured(Text(1), StringLiteral, Plus(1, QuoteLength(s[1..], '"')))
    else if s[0] == '\'' then
      if LifetimeLength(s).Some? then Ok(Piece(Lifetime, LifetimeLength(s).value))
      else Measured(Character, CharLiteral, Plus(1, QuoteLength(s[1..], '\'')))
    else Ok(Piece(CodeChar, 1))
  }

  function Mask(s: string): (r: Masking)
    ensures r.Ok? ==> |r.value| == |s|
  {
    if s == "" then Ok("")
    else
      match First(s)
      case Err(why) => Err(why)
      case Ok(Piece(kind, n)) => Prepend(MaskPiece(kind, s[..n]), Mask(s[n..]))
  }

  ghost function PiecesOf(s: string): seq<Piece<Kind>>
    requires Mask(s).Ok?
    decreases |s|
  {
    if s == "" then [] else [First(s).value] + PiecesOf(s[First(s).value.length..])
  }

  // ----- Each scanner finds exactly its piece -----

  lemma {:induction false} BlockTextLengths(ts: seq<BlockToken>, depth: nat, rest: string)
    requires Munched(ts) && ClosesAll(ts, depth)
    ensures BlockLength(BlockText(ts) + rest, depth) == Some(|BlockText(ts)|)
    decreases |ts|
  {
    if ts == [] {
      assert depth == 0;
    } else {
      ClosesAllTail(ts, depth);
      BlockTextLengths(ts[1..], depth + Step(ts[0]), rest);
      HeadRead(ts, rest, depth);
      var tail := BlockText(ts[1..]);
      assert BlockText(ts) + rest == TokenText(ts[0]) + (tail + rest);
      BlockLengthStep(ts[0], tail + rest, depth);
    }
  }

  /** The scanner moves past one token. */
  lemma BlockLengthStep(t: BlockToken, after: string, depth: nat)
    requires depth > 0
    requires t.Opener? <==> StartsWith(TokenText(t) + after, '/', '*')
    requires t.Closer? <==> StartsWith(TokenText(t) + after, '*', '/')
    ensures BlockLength(TokenText(t) + after, depth) == Plus(|TokenText(t)|, BlockLength(after, depth + Step(t)))
  {
    var s := TokenText(t) + after;
    assert s[|TokenText(t)|..] == after;
  }

  lemma ClosesAllTail(ts: seq<BlockToken>, depth: nat)
    requires ts != [] && ClosesAll(ts, depth)
    ensures depth > 0 && ClosesAll(ts[1..], depth + Step(ts[0]))
  {
    var deeper := depth + Step(ts[0]);
    assert depth + Nesting(ts[..0]) > 0;
    forall k | 0 <= k < |ts[1..]| ensures deeper + Nesting(ts[1..][..k]) > 0 {
      assert ts[..k + 1][1..] == ts[1..][..k];
      assert depth + Nesting(ts[..k + 1]) > 0;
    }
  }

  /** The scanner reads the same first token, whatever follows the comment. */
  lemma HeadRead(ts: seq<BlockToken>, rest: string, depth: nat)
    requires ts != [] && Munched(ts) && ClosesAll(ts, depth)
    ensures var s := BlockText(ts) + rest;
            && (ts[0].Opener? <==> StartsWith(s, '/', '*'))
            && (ts[0].Closer? <==> StartsWith(s, '*', '/'))
  {
    if ts[0].Other? {
      assert |ts| > 1 by {
        assert depth + Nesting(ts[..0]) > 0;
        assert |ts| == 1 ==> Nesting(ts) == 0;
      }
      assert |BlockText(ts)| >= 2 by { assert |TokenText(ts[1])| >= 1; }
    }
  }

  ghost function BlockTokens(s: string, depth: nat): seq<BlockToken>
    requires BlockLength(s, depth).Some?
    decreases |s|
  {
    if depth == 0 then []
    else if StartsWith(s, '/', '*') then [Opener] + BlockTokens(s[2..], depth + 1)
    else if StartsWith(s, '*', '/') then [Closer] + BlockTokens(s[2..], depth - 1)
    else [Other(s[0])] + BlockTokens(s[1..], depth)
  }

  lemma {:induction false} BlockTokensCut(s: string, depth: nat)
    requires BlockLength(s, depth).Some?
    ensures var ts := BlockTokens(s, depth);
            BlockText(ts) == s[..BlockLength(s, depth).value] && Munched(ts) && ClosesAll(ts, depth)
    decreases |s|
  {
    if depth > 0 {
      var ts, n := BlockTokens(s, depth), BlockLength(s, depth).value;
      BlockTokensHead(s, depth);
      var k := |TokenText(ts[0])|;
      BlockTokensCut(s[k..], depth + Step(ts[0]));
      assert s[..n] == s[..k] + s[k..][..n - k];
      MunchedGrows(ts, s, n);
      ClosesAllGrows(ts, depth);
    }
  }

  lemma BlockTokensHead(s: string, depth: nat)
    requires depth > 0 && BlockLength(s, depth).Some?
    ensures var ts := BlockTokens(s, depth);
            ts != [] && TokenText(ts[0]) <= s && depth + Step(ts[0]) >= 0 &&
            (ts[0].Other? ==> !StartsWith(s, '/', '*') && !StartsWith(s, '*', '/')) &&
            var k := |TokenText(ts[0])|;
            && BlockLength(s, depth) == Plus(k, BlockLength(s[k..], depth + Step(ts[0])))
            && ts[1..] == BlockTokens(s[k..], depth + Step(ts[0]))
  {}

  lemma MunchedGrows(ts: seq<BlockToken>, s: string, n: nat)
    requires ts != [] && Munched(ts[1..]) && n <= |s| && BlockText(ts) == s[..n]
    requires ts[0].Other? ==> !StartsWith(s, '/', '*') && !StartsWith(s, '*', '/')
    ensures Munched(ts)
  {
    assert n >= 2 ==> s[..n][0] == s[0] && s[..n][1] == s[1];
  }

  lemma ClosesAllGrows(ts: seq<BlockToken>, depth: nat)
    requires ts != [] && depth > 0 && depth + Step(ts[0]) >= 0 && ClosesAll(ts[1..], depth + Step(ts[0]))
    ensures ClosesAll(ts, depth)
  {
    forall j | 0 <= j < |ts| ensures depth + Nesting(ts[..j]) > 0 {
      if j > 0 { assert ts[..j][1..] == ts[1..][..j - 1]; }
    }
  }

  lemma FenceIsHashCount(s: string, h: nat)
    requires s != ""
    ensures Fenced(s, 0, h) <==> s[0] == '"' && HashCount(s[1..]) >= h
  {
    var n := HashCount(s[1..]);
    forall k | 0 <= k < |s[1..]| ensures s[1..][k] == s[k + 1] {}
    if n < h && 1 + h <= |s| { assert s[1 + n] != '#'; }
    if n >= h { forall k | 1 <= k < 1 + h ensures s[k] == '#' { assert s[1..][k - 1] == '#'; } }
  }

  lemma FencedShift(s: string, j: nat, h: nat)
    requires s != ""
    ensures Fenced(s, j + 1, h) <==> Fenced(s[1..], j, h)
  {
    if Fenced(s, j + 1, h) {
      forall k | j + 1 <= k < j + 1 + h ensures s[1..][k] == '#' { assert s[k + 1] == '#'; }
    }
    if Fenced(s[1..], j, h) {
      forall k | j + 2 <= k < j + 2 + h ensures s[k] == '#' { assert s[1..][k - 1] == '#'; }
    }
  }

  lemma {:induction false} RawLengthCloses(s: string, h: nat, k: nat)
    ensures RawLength(s, h) == Some(k + 1 + h) <==> RawCloses(s, h, k)
    decreases |s|
  {
    if s != "" {
      FenceIsHashCount(s, h);
      if !Fenced(s, 0, h) && k > 0 {
        RawLengthCloses(s[1..], h, k - 1);
        forall j: nat ensures Fenced(s, j + 1, h) <==> Fenced(s[1..], j, h) { FencedShift(s, j, h); }
        RawClosesShift(s, h, k);
      } else if !Fenced(s, 0, h) {
        RawLengthLong(s[1..], h);
      }
    }
  }

  lemma RawClosesShift(s: string, h: nat, k: nat)
    requires s != "" && k > 0 && !Fenced(s, 0, h)
    requires forall j: nat :: Fenced(s, j + 1, h) <==> Fenced(s[1..], j, h)
    ensures RawCloses(s, h, k) <==> RawCloses(s[1..], h, k - 1)
  {
    assert Fenced(s, k - 1 + 1, h) <==> Fenced(s[1..], k - 1, h);
    if RawCloses(s, h, k) {
      forall j: nat | j < k - 1 ensures !Fenced(s[1..], j, h) { assert !Fenced(s, j + 1, h); }
    }
    if RawCloses(s[1..], h, k - 1) {
      forall j: nat | j < k ensures !Fenced(s, j, h) {
        if j > 0 { assert Fenced(s, j - 1 + 1, h) <==> Fenced(s[1..], j - 1, h); }
      }
    }
  }

  lemma {:induction false} RawLengthLong(s: string, h: nat)
    ensures RawLength(s, h).Some? ==> RawLength(s, h).value >= 1 + h
  {
    if s != "" { RawLengthLong(s[1..], h); }
  }

  lemma {:induction false} HashRun(s: string, h: nat)
    requires h <= |s| && (forall k :: 0 <= k < h ==> s[k] == '#') && (h < |s| ==> s[h] != '#')
    ensures HashCount(s) == h
  {
    if h > 0 { HashRun(s[1..], h - 1); }
  }

  lemma {:induction false} IdentRun(s: string, n: nat)
    requires n <= |s| && (forall k :: 0 <= k < n ==> IdentChar(s[k])) && (n < |s| ==> !IdentChar(s[n]))
    ensures IdentLength(s) == n
  {
    if n > 0 { IdentRun(s[1..], n - 1); }
  }

  lemma RawHeadOpens(s: string, p: nat, h: nat)
    ensures RawHead(s) == Some((p, h)) <==> RawOpens(s, p, h)
  {
    var q := if s != "" && s[0] == 'r' then 1 else if StartsWith(s, 'b', 'r') then 2 else 0;
    if q != 0 {
      var n := HashCount(s[q..]);
      forall k | 0 <= k < |s[q..]| ensures s[q..][k] == s[q + k] {}
      if RawOpens(s, p, h) {
        assert p == q;
        HashRun(s[q..], h);
      }
      if RawHead(s) == Some((p, h)) {
        forall k | p <= k < p + h ensures s[k] == '#' { assert s[q..][k - q] == '#'; }
      }
    }
  }

  lemma LifetimeLengthIs(s: string, n: nat)
    ensures LifetimeLength(s) == Some(n) <==> IsLifetime(s, n)
  {
    if |s| >= 2 && s[0] == '\'' && IdentStart(s[1]) {
      var m := IdentLength(s[1..]);
      forall k | 0 <= k < |s[1..]| ensures s[1..][k] == s[k + 1] {}
      assert s[1..][0] == s[1];
      if IsLifetime(s, n) {
        IdentRun(s[1..], n - 1);
      }
      if LifetimeLength(s) == Some(n) {
        forall k | 1 <= k < n ensures IdentChar(s[k]) { assert IdentChar(s[1..][k - 1]); }
      }
    }
  }

  // ----- The lexer recognizes exactly the grammar -----

  lemma BlockPiece(s: string, n: nat)
    requires StartsWith(s, '/', '*')
    ensures IsPiece(Block, s, n) <==> Plus(2, BlockLength(s[2..], 1)) == Some(n)
  {
    if IsPiece(Block, s, n) {
      var ts :| IsBlockBody(s[2..n], ts);
      BlockTextLengths(ts, 1, s[n..]);
      assert s[2..] == s[2..n] + s[n..];
    }
    if Plus(2, BlockLength(s[2..], 1)) == Some(n) {
      BlockTokensCut(s[2..], 1);
      assert s[2..n] == s[2..][..n - 2];
      assert IsBlockBody(s[2..n], BlockTokens(s[2..], 1));
    }
  }

  lemma LinePiece(s: string, n: nat)
    requires StartsWith(s, '/', '/')
    ensures IsPiece(LineComment, s, n) <==> n == 2 + LineLength(s[2..])
  {
    forall k | 0 <= k < |s[2..]| ensures s[2..][k] == s[k + 2] {}
    if IsPiece(LineComment, s, n) {
      forall k | 0 <= k < n - 2 ensures s[2..][k] != '\n' { assert s[..n][k + 2] == s[k + 2]; }
      LineStops(s[2..], n - 2);
    }
    if n == 2 + LineLength(s[2..]) {
      forall k | 0 <= k < n ensures s[..n][k] != '\n' {
        if k >= 2 { assert s[2..][k - 2] == s[k]; }
      }
    }
  }

  lemma RawPiece(s: string, p: nat, h: nat, n: nat)
    requires RawOpens(s, p, h)
    ensures IsPiece(Raw(p, h), s, n) <==> Plus(p + h + 1, RawLength(s[p + h + 1..], h)) == Some(n)
  {
    var t := s[p + h + 1..];
    RawLengthLong(t, h);
    if n >= p + 2 * h + 2 { RawLengthCloses(t, h, n - p - 2 * h - 2); }
  }

  lemma TextPiece(s: string, p: nat, n: nat)
    requires TextOpens(s, p)
    ensures IsPiece(Text(p), s, n) <==> Plus(p, QuoteLength(s[p..], '"')) == Some(n)
  {
    if n > p { QuoteLengthCloses(s[p..], '"', n - p - 1); }
  }

  lemma CharacterPiece(s: string, n: nat)
    requires s != "" && s[0] == '\'' && LifetimeLength(s).None?
    ensures IsPiece(Character, s, n) <==> Plus(1, QuoteLength(s[1..], '\'')) == Some(n)
  {
    forall m: nat ensures !IsLifetime(s, m) { LifetimeLengthIs(s, m); }
    if n >= 2 { QuoteLengthCloses(s[1..], '\'', n - 2); }
  }

  lemma NoRawHead(s: string)
    ensures RawHead(s).None? <==> forall p, h :: !RawOpens(s, p, h)
  {
    forall p: nat, h: nat ensures RawHead(s) == Some((p, h)) <==> RawOpens(s, p, h) { RawHeadOpens(s, p, h); }
    if RawHead(s).Some? {
      var (p, h) := RawHead(s).value;
      assert RawOpens(s, p, h);
    }
  }

  lemma FirstIsPiece(s: string)
    requires s != "" && First(s).Ok?
    ensures IsPiece(First(s).value.kind, s, First(s).value.length)
  {
    var Piece(kind, n) := First(s).value;
    match kind
    case LineComment => LinePiece(s, n);
    case Block => BlockPiece(s, n);
    case Raw(p, h) => RawHeadOpens(s, p, h); RawPiece(s, p, h, n);
    case Text(p) => TextPiece(s, p, n);
    case Lifetime => LifetimeLengthIs(s, n);
    case Character => CharacterPiece(s, n);
    case CodeChar => FirstIsCode(s);
  }

  lemma FirstIsCode(s: string)
    requires s != "" && First(s).Ok? && First(s).value.kind.CodeChar?
    ensures IsCode(s) && First(s).value.length == 1
  {
    NoRawHead(s);
  }

  lemma PieceIsFirst(s: string, kind: Kind, n: nat)
    requires s != "" && IsPiece(kind, s, n)
    ensures First(s) == Ok(Piece(kind, n))
  {
    match kind
    case LineComment => LinePiece(s, n);
    case Block => BlockPiece(s, n);
    case Raw(p, h) => RawHeadOpens(s, p, h); RawPiece(s, p, h, n);
    case Text(p) => TextPiece(s, p, n);
    case Lifetime => LifetimeLengthIs(s, n);
    case Character =>
      if LifetimeLength(s).Some? { LifetimeLengthIs(s, LifetimeLength(s).value); }
      CharacterPiece(s, n);
    case CodeChar =>
      NoRawHead(s);
      assert !TextOpens(s, 1) && !TextOpens(s, 2);
  }

  lemma {:induction false} SplitsDeterminesMask(s: string, pieces: seq<Piece<Kind>>)
    requires Splits(s, pieces)
    ensures Mask(s) == Ok(MaskPieces(s, pieces)) && PiecesOf(s) == pieces
    decreases |pieces|
  {
    if pieces != [] {
      PieceIsFirst(s, pieces[0].kind, pieces[0].length);
      SplitsDeterminesMask(s[pieces[0].length..], pieces[1..]);
      assert First(s).value == pieces[0];
    }
  }

  lemma {:induction false} MaskSplits(s: string)
    requires Mask(s).Ok?
    ensures Splits(s, PiecesOf(s))
    decreases |s|
  {
    if s != "" {
      FirstIsPiece(s);
      MaskSplits(s[First(s).value.length..]);
      assert PiecesOf(s)[1..] == PiecesOf(s[First(s).value.length..]);
    }
  }

  /**
   The masker succeeds exactly on the sources that split into pieces, the split is unique,
   and the result is the source with each comment and literal piece blanked.
   */
  lemma MasksExactlyTheGrammar(s: string, m: string)
    ensures Mask(s) == Ok(m) <==> exists pieces :: Splits(s, pieces) && MaskPieces(s, pieces) == m
    ensures forall x, y :: Splits(s, x) && Splits(s, y) ==> x == y
  {
    if Mask(s).Ok? {
      MaskSplits(s);
      SplitsDeterminesMask(s, PiecesOf(s));
    }
    forall x | Splits(s, x) ensures Mask(s) == Ok(MaskPieces(s, x)) && PiecesOf(s) == x {
      SplitsDeterminesMask(s, x);
    }
  }

  // ----- Offsets, surviving openers, and a second pass -----

  /** Each character of `r` is the source character, or a space where the source has no line break. */
  ghost predicate KeepsOffsets(s: string, r: string) {
    |r| == |s| && forall k :: 0 <= k < |s| ==> r[k] == s[k] || (r[k] == ' ' && s[k] != '\n')
  }

  lemma JoinKeepsOffsets(s: string, n: nat, head: string, tail: string)
    requires n <= |s| && KeepsOffsets(s[..n], head) && KeepsOffsets(s[n..], tail)
    ensures KeepsOffsets(s, head + tail)
  {
    var r := head + tail;
    forall k | 0 <= k < |s| ensures r[k] == s[k] || (r[k] == ' ' && s[k] != '\n') {
      if k < n {
        assert r[k] == head[k] && s[..n][k] == s[k];
      } else {
        assert r[k] == tail[k - n] && s[n..][k - n] == s[k];
      }
    }
  }

  lemma {:induction false} MaskKeepsOffsets(s: string)
    requires Mask(s).Ok?
    ensures KeepsOffsets(s, Mask(s).value)
    decreases |s|
  {
    if s != "" {
      var Piece(kind, n) := First(s).value;
      MaskKeepsOffsets(s[n..]);
      JoinKeepsOffsets(s, n, MaskPiece(kind, s[..n]), Mask(s[n..]).value);
    }
  }

  /** Line breaks stay where they are, and no new ones appear. */
  lemma MaskKeepsLineBreaks(s: string, k: nat)
    requires Mask(s).Ok? && k < |s|
    ensures Mask(s).value[k] == '\n' <==> s[k] == '\n'
  {
    MaskKeepsOffsets(s);
  }

  ghost predicate OpensNothing(r: string, k: nat)
    requires k < |r|
  {
    && r[k] != '"'
    && !StartsWith(r[k..], '/', '/') && !StartsWith(r[k..], '/', '*')
    && (r[k] == '\'' ==> LifetimeLength(r[k..]).Some?)
  }

  /** No comment or literal opener is left: every quote starts a lifetime. */
  ghost predicate NoOpeners(r: string) {
    forall k: nat :: k < |r| ==> OpensNothing(r, k)
  }

  lemma OpensNothingShift(r: string, n: nat, k: nat)
    requires n + k < |r|
    ensures OpensNothing(r, n + k) <==> OpensNothing(r[n..], k)
  {
    assert r[n..][k..] == r[n + k..];
    assert r[n..][k] == r[n + k];
  }

  lemma NoOpenersTail(r: string, n: nat)
    requires NoOpeners(r) && n <= |r|
    ensures NoOpeners(r[n..])
  {
    forall k: nat | k < |r[n..]| ensures OpensNothing(r[n..], k) {
      OpensNothingShift(r, n, k);
    }
  }

  lemma KeptHeadOpensNothing(s: string, tail: string, k: nat)
    requires s != "" && First(s).Ok? && IsKept(First(s).value.kind)
    requires KeepsOffsets(s[First(s).value.length..], tail) && k < First(s).value.length
    ensures OpensNothing(s[..First(s).value.length] + tail, k)
  {
    var Piece(kind, n) := First(s).value;
    var r := s[..n] + tail;
    assert tail != "" ==> s[n..][0] == s[n];
    if kind.Lifetime? {
      LifetimeLengthIs(s, n);
      LifetimeLengthIs(r, n);
      assert r[0..] == r;
      assert k > 0 ==> IdentChar(r[k]);
    } else {
      assert n == 1 && k == 0 && r[0] == s[0] && r[0..] == r;
      assert tail != "" ==> r[1] == tail[0];
    }
  }

  lemma BlankOpensNothing(text: string, tail: string, k: nat)
    requires k < |text|
    ensures OpensNothing(Blanks(text) + tail, k)
  {
    var r := Blanks(text) + tail;
    assert r[k] == Blanks(text)[k] && r[k..][0] == r[k];
  }

  lemma {:induction false} MaskLeavesNoOpeners(s: string)
    requires Mask(s).Ok?
    ensures NoOpeners(Mask(s).value)
    decreases |s|
  {
    if s != "" {
      var Piece(kind, n) := First(s).value;
      var tail := Mask(s[n..]).value;
      MaskLeavesNoOpeners(s[n..]);
      MaskKeepsOffsets(s[n..]);
      forall k: nat | k < n ensures OpensNothing(MaskPiece(kind, s[..n]) + tail, k) {
        if IsKept(kind) { KeptHeadOpensNothing(s, tail, k); } else { BlankOpensNothing(s[..n], tail, k); }
      }
      NoOpenersJoin(MaskPiece(kind, s[..n]), tail);
    }
  }

  lemma NoOpenersJoin(head: string, tail: string)
    requires NoOpeners(tail) && forall k: nat :: k < |head| ==> OpensNothing(head + tail, k)
    ensures NoOpeners(head + tail)
  {
    var r := head + tail;
    assert r[|head|..] == tail;
    forall k: nat | |head| <= k < |r| ensures OpensNothing(r, k) { OpensNothingShift(r, |head|, k - |head|); }
  }

  lemma {:induction false} CleanIsFixed(r: string)
    requires NoOpeners(r)
    ensures Mask(r) == Ok(r)
    decreases |r|
  {
    if r != "" {
      assert OpensNothing(r, 0) && r[0..] == r;
      CleanFirst(r);
      var n := First(r).value.length;
      NoOpenersTail(r, n);
      CleanIsFixed(r[n..]);
      assert r == r[..n] + r[n..];
    }
  }

  lemma CleanFirst(r: string)
    requires NoOpeners(r) && r != ""
    ensures First(r).Ok? && IsKept(First(r).value.kind)
  {
    assert OpensNothing(r, 0) && r[0..] == r;
    var head := RawHead(r);
    assert head.Some? ==> OpensNothing(r, head.value.0 + head.value.1);
    assert |r| > 1 ==> OpensNothing(r, 1);
  }

  /** Masking a masked source succeeds and changes nothing. */
  lemma MaskIdempotent(s: string)
    requires Mask(s).Ok?
    ensures Mask(Mask(s).value) == Mask(s)
  {
    MaskLeavesNoOpeners(s);
    CleanIsFixed(Mask(s).value);
  }

  // ----- The loops -----

  lemma PlusPlus(a: nat, b: nat, rest: Option<nat>)
    ensures Plus(a, Plus(b, rest)) == Plus(a + b, rest)
  {}

  method LineEnd(source: string, from: nat) returns (n: nat)
    requires from <= |source|
    ensures n == LineLength(source[from..])
  {
    n := 0;
    while from + n < |source| && source[from + n] != '\n'
      invariant from + n <= |source|
      invariant forall k :: 0 <= k < n ==> source[from..][k] != '\n'
    {
      n := n + 1;
    }
    assert from + n < |source| ==> source[from..][n] == source[from + n];
    LineStops(source[from..], n);
  }

  method SkipBlock(source: string, from: nat) returns (r: Option<nat>)
    requires from <= |source|
    ensures r == BlockLength(source[from..], 1)
  {
    var depth, n := 1, 0;
    while from + n < |source| && depth > 0
      invariant from + n <= |source|
      invariant Plus(n, BlockLength(source[from + n..], depth)) == BlockLength(source[from..], 1)
      decreases |source| - n
    {
      var rest := source[from + n..];
      if StartsWith(rest, '/', '*') {
        PlusPlus(n, 2, BlockLength(rest[2..], depth + 1));
        assert rest[2..] == source[from + n + 2..];
        depth, n := depth + 1, n + 2;
      } else if StartsWith(rest, '*', '/') {
        PlusPlus(n, 2, BlockLength(rest[2..], depth - 1));
        assert rest[2..] == source[from + n + 2..];
        depth, n := depth - 1, n + 2;
      } else {
        PlusPlus(n, 1, BlockLength(rest[1..], depth));
        assert rest[1..] == source[from + n + 1..];
        n := n + 1;
      }
    }
    r := if depth > 0 then None else Some(n);
  }

  method SkipRaw(source: string, from: nat, h: nat) returns (r: Option<nat>)
    requires from <= |source|
    ensures r == RawLength(source[from..], h)
  {
    var n := 0;
    while from + n < |source|
      invariant from + n <= |source|
      invariant Plus(n, RawLength(source[from + n..], h)) == RawLength(source[from..], h)
    {
      var rest := source[from + n..];
      if rest[0] == '"' && HashCount(rest[1..]) >= h {
        return Some(n + 1 + h);
      }
      PlusPlus(n, 1, RawLength(rest[1..], h));
      assert rest[1..] == source[from + n + 1..];
      n := n + 1;
    }
    r := None;
  }

  /** What is left to take when the previous character was an active backslash. */
  function QuoteRest(s: string, q: char, escaped: bool): Option<nat>
    requires q != '\\'
  {
    if !escaped then QuoteLength(s, q) else if s == "" then None else Plus(1, QuoteLength(s[1..], q))
  }

  lemma QuoteStep(s: string, q: char, escaped: bool)
    requires q != '\\' && s != ""
    ensures !escaped && s[0] == q ==> QuoteRest(s, q, escaped) == Some(1)
    ensures escaped || s[0] != q ==>
              QuoteRest(s, q, escaped) == Plus(1, QuoteRest(s[1..], q, !escaped && s[0] == '\\'))
  {
    if !escaped && s[0] == '\\' && |s| >= 2 {
      assert s[1..][1..] == s[2..];
      PlusPlus(1, 1, QuoteLength(s[2..], q));
    }
  }

  method SkipQuoted(source: string, from: nat, q: char) returns (r: Option<nat>)
    requires from <= |source| && q != '\\'
    ensures r == QuoteLength(source[from..], q)
  {
    var escaped, n := false, 0;
    while from + n < |source|
      invariant from + n <= |source|
      invariant Plus(n, QuoteRest(source[from + n..], q, escaped)) == QuoteLength(source[from..], q)
    {
      ghost var rest := source[from + n..];
      QuoteStep(rest, q, escaped);
      assert rest[1..] == source[from + n + 1..];
      PlusPlus(n, 1, QuoteRest(rest[1..], q, !escaped && rest[0] == '\\'));
      var character := source[from + n];
      n := n + 1;
      if escaped {
        escaped := false;
      } else if character == '\\' {
        escaped := true;
      } else if character == q {
        return Some(n);
      }
    }
    r := None;
  }

  /** The branches of the main loop, in order. */
  method NextPiece(source: string, index: nat) returns (r: Result<Piece<Kind>, Unterminated>)
    requires index < |source|
    ensures r == First(source[index..])
  {
    var rest := source[index..];
    if StartsWith(rest, '/', '/') {
      assert rest[2..] == source[index + 2..];
      var n := LineEnd(source, index + 2);
      return Ok(Piece(LineComment, 2 + n));
    }
    if StartsWith(rest, '/', '*') {
      assert rest[2..] == source[index + 2..];
      var n := SkipBlock(source, index + 2);
      return Measured(Block, BlockComment, Plus(2, n));
    }
    var raw := RawHead(rest);
    if raw.Some? {
      var (p, h) := raw.value;
      assert rest[p + h + 1..] == source[index + p + h + 1..];
      var n := SkipRaw(source, index + p + h + 1, h);
      return Measured(Raw(p, h), RawText, Plus(p + h + 1, n));
    }
    var prefix := if StartsWith(rest, 'b', '"') then 2 else 1;
    if source[index] == '"' || prefix == 2 {
      assert rest[prefix..] == source[index + prefix..];
      var n := SkipQuoted(source, index + prefix, '"');
      return Measured(Text(prefix), StringLiteral, Plus(prefix, n));
    }
    if source[index] == '\'' {
      var lifetime := LifetimeLength(rest);
      if lifetime.Some? {
        return Ok(Piece(Lifetime, lifetime.value));
      }
      assert rest[1..] == source[index + 1..];
      var n := SkipQuoted(source, index + 1, '\'');
      return Measured(Character, CharLiteral, Plus(1, n));
    }
    return Ok(Piece(CodeChar, 1));
  }

  /** `blank`: spaces over `[start, end)`, line breaks left alone. */
  method Blank(masked: string, start: nat, end: nat) returns (r: string)
    requires start <= end <= |masked|
    ensures r == masked[..start] + Blanks(masked[start..end]) + masked[end..]
  {
    r := masked;
    for offset := start to end
      invariant |r| == |masked|
      invariant forall k :: 0 <= k < |masked| ==>
                  r[k] == if start <= k < offset && masked[k] != '\n' then ' ' else masked[k]
    {
      if r[offset] != '\n' {
        r := r[offset := ' '];
      }
    }
  }

  /**
   The state of the loop: `masked` is done up to `index` and untouched from there, and
   putting `rest` behind the finished part gives `goal`.
   */
  ghost predicate Progress(source: string, index: nat, masked: string, rest: Masking, goal: Masking) {
    && index <= |source| == |masked|
    && masked[index..] == source[index..]
    && Prepend(masked[..index], rest) == goal
  }

  lemma ProgressStep(source: string, index: nat, masked: string, piece: string,
                     after: Masking, goal: Masking, next: string)
    requires index + |piece| <= |source| && Progress(source, index, masked, Prepend(piece, after), goal)
    requires next == masked[..index] + piece + masked[index + |piece|..]
    ensures Progress(source, index + |piece|, next, after, goal)
  {
    var end := index + |piece|;
    assert next[end..] == masked[end..] == masked[index..][|piece|..];
    assert next[..end] == masked[..index] + piece;
    PrependAssoc(masked[..index], piece, after);
  }

  lemma ProgressStart(source: string, goal: Masking)
    ensures Progress(source, 0, source, goal, goal)
  {
    assert source[0..] == source && source[..0] == "";
    if goal.Ok? { assert "" + goal.value == goal.value; }
  }

  lemma ProgressEnd(source: string, masked: string, goal: Masking)
    requires Progress(source, |source|, masked, Ok(""), goal)
    ensures goal == Ok(masked)
  {
    assert masked[..|source|] == masked && masked + "" == masked;
  }

  /** The state of the loop when it is about to read at `index`. */
  ghost predicate Here(source: string, index: nat, masked: string, goal: Masking) {
    index <= |source| && Progress(source, index, masked, Mask(source[index..]), goal)
  }

  lemma HereFails(source: string, index: nat, masked: string, goal: Masking, why: Unterminated)
    requires Here(source, index, masked, goal) && index < |source| && First(source[index..]) == Err(why)
    ensures goal == Err(why)
  {}

  /** Splits off the first piece of what is left to mask. */
  lemma HereReads(source: string, index: nat, masked: string, goal: Masking,
                  piece: Piece<Kind>) returns (after: Masking)
    requires Here(source, index, masked, goal) && index < |source| && First(source[index..]) == Ok(piece)
    ensures 1 <= piece.length && index + piece.length <= |source| && after == Mask(source[index + piece.length..])
    ensures Progress(source, index, masked,
                     Prepend(MaskPiece(piece.kind, source[index..index + piece.length]), after), goal)
  {
    MaskUnfold(source[index..], piece);
    SliceReads(source, index, piece.length);
    after := Mask(source[index + piece.length..]);
    SameProgress(source, index, masked, Mask(source[index..]),
                 Prepend(MaskPiece(piece.kind, source[index..index + piece.length]), after), goal);
  }

  lemma SameProgress(source: string, index: nat, masked: string, rest: Masking, same: Masking, goal: Masking)
    requires Progress(source, index, masked, rest, goal) && rest == same
    ensures Progress(source, index, masked, same, goal)
  {}

  lemma MaskUnfold(s: string, piece: Piece<Kind>)
    requires s != "" && First(s) == Ok(piece)
    ensures 1 <= piece.length <= |s|
    ensures Mask(s) == Prepend(MaskPiece(piece.kind, s[..piece.length]), Mask(s[piece.length..]))
  {}

  lemma SliceReads(source: string, index: nat, n: nat)
    requires index + n <= |source|
    ensures source[index..][..n] == source[index..index + n] && source[index..][n..] == source[index + n..]
  {}

  lemma HereStart(source: string)
    ensures Here(source, 0, source, Mask(source))
  {
    ProgressStart(source, Mask(source));
    assert source[0..] == source;
  }

  lemma HereEnd(source: string, masked: string, goal: Masking)
    requires Here(source, |source|, masked, goal)
    ensures goal == Ok(masked)
  {
    assert source[|source|..] == "";
    ProgressEnd(source, masked, goal);
  }

  method MaskNonCode(source: string) returns (r: Masking)
    ensures r == Mask(source)
  {
    var masked, index := source, 0;
    HereStart(source);
    while index < |source|
      invariant Here(source, index, masked, Mask(source))
    {
      var piece := NextPiece(source, index);
      if piece.Err? {
        HereFails(source, index, masked, Mask(source), piece.error);
        return Err(piece.error);
      }
      masked, index := Turn(source, index, masked, piece.value, Mask(source));
    }
    HereEnd(source, masked, Mask(source));
    r := Ok(masked);
  }

  /** Masks one piece and moves past it. */
  method Turn(source: string, index: nat, masked: string, piece: Piece<Kind>, ghost goal: Masking)
    returns (next: string, end: nat)
    requires Here(source, index, masked, goal) && index < |source| && First(source[index..]) == Ok(piece)
    ensures end > index && Here(source, end, next, goal)
  {
    ghost var after := HereReads(source, index, masked, goal, piece);
    next := Apply(source, index, masked, piece, after, goal);
    end := index + piece.length;
  }

  /** Blanks the piece unless it is code. */
  method Apply(source: string, index: nat, masked: string, piece: Piece<Kind>,
               ghost after: Masking, ghost goal: Masking)
    returns (next: string)
    requires index + piece.length <= |source|
    requires Progress(source, index, masked,
                      Prepend(MaskPiece(piece.kind, source[index..index + piece.length]), after), goal)
    ensures Progress(source, index + piece.length, next, after, goal)
  {
    var end := index + piece.length;
    var n := piece.length;
    assert masked[index..end] == masked[index..][..n] == source[index..][..n] == source[index..end];
    if IsKept(piece.kind) {
      next := masked;
      assert masked == masked[..index] + masked[index..end] + masked[end..];
    } else {
      next := Blank(masked, index, end);
    }
    ProgressStep(source, index, masked, MaskPiece(piece.kind, source[index..end]), after, goal, next);
  }
}
