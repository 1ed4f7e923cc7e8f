/**
 Cutting a maskable source behind a line break (`top_level_parts`,
 scripts/migrate_task6_deleted_tests.py, over `mask_non_code`): a part can be masked on its
 own exactly when no comment or literal of the source straddles one of its ends.
 */
module MaskCuts {
  import opened Outcome
  import opened Lexing
  import opened Lines
  import opened RustMasker

  // ----- A piece behind which a line ends is a piece of the cut text -----

  /** A cut at `m` stands behind a line break. */
  ghost predicate AtBreak(s: string, m: nat) { 0 < m <= |s| && s[m - 1] == '\n' }

  lemma CutStarts(s: string, m: nat, a: char, b: char)
    requires AtBreak(s, m) && a != '\n'
    ensures StartsWith(s[..m], a, b) <==> StartsWith(s, a, b) && m >= 2
    ensures b != '\n' ==> (StartsWith(s[..m], a, b) <==> StartsWith(s, a, b))
  {}

  lemma CutRawOpens(s: string, m: nat, p: nat, h: nat)
    requires AtBreak(s, m)
    ensures RawOpens(s[..m], p, h) <==> RawOpens(s, p, h)
  {
    var t := s[..m];
    CutStarts(s, m, 'b', 'r');
    if RawOpens(s, p, h) {
      assert s[m - 1] != '#' && s[m - 1] != '"';
      forall k | p <= k < p + h ensures t[k] == '#' {}
    }
    if RawOpens(t, p, h) {
      forall k | p <= k < p + h ensures s[k] == '#' { assert t[k] == '#'; }
    }
  }

  lemma CutTextOpens(s: string, m: nat, p: nat)
    requires AtBreak(s, m)
    ensures TextOpens(s[..m], p) <==> TextOpens(s, p)
  {
    CutStarts(s, m, 'b', '"');
  }

  lemma CutCode(s: string, m: nat)
    requires AtBreak(s, m)
    ensures IsCode(s[..m]) <==> IsCode(s)
  {
    CutStarts(s, m, '/', '/');
    CutStarts(s, m, '/', '*');
    forall p: nat ensures TextOpens(s[..m], p) <==> TextOpens(s, p) { CutTextOpens(s, m, p); }
    forall p: nat, h: nat ensures RawOpens(s[..m], p, h) <==> RawOpens(s, p, h) { CutRawOpens(s, m, p, h); }
  }

  lemma CutLifetime(s: string, m: nat, n: nat)
    requires AtBreak(s, m)
    ensures IsLifetime(s[..m], n) <==> IsLifetime(s, n)
  {
    var t := s[..m];
    if IsLifetime(s, n) {
      assert !IdentChar(s[m - 1]);
      forall k | 1 <= k < n ensures IdentChar(t[k]) { assert IdentChar(s[k]); }
    }
    if IsLifetime(t, n) {
      assert !IdentChar(t[m - 1]);
      forall k | 1 <= k < n ensures IdentChar(s[k]) { assert IdentChar(t[k]); }
    }
  }

  lemma {:induction false} CutEscaped(s: string, m: nat, k: nat)
    requires k <= m <= |s|
    ensures Escaped(s[..m], k) <==> Escaped(s, k)
  {
    if k > 0 { CutEscaped(s, m, k - 1); }
  }

  lemma CutQuote(s: string, m: nat, q: char, k: nat)
    requires m <= |s|
    ensures QuoteCloses(s[..m], q, k) <==> QuoteCloses(s, q, k) && k < m
  {
    forall j: nat | j < m ensures ClosingQuote(s[..m], q, j) <==> ClosingQuote(s, q, j) { CutEscaped(s, m, j); }
  }

  lemma CutFence(s: string, m: nat, h: nat, k: nat)
    requires k + 1 + h <= m <= |s|
    ensures Fenced(s[..m], k, h) <==> Fenced(s, k, h)
  {
    var t := s[..m];
    forall j | 0 <= j < m ensures t[j] == s[j] {}
  }

  lemma CutRaw(s: string, m: nat, h: nat, k: nat)
    requires m <= |s|
    ensures RawCloses(s[..m], h, k) <==> RawCloses(s, h, k) && k + 1 + h <= m
  {
    var t := s[..m];
    forall j: nat | j + 1 + h <= m ensures Fenced(t, j, h) <==> Fenced(s, j, h) { CutFence(s, m, h, j); }
  }

  lemma CutLine(s: string, m: nat, n: nat)
    requires AtBreak(s, m)
    ensures IsPiece(LineComment, s[..m], n) <==> IsPiece(LineComment, s, n) && n <= m
  {
    var t := s[..m];
    CutStarts(s, m, '/', '/');
    if n <= m {
      assert t[..n] == s[..n];
      assert n == m ==> s[..n][m - 1] == '\n';
    }
  }

  lemma CutBlock(s: string, m: nat, n: nat)
    requires AtBreak(s, m)
    ensures IsPiece(Block, s[..m], n) <==> IsPiece(Block, s, n) && n <= m
  {
    CutStarts(s, m, '/', '*');
    if 2 <= n <= m { assert s[..m][2..n] == s[2..n]; }
  }

  lemma CutRawPiece(s: string, m: nat, p: nat, h: nat, n: nat)
    requires AtBreak(s, m)
    ensures IsPiece(Raw(p, h), s[..m], n) <==> IsPiece(Raw(p, h), s, n) && n <= m
  {
    CutRawOpens(s, m, p, h);
    if RawOpens(s[..m], p, h) && n >= p + 2 * h + 2 {
      assert s[..m][p + h + 1..] == s[p + h + 1..][..m - p - h - 1];
      CutRaw(s[p + h + 1..], m - p - h - 1, h, n - p - 2 * h - 2);
    }
  }

  lemma CutText(s: string, m: nat, p: nat, n: nat)
    requires AtBreak(s, m)
    ensures IsPiece(Text(p), s[..m], n) <==> IsPiece(Text(p), s, n) && n <= m
  {
    CutTextOpens(s, m, p);
    if TextOpens(s[..m], p) && n > p {
      assert s[..m][p..] == s[p..][..m - p];
      CutQuote(s[p..], m - p, '"', n - p - 1);
    }
  }

  lemma CutCharacter(s: string, m: nat, n: nat)
    requires AtBreak(s, m)
    ensures IsPiece(Character, s[..m], n) <==> IsPiece(Character, s, n) && n <= m
  {
    forall k: nat ensures IsLifetime(s[..m], k) <==> IsLifetime(s, k) { CutLifetime(s, m, k); }
    if n >= 2 {
      assert s[..m][1..] == s[1..][..m - 1];
      CutQuote(s[1..], m - 1, '\'', n - 2);
    }
  }

  /** Behind a line break, the cut text starts with the same whole piece, or with none. */
  lemma CutPiece(kind: Kind, s: string, m: nat, n: nat)
    requires AtBreak(s, m)
    ensures IsPiece(kind, s[..m], n) <==> IsPiece(kind, s, n) && n <= m
  {
    match kind
    case CodeChar => CutCode(s, m);
    case Lifetime => CutLifetime(s, m, n);
    case LineComment => CutLine(s, m, n);
    case Block => CutBlock(s, m, n);
    case Raw(p, h) => CutRawPiece(s, m, p, h, n);
    case Text(p) => CutText(s, m, p, n);
    case Character => CutCharacter(s, m, n);
  }

  lemma CutFirst(s: string, m: nat)
    requires AtBreak(s, m) && First(s).Ok?
    ensures First(s).value.length <= m ==> First(s[..m]) == First(s)
    ensures First(s).value.length > m ==> First(s[..m]).Err?
  {
    var Piece(kind, n) := First(s).value;
    FirstIsPiece(s);
    CutPiece(kind, s, m, n);
    if n <= m {
      PieceIsFirst(s[..m], kind, n);
    } else if First(s[..m]).Ok? {
      var Piece(k, l) := First(s[..m]).value;
      FirstIsPiece(s[..m]);
      CutPiece(k, s, m, l);
      PieceIsFirst(s, k, l);
    }
  }

  // ----- Masking by any reader of first pieces -----

  type Reader = string -> Result<Piece<Kind>, Unterminated>

  ghost predicate Sound(read: Reader) {
    forall s :: read(s).Ok? ==> 1 <= read(s).value.length <= |s|
  }

  /** Cutting behind a line break leaves the first piece alone or makes it unreadable. */
  ghost predicate Stable(read: Reader) {
    forall s, m: nat :: AtBreak(s, m) && read(s).Ok? ==> StableAt(read, s, m)
  }

  ghost predicate StableAt(read: Reader, s: string, m: nat)
    requires m <= |s| && read(s).Ok?
  {
    if read(s).value.length <= m then read(s[..m]) == read(s) else read(s[..m]).Err?
  }

  ghost function MaskBy(read: Reader, s: string): (r: Masking)
    requires Sound(read)
    ensures r.Ok? ==> |r.value| == |s|
    decreases |s|
  {
    if s == "" then Ok("")
    else
      match read(s)
      case Err(why) => Err(why)
      case Ok(Piece(kind, n)) => Prepend(MaskPiece(kind, s[..n]), MaskBy(read, s[n..]))
  }

  ghost function PiecesBy(read: Reader, s: string): seq<Piece<Kind>>
    requires Sound(read) && MaskBy(read, s).Ok?
    decreases |s|
  {
    if s == "" then [] else [read(s).value] + PiecesBy(read, s[read(s).value.length..])
  }

  /** The offset `c` lies between two pieces, at the start, or at the end. */
  ghost predicate Between(pieces: seq<Piece<Kind>>, c: nat)
    decreases |pieces|
  {
    c == 0 || (pieces != [] && pieces[0].length <= c && Between(pieces[1..], c - pieces[0].length))
  }

  lemma TakeJoin(head: string, tail: string, c: nat)
    requires |head| <= c <= |head| + |tail|
    ensures (head + tail)[..c] == head + tail[..c - |head|] && (head + tail)[c..] == tail[c - |head|..]
  {}

  /** Peels the first piece off a text that can be masked. */
  lemma Peel(read: Reader, s: string) returns (n: nat, head: string, tail: string)
    requires Sound(read) && MaskBy(read, s).Ok? && s != ""
    ensures read(s).Ok? && n == read(s).value.length && 1 <= n <= |s|
    ensures head == MaskPiece(read(s).value.kind, s[..n]) && |head| == n
    ensures MaskBy(read, s[n..]) == Ok(tail) && MaskBy(read, s) == Ok(head + tail)
    ensures var pieces := PiecesBy(read, s);
            pieces != [] && pieces[0].length == n && pieces[1..] == PiecesBy(read, s[n..])
  {
    n := read(s).value.length;
    head, tail := MaskPiece(read(s).value.kind, s[..n]), MaskBy(read, s[n..]).value;
  }

  lemma FrontStep(read: Reader, s: string, c: nat, n: nat)
    requires Sound(read) && read(s).Ok? && n == read(s).value.length <= c <= |s| && read(s[..c]) == read(s)
    ensures MaskBy(read, s[..c]) ==
            Prepend(MaskPiece(read(s).value.kind, s[..n]), MaskBy(read, s[n..][..c - n]))
  {
    assert s[..c][..n] == s[..n] && s[..c][n..] == s[n..][..c - n];
  }

  /** The text in front of a cut behind a line break can be masked exactly when no piece straddles the cut. */
  lemma {:induction false} FrontBy(read: Reader, s: string, c: nat)
    requires Sound(read) && Stable(read) && MaskBy(read, s).Ok? && AtBreak(s, c)
    ensures MaskBy(read, s[..c]).Ok? <==> Between(PiecesBy(read, s), c)
    ensures Between(PiecesBy(read, s), c) ==> MaskBy(read, s[..c]) == Ok(MaskBy(read, s).value[..c])
    decreases |s|
  {
    var n, head, tail := Peel(read, s);
    assert StableAt(read, s, c);
    if n <= c {
      FrontStep(read, s, c, n);
      TakeJoin(head, tail, c);
      if n < c {
        assert s[n..][c - n - 1] == s[c - 1];
        FrontBy(read, s[n..], c - n);
      } else {
        assert s[n..][..0] == "" && tail[..0] == "";
      }
    }
  }

  /** A text that can be masked alone keeps its first piece when more text follows a final line break. */
  ghost predicate Extends(read: Reader) {
    forall a, b :: Terminated(a) && a != "" && read(a).Ok? ==> read(a + b) == read(a)
  }

  ghost function Total(pieces: seq<Piece<Kind>>): nat {
    if pieces == [] then 0 else pieces[0].length + Total(pieces[1..])
  }

  /** `whole` is `front` put before `back`. */
  ghost predicate IsJoin(front: Masking, back: Masking, whole: Masking) {
    front.Ok? ==> whole == Prepend(front.value, back)
  }

  lemma JoinShift(head: string, front: string, back: Masking, rest: Masking, whole: Masking)
    requires rest == Prepend(front, back) && whole == Prepend(head, rest)
    ensures whole == Prepend(head + front, back)
  {
    PrependAssoc(head, front, back);
  }

  lemma JoinSlices(a: string, b: string, n: nat)
    requires n <= |a|
    ensures (a + b)[..n] == a[..n] && (a + b)[n..] == a[n..] + b && (Terminated(a) ==> Terminated(a[n..]))
  {}

  lemma JoinStep(read: Reader, a: string, b: string, n: nat)
    requires Sound(read) && a != "" && read(a).Ok? && n == read(a).value.length && read(a + b) == read(a)
    ensures n <= |a| && MaskBy(read, a + b) == Prepend(MaskPiece(read(a).value.kind, a[..n]), MaskBy(read, a[n..] + b))
  {
    JoinSlices(a, b, n);
  }

  lemma {:induction false} JoinBy(read: Reader, a: string, b: string)
    requires Sound(read) && Extends(read) && Terminated(a) && MaskBy(read, a).Ok?
    ensures IsJoin(MaskBy(read, a), MaskBy(read, b), MaskBy(read, a + b))
    decreases |a|
  {
    if a == "" {
      assert a + b == b;
      PrependEmpty(MaskBy(read, b));
    } else {
      var n, head, tail := Peel(read, a);
      JoinSlices(a, b, n);
      JoinBy(read, a[n..], b);
      JoinStep(read, a, b, n);
      JoinShift(head, tail, MaskBy(read, b), MaskBy(read, a[n..] + b), MaskBy(read, a + b));
    }
  }

  lemma {:induction false} TotalIs(read: Reader, s: string)
    requires Sound(read) && MaskBy(read, s).Ok?
    ensures Total(PiecesBy(read, s)) == |s|
    decreases |s|
  {
    if s != "" {
      var n, head, tail := Peel(read, s);
      TotalIs(read, s[n..]);
    }
  }

  lemma PiecesStep(read: Reader, s: string, n: nat, rest: string)
    requires Sound(read) && MaskBy(read, s).Ok? && s != "" && n == read(s).value.length <= |s| && rest == s[n..]
    ensures MaskBy(read, rest).Ok? && PiecesBy(read, s) == [read(s).value] + PiecesBy(read, rest)
  {}

  lemma PiecesAssoc(p: Piece<Kind>, x: seq<Piece<Kind>>, y: seq<Piece<Kind>>)
    ensures [p] + (x + y) == ([p] + x) + y
  {}

  lemma {:induction false} PiecesJoin(read: Reader, a: string, b: string)
    requires Sound(read) && Extends(read) && Terminated(a) && MaskBy(read, a).Ok? && MaskBy(read, b).Ok?
    ensures MaskBy(read, a + b).Ok? && PiecesBy(read, a + b) == PiecesBy(read, a) + PiecesBy(read, b)
    decreases |a|
  {
    JoinBy(read, a, b);
    if a == "" {
      assert a + b == b && [] + PiecesBy(read, b) == PiecesBy(read, b);
    } else {
      var n := read(a).value.length;
      JoinSlices(a, b, n);
      PiecesStep(read, a, n, a[n..]);
      PiecesStep(read, a + b, n, a[n..] + b);
      PiecesJoin(read, a[n..], b);
      PiecesAssoc(read(a).value, PiecesBy(read, a[n..]), PiecesBy(read, b));
    }
  }

  lemma {:induction false} BetweenJoin(x: seq<Piece<Kind>>, y: seq<Piece<Kind>>, d: nat)
    ensures Between(x + y, Total(x) + d) <==> Between(y, d) || Total(x) + d == 0
    decreases |x|
  {
    if x == [] {
      assert x + y == y;
    } else {
      assert (x + y)[0] == x[0] && (x + y)[1..] == x[1..] + y;
      BetweenJoin(x[1..], y, d);
    }
  }

  // ----- Parts -----

  /** Each part, from offset `c` on, starts between two pieces. */
  ghost predicate StartsBetween(parts: seq<string>, pieces: seq<Piece<Kind>>, c: nat)
    decreases |parts|
  {
    parts == [] || (Between(pieces, c) && StartsBetween(parts[1..], pieces, c + |parts[0]|))
  }

  ghost predicate MasksTo(read: Reader, parts: seq<string>, whole: string)
    requires Sound(read)
    decreases |parts|
  {
    if parts == [] then whole == ""
    else
      && |parts[0]| <= |whole|
      && MaskBy(read, parts[0]) == Ok(whole[..|parts[0]|])
      && MasksTo(read, parts[1..], whole[|parts[0]|..])
  }

  /** A part ends a line, unless nothing follows it. */
  ghost predicate Seamed(parts: seq<string>)
    decreases |parts|
  {
    parts == [] || ((Terminated(parts[0]) || Concat(parts[1..]) == "") && Seamed(parts[1..]))
  }

  lemma {:induction false} StartsShift(parts: seq<string>, x: seq<Piece<Kind>>, y: seq<Piece<Kind>>, c: nat)
    ensures StartsBetween(parts, x + y, Total(x) + c) <==> StartsBetween(parts, y, c)
    decreases |parts|
  {
    if parts != [] {
      BetweenJoin(x, y, c);
      StartsShift(parts[1..], x, y, c + |parts[0]|);
    }
  }

  /** Empty parts at the end change nothing. */
  lemma {:induction false} EmptyParts(read: Reader, parts: seq<string>, pieces: seq<Piece<Kind>>)
    requires Sound(read) && Concat(parts) == ""
    ensures MasksTo(read, parts, "") && StartsBetween(parts, pieces, Total(pieces))
    decreases |parts|
  {
    BetweenJoin(pieces, [], 0);
    assert pieces + [] == pieces;
    if parts != [] {
      assert parts[0] == "" && Concat(parts[1..]) == "";
      EmptyParts(read, parts[1..], pieces);
    }
  }

  ghost predicate PartsAgree(read: Reader, parts: seq<string>)
    requires Sound(read) && MaskBy(read, Concat(parts)).Ok?
  {
    MasksTo(read, parts, MaskBy(read, Concat(parts)).value) <==> StartsBetween(parts, PiecesBy(read, Concat(parts)), 0)
  }

  lemma LastPart(read: Reader, parts: seq<string>)
    requires Sound(read) && MaskBy(read, Concat(parts)).Ok? && parts != [] && Concat(parts[1..]) == ""
    ensures PartsAgree(read, parts)
  {
    var p := parts[0];
    assert Concat(parts) == p && p + "" == p;
    var whole := MaskBy(read, p).value;
    assert whole[..|p|] == whole && whole[|p|..] == "";
    TotalIs(read, p);
    EmptyParts(read, parts[1..], PiecesBy(read, p));
  }

  lemma FrontPart(read: Reader, p: string, r: string)
    requires Sound(read) && Stable(read) && Terminated(p) && MaskBy(read, p + r).Ok?
    ensures MaskBy(read, p).Ok? <==> Between(PiecesBy(read, p + r), |p|)
  {
    var s := p + r;
    assert s[..|p|] == p;
    if p != "" {
      assert AtBreak(s, |p|);
      FrontBy(read, s, |p|);
    }
  }

  lemma InnerPart(read: Reader, p: string, rest: seq<string>)
    requires Sound(read) && Extends(read) && Terminated(p)
    requires MaskBy(read, p).Ok? && MaskBy(read, p + Concat(rest)).Ok?
    ensures MaskBy(read, Concat(rest)).Ok? && (PartsAgree(read, rest) ==> PartsAgree(read, [p] + rest))
  {
    var r := Concat(rest);
    ConcatCons(p, rest);
    JoinBy(read, p, r);
    PiecesJoin(read, p, r);
    TotalIs(read, p);
    MasksStep(read, p, rest, MaskBy(read, p).value, MaskBy(read, r).value);
    StartsStep(p, rest, PiecesBy(read, p), PiecesBy(read, r));
  }

  lemma ConcatCons(p: string, rest: seq<string>)
    ensures Concat([p] + rest) == p + Concat(rest)
  {
    assert ([p] + rest)[1..] == rest;
  }

  lemma MasksStep(read: Reader, p: string, rest: seq<string>, front: string, back: string)
    requires Sound(read) && MaskBy(read, p) == Ok(front)
    ensures MasksTo(read, [p] + rest, front + back) <==> MasksTo(read, rest, back)
  {
    var parts := [p] + rest;
    assert parts[0] == p && parts[1..] == rest;
    assert (front + back)[..|p|] == front && (front + back)[|p|..] == back;
  }

  lemma StartsStep(p: string, rest: seq<string>, x: seq<Piece<Kind>>, y: seq<Piece<Kind>>)
    requires Total(x) == |p|
    ensures StartsBetween([p] + rest, x + y, 0) <==> StartsBetween(rest, y, 0)
  {
    var parts := [p] + rest;
    assert parts[0] == p && parts[1..] == rest;
    StartsShift(rest, x, y, 0);
  }

  lemma {:induction false} PartsBy(read: Reader, parts: seq<string>)
    requires Sound(read) && Stable(read) && Extends(read) && Seamed(parts) && MaskBy(read, Concat(parts)).Ok?
    ensures PartsAgree(read, parts)
    decreases |parts|
  {
    if parts != [] {
      var p, rest := parts[0], parts[1..];
      assert parts == [p] + rest;
      if Concat(rest) == "" {
        LastPart(read, parts);
      } else {
        FrontPart(read, p, Concat(rest));
        if MaskBy(read, p).Ok? {
          InnerPart(read, p, rest);
          PartsBy(read, rest);
        } else {
          UnreadablePart(read, parts);
        }
      }
    }
  }

  lemma UnreadablePart(read: Reader, parts: seq<string>)
    requires Sound(read) && MaskBy(read, Concat(parts)).Ok? && |parts| > 1 && MaskBy(read, parts[0]).Err?
    requires !Between(PiecesBy(read, Concat(parts)), |parts[0]|)
    ensures PartsAgree(read, parts)
  {
    assert parts[1..] != [];
  }

  // ----- The masker as the reader -----

  function FirstOf(): Reader {
    (s: string) => if s == "" then Err(BlockComment) else First(s)
  }

  lemma FirstIsSound()
    ensures Sound(FirstOf())
  {
    var read := FirstOf();
    forall s: string ensures read(s).Ok? ==> 1 <= read(s).value.length <= |s| {
      assert s != "" ==> read(s) == First(s);
    }
  }

  lemma FirstIsStable()
    ensures Stable(FirstOf())
  {
    var read := FirstOf();
    forall s: string, m: nat | AtBreak(s, m) && read(s).Ok? ensures StableAt(read, s, m) {
      CutFirst(s, m);
      assert read(s) == First(s) && read(s[..m]) == First(s[..m]);
    }
  }

  lemma {:induction false} MaskIsBy(s: string)
    requires Sound(FirstOf())
    ensures MaskBy(FirstOf(), s) == Mask(s)
    ensures Mask(s).Ok? ==> PiecesBy(FirstOf(), s) == PiecesOf(s)
    decreases |s|
  {
    if s != "" {
      assert FirstOf()(s) == First(s);
      if First(s).Ok? { MaskIsBy(s[First(s).value.length..]); }
    }
  }

  /** The pieces of a maskable text make up its length. */
  lemma PiecesTotal(s: string)
    requires Mask(s).Ok?
    ensures Total(PiecesOf(s)) == |s|
  {
    FirstIsSound();
    MaskIsBy(s);
    TotalIs(FirstOf(), s);
  }

  lemma BetweenTotal(pieces: seq<Piece<Kind>>)
    ensures Between(pieces, Total(pieces))
  {
    BetweenJoin(pieces, [], 0);
    assert pieces + [] == pieces;
  }

  lemma FirstExtends()
    ensures Extends(FirstOf())
  {
    var read := FirstOf();
    forall a: string, b: string | Terminated(a) && a != "" && read(a).Ok? ensures read(a + b) == read(a) {
      var s := a + b;
      var Piece(kind, n) := First(a).value;
      assert s[..|a|] == a && AtBreak(s, |a|);
      FirstIsPiece(a);
      CutPiece(kind, s, |a|, n);
      PieceIsFirst(s, kind, n);
    }
  }

  /** Each part masks on its own to its slice of `whole`. */
  ghost predicate EachMasks(parts: seq<string>, whole: string)
    decreases |parts|
  {
    if parts == [] then whole == ""
    else
      && |parts[0]| <= |whole|
      && Mask(parts[0]) == Ok(whole[..|parts[0]|])
      && EachMasks(parts[1..], whole[|parts[0]|..])
  }

  lemma {:induction false} EachIsBy(parts: seq<string>, whole: string)
    requires Sound(FirstOf())
    ensures MasksTo(FirstOf(), parts, whole) <==> EachMasks(parts, whole)
    decreases |parts|
  {
    if parts != [] && |parts[0]| <= |whole| {
      MaskIsBy(parts[0]);
      EachIsBy(parts[1..], whole[|parts[0]|..]);
    }
  }

  /**
   Cut behind line breaks, the parts of a maskable source mask on their own to their
   slices of its mask if and only if each of them starts between two pieces: no comment
   and no literal straddles a cut.
   */
  lemma PartsMaskAlone(parts: seq<string>)
    requires Mask(Concat(parts)).Ok? && Seamed(parts)
    ensures EachMasks(parts, Mask(Concat(parts)).value) <==> StartsBetween(parts, PiecesOf(Concat(parts)), 0)
  {
    FirstIsSound();
    FirstIsStable();
    FirstExtends();
    MaskIsBy(Concat(parts));
    PartsBy(FirstOf(), parts);
    EachIsBy(parts, Mask(Concat(parts)).value);
  }
}
