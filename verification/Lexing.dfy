/**
 What the two source scrubbers share: quoted literals with backslash escapes, line
 comments, and blanking. Every scanner works on the text that is left and returns how
 many characters it takes.
 */
module Lexing {
  import opened Outcome

  predicate StartsWith(s: string, a: char, b: char) {
    |s| >= 2 && s[0] == a && s[1] == b
  }

  function Plus(n: nat, rest: Option<nat>): Option<nat> {
    match rest
    case None => None
    case Some(k) => Some(n + k)
  }

  // ----- Quoted literals -----

  /** The characters up to and including the closing quote `q`, from just after the opening one. */
  function QuoteLength(s: string, q: char): (r: Option<nat>)
    requires q != '\\'
    ensures r.Some? ==> 1 <= r.value <= |s|
  {
    if s == "" then None
    else if s[0] == '\\' then (if |s| < 2 then None else Plus(2, QuoteLength(s[2..], q)))
    else if s[0] == q then Some(1)
    else Plus(1, QuoteLength(s[1..], q))
  }

  /** A character is escaped when an unescaped backslash stands before it. */
  ghost predicate Escaped(s: string, k: nat)
    requires k <= |s|
  {
    k > 0 && s[k - 1] == '\\' && !Escaped(s, k - 1)
  }

  ghost predicate ClosingQuote(s: string, q: char, k: nat) {
    k < |s| && s[k] == q && !Escaped(s, k)
  }

  /** The literal closes at `k`: the first unescaped `q`. */
  ghost predicate QuoteCloses(s: string, q: char, k: nat) {
    ClosingQuote(s, q, k) && forall j: nat :: j < k ==> !ClosingQuote(s, q, j)
  }

  lemma {:induction false} EscapedShift(s: string, n: nat, k: nat)
    requires n + k <= |s| && !Escaped(s, n)
    ensures Escaped(s, n + k) <==> Escaped(s[n..], k)
  {
    if k > 0 {
      EscapedShift(s, n, k - 1);
      assert s[n..][k - 1] == s[n + k - 1];
    }
  }

  lemma ClosingShift(s: string, q: char, n: nat, k: nat)
    requires n <= |s| && !Escaped(s, n)
    ensures ClosingQuote(s, q, n + k) <==> ClosingQuote(s[n..], q, k)
  {
    if n + k < |s| { EscapedShift(s, n, k); }
  }

  lemma {:induction false} ClosesShift(s: string, q: char, n: nat, k: nat)
    requires n <= |s| && !Escaped(s, n)
    requires forall j: nat :: j < n ==> !ClosingQuote(s, q, j)
    ensures QuoteCloses(s, q, n + k) <==> QuoteCloses(s[n..], q, k)
  {
    forall j: nat ensures ClosingQuote(s, q, n + j) <==> ClosingQuote(s[n..], q, j) {
      ClosingShift(s, q, n, j);
    }
    forall j: nat | n <= j ensures ClosingQuote(s, q, j) <==> ClosingQuote(s[n..], q, j - n) {
      assert ClosingQuote(s, q, n + (j - n)) <==> ClosingQuote(s[n..], q, j - n);
    }
  }

  /** The scanner stops at the closing quote, and fails only when there is none. */
  lemma {:induction false} QuoteLengthCloses(s: string, q: char, k: nat)
    requires q != '\\'
    ensures QuoteLength(s, q) == Some(k + 1) <==> QuoteCloses(s, q, k)
    decreases |s|
  {
    if s == "" {
    } else if s[0] == '\\' {
      assert !ClosingQuote(s, q, 0);
      if |s| >= 2 {
        assert !Escaped(s, 0) && Escaped(s, 1);
        assert !Escaped(s, 2);
        assert !ClosingQuote(s, q, 1);
        if k >= 2 {
          ClosesShift(s, q, 2, k - 2);
          QuoteLengthCloses(s[2..], q, k - 2);
        }
      }
    } else if s[0] == q {
      assert ClosingQuote(s, q, 0);
    } else {
      assert !Escaped(s, 1) && !ClosingQuote(s, q, 0);
      if k >= 1 {
        ClosesShift(s, q, 1, k - 1);
        QuoteLengthCloses(s[1..], q, k - 1);
      }
    }
  }

  /** What follows the closing quote does not matter. */
  lemma {:induction false} QuoteLengthPrefix(s: string, rest: string, q: char)
    requires q != '\\' && QuoteLength(s, q) == Some(|s|)
    ensures QuoteLength(s + rest, q) == Some(|s|)
    decreases |s|
  {
    var n := if s[0] == '\\' then 2 else 1;
    if s[0] == '\\' || s[0] != q {
      assert QuoteLength(s[n..], q) == Some(|s[n..]|);
      QuoteLengthPrefix(s[n..], rest, q);
      assert (s + rest)[n..] == s[n..] + rest;
    } else {
      assert |s| == 1;
    }
  }

  lemma {:induction false} QuoteLengthTake(s: string, q: char)
    requires q != '\\' && QuoteLength(s, q).Some?
    ensures var n := QuoteLength(s, q).value; QuoteLength(s[..n], q) == Some(n)
    decreases |s|
  {
    var n := QuoteLength(s, q).value;
    if s[0] == '\\' || s[0] != q {
      var d := if s[0] == '\\' then 2 else 1;
      QuoteLengthTake(s[d..], q);
      assert s[..n][d..] == s[d..][..n - d];
    }
  }

  // ----- Line comments -----

  function LineLength(s: string): (n: nat)
    ensures n <= |s|
    ensures forall k :: 0 <= k < n ==> s[k] != '\n'
    ensures n < |s| ==> s[n] == '\n'
  {
    if s == "" || s[0] == '\n' then 0 else 1 + LineLength(s[1..])
  }

  lemma LineStops(s: string, n: nat)
    requires n <= |s| && (forall k :: 0 <= k < n ==> s[k] != '\n') && (n < |s| ==> s[n] == '\n')
    ensures LineLength(s) == n
  {}

  // ----- Blanking -----

  /** Spaces in place of everything but line breaks. */
  function Blanks(s: string): (r: string)
    ensures |r| == |s|
    ensures forall k :: 0 <= k < |s| ==> r[k] == if s[k] == '\n' then '\n' else ' '
  {
    seq(|s|, k requires 0 <= k < |s| => if s[k] == '\n' then '\n' else ' ')
  }

  // ----- Pieces and results -----

  /** What a scanner read: a kind and a number of characters. */
  datatype Piece<+K> = Piece(kind: K, length: nat)

  function Measured<K, E>(kind: K, why: E, length: Option<nat>): Result<Piece<K>, E> {
    if length.Some? then Ok(Piece(kind, length.value)) else Err(why)
  }

  function Prepend<E>(head: string, tail: Result<string, E>): Result<string, E> {
    match tail
    case Ok(text) => Ok(head + text)
    case Err(why) => Err(why)
  }

  lemma PrependEmpty<E>(tail: Result<string, E>)
    ensures Prepend("", tail) == tail
  {
    if tail.Ok? { assert "" + tail.value == tail.value; }
  }

  lemma PrependAssoc<E>(a: string, b: string, tail: Result<string, E>)
    ensures Prepend(a, Prepend(b, tail)) == Prepend(a + b, tail)
  {
    if tail.Ok? { assert a + (b + tail.value) == (a + b) + tail.value; }
  }
}
