/**
 `trait_declarations` (scripts/verify_no_physical_standard.py): reads the methods of every
 trait out of a token stream with one integer depth, on top of the delimiter matcher.
 */
module TraitDeclarations {
  import opened Outcome
  import opened Delimiters

  datatype Token = Token(kind: string, text: string)

  datatype Declaration = Declaration(name: string, methods: set<string>)

  datatype TraitFailure = BadDelimiters(why: Failure) | BodyMissing(name: string)

  function ShapeOf(t: Token): Shape {
    if t.text == "(" then Open(Paren)
    else if t.text == ")" then Close(Paren)
    else if t.text == "[" then Open(Bracket)
    else if t.text == "]" then Close(Bracket)
    else if t.text == "{" then Open(Brace)
    else if t.text == "}" then Close(Brace)
    else Plain
  }

  function ShapesOf(tokens: seq<Token>): (r: seq<Shape>)
    ensures |r| == |tokens|
    ensures forall i :: 0 <= i < |tokens| ==> r[i] == ShapeOf(tokens[i])
  {
    seq(|tokens|, i requires 0 <= i < |tokens| => ShapeOf(tokens[i]))
  }

  /** The name an identifier token stands for, raw or not. */
  ghost predicate Names(text: string, name: string) {
    text == "r#" + name || (text == name && !("r#" <= text))
  }

  /** `removeprefix("r#")`. */
  function StripRaw(text: string): (r: string)
    ensures Names(text, r) && forall name :: Names(text, name) ==> name == r
  {
    assert forall name :: ("r#" + name)[2..] == name;
    if "r#" <= text then assert text == "r#" + text[2..]; text[2..] else text
  }

  // ----- What the collected methods mean -----

  /** The pair opened at `a`, strictly inside the body opened at `o`, is still open before token `k`. */
  ghost predicate Encloses(m: Pairing, o: nat, a: nat, k: nat) {
    a in m && o < a < k <= m[a]
  }

  /** A function name at token `k + 1`, inside the body of `o` and inside none of its inner pairs. */
  ghost predicate BodyFunction(tokens: seq<Token>, m: Pairing, o: nat, k: nat)
    requires o in m && m[o] < |tokens|
  {
    && o < k && k + 1 < m[o]
    && tokens[k].text == "fn"
    && tokens[k + 1].kind == "IDENT"
    && forall a :: !Encloses(m, o, a, k)
  }

  /** `methods` holds the names of the body functions found before token `end`. */
  ghost predicate NamesBefore(tokens: seq<Token>, m: Pairing, o: nat, end: nat, methods: set<string>)
    requires o in m && m[o] < |tokens|
  {
    && (forall k: nat, n :: k < end && BodyFunction(tokens, m, o, k) && Names(tokens[k + 1].text, n) ==> n in methods)
    && (forall n :: n in methods ==> NamesFunction(tokens, m, o, n))
  }

  ghost predicate NamesFunction(tokens: seq<Token>, m: Pairing, o: nat, n: string)
    requires o in m && m[o] < |tokens|
  {
    exists k: nat :: BodyFunction(tokens, m, o, k) && Names(tokens[k + 1].text, n)
  }

  predicate TraitHead(tokens: seq<Token>, i: nat) {
    i + 1 < |tokens| && tokens[i].text == "trait" && tokens[i + 1].kind == "IDENT"
  }

  /** The trait heads among the first `n` tokens, in order. */
  function TraitHeads(tokens: seq<Token>, n: nat): (r: seq<nat>)
    ensures forall i: nat :: i in r <==> i < n && TraitHead(tokens, i)
  {
    if n == 0 then []
    else TraitHeads(tokens, n - 1) + if TraitHead(tokens, n - 1) then [n - 1] else []
  }

  ghost predicate FirstBrace(tokens: seq<Token>, start: nat, o: nat) {
    start <= o < |tokens| && tokens[o].text == "{" && forall k :: start <= k < o ==> tokens[k].text != "{"
  }

  ghost predicate NoBrace(tokens: seq<Token>, start: nat) {
    forall k :: start <= k < |tokens| ==> tokens[k].text != "{"
  }

  /** `d` is the declaration of the trait whose head is at token `i`. */
  ghost predicate Declares(tokens: seq<Token>, m: Pairing, i: nat, d: Declaration)
    requires IsMatching(ShapesOf(tokens), m)
  {
    && TraitHead(tokens, i)
    && Names(tokens[i + 1].text, d.name)
    && exists o ::
         FirstBrace(tokens, i + 2, o) && o in m && m[o] < |tokens| && NamesBefore(tokens, m, o, m[o], d.methods)
  }

  // ----- The pairs are pairs of token texts -----

  ghost predicate Opens(text: string) { text == "(" || text == "[" || text == "{" }

  ghost predicate Closes(text: string) { text == ")" || text == "]" || text == "}" }

  ghost predicate PairOf(open: string, close: string) {
    (open == "(" && close == ")") || (open == "[" && close == "]") || (open == "{" && close == "}")
  }

  /** Every opening token has its closing token behind it, and every closing token an opening one. */
  ghost predicate PairsTexts(tokens: seq<Token>, m: Pairing) {
    && (forall a: nat :: a in m <==> a < |tokens| && Opens(tokens[a].text))
    && (forall a :: a in m ==> a < m[a] < |tokens| && PairOf(tokens[a].text, tokens[m[a]].text))
    && (forall c: nat :: c < |tokens| && Closes(tokens[c].text) ==> exists a :: a in m && m[a] == c)
  }

  lemma ShapeTexts(t: Token)
    ensures ShapeOf(t).Open? <==> Opens(t.text)
    ensures ShapeOf(t).Close? <==> Closes(t.text)
  {}

  lemma PairedShapes(a: Token, b: Token)
    requires ShapeOf(a).Open? && ShapeOf(b).Close? && ShapeOf(b) == Close(ShapeOf(a).kind)
    ensures PairOf(a.text, b.text)
  {}

  lemma MatchingTexts(tokens: seq<Token>, m: Pairing)
    requires IsMatching(ShapesOf(tokens), m)
    ensures PairsTexts(tokens, m)
  {
    var s := ShapesOf(tokens);
    forall a: nat | a < |tokens| ensures s[a].Open? <==> Opens(tokens[a].text) { ShapeTexts(tokens[a]); }
    forall a | a in m ensures a < m[a] < |tokens| && PairOf(tokens[a].text, tokens[m[a]].text) {
      assert IsPair(s, a, m[a]);
      PairedShapes(tokens[a], tokens[m[a]]);
    }
    forall c: nat | c < |tokens| && Closes(tokens[c].text) ensures exists a :: a in m && m[a] == c {
      ShapeTexts(tokens[c]);
      assert HasOpener(m, c);
    }
  }

  // ----- The depth counter -----

  ghost function Height(s: Stack): nat {
    if s.Bottom? then 0 else 1 + Height(s.rest)
  }

  /** `chain` lists exactly the inner pairs of the body of `o` that are open before token `k`. */
  ghost predicate OpenChain(s: seq<Shape>, m: Pairing, o: nat, k: nat, chain: Stack) {
    && Waiting(s, chain, k)
    && forall a: nat :: Has(chain, a) <==> Encloses(m, o, a, k)
  }

  lemma ChainOpen(s: seq<Shape>, m: Pairing, o: nat, k: nat, chain: Stack)
    requires IsMatching(s, m) && OpenChain(s, m, o, k, chain) && o < k < |s| && s[k].Open?
    ensures OpenChain(s, m, o, k + 1, Push(k, chain))
  {
    assert IsPair(s, k, m[k]);
    forall a: nat ensures Has(Push(k, chain), a) <==> Encloses(m, o, a, k + 1) {
      if a in m { assert IsPair(s, a, m[a]); }
    }
  }

  lemma ChainPlain(s: seq<Shape>, m: Pairing, o: nat, k: nat, chain: Stack)
    requires IsMatching(s, m) && OpenChain(s, m, o, k, chain) && o < k < |s| && s[k].Plain?
    ensures OpenChain(s, m, o, k + 1, chain)
  {
    Relax(s, chain, k, k + 1);
    forall a: nat ensures Encloses(m, o, a, k) <==> Encloses(m, o, a, k + 1) {
      if a in m { assert IsPair(s, a, m[a]); }
    }
  }

  /** A closer inside the body closes the innermost open pair, so the depth cannot go negative. */
  lemma ChainClose(s: seq<Shape>, m: Pairing, o: nat, k: nat, chain: Stack)
    requires IsMatching(s, m) && o in m && OpenChain(s, m, o, k, chain) && o < k < m[o] && k < |s| && s[k].Close?
    ensures chain.Push? && OpenChain(s, m, o, k + 1, chain.rest)
  {
    assert HasOpener(m, k);
    var q :| q in m && m[q] == k;
    assert IsPair(s, q, m[q]) && IsPair(s, o, m[o]);
    assert Enclosed(m, q, o) && Parted(m, q, o) && Encloses(m, o, q, k);
    assert Has(chain, chain.top) && Encloses(m, o, chain.top, k);
    assert Enclosed(m, q, chain.top) && Parted(m, q, chain.top);
    assert q == chain.top by {
      if q != chain.top { WaitingBelow(s, chain.rest, chain.top, q); }
    }
    ChainDrop(s, m, o, k, chain);
  }

  lemma ChainDrop(s: seq<Shape>, m: Pairing, o: nat, k: nat, chain: Stack)
    requires IsMatching(s, m) && OpenChain(s, m, o, k, chain) && k < |s| && s[k].Close?
    requires chain.Push? && chain.top in m && m[chain.top] == k
    ensures OpenChain(s, m, o, k + 1, chain.rest)
  {
    Relax(s, chain.rest, chain.top, k + 1);
    forall a: nat ensures Has(chain.rest, a) ==> Encloses(m, o, a, k + 1) {
      if Has(chain.rest, a) {
        WaitingBelow(s, chain.rest, chain.top, a);
        assert Has(chain, a) && Parted(m, a, chain.top);
      }
    }
    forall a: nat ensures Encloses(m, o, a, k + 1) ==> Has(chain.rest, a) {
      if Encloses(m, o, a, k + 1) {
        assert IsPair(s, a, m[a]);
        assert Encloses(m, o, a, k);
        assert Has(chain, a);
      }
    }
  }

  lemma FunctionAt(tokens: seq<Token>, m: Pairing, o: nat, k: nat, chain: Stack, methods: set<string>)
    returns (grown: set<string>)
    requires o in m && o < k < m[o] < |tokens|
    requires OpenChain(ShapesOf(tokens), m, o, k, chain) && NamesBefore(tokens, m, o, k, methods)
    ensures grown == (
              if Height(chain) == 0 && tokens[k].text == "fn" && k + 1 < m[o] && tokens[k + 1].kind == "IDENT"
              then methods + {StripRaw(tokens[k + 1].text)} else methods)
    ensures NamesBefore(tokens, m, o, k + 1, grown)
  {
    grown := methods;
    assert chain.Push? ==> Has(chain, chain.top);
    assert chain.Push? ==> Encloses(m, o, chain.top, k);
    if Height(chain) == 0 && tokens[k].text == "fn" && k + 1 < m[o] && tokens[k + 1].kind == "IDENT" {
      assert BodyFunction(tokens, m, o, k);
      grown := methods + {StripRaw(tokens[k + 1].text)};
      forall n | n in grown ensures NamesFunction(tokens, m, o, n) {}
    }
  }

  lemma DelimiterAt(tokens: seq<Token>, m: Pairing, o: nat, k: nat, methods: set<string>)
    requires o in m && o < k < m[o] < |tokens|
    requires NamesBefore(tokens, m, o, k, methods) && !ShapeOf(tokens[k]).Plain?
    ensures NamesBefore(tokens, m, o, k + 1, methods)
  {
    assert tokens[k].text != "fn";
  }

  /** The walk over one trait body. */
  method BodyMethods(tokens: seq<Token>, m: Pairing, opening: nat) returns (methods: set<string>)
    requires IsMatching(ShapesOf(tokens), m)
    requires opening in m && m[opening] < |tokens|
    ensures NamesBefore(tokens, m, opening, m[opening], methods)
  {
    ghost var s := ShapesOf(tokens);
    assert IsPair(s, opening, m[opening]);
    var closing := m[opening];
    methods := {};
    var depth := 0;
    var cursor := opening + 1;
    ghost var chain := Bottom;
    while cursor < closing
      invariant opening < cursor <= closing
      invariant OpenChain(s, m, opening, cursor, chain) && depth == Height(chain)
      invariant NamesBefore(tokens, m, opening, cursor, methods)
    {
      var shape := ShapeOf(tokens[cursor]);
      if shape.Open? {
        ChainOpen(s, m, opening, cursor, chain);
        DelimiterAt(tokens, m, opening, cursor, methods);
        depth, chain := depth + 1, Push(cursor, chain);
      } else if shape.Close? {
        ChainClose(s, m, opening, cursor, chain);
        DelimiterAt(tokens, m, opening, cursor, methods);
        depth, chain := depth - 1, chain.rest;
      } else {
        ghost var grown := FunctionAt(tokens, m, opening, cursor, chain, methods);
        if depth == 0 && tokens[cursor].text == "fn" && cursor + 1 < closing && tokens[cursor + 1].kind == "IDENT" {
          methods := methods + {StripRaw(tokens[cursor + 1].text)};
        }
        ChainPlain(s, m, opening, cursor, chain);
      }
      cursor := cursor + 1;
    }
  }

  ghost function Elements(s: Stack): set<nat> {
    if s.Bottom? then {} else {s.top} + Elements(s.rest)
  }

  lemma {:induction false} HeightIsCount(s: seq<Shape>, chain: Stack, bound: nat)
    requires Waiting(s, chain, bound)
    ensures |Elements(chain)| == Height(chain)
    ensures forall a: nat :: a in Elements(chain) <==> Has(chain, a)
  {
    if chain.Push? {
      HeightIsCount(s, chain.rest, chain.top);
      if Has(chain.rest, chain.top) { WaitingBelow(s, chain.rest, chain.top, chain.top); }
    }
  }

  /** The counter of the walk: openers minus closers of all kinds since the body began. */
  ghost function Depth(s: seq<Shape>, o: nat, k: nat): int
    requires o < k <= |s|
  {
    if k == o + 1 then 0
    else Depth(s, o, k - 1) + if s[k - 1].Open? then 1 else if s[k - 1].Close? then -1 else 0
  }

  lemma {:induction false} BuildChain(s: seq<Shape>, m: Pairing, o: nat, k: nat) returns (chain: Stack)
    requires IsMatching(s, m) && o in m && o < k <= m[o] < |s|
    ensures OpenChain(s, m, o, k, chain) && Height(chain) == Depth(s, o, k)
  {
    if k == o + 1 {
      chain := Bottom;
    } else {
      var before := BuildChain(s, m, o, k - 1);
      chain := ChainNext(s, m, o, k - 1, before);
    }
  }

  lemma ChainNext(s: seq<Shape>, m: Pairing, o: nat, k: nat, before: Stack) returns (chain: Stack)
    requires IsMatching(s, m) && o in m && o < k < m[o] < |s| && OpenChain(s, m, o, k, before)
    ensures OpenChain(s, m, o, k + 1, chain)
    ensures Height(chain) == Height(before) + if s[k].Open? then 1 else if s[k].Close? then -1 else 0
  {
    if s[k].Open? {
      ChainOpen(s, m, o, k, before);
      chain := Push(k, before);
    } else if s[k].Close? {
      ChainClose(s, m, o, k, before);
      chain := before.rest;
    } else {
      ChainPlain(s, m, o, k, before);
      chain := before;
    }
  }

  /** The single depth is the number of inner pairs open at the cursor, so it is never negative. */
  lemma DepthCountsEnclosingPairs(s: seq<Shape>, m: Pairing, o: nat, k: nat)
    requires IsMatching(s, m) && o in m && o < k <= m[o] < |s|
    ensures Depth(s, o, k) == |set a | a in m && Encloses(m, o, a, k)|
  {
    var chain := BuildChain(s, m, o, k);
    HeightIsCount(s, chain, k);
    assert Elements(chain) == set a | a in m && Encloses(m, o, a, k);
  }

  // ----- All traits of a source -----

  method FindBrace(tokens: seq<Token>, start: nat) returns (o: Option<nat>)
    ensures o.Some? ==> FirstBrace(tokens, start, o.value)
    ensures o.None? ==> NoBrace(tokens, start)
  {
    var cursor := start;
    while cursor < |tokens|
      invariant forall k :: start <= k < cursor && k < |tokens| ==> tokens[k].text != "{"
    {
      if tokens[cursor].text == "{" {
        return Some(cursor);
      }
      cursor := cursor + 1;
    }
    return None;
  }

  method Collect(tokens: seq<Token>) returns (r: Result<seq<Declaration>, TraitFailure>)
    ensures r.Err? && r.error.BadDelimiters? <==> !Nested(ShapesOf(tokens))
    ensures r.Err? && r.error.BodyMissing? ==>
              exists i: nat ::
                TraitHead(tokens, i) && NoBrace(tokens, i + 2) && Names(tokens[i + 1].text, r.error.name)
    ensures r.Ok? ==> exists m ::
              IsMatching(ShapesOf(tokens), m) && PairsTexts(tokens, m) && DeclaresAll(tokens, m, |tokens|, r.value)
  {
    var matched := MatchingDelimiters(ShapesOf(tokens));
    if matched.Err? {
      return Err(BadDelimiters(matched.error));
    }
    var matching := matched.value;
    MatchingTexts(tokens, matching);
    var declarations: seq<Declaration> := [];
    for index := 0 to |tokens|
      invariant DeclaresAll(tokens, matching, index, declarations)
    {
      if TraitHead(tokens, index) {
        var declaration := Declare(tokens, matching, index);
        if declaration.Err? {
          return Err(declaration.error);
        }
        DeclaresNext(tokens, matching, index, declarations, declaration.value);
        declarations := declarations + [declaration.value];
      }
    }
    r := Ok(declarations);
  }

  /** The declaration of the trait whose head is at token `index`. */
  method Declare(tokens: seq<Token>, m: Pairing, index: nat) returns (r: Result<Declaration, TraitFailure>)
    requires IsMatching(ShapesOf(tokens), m) && TraitHead(tokens, index)
    ensures r.Err? ==> r.error == BodyMissing(StripRaw(tokens[index + 1].text)) && NoBrace(tokens, index + 2)
    ensures r.Ok? ==> Declares(tokens, m, index, r.value)
  {
    var name := StripRaw(tokens[index + 1].text);
    var opening := FindBrace(tokens, index + 2);
    if opening.None? {
      return Err(BodyMissing(name));
    }
    BraceIsMatched(tokens, m, opening.value);
    var methods := BodyMethods(tokens, m, opening.value);
    r := Ok(Declaration(name, methods));
  }

  lemma DeclaresNext(tokens: seq<Token>, m: Pairing, n: nat, declarations: seq<Declaration>, d: Declaration)
    requires IsMatching(ShapesOf(tokens), m) && DeclaresAll(tokens, m, n, declarations) && Declares(tokens, m, n, d)
    ensures DeclaresAll(tokens, m, n + 1, declarations + [d])
  {
    assert TraitHeads(tokens, n + 1) == TraitHeads(tokens, n) + [n];
  }

  lemma BraceIsMatched(tokens: seq<Token>, m: Pairing, o: nat)
    requires IsMatching(ShapesOf(tokens), m) && o < |tokens| && tokens[o].text == "{"
    ensures o in m && m[o] < |tokens|
  {
    assert ShapesOf(tokens)[o] == Open(Brace);
    assert IsPair(ShapesOf(tokens), o, m[o]);
  }

  /** One declaration for every trait head among the first `n` tokens, in source order. */
  ghost predicate DeclaresAll(tokens: seq<Token>, m: Pairing, n: nat, declarations: seq<Declaration>)
    requires IsMatching(ShapesOf(tokens), m)
  {
    var heads := TraitHeads(tokens, n);
    |declarations| == |heads| && forall i :: 0 <= i < |heads| ==> Declares(tokens, m, heads[i], declarations[i])
  }
}
