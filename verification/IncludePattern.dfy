/**
 The pattern of literal includes (`expanded_target_source`,
 scripts/verify_task6_deleted_test_parity.py) as a concatenation: the words and marks of the
 item with any white space between them.
 */
module IncludePattern {
  import opened Outcome
  import opened GeneratedFiles
  import opened IncludeExpansion

  ghost predicate Spaces(s: string) { forall k :: 0 <= k < |s| ==> IsSpace(s[k]) }

  /** White space, the mark, and what follows. */
  ghost predicate Marked(s: string, mark: char, rest: string) {
    exists a :: Spaces(a) && s == a + ([mark] + rest)
  }

  lemma {:induction false} SkipSpaces(a: string, t: string)
    requires Spaces(a) && (t != "" ==> !IsSpace(t[0]))
    ensures SkipSpace(a + t) == t
  {
    if a == "" {
      assert a + t == t;
    } else {
      SkipSpaces(a[1..], t);
      assert (a + t)[1..] == a[1..] + t;
    }
  }

  lemma {:induction false} Skipped(s: string) returns (a: string)
    ensures Spaces(a) && s == a + SkipSpace(s)
    ensures SkipSpace(s) != "" ==> !IsSpace(SkipSpace(s)[0])
  {
    if s != "" && IsSpace(s[0]) {
      var b := Skipped(s[1..]);
      a := [s[0]] + b;
    } else {
      a := "";
    }
  }

  lemma AfterExactly(s: string, mark: char, rest: string)
    requires !IsSpace(mark)
    ensures After(s, mark) == Some(rest) <==> Marked(s, mark, rest)
  {
    if After(s, mark) == Some(rest) {
      var a := Skipped(s);
      assert SkipSpace(s) == [mark] + rest;
    }
    if a :| Spaces(a) && s == a + ([mark] + rest) {
      SkipSpaces(a, [mark] + rest);
      assert ([mark] + rest)[1..] == rest;
    }
  }

  /** `include`, `!` and `(`, with white space in between. */
  ghost predicate IsCall(s: string, rest: string) {
    exists a, b :: Spaces(a) && Spaces(b) && s == "include" + a + "!" + b + "(" + rest
  }

  /** Two marks, one after the other. */
  ghost predicate MarkedTwice(s: string, one: char, two: char, rest: string) {
    exists a, b :: Spaces(a) && Spaces(b) && s == a + ([one] + (b + ([two] + rest)))
  }

  lemma TwiceExactly(s: string, one: char, two: char, rest: string)
    requires !IsSpace(one) && !IsSpace(two)
    ensures (After(s, one).Some? && After(After(s, one).value, two) == Some(rest)) <==> MarkedTwice(s, one, two, rest)
  {
    if After(s, one).Some? && After(After(s, one).value, two) == Some(rest) {
      var t := After(s, one).value;
      AfterExactly(s, one, t);
      AfterExactly(t, two, rest);
      var a :| Spaces(a) && s == a + ([one] + t);
      var b :| Spaces(b) && t == b + ([two] + rest);
    }
    if a, b :| Spaces(a) && Spaces(b) && s == a + ([one] + (b + ([two] + rest))) {
      var t := b + ([two] + rest);
      assert Marked(t, two, rest) && Marked(s, one, t);
      AfterExactly(s, one, t);
      AfterExactly(t, two, rest);
    }
  }

  lemma CallShape(a: string, b: string, rest: string)
    ensures "include" + a + "!" + b + "(" + rest == "include" + (a + (['!'] + (b + (['('] + rest))))
  {}

  lemma CallExactly(s: string, rest: string)
    ensures IncludeCall(s) == Some(rest) <==> IsCall(s, rest)
  {
    if "include" <= s { TwiceExactly(s[7..], '!', '(', rest); }
    if IncludeCall(s) == Some(rest) {
      var a, b :| Spaces(a) && Spaces(b) && s[7..] == a + (['!'] + (b + (['('] + rest)));
      CallShape(a, b, rest);
      assert s == "include" + s[7..];
    }
    if a, b :| Spaces(a) && Spaces(b) && s == "include" + a + "!" + b + "(" + rest {
      CallShape(a, b, rest);
      assert s[7..] == a + (['!'] + (b + (['('] + rest)));
      assert MarkedTwice(s[7..], '!', '(', rest);
    }
  }

  /** A name has a character, and no quote and no line break. */
  ghost predicate IsName(name: string) { name != "" && '"' !in name && '\n' !in name }

  /** The name between quotes, then `)` and `;`, with white space in between. */
  ghost predicate IsEnd(s: string, name: string, rest: string) {
    exists c, d, e ::
      Spaces(c) && Spaces(d) && Spaces(e) && s == c + "\"" + name + "\"" + d + ")" + e + ";" + rest
  }

  lemma NameStops(name: string, t: string)
    requires '"' !in name && '\n' !in name && t != "" && t[0] == '"'
    ensures NameLength(name + t) == |name|
  {
    if name == "" {
      assert name + t == t;
    } else {
      assert (name + t)[1..] == name[1..] + t;
      NameStops(name[1..], t);
    }
  }

  lemma {:induction false} NameIs(s: string)
    ensures '"' !in s[..NameLength(s)] && '\n' !in s[..NameLength(s)]
  {
    if s != "" && s[0] != '"' && s[0] != '\n' {
      NameIs(s[1..]);
      assert s[..NameLength(s)] == [s[0]] + s[1..][..NameLength(s[1..])];
    }
  }

  lemma EndShape(c: string, name: string, d: string, e: string, rest: string)
    ensures c + "\"" + name + "\"" + d + ")" + e + ";" + rest ==
            c + (['"'] + (name + (['"'] + (d + ([')'] + (e + ([';'] + rest)))))))
  {}

  lemma EndRead(s: string, name: string, rest: string)
    requires QuotedName(s) == Some((name, rest))
    ensures IsName(name) && IsEnd(s, name, rest)
  {
    var t := After(s, '"').value;
    var n := NameLength(t);
    AfterExactly(s, '"', t);
    NameIs(t);
    TwiceExactly(t[n + 1..], ')', ';', rest);
    var c :| Spaces(c) && s == c + (['"'] + t);
    var d, e :| Spaces(d) && Spaces(e) && t[n + 1..] == d + ([')'] + (e + ([';'] + rest)));
    AtQuote(t, n);
    EndFrom(s, t, t[n + 1..], name, rest, c, d, e);
  }

  lemma AtQuote(t: string, n: nat)
    requires n < |t| && t[n] == '"'
    ensures t == t[..n] + (['"'] + t[n + 1..])
  {}

  lemma EndFrom(s: string, t: string, u: string, name: string, rest: string, c: string, d: string, e: string)
    requires Spaces(c) && Spaces(d) && Spaces(e) && s == c + (['"'] + t) && t == name + (['"'] + u)
    requires u == d + ([')'] + (e + ([';'] + rest)))
    ensures IsEnd(s, name, rest)
  {
    EndShape(c, name, d, e, rest);
  }

  lemma EndIsRead(s: string, name: string, rest: string, c: string, d: string, e: string)
    requires IsName(name) && Spaces(c) && Spaces(d) && Spaces(e)
    requires s == c + "\"" + name + "\"" + d + ")" + e + ";" + rest
    ensures QuotedName(s) == Some((name, rest))
  {
    EndShape(c, name, d, e, rest);
    var u := d + ([')'] + (e + ([';'] + rest)));
    var t := name + (['"'] + u);
    assert Marked(s, '"', t);
    AfterExactly(s, '"', t);
    NameStops(name, ['"'] + u);
    assert t[..|name|] == name && t[|name| + 1..] == u;
    assert MarkedTwice(u, ')', ';', rest);
    TwiceExactly(u, ')', ';', rest);
  }

  lemma EndExactly(s: string, name: string, rest: string)
    ensures QuotedName(s) == Some((name, rest)) <==> IsName(name) && IsEnd(s, name, rest)
  {
    if QuotedName(s) == Some((name, rest)) { EndRead(s, name, rest); }
    if IsName(name) && IsEnd(s, name, rest) {
      var c, d, e :|
        Spaces(c) && Spaces(d) && Spaces(e) && s == c + "\"" + name + "\"" + d + ")" + e + ";" + rest;
      EndIsRead(s, name, rest, c, d, e);
    }
  }

  /** A literal include: the call, then the quoted name and its closing marks. */
  ghost predicate IsInclude(s: string, name: string, rest: string) {
    IsName(name) && exists t :: IsCall(s, t) && IsEnd(t, name, rest)
  }

  /** Reading an include at the start of a text finds exactly this pattern. */
  lemma IncludeExactly(s: string, name: string, rest: string)
    ensures LiteralInclude(s) == Some((name, rest)) <==> IsInclude(s, name, rest)
  {
    var call := IncludeCall(s);
    if call.Some? {
      CallExactly(s, call.value);
      EndExactly(call.value, name, rest);
    }
    if IsInclude(s, name, rest) {
      var t :| IsCall(s, t) && IsEnd(t, name, rest);
      CallExactly(s, t);
      EndExactly(t, name, rest);
    }
  }

  /** A text holds an include when the pattern matches somewhere. */
  lemma HoldsExactly(s: string)
    ensures HasLiteral(s) <==> exists i, name, rest :: 0 <= i <= |s| && IsInclude(s[i..], name, rest)
  {
    if HasLiteral(s) {
      var i := LiteralFound(s);
      var (name, rest) := LiteralInclude(s[i..]).value;
      IncludeExactly(s[i..], name, rest);
    }
    if i, name, rest :| 0 <= i <= |s| && IsInclude(s[i..], name, rest) {
      IncludeExactly(s[i..], name, rest);
      LiteralSeen(s, i);
    }
  }
}
