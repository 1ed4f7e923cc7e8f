/**
 What the expansion of IncludeExpansion leaves behind. The script replaces the literal
 includes of each file, but it never looks at the text it has put together: where an
 included text ends and the text behind the include goes on, the two may spell an include
 that neither of them held. Reading an include character by character has three outcomes,
 and a seam is safe exactly when no end of the text in front of it is an include that has
 been begun and not finished.
 */
module IncludeSeams {
  import opened Outcome
  import opened GeneratedFiles
  import opened IncludeExpansion

  // ----- Reading an include -----

  /** The text cannot begin an include, is the beginning of one, or holds one and goes on with `rest`. */
  datatype Reading = Stuck | More | Done(rest: string)

  /** Spaces, then the character `c`. */
  function Expect(s: string, c: char): Reading {
    var t := SkipSpace(s);
    if t == "" then More else if t[0] == c then Done(t[1..]) else Stuck
  }

  function ReadCall(s: string): Reading {
    match Expect(s, '!')
    case Done(t) => Expect(t, '(')
    case other => other
  }

  function ReadClosing(s: string): Reading {
    match Expect(s, ')')
    case Done(t) => Expect(t, ';')
    case other => other
  }

  function ReadName(s: string): Reading {
    var n := NameLength(s);
    if n == |s| then More else if n == 0 || s[n] != '"' then Stuck else ReadClosing(s[n + 1..])
  }

  function ReadQuoted(s: string): Reading {
    match Expect(s, '"')
    case Done(t) => ReadName(t)
    case other => other
  }

  function ReadBehindWord(s: string): Reading {
    match ReadCall(s)
    case Done(t) => ReadQuoted(t)
    case other => other
  }

  function ReadInclude(s: string): Reading {
    if |s| < 7 then (if s <= "include" then More else Stuck)
    else if "include" <= s then ReadBehindWord(s[7..])
    else Stuck
  }

  lemma QuotedIsName(s: string)
    ensures ReadQuoted(s).Done? <==> QuotedName(s).Some?
  {}

  lemma CallIsRead(s: string)
    requires "include" <= s
    ensures ReadCall(s[7..]).Done? <==> IncludeCall(s).Some?
    ensures ReadCall(s[7..]).Done? ==> IncludeCall(s) == Some(ReadCall(s[7..]).rest)
  {}

  lemma ReadIsLiteral(s: string)
    ensures ReadInclude(s).Done? <==> LiteralInclude(s).Some?
  {
    if "include" <= s {
      CallIsRead(s);
      if IncludeCall(s).Some? { QuotedIsName(IncludeCall(s).value); }
    }
  }

  // ----- What more text does to a reading -----

  /** A decision stays when `v` follows. */
  ghost predicate Grows(before: Reading, after: Reading, v: string) {
    match before
    case Stuck => after == Stuck
    case Done(t) => after == Done(t + v)
    case More => true
  }

  lemma {:induction false} SpaceExtends(s: string, v: string)
    requires SkipSpace(s) != ""
    ensures SkipSpace(s + v) == SkipSpace(s) + v
    decreases |s|
  {
    if IsSpace(s[0]) {
      SpaceExtends(s[1..], v);
      assert (s + v)[1..] == s[1..] + v;
    }
  }

  lemma ExpectGrows(s: string, v: string, c: char)
    ensures Grows(Expect(s, c), Expect(s + v, c), v)
  {
    var t := SkipSpace(s);
    if t != "" {
      SpaceExtends(s, v);
      assert (t + v)[0] == t[0] && (t + v)[1..] == t[1..] + v;
    }
  }

  lemma {:induction false} NameExtends(s: string, v: string)
    requires NameLength(s) < |s|
    ensures NameLength(s + v) == NameLength(s)
    decreases |s|
  {
    if s[0] != '"' && s[0] != '\n' {
      NameExtends(s[1..], v);
      assert (s + v)[1..] == s[1..] + v;
    }
  }

  lemma CallGrows(s: string, v: string)
    ensures Grows(ReadCall(s), ReadCall(s + v), v)
  {
    ExpectGrows(s, v, '!');
    if Expect(s, '!').Done? { ExpectGrows(Expect(s, '!').rest, v, '('); }
  }

  lemma ClosingGrows(s: string, v: string)
    ensures Grows(ReadClosing(s), ReadClosing(s + v), v)
  {
    ExpectGrows(s, v, ')');
    if Expect(s, ')').Done? { ExpectGrows(Expect(s, ')').rest, v, ';'); }
  }

  lemma NameGrows(s: string, v: string)
    ensures Grows(ReadName(s), ReadName(s + v), v)
  {
    var n := NameLength(s);
    if n < |s| {
      NameExtends(s, v);
      assert (s + v)[n] == s[n] && (s + v)[n + 1..] == s[n + 1..] + v;
      ClosingGrows(s[n + 1..], v);
    }
  }

  lemma QuotedGrows(s: string, v: string)
    ensures Grows(ReadQuoted(s), ReadQuoted(s + v), v)
  {
    ExpectGrows(s, v, '"');
    if Expect(s, '"').Done? { NameGrows(Expect(s, '"').rest, v); }
  }

  lemma WordGrows(s: string, v: string)
    ensures Grows(ReadBehindWord(s), ReadBehindWord(s + v), v)
  {
    CallGrows(s, v);
    if ReadCall(s).Done? { QuotedGrows(ReadCall(s).rest, v); }
  }

  /** What has been decided on a text stays decided when text follows. */
  lemma IncludeGrows(s: string, v: string)
    ensures Grows(ReadInclude(s), ReadInclude(s + v), v)
  {
    var t := s + v;
    if |s| < 7 {
      if !(s <= "include") { NotBegun(s, v); }
    } else {
      assert t[..7] == s[..7] && t[7..] == s[7..] + v;
      WordGrows(s[7..], v);
    }
  }

  lemma NotBegun(s: string, v: string)
    requires |s| < 7 && !(s <= "include")
    ensures ReadInclude(s + v) == Stuck
  {
    var t := s + v;
    if t <= "include" || "include" <= t { PrefixesMeet(s, t, "include"); }
  }

  lemma PrefixesMeet(s: string, t: string, w: string)
    requires s <= t && (t <= w || w <= t) && |s| <= |w|
    ensures s <= w
  {}

  // ----- Finishing an include -----

  lemma {:induction false} OnlySpaces(s: string, t: string)
    requires SkipSpace(s) == "" && t != "" && !IsSpace(t[0])
    ensures SkipSpace(s + t) == t
    decreases |s|
  {
    if s == "" {
      assert s + t == t;
    } else {
      OnlySpaces(s[1..], t);
      assert (s + t)[1..] == s[1..] + t;
    }
  }

  lemma FinishExpect(s: string, c: char, r: string)
    requires Expect(s, c) == More && !IsSpace(c)
    ensures Expect(s + ([c] + r), c) == Done(r)
  {
    OnlySpaces(s, [c] + r);
    assert ([c] + r)[1..] == r;
  }

  lemma FinishClosing(s: string) returns (v: string)
    requires ReadClosing(s) == More
    ensures ReadClosing(s + v).Done? && 'i' !in v
  {
    if Expect(s, ')') == More {
      v := [')'] + [';'];
      FinishExpect(s, ')', [';']);
      FinishExpect("", ';', "");
      assert "" + ([';'] + "") == [';'];
    } else {
      var t := Expect(s, ')').rest;
      v := [';'] + "";
      ExpectGrows(s, v, ')');
      FinishExpect(t, ';', "");
    }
  }

  lemma {:induction false} NameStops(s: string, v: string)
    requires NameLength(s) == |s| && v != "" && v[0] == '"'
    ensures NameLength(s + v) == |s|
    decreases |s|
  {
    if s == "" {
      assert s + v == v;
    } else {
      NameStops(s[1..], v);
      assert (s + v)[1..] == s[1..] + v;
    }
  }

  lemma CloseAll()
    ensures ReadClosing([')', ';']).Done?
  {
    FinishExpect("", ')', [';']);
    FinishExpect("", ';', "");
    assert "" + ([')'] + [';']) == [')', ';'] && "" + ([';'] + "") == [';'];
  }

  lemma NameOf(name: string)
    requires name != "" && NameLength(name) == |name|
    ensures ReadName(name + ['"', ')', ';']).Done?
  {
    var s, n := name + ['"', ')', ';'], |name|;
    NameStops(name, ['"', ')', ';']);
    assert s[n] == '"' && s[n + 1..] == [')', ';'];
    CloseAll();
  }

  lemma FinishName(s: string) returns (v: string)
    requires ReadName(s) == More
    ensures ReadName(s + v).Done? && 'i' !in v
  {
    var n := NameLength(s);
    if n == |s| && s != "" {
      v := ['"', ')', ';'];
      NameOf(s);
    } else if s == "" {
      v := ['a'] + ['"', ')', ';'];
      NameOf(['a']);
      assert s + v == v;
    } else {
      var w := FinishClosing(s[n + 1..]);
      v := w;
      NameExtends(s, v);
      assert (s + v)[n] == s[n] && (s + v)[n + 1..] == s[n + 1..] + v;
    }
  }

  lemma FinishQuoted(s: string) returns (v: string)
    requires ReadQuoted(s) == More
    ensures ReadQuoted(s + v).Done? && 'i' !in v
  {
    if Expect(s, '"') == More {
      var w := FinishName("");
      v := ['"'] + w;
      FinishExpect(s, '"', w);
      assert "" + w == w;
    } else {
      v := FinishName(Expect(s, '"').rest);
      ExpectGrows(s, v, '"');
    }
  }

  lemma FinishCall(s: string) returns (v: string)
    requires ReadCall(s) == More
    ensures ReadCall(s + v) == Done("") && 'i' !in v
  {
    if Expect(s, '!') == More {
      v := ['!'] + ['('];
      FinishExpect(s, '!', ['(']);
      FinishExpect("", '(', "");
      assert "" + (['('] + "") == ['('];
    } else {
      v := ['('] + "";
      ExpectGrows(s, v, '!');
      FinishExpect(Expect(s, '!').rest, '(', "");
    }
  }

  lemma CallThenQuoted(s: string, x: string, y: string)
    requires ReadCall(s + x) == Done("") && ReadQuoted("" + y).Done?
    ensures ReadBehindWord(s + (x + y)).Done?
  {
    CallGrows(s + x, y);
    assert (s + x) + y == s + (x + y);
  }

  lemma FinishWord(s: string) returns (v: string)
    requires ReadBehindWord(s) == More
    ensures ReadBehindWord(s + v).Done? && 'i' !in v
  {
    if ReadCall(s) == More {
      var x := FinishCall(s);
      var y := FinishQuoted("");
      v := x + y;
      CallThenQuoted(s, x, y);
    } else {
      v := FinishQuoted(ReadCall(s).rest);
      CallGrows(s, v);
    }
  }

  /** Every beginning can be finished by a text that starts no include itself. */
  lemma FinishInclude(s: string) returns (v: string)
    requires s != "" && ReadInclude(s) == More
    ensures ReadInclude(s + v).Done? && !HasLiteral(v)
  {
    if |s| < 7 {
      var word := "include"[|s|..];
      var w := FinishWord("");
      v := word + w;
      assert s + word == "include" && s + v == "include" + w && (s + v)[7..] == w && "" + w == w;
      NoStart(v);
    } else {
      v := FinishWord(s[7..]);
      assert (s + v)[..7] == s[..7] && (s + v)[7..] == s[7..] + v;
      NoStart(v);
    }
  }

  lemma NoStart(v: string)
    requires 'i' !in v
    ensures !HasLiteral(v)
  {
    if HasLiteral(v) {
      var i := LiteralFound(v);
      StartsWithI(v, i);
    }
  }

  lemma StartsWithI(v: string, i: nat)
    requires i <= |v| && LiteralInclude(v[i..]).Some?
    ensures 'i' in v
  {
    assert v[i..][0] == "include"[0] && v[i] == 'i';
  }

  // ----- Sealed texts -----

  /** No end of the text is an include that has been begun and not finished. */
  predicate Sealed(u: string) {
    forall i :: 0 <= i < |u| ==> ReadInclude(u[i..]) != More
  }

  /** No include arises at the end of a sealed text. */
  lemma SealedSeam(u: string, v: string)
    requires Sealed(u) && HasLiteral(u + v)
    ensures HasLiteral(u) || HasLiteral(v)
  {
    var i := LiteralFound(u + v);
    if i < |u| {
      assert (u + v)[i..] == u[i..] + v;
      ReadIsLiteral(u[i..] + v);
      IncludeGrows(u[i..], v);
      ReadIsLiteral(u[i..]);
      LiteralSeen(u, i);
    } else {
      assert (u + v)[i..] == v[i - |u|..];
      LiteralSeen(v, i - |u|);
    }
  }

  /**
   A text without includes is safe in front of every text without includes if and only if
   it is sealed.
   */
  lemma SealedExactly(u: string)
    requires !HasLiteral(u)
    ensures Sealed(u) <==> forall v :: !HasLiteral(v) ==> !HasLiteral(u + v)
  {
    if Sealed(u) {
      forall v | !HasLiteral(v) ensures !HasLiteral(u + v) {
        if HasLiteral(u + v) { SealedSeam(u, v); }
      }
    } else {
      var v := Unsealed(u);
    }
  }

  lemma Unsealed(u: string) returns (v: string)
    requires !Sealed(u)
    ensures !HasLiteral(v) && HasLiteral(u + v)
  {
    var i :| 0 <= i < |u| && ReadInclude(u[i..]) == More;
    v := FinishInclude(u[i..]);
    ReadIsLiteral(u[i..] + v);
    assert (u + v)[i..] == u[i..] + v;
    LiteralSeen(u + v, i);
  }

  lemma SealedJoin(a: string, b: string)
    requires Sealed(a) && Sealed(b)
    ensures Sealed(a + b)
  {
    forall i | 0 <= i < |a + b| ensures ReadInclude((a + b)[i..]) != More {
      if i < |a| {
        assert (a + b)[i..] == a[i..] + b;
        IncludeGrows(a[i..], b);
      } else {
        assert (a + b)[i..] == b[i - |a|..];
      }
    }
  }

  // ----- Line breaks that seal -----

  /** A character that cannot stand in front of a line break inside an include. */
  predicate Stops(c: char) { !IsSpace(c) && c !in ['e', '!', '(', '"', ')'] }

  /** The text ends with such a character and a line break. */
  predicate EndsStopped(s: string) { |s| >= 2 && Stops(s[|s| - 2]) && s[|s| - 1] == '\n' }

  lemma {:induction false} SpaceStops(s: string)
    requires EndsStopped(s)
    ensures EndsStopped(SkipSpace(s))
    decreases |s|
  {
    if IsSpace(s[0]) { SpaceStops(s[1..]); }
  }

  lemma ExpectStops(s: string, c: char)
    requires EndsStopped(s)
    ensures Expect(s, c) != More
    ensures Expect(s, c).Done? && !Stops(c) && c != '\n' ==> EndsStopped(Expect(s, c).rest)
  {
    SpaceStops(s);
  }

  lemma {:induction false} NameBeforeStop(s: string)
    requires s != "" && s[|s| - 1] == '\n'
    ensures NameLength(s) < |s|
    decreases |s|
  {
    if s[0] != '"' && s[0] != '\n' { NameBeforeStop(s[1..]); }
  }

  lemma NameStopped(s: string)
    requires EndsStopped(s)
    ensures ReadName(s) != More
  {
    var n := NameLength(s);
    NameBeforeStop(s);
    if s[n] == '"' && n > 0 {
      ExpectStops(s[n + 1..], ')');
      if Expect(s[n + 1..], ')').Done? { ExpectStops(Expect(s[n + 1..], ')').rest, ';'); }
    }
  }

  lemma WordStopped(s: string)
    requires EndsStopped(s)
    ensures ReadBehindWord(s) != More
  {
    ExpectStops(s, '!');
    if Expect(s, '!').Done? {
      ExpectStops(Expect(s, '!').rest, '(');
      if ReadCall(s).Done? {
        ExpectStops(ReadCall(s).rest, '"');
        if Expect(ReadCall(s).rest, '"').Done? { NameStopped(Expect(ReadCall(s).rest, '"').rest); }
      }
    }
  }

  lemma IncludeStopped(s: string)
    requires EndsStopped(s) || s == "\n"
    ensures ReadInclude(s) != More
  {
    if s <= "include" {
      WordPart(s);
    } else if "include" <= s {
      WordChars(s);
      WordStopped(s[7..]);
    }
  }

  lemma WordPart(s: string)
    requires s <= "include" && s != ""
    ensures s[|s| - 1] != '\n'
  {
    assert s[|s| - 1] == "include"[|s| - 1];
  }

  lemma WordChars(s: string)
    requires "include" <= s
    ensures s[6] == 'e' && forall k :: 0 <= k < 7 ==> s[k] != '\n'
  {
    assert s[..7] == "include";
  }

  /** A line that does not end like the inside of an include seals what it ends. */
  lemma BreakSeals(u: string)
    requires EndsStopped(u)
    ensures Sealed(u)
  {
    forall i | 0 <= i < |u| ensures ReadInclude(u[i..]) != More {
      IncludeStopped(u[i..]);
    }
  }

  // ----- The characters between the includes of a file -----

  function FirstRun(segments: seq<Segment>): string {
    if segments == [] || segments[0].Include? then "" else [segments[0].c] + FirstRun(segments[1..])
  }

  function AfterRun(segments: seq<Segment>): (r: seq<Segment>)
    ensures |r| <= |segments| && (r == [] || r[0].Include?)
    ensures forall x :: x in r ==> x in segments
  {
    if segments == [] || segments[0].Include? then segments else AfterRun(segments[1..])
  }

  /** Every run of characters between two includes, and at both ends, is sealed. */
  predicate TidyRuns(segments: seq<Segment>)
    decreases |segments|
  {
    Sealed(FirstRun(segments)) && (AfterRun(segments) == [] || TidyRuns(AfterRun(segments)[1..]))
  }

  ghost predicate BareRuns(segments: seq<Segment>)
    decreases |segments|
  {
    !HasLiteral(FirstRun(segments)) && (AfterRun(segments) == [] || BareRuns(AfterRun(segments)[1..]))
  }

  /** A file that is tidy can be included anywhere. */
  predicate Tidy(text: string) { TidyRuns(Segments(text)) }

  lemma {:induction false} RunIsPrefix(s: string)
    ensures var run := FirstRun(Segments(s));
            && run <= s && AfterRun(Segments(s)) == Segments(s[|run|..])
            && (|run| < |s| ==> LiteralInclude(s[|run|..]).Some?)
    ensures forall i :: 0 <= i < |FirstRun(Segments(s))| ==> LiteralInclude(s[i..]).None?
    decreases |s|
  {
    assert s[0..] == s;
    if s != "" && LiteralInclude(s).None? {
      var run := FirstRun(Segments(s[1..]));
      RunIsPrefix(s[1..]);
      assert Segments(s)[1..] == Segments(s[1..]);
      assert FirstRun(Segments(s)) == [s[0]] + run;
      assert s[1 + |run|..] == s[1..][|run|..];
      forall i | 0 < i < 1 + |run| ensures LiteralInclude(s[i..]).None? {
        assert s[i..] == s[1..][i - 1..];
      }
    }
  }

  lemma RunIsBare(s: string)
    ensures !HasLiteral(FirstRun(Segments(s)))
  {
    RunIsPrefix(s);
    if HasLiteral(FirstRun(Segments(s))) {
      var i := PrefixLiteral(s, FirstRun(Segments(s)));
    }
  }

  lemma LiteralExtends(s: string, v: string)
    requires LiteralInclude(s).Some?
    ensures LiteralInclude(s + v).Some?
  {
    ReadIsLiteral(s);
    IncludeGrows(s, v);
    ReadIsLiteral(s + v);
  }

  lemma PrefixLiteral(s: string, run: string) returns (i: nat)
    requires run <= s && HasLiteral(run)
    ensures i < |run| && LiteralInclude(s[i..]).Some?
  {
    i := LiteralFound(run);
    LiteralExtends(run[i..], s[|run|..]);
    assert run[i..] + s[|run|..] == s[i..];
  }

  lemma {:induction false} RunsAreBare(s: string)
    ensures BareRuns(Segments(s))
    decreases |s|
  {
    RunIsBare(s);
    RunIsPrefix(s);
    var n := |FirstRun(Segments(s))|;
    if n < |s| {
      var (name, rest) := LiteralInclude(s[n..]).value;
      assert Segments(s[n..])[1..] == Segments(rest);
      RunsAreBare(rest);
    }
  }

  // ----- The whole expansion -----

  ghost predicate SealedAndBare(e: Expansion) { e.Ok? ==> Sealed(e.value) && !HasLiteral(e.value) }

  lemma {:induction false} JoinedRun(segments: seq<Segment>, of: string -> Expansion)
    requires Joined(segments, of).Ok?
    ensures Joined(AfterRun(segments), of).Ok?
    ensures Joined(segments, of).value == FirstRun(segments) + Joined(AfterRun(segments), of).value
    decreases |segments|
  {
    if segments != [] && !segments[0].Include? { JoinedRun(segments[1..], of); }
  }

  lemma {:induction false} JoinedIsBare(segments: seq<Segment>, of: string -> Expansion)
    requires Joined(segments, of).Ok? && TidyRuns(segments) && BareRuns(segments)
    requires forall name :: Include(name) in segments ==> SealedAndBare(of(name))
    ensures SealedAndBare(Joined(segments, of))
    decreases |segments|
  {
    JoinedRun(segments, of);
    var run, rest := FirstRun(segments), AfterRun(segments);
    if rest == [] {
      assert run + "" == run;
    } else {
      var head, tail := of(rest[0].name).value, Joined(rest[1..], of).value;
      assert rest[0] in segments && forall x :: x in rest[1..] ==> x in segments;
      JoinedIsBare(rest[1..], of);
      BareJoin(head, tail);
      BareJoin(run, head + tail);
    }
  }

  lemma BareJoin(a: string, b: string)
    requires Sealed(a) && Sealed(b) && !HasLiteral(a) && !HasLiteral(b)
    ensures Sealed(a + b) && !HasLiteral(a + b)
  {
    SealedJoin(a, b);
    if HasLiteral(a + b) { SealedSeam(a, b); }
  }

  ghost predicate AllTidy(files: Files, p: string) {
    forall q :: Reached(files, p, q) && q in files.text ==> Tidy(files.text[q])
  }

  lemma ChainGrows(files: Files, p: string, c: seq<string>)
    requires c != [] && Chain(files, c) && Pulls(files, p, c[0])
    ensures Chain(files, [p] + c)
  {
    assert ([p] + c)[1..] == c;
  }

  lemma ReachedChild(files: Files, p: string, q: string, x: string)
    requires Pulls(files, p, q) && Reached(files, q, x)
    ensures Reached(files, p, x)
  {
    var c :| c != [] && c[0] == q && Chain(files, c) && c[|c| - 1] == x;
    var d := [p] + c;
    ChainGrows(files, p, c);
    assert d != [] && d[0] == p && d[|d| - 1] == x;
  }

  lemma {:induction false} ExpandIsBare(files: Files, p: string, active: seq<string>)
    requires AllTidy(files, p)
    ensures SealedAndBare(Expand(files, p, active))
    decreases Unvisited(files, active)
  {
    if Refusal(files, p, active).None? {
      var text, of := files.text[p], Child(files, p, active + [p]);
      Shrinks(files, p, active);
      ExpandIsJoined(files, p, active);
      assert Reached(files, p, p) by { assert Chain(files, [p]); }
      forall name | Include(name) in Segments(text) ensures SealedAndBare(of(name)) {
        var q := files.resolve(p, name);
        assert Pulls(files, p, q);
        forall x | Reached(files, q, x) && x in files.text ensures Tidy(files.text[x]) { ReachedChild(files, p, q, x); }
        ExpandIsBare(files, q, active + [p]);
      }
      RunsAreBare(text);
      if Joined(Segments(text), of).Ok? { JoinedIsBare(Segments(text), of); }
    }
  }

  /**
   When every reached file is tidy, no include is left in the expanded text: no run of
   characters in front of, between or behind the includes of a file ends in the beginning
   of an include.
   */
  lemma NoIncludeLeft(files: Files, p: string)
    requires Expand(files, p, []).Ok? && AllTidy(files, p)
    ensures !HasLiteral(Expand(files, p, []).value)
  {
    ExpandIsBare(files, p, []);
  }
}
