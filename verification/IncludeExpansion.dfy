/**
 `expanded_target_source` (scripts/verify_task6_deleted_test_parity.py): replaces literal
 `include!` items by the expanded text of the included files, rejecting escapes from the
 owned test roots, missing files, cycles, and files whose only includes are not literal.
 */
module IncludeExpansion {
  import opened Outcome
  import opened GeneratedFiles
  import RustMasker

  /** The file system as the expansion sees it, with `resolve` for a literal inside a file. */
  datatype Files = Files(text: map<string, string>, owned: string -> bool, resolve: (string, string) -> string)

  datatype Failure =
    | Escapes(path: string)
    | Cycle(path: string)
    | Missing(path: string)
    | Unmaskable(path: string)
    | NonLiteral(path: string)

  type Expansion = Result<string, Failure>

  // ----- Literal includes -----

  function SkipSpace(s: string): (r: string)
    ensures |r| <= |s|
  {
    if s != "" && IsSpace(s[0]) then SkipSpace(s[1..]) else s
  }

  /** Spaces, then the character `c`; what follows it. */
  function After(s: string, c: char): (r: Option<string>)
    ensures r.Some? ==> |r.value| < |s|
  {
    var t := SkipSpace(s);
    if t != "" && t[0] == c then Some(t[1..]) else None
  }

  function NameLength(s: string): (n: nat)
    ensures n <= |s|
  {
    if s == "" || s[0] == '"' || s[0] == '\n' then 0 else 1 + NameLength(s[1..])
  }

  /** `include ! (`; what follows. */
  function IncludeCall(s: string): (r: Option<string>)
    ensures r.Some? ==> |r.value| < |s|
  {
    if !("include" <= s) then None
    else
      var bang := After(s[7..], '!');
      if bang.None? then None else After(bang.value, '(')
  }

  /** `) ;`; what follows. */
  function Closing(s: string): (r: Option<string>)
    ensures r.Some? ==> |r.value| < |s|
  {
    var close := After(s, ')');
    if close.None? then None else After(close.value, ';')
  }

  /** `"name" ) ;`; the name, and what follows. */
  function QuotedName(s: string): (r: Option<(string, string)>)
    ensures r.Some? ==> |r.value.1| < |s|
  {
    var quote := After(s, '"');
    if quote.None? then None
    else
      var n := NameLength(quote.value);
      if n == 0 || n == |quote.value| || quote.value[n] != '"' then None
      else
        var end := Closing(quote.value[n + 1..]);
        if end.None? then None else Some((quote.value[..n], end.value))
  }

  /** `include ! ( "name" ) ;` at the start of `s`: the name, and what follows. */
  function LiteralInclude(s: string): (r: Option<(string, string)>)
    ensures r.Some? ==> |r.value.1| < |s|
  {
    var call := IncludeCall(s);
    if call.None? then None else QuotedName(call.value)
  }

  datatype Segment = Char(c: char) | Include(name: string)

  /** The text cut at its literal includes, leftmost first. */
  function Segments(s: string): seq<Segment>
    decreases |s|
  {
    if s == "" then []
    else
      match LiteralInclude(s)
      case Some((name, rest)) => [Include(name)] + Segments(rest)
      case None => [Char(s[0])] + Segments(s[1..])
  }

  predicate HasLiteral(s: string) {
    exists i :: 0 <= i < |Segments(s)| && Segments(s)[i].Include?
  }

  predicate WordChar(c: char) { RustMasker.IdentChar(c) }

  /** Some include call stands at a word boundary of the masked text. */
  predicate HasCall(masked: string) {
    exists i :: 0 <= i < |masked| && (i == 0 || !WordChar(masked[i - 1])) && IncludeCall(masked[i..]).Some?
  }

  // ----- The expansion -----

  ghost function Unvisited(files: Files, active: seq<string>): set<string> {
    files.text.Keys - set p | p in active
  }

  /** The checks on one file before its includes are expanded. */
  function Refusal(files: Files, path: string, active: seq<string>): Option<Failure> {
    if !files.owned(path) then Some(Escapes(path))
    else if path in active then Some(Cycle(path))
    else if path !in files.text then Some(Missing(path))
    else
      match RustMasker.Mask(files.text[path])
      case Err(_) => Some(Unmaskable(path))
      case Ok(masked) => if HasCall(masked) && !HasLiteral(files.text[path]) then Some(NonLiteral(path)) else None
  }

  /** The segments joined, with `of(name)` for each include; the first failure ends it. */
  function Joined(segments: seq<Segment>, of: string -> Expansion): Expansion {
    if segments == [] then Ok("")
    else
      var head :=
        match segments[0]
        case Char(c) => Ok([c])
        case Include(name) => of(name);
      if head.Err? then head
      else
        var tail := Joined(segments[1..], of);
        if tail.Err? then tail else Ok(head.value + tail.value)
  }

  function Expand(files: Files, path: string, active: seq<string>): Expansion
    decreases Unvisited(files, active)
  {
    match Refusal(files, path, active)
    case Some(failure) => Err(failure)
    case None =>
      Shrinks(files, path, active);
      Joined(Segments(files.text[path]), (name: string) => Expand(files, files.resolve(path, name), active + [path]))
  }

  /** How a file expands what it includes. */
  ghost function Child(files: Files, path: string, active: seq<string>): string -> Expansion {
    (name: string) => Expand(files, files.resolve(path, name), active)
  }

  lemma Shrinks(files: Files, p: string, active: seq<string>)
    requires p in files.text && p !in active
    ensures Unvisited(files, active + [p]) < Unvisited(files, active)
  {
    assert p in Unvisited(files, active) && p !in Unvisited(files, active + [p]);
  }

  lemma ExpandIsJoined(files: Files, path: string, active: seq<string>)
    requires Refusal(files, path, active).None?
    ensures Expand(files, path, active) == Joined(Segments(files.text[path]), Child(files, path, active + [path]))
  {
    var of := (name: string) => Expand(files, files.resolve(path, name), active + [path]);
    forall name ensures of(name) == Child(files, path, active + [path])(name) {}
    JoinedAlike(Segments(files.text[path]), of, Child(files, path, active + [path]));
  }

  /** Only what the included names expand to matters. */
  lemma {:induction false} JoinedAlike(segments: seq<Segment>, one: string -> Expansion, two: string -> Expansion)
    requires forall name :: Include(name) in segments ==> one(name) == two(name)
    ensures Joined(segments, one) == Joined(segments, two)
    decreases |segments|
  {
    if segments != [] {
      assert segments == [segments[0]] + segments[1..];
      JoinedAlike(segments[1..], one, two);
    }
  }

  lemma {:induction false} JoinedSucceeds(segments: seq<Segment>, of: string -> Expansion)
    ensures Joined(segments, of).Ok? <==> forall name :: Include(name) in segments ==> of(name).Ok?
    decreases |segments|
  {
    if segments != [] {
      JoinedSucceeds(segments[1..], of);
      assert segments == [segments[0]] + segments[1..];
    }
  }

  // ----- Which files a file pulls in -----

  ghost predicate Pulls(files: Files, p: string, q: string) {
    p in files.text && exists name :: Include(name) in Segments(files.text[p]) && q == files.resolve(p, name)
  }

  /** Each file of the chain includes the next one. */
  ghost predicate Chain(files: Files, c: seq<string>) {
    |c| > 1 ==> Pulls(files, c[0], c[1]) && Chain(files, c[1..])
  }

  /** An owned, existing, maskable file that does not rely on non-literal includes alone. */
  ghost predicate Admissible(files: Files, p: string) {
    && files.owned(p)
    && p in files.text
    && RustMasker.Mask(files.text[p]).Ok?
    && (HasCall(RustMasker.Mask(files.text[p]).value) ==> HasLiteral(files.text[p]))
  }

  /** The last file of a chain is admissible and new. */
  ghost predicate EndsWell(files: Files, active: seq<string>, c: seq<string>)
    requires c != []
  {
    var n := |c| - 1;
    Admissible(files, c[n]) && c[n] !in active && c[n] !in c[..n]
  }

  ghost predicate Expandable(files: Files, p: string, active: seq<string>) {
    forall c :: c != [] && c[0] == p && Chain(files, c) ==> EndsWell(files, active, c)
  }

  lemma RefusalIs(files: Files, p: string, active: seq<string>)
    ensures Refusal(files, p, active).None? <==> EndsWell(files, active, [p])
  {
    assert [p][..0] == [];
  }

  lemma EndsWellTail(files: Files, active: seq<string>, p: string, c: seq<string>)
    requires c != []
    ensures EndsWell(files, active, [p] + c) <==> EndsWell(files, active + [p], c)
  {
    var d := [p] + c;
    assert d[|d| - 1] == c[|c| - 1];
    assert d[..|d| - 1] == [p] + c[..|c| - 1];
  }

  lemma ExpandableChild(files: Files, p: string, active: seq<string>, q: string)
    requires Expandable(files, p, active) && Pulls(files, p, q)
    ensures Expandable(files, q, active + [p])
  {
    forall c | c != [] && c[0] == q && Chain(files, c) ensures EndsWell(files, active + [p], c) {
      var d := [p] + c;
      assert d[1..] == c;
      assert Chain(files, d);
      EndsWellTail(files, active, p, c);
    }
  }

  lemma ExpandableParent(files: Files, p: string, active: seq<string>)
    requires EndsWell(files, active, [p])
    requires forall q :: Pulls(files, p, q) ==> Expandable(files, q, active + [p])
    ensures Expandable(files, p, active)
  {
    forall c | c != [] && c[0] == p && Chain(files, c) ensures EndsWell(files, active, c) {
      if |c| == 1 {
        assert c == [p];
      } else {
        assert Pulls(files, p, c[1]) && Chain(files, c[1..]);
        EndsWellTail(files, active, p, c[1..]);
        assert c == [p] + c[1..];
      }
    }
  }

  /**
   The expansion succeeds exactly when every file reached through includes is admissible
   and no chain of includes comes back to a file on it (reaching a file twice is fine).
   */
  lemma {:induction false} ExpandsExactly(files: Files, p: string, active: seq<string>)
    ensures Expand(files, p, active).Ok? <==> Expandable(files, p, active)
    decreases Unvisited(files, active)
  {
    RefusalIs(files, p, active);
    if Refusal(files, p, active).Some? {
      assert Chain(files, [p]);
    } else {
      var longer := active + [p];
      Shrinks(files, p, active);
      ExpandIsJoined(files, p, active);
      JoinedSucceeds(Segments(files.text[p]), Child(files, p, longer));
      forall q | Pulls(files, p, q) ensures Expand(files, q, longer).Ok? <==> Expandable(files, q, longer) {
        ExpandsExactly(files, q, longer);
      }
      ChildrenDecide(files, p, active);
    }
  }

  /** What is wrong with the last file of a chain. */
  ghost predicate Blames(files: Files, active: seq<string>, c: seq<string>, f: Failure)
    requires c != []
  {
    var n := |c| - 1;
    var q := c[n];
    && f.path == q
    && match f
       case Escapes(_) => !files.owned(q)
       case Cycle(_) => q in active || q in c[..n]
       case Missing(_) => q !in files.text
       case Unmaskable(_) => q in files.text && RustMasker.Mask(files.text[q]).Err?
       case NonLiteral(_) =>
         && q in files.text && RustMasker.Mask(files.text[q]).Ok?
         && HasCall(RustMasker.Mask(files.text[q]).value) && !HasLiteral(files.text[q])
  }

  ghost predicate BlamesFrom(files: Files, p: string, active: seq<string>, c: seq<string>, f: Failure) {
    c != [] && c[0] == p && Chain(files, c) && Blames(files, active, c, f)
  }

  lemma {:induction false} JoinedFails(segments: seq<Segment>, of: string -> Expansion) returns (name: string)
    requires Joined(segments, of).Err?
    ensures Include(name) in segments && of(name) == Joined(segments, of)
    decreases |segments|
  {
    if segments[0].Include? && of(segments[0].name).Err? {
      name := segments[0].name;
    } else {
      name := JoinedFails(segments[1..], of);
      assert segments == [segments[0]] + segments[1..];
    }
  }

  /** A failed expansion names the last file of a chain of includes, and what is wrong with it. */
  lemma {:induction false} FailureIsBlamed(files: Files, p: string, active: seq<string>) returns (c: seq<string>)
    requires Expand(files, p, active).Err?
    ensures BlamesFrom(files, p, active, c, Expand(files, p, active).error)
    decreases Unvisited(files, active)
  {
    if Refusal(files, p, active).Some? {
      c := [p];
      assert c[..0] == [];
    } else {
      var longer := active + [p];
      Shrinks(files, p, active);
      ExpandIsJoined(files, p, active);
      var name := JoinedFails(Segments(files.text[p]), Child(files, p, longer));
      var q := files.resolve(p, name);
      var d := FailureIsBlamed(files, q, longer);
      c := [p] + d;
      assert Pulls(files, p, q);
      BlamesTail(files, active, p, d, Expand(files, p, active).error);
      assert c[1..] == d;
    }
  }

  lemma BlamesTail(files: Files, active: seq<string>, p: string, c: seq<string>, f: Failure)
    requires c != [] && Blames(files, active + [p], c, f)
    ensures Blames(files, active, [p] + c, f)
  {
    var d := [p] + c;
    assert d[|d| - 1] == c[|c| - 1];
    assert d[..|d| - 1] == [p] + c[..|c| - 1];
  }

  lemma ChildrenDecide(files: Files, p: string, active: seq<string>)
    requires Refusal(files, p, active).None? && EndsWell(files, active, [p])
    requires forall q :: Pulls(files, p, q) ==>
               (Expand(files, q, active + [p]).Ok? <==> Expandable(files, q, active + [p]))
    ensures Expandable(files, p, active) <==>
            forall name :: Include(name) in Segments(files.text[p]) ==>
              Expand(files, files.resolve(p, name), active + [p]).Ok?
  {
    if Expandable(files, p, active) {
      forall name | Include(name) in Segments(files.text[p])
        ensures Expand(files, files.resolve(p, name), active + [p]).Ok?
      {
        assert Pulls(files, p, files.resolve(p, name));
        ExpandableChild(files, p, active, files.resolve(p, name));
      }
    }
    if forall name :: Include(name) in Segments(files.text[p]) ==>
         Expand(files, files.resolve(p, name), active + [p]).Ok?
    {
      ExpandableParent(files, p, active);
    }
  }

  // ----- What the expansion yields -----

  /** The active chain decides only whether the expansion succeeds, never what it yields. */
  lemma {:induction false} ActiveDoesNotMatter(files: Files, p: string, a: seq<string>, b: seq<string>)
    requires Expand(files, p, a).Ok? && Expand(files, p, b).Ok?
    ensures Expand(files, p, a) == Expand(files, p, b)
    decreases Unvisited(files, a)
  {
    var segments, one, two := Segments(files.text[p]), Child(files, p, a + [p]), Child(files, p, b + [p]);
    Shrinks(files, p, a);
    ExpandIsJoined(files, p, a);
    ExpandIsJoined(files, p, b);
    JoinedSucceeds(segments, one);
    JoinedSucceeds(segments, two);
    forall name | Include(name) in segments ensures one(name) == two(name) {
      ActiveDoesNotMatter(files, files.resolve(p, name), a + [p], b + [p]);
    }
    JoinedAlike(segments, one, two);
  }

  lemma LessActive(files: Files, p: string, active: seq<string>)
    requires Expandable(files, p, active)
    ensures Expandable(files, p, [])
  {
    forall c | c != [] && c[0] == p && Chain(files, c) ensures EndsWell(files, [], c) {
      assert EndsWell(files, active, c);
    }
  }

  /** A successful expansion puts the full expansion of each included file in its place. */
  lemma ExpansionSubstitutes(files: Files, p: string)
    requires Expand(files, p, []).Ok?
    ensures Expand(files, p, []) == Joined(Segments(files.text[p]), Child(files, p, []))
    ensures forall name :: Include(name) in Segments(files.text[p]) ==> Child(files, p, [])(name).Ok?
  {
    var segments, one, two := Segments(files.text[p]), Child(files, p, [p]), Child(files, p, []);
    assert [] + [p] == [p];
    ExpandIsJoined(files, p, []);
    JoinedSucceeds(segments, one);
    forall name | Include(name) in segments ensures two(name).Ok? && one(name) == two(name) {
      ChildAlone(files, files.resolve(p, name), p);
    }
    JoinedAlike(segments, one, two);
  }

  lemma ChildAlone(files: Files, q: string, p: string)
    requires Expand(files, q, [p]).Ok?
    ensures Expand(files, q, []) == Expand(files, q, [p])
  {
    ExpandsExactly(files, q, [p]);
    LessActive(files, q, [p]);
    ExpandsExactly(files, q, []);
    ActiveDoesNotMatter(files, q, [p], []);
  }

  // ----- What the literal test lets through -----

  lemma {:induction false} PlainText(s: string, of: string -> Expansion)
    requires !HasLiteral(s)
    ensures Joined(Segments(s), of) == Ok(s)
    decreases |s|
  {
    if s != "" {
      var segments := Segments(s);
      assert !segments[0].Include?;
      forall i | 0 <= i < |Segments(s[1..])| ensures !Segments(s[1..])[i].Include? {
        assert segments[i + 1] == Segments(s[1..])[i];
      }
      PlainText(s[1..], of);
      assert s == [s[0]] + s[1..];
      assert segments[1..] == Segments(s[1..]);
    }
  }

  /** A text that starts with its only literal include: what follows the include is kept as it is. */
  lemma RestIsKept(files: Files, p: string, name: string, rest: string)
    requires Expand(files, p, []).Ok? && LiteralInclude(files.text[p]) == Some((name, rest)) && !HasLiteral(rest)
    ensures Expand(files, files.resolve(p, name), []).Ok?
    ensures Expand(files, p, []).value == Expand(files, files.resolve(p, name), []).value + rest
  {
    ExpansionSubstitutes(files, p);
    var segments := Segments(files.text[p]);
    assert segments[0] == Include(name) && segments[1..] == Segments(rest);
    PlainText(rest, Child(files, p, []));
  }

  lemma {:induction false} LiteralSeen(s: string, i: nat)
    requires i <= |s| && LiteralInclude(s[i..]).Some?
    ensures HasLiteral(s)
    decreases i
  {
    assert s[0..] == s;
    if LiteralInclude(s).Some? {
      assert Segments(s)[0].Include?;
    } else {
      assert s[i..] == s[1..][i - 1..];
      LiteralSeen(s[1..], i - 1);
      var k :| 0 <= k < |Segments(s[1..])| && Segments(s[1..])[k].Include?;
      assert Segments(s)[k + 1].Include?;
    }
  }

  lemma {:induction false} LiteralFound(s: string) returns (i: nat)
    requires HasLiteral(s)
    ensures i <= |s| && LiteralInclude(s[i..]).Some?
    decreases |s|
  {
    assert s[0..] == s;
    if LiteralInclude(s).Some? {
      i := 0;
    } else {
      var k :| 0 <= k < |Segments(s)| && Segments(s)[k].Include?;
      assert Segments(s[1..])[k - 1].Include?;
      i := LiteralFound(s[1..]);
      assert s[i + 1..] == s[1..][i..];
      i := i + 1;
    }
  }

  /** An include call of the masked text that is no literal include in the text. */
  ghost predicate NonLiteralAt(text: string, masked: string, i: nat) {
    && i < |masked| <= |text|
    && (i == 0 || !WordChar(masked[i - 1]))
    && IncludeCall(masked[i..]).Some?
    && LiteralInclude(text[i..]).None?
  }

  ghost predicate NonLiteralCall(text: string) {
    RustMasker.Mask(text).Ok? && exists i :: NonLiteralAt(text, RustMasker.Mask(text).value, i)
  }

  lemma CallsWithoutLiteral(text: string, masked: string)
    requires |masked| == |text| && !HasLiteral(text)
    ensures HasCall(masked) <==> exists i :: NonLiteralAt(text, masked, i)
  {
    if HasCall(masked) {
      var i :| 0 <= i < |masked| && (i == 0 || !WordChar(masked[i - 1])) && IncludeCall(masked[i..]).Some?;
      if LiteralInclude(text[i..]).Some? { LiteralSeen(text, i); }
      assert NonLiteralAt(text, masked, i);
    }
  }

  /** A file that passes the earlier checks. */
  ghost predicate Readable(files: Files, p: string, active: seq<string>) {
    files.owned(p) && p !in active && p in files.text && RustMasker.Mask(files.text[p]).Ok?
  }

  /**
   A readable file is rejected for non-literal includes if and only if it has one and has
   no literal include anywhere, in code, comments or strings.
   */
  lemma RejectsExactly(files: Files, p: string, active: seq<string>)
    requires Readable(files, p, active)
    ensures Refusal(files, p, active) == Some(NonLiteral(p)) <==>
            NonLiteralCall(files.text[p]) && !HasLiteral(files.text[p])
  {
    var text := files.text[p];
    if !HasLiteral(text) { CallsWithoutLiteral(text, RustMasker.Mask(text).value); }
  }

  ghost predicate Reached(files: Files, p: string, q: string) {
    exists c :: c != [] && c[0] == p && Chain(files, c) && c[|c| - 1] == q
  }

  lemma ReachedIsAdmissible(files: Files, p: string, q: string)
    requires Expand(files, p, []).Ok? && Reached(files, p, q)
    ensures Admissible(files, q)
  {
    ExpandsExactly(files, p, []);
    var c :| c != [] && c[0] == p && Chain(files, c) && c[|c| - 1] == q;
    assert EndsWell(files, [], c);
  }

  lemma NonLiteralIsCall(text: string)
    requires NonLiteralCall(text)
    ensures HasCall(RustMasker.Mask(text).value)
  {
    var i :| NonLiteralAt(text, RustMasker.Mask(text).value, i);
  }

  ghost predicate KeepsCall(files: Files, p: string, q: string) {
    Reached(files, p, q) && q in files.text && NonLiteralCall(files.text[q])
  }

  /**
   Over a whole successful expansion: no reached file keeps a non-literal include if and
   only if none has a non-literal and a literal include side by side.
   */
  lemma NonLiteralsRejected(files: Files, p: string)
    requires Expand(files, p, []).Ok?
    ensures (forall q :: !KeepsCall(files, p, q)) <==>
            (forall q :: KeepsCall(files, p, q) ==> !HasLiteral(files.text[q]))
  {
    forall q | KeepsCall(files, p, q) ensures HasLiteral(files.text[q]) {
      ReachedIsAdmissible(files, p, q);
      NonLiteralIsCall(files.text[q]);
    }
  }
}
