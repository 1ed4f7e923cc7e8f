/**
 The integration targets `write_include_target` generates
 (scripts/migrate_task6_deleted_tests.py), as the expansion reads them: a marker, documents
 and attributes, an allow line, and one literal include per fragment.
 */
module GeneratedTargets {
  import opened Outcome
  import opened GeneratedFiles
  import opened IncludeExpansion
  import opened IncludeSeams
  import opened Delimited

  function Quoted(name: string): string { "\"" + name + "\"" }

  /** `include!("name");` */
  function IncludeItem(name: string): string { "include!(" + Quoted(name) + ");" }

  predicate IsName(name: string) { name != "" && '"' !in name && '\n' !in name }

  function Items(names: seq<string>): (r: seq<string>)
    ensures |r| == |names|
  {
    seq(|names|, i requires 0 <= i < |names| => IncludeItem(names[i]))
  }

  /** `head` is the marker with the documents and inner attributes of the source. */
  function Target(head: string, names: seq<string>): string {
    head + GENERATED_ALLOW + Join(Items(names), '\n') + "\n"
  }

  // ----- Reading a generated include -----

  lemma CallRead(rest: string)
    ensures IncludeCall("include!(" + rest) == Some(rest)
  {
    var s := "include!(" + rest;
    assert s[7..] == "!(" + rest && ("!(" + rest)[1..] == "(" + rest && ("(" + rest)[1..] == rest;
  }

  lemma ClosingRead(rest: string)
    ensures Closing(");" + rest) == Some(rest)
  {
    assert (");" + rest)[1..] == ";" + rest && (";" + rest)[1..] == rest;
  }

  lemma {:induction false} NameIsWhole(name: string)
    requires '"' !in name && '\n' !in name
    ensures NameLength(name) == |name|
  {
    if name != "" { NameIsWhole(name[1..]); }
  }

  lemma QuotedRead(name: string, after: string, rest: string)
    requires IsName(name) && Closing(after) == Some(rest)
    ensures QuotedName(Quoted(name) + after) == Some((name, rest))
  {
    var s, n := Quoted(name) + after, |name|;
    var quote := name + ("\"" + after);
    assert s[0] == '"' && s[1..] == quote;
    NameIsWhole(name);
    NameStops(name, "\"" + after);
    assert quote[n] == '"' && quote[..n] == name && quote[n + 1..] == after;
  }

  lemma ItemRead(name: string, rest: string)
    requires IsName(name)
    ensures LiteralInclude(IncludeItem(name) + rest) == Some((name, rest))
  {
    var t := Quoted(name) + (");" + rest);
    assert IncludeItem(name) + rest == "include!(" + t;
    CallRead(t);
    ClosingRead(rest);
    QuotedRead(name, ");" + rest, rest);
  }

  // ----- Tidy texts -----

  /** `after` is `before` with the characters `u` in front of its first run. */
  ghost predicate Lengthens(u: string, before: seq<Segment>, after: seq<Segment>) {
    && FirstRun(after) == u + FirstRun(before)
    && AfterRun(after) == AfterRun(before)
    && forall name :: Include(name) in after ==> Include(name) in before
  }

  lemma LengthensMore(c: char, u: string, before: seq<Segment>, after: seq<Segment>)
    requires Lengthens(u, before, after)
    ensures Lengthens([c] + u, before, [Char(c)] + after)
  {
    var longer := [Char(c)] + after;
    assert longer[0] == Char(c) && longer[1..] == after;
    assert [c] + (u + FirstRun(before)) == ([c] + u) + FirstRun(before);
  }

  lemma CharFirst(u: string, v: string)
    requires u != "" && Sealed(u) && !HasLiteral(u)
    ensures Segments(u + v) == [Char(u[0])] + Segments(u[1..] + v)
  {
    NoIncludeAt(u, v);
    assert (u + v)[1..] == u[1..] + v && (u + v)[0] == u[0];
  }

  /** Sealed text without includes, put in front of a text, only lengthens its first run. */
  lemma {:induction false} RunGrows(u: string, v: string)
    requires Sealed(u) && !HasLiteral(u)
    ensures Lengthens(u, Segments(v), Segments(u + v))
    decreases |u|
  {
    if u == "" {
      assert u + v == v && "" + FirstRun(Segments(v)) == FirstRun(Segments(v));
    } else {
      CharFirst(u, v);
      TailSealed(u);
      RunGrows(u[1..], v);
      LengthensMore(u[0], u[1..], Segments(v), Segments(u[1..] + v));
      assert u == [u[0]] + u[1..];
    }
  }

  lemma NoIncludeAt(u: string, v: string)
    requires u != "" && Sealed(u) && !HasLiteral(u)
    ensures LiteralInclude(u + v).None?
  {
    assert u[0..] == u;
    IncludeGrows(u, v);
    ReadIsLiteral(u);
    ReadIsLiteral(u + v);
    if LiteralInclude(u).Some? { LiteralSeen(u, 0); }
  }

  lemma TailSealed(u: string)
    requires u != "" && Sealed(u) && !HasLiteral(u)
    ensures Sealed(u[1..]) && !HasLiteral(u[1..])
  {
    forall i | 0 <= i < |u[1..]| ensures ReadInclude(u[1..][i..]) != More {
      assert u[1..][i..] == u[i + 1..];
    }
    if HasLiteral(u[1..]) {
      var i := TailLiteral(u);
      LiteralSeen(u, i);
    }
  }

  lemma TailLiteral(u: string) returns (i: nat)
    requires u != "" && HasLiteral(u[1..])
    ensures i <= |u| && LiteralInclude(u[i..]).Some?
  {
    var j := LiteralFound(u[1..]);
    assert u[1..][j..] == u[j + 1..];
    i := j + 1;
  }

  lemma TidyBehind(u: string, v: string)
    requires Sealed(u) && !HasLiteral(u) && Tidy(v)
    ensures Tidy(u + v)
  {
    RunGrows(u, v);
    SealedJoin(u, FirstRun(Segments(v)));
  }

  /** A text without includes is tidy when it is sealed. */
  lemma SealedIsTidy(u: string)
    requires Sealed(u) && !HasLiteral(u)
    ensures Tidy(u)
  {
    assert Tidy("") && u + "" == u;
    TidyBehind(u, "");
  }

  lemma ItemSegments(name: string, v: string)
    requires IsName(name)
    ensures Segments(IncludeItem(name) + v) == [Include(name)] + Segments(v)
    ensures Tidy(v) ==> Tidy(IncludeItem(name) + v)
  {
    ItemRead(name, v);
    var segments := Segments(IncludeItem(name) + v);
    assert segments[1..] == Segments(v);
    assert Sealed("");
  }

  lemma BreakIsSealed()
    ensures Sealed("\n") && !HasLiteral("\n")
  {
    IncludeStopped("\n");
    assert "\n"[0..] == "\n";
    NoStart("\n");
  }

  ghost predicate IncludesOnly(text: string, names: seq<string>) {
    forall x :: Include(x) in Segments(text) ==> x in names
  }

  /** One include on a line of its own. */
  lemma ItemTidy(name: string, names: seq<string>, v: string)
    requires IsName(name) && Tidy(v) && IncludesOnly(v, names)
    ensures Tidy(IncludeItem(name) + ("\n" + v)) && IncludesOnly(IncludeItem(name) + ("\n" + v), [name] + names)
  {
    BreakIsSealed();
    TidyBehind("\n", v);
    RunGrows("\n", v);
    ItemSegments(name, "\n" + v);
  }

  lemma JoinItems(names: seq<string>)
    requires names != []
    ensures Join(Items(names), '\n') + "\n" == IncludeItem(names[0]) + ("\n" + ItemLines(names[1..]))
  {
    var first := IncludeItem(names[0]);
    assert Items(names)[1..] == Items(names[1..]);
    if |names| == 1 {
      assert Items(names) == [first] && first + "\n" == first + ("\n" + "");
    } else {
      assert first + ['\n'] + Join(Items(names[1..]), '\n') + "\n" ==
             first + ("\n" + (Join(Items(names[1..]), '\n') + "\n"));
    }
  }

  lemma EmptyTidy()
    ensures Tidy("") && IncludesOnly("", [])
  {
    assert Sealed("");
  }

  /** The include lines, each with its line break. */
  function ItemLines(names: seq<string>): string {
    if names == [] then "" else Join(Items(names), '\n') + "\n"
  }

  lemma {:induction false} ItemsTidy(names: seq<string>)
    requires AllNames(names)
    ensures Harmless(ItemLines(names), names)
    decreases |names|
  {
    if names == [] {
      EmptyTidy();
    } else {
      ItemsTidy(names[1..]);
      NextItem(names, ItemLines(names[1..]));
    }
  }

  lemma NextItem(names: seq<string>, rest: string)
    requires names != [] && IsName(names[0]) && rest == ItemLines(names[1..]) && Harmless(rest, names[1..])
    ensures Harmless(ItemLines(names), names)
  {
    JoinItems(names);
    ItemTidy(names[0], names[1..], rest);
    assert names == [names[0]] + names[1..];
  }

  predicate AllNames(names: seq<string>) { names == [] || (IsName(names[0]) && AllNames(names[1..])) }

  ghost predicate Harmless(text: string, names: seq<string>) { Tidy(text) && IncludesOnly(text, names) }

  lemma AllowSeals(head: string)
    ensures Sealed(head + GENERATED_ALLOW)
  {
    var n := |GENERATED_ALLOW|;
    assert GENERATED_ALLOW[n - 1] == '\n' && GENERATED_ALLOW[n - 2] == ']';
    BreakSeals(head + GENERATED_ALLOW);
  }

  /**
   A generated target is tidy and includes only its fragments, when nothing in front of
   its include lines is an include.
   */
  lemma TargetIsTidy(head: string, names: seq<string>)
    requires names != [] && AllNames(names)
    requires !HasLiteral(head + GENERATED_ALLOW)
    ensures Tidy(Target(head, names)) && IncludesOnly(Target(head, names), names)
  {
    var front, items := head + GENERATED_ALLOW, ItemLines(names);
    AllowSeals(head);
    ItemsTidy(names);
    TidyBehind(front, items);
    RunGrows(front, items);
    assert Target(head, names) == front + items;
  }

  // ----- The expansion of a generated target -----

  /** A fragment holds no include and does not end in the middle of one. */
  ghost predicate IsFragment(files: Files, q: string) {
    q in files.text ==> !HasLiteral(files.text[q]) && Sealed(files.text[q])
  }

  lemma FragmentTidy(text: string)
    requires !HasLiteral(text) && Sealed(text)
    ensures Tidy(text) && forall name :: Include(name) !in Segments(text)
  {
    SealedIsTidy(text);
    RunGrows(text, "");
    assert text + "" == text;
  }

  lemma ReachedFragments(files: Files, p: string, head: string, names: seq<string>, q: string)
    requires p in files.text && files.text[p] == Target(head, names)
    requires names != [] && AllNames(names)
    requires !HasLiteral(head + GENERATED_ALLOW)
    requires forall name :: name in names ==> IsFragment(files, files.resolve(p, name))
    requires Reached(files, p, q)
    ensures q == p || IsFragment(files, q)
  {
    var c :| c != [] && c[0] == p && Chain(files, c) && c[|c| - 1] == q;
    TargetIsTidy(head, names);
    if |c| > 1 {
      assert Pulls(files, p, c[1]);
      if |c| > 2 {
        assert Chain(files, c[1..]) && Pulls(files, c[1..][0], c[1..][1]);
        FragmentTidy(files.text[c[1]]);
      }
    }
  }

  /**
   Whatever a generated target expands to holds no literal include, when its fragments
   hold none and do not end in the middle of one.
   */
  lemma TargetLeavesNoInclude(files: Files, p: string, head: string, names: seq<string>)
    requires Expand(files, p, []).Ok? && p in files.text && files.text[p] == Target(head, names)
    requires names != [] && AllNames(names)
    requires !HasLiteral(head + GENERATED_ALLOW)
    requires forall name :: name in names ==> IsFragment(files, files.resolve(p, name))
    ensures !HasLiteral(Expand(files, p, []).value)
  {
    TargetIsTidy(head, names);
    forall q | Reached(files, p, q) && q in files.text ensures Tidy(files.text[q]) {
      ReachedFragments(files, p, head, names, q);
      if q != p { FragmentTidy(files.text[q]); }
    }
    NoIncludeLeft(files, p);
  }
}
