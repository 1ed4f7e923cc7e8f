/**
 Writing a source as a target with fragments (`write_include_target`,
 scripts/migrate_task6_deleted_tests.py) and expanding the target again
 (`expanded_target_source`, scripts/verify_task6_deleted_test_parity.py): what comes back is
 the text in front of the include lines and then every fragment, in order, one break behind
 each.
 */
module TargetExpansion {
  import opened Outcome
  import opened GeneratedFiles
  import opened IncludeExpansion
  import opened IncludeSeams
  import opened GeneratedTargets

  /** Some texts, each with a line break behind it. */
  function BreakEach(texts: seq<string>): string {
    if texts == [] then "" else texts[0] + ("\n" + BreakEach(texts[1..]))
  }

  function Texts(names: seq<string>, of: string -> Expansion): (r: seq<string>)
    ensures |r| == |names|
  {
    seq(|names|, i requires 0 <= i < |names| => if of(names[i]).Ok? then of(names[i]).value else "")
  }

  /** A sealed text without includes stays in front of what the rest is joined to. */
  lemma {:induction false} JoinedBehind(u: string, v: string, of: string -> Expansion)
    requires Sealed(u) && !HasLiteral(u)
    ensures Joined(Segments(u + v), of) == InFront(u, Joined(Segments(v), of))
    decreases |u|
  {
    if u == "" {
      assert u + v == v;
      InFrontEmpty(Joined(Segments(v), of));
    } else {
      CharFirst(u, v);
      TailSealed(u);
      JoinedBehind(u[1..], v, of);
      JoinedChar(u[0], Segments(u[1..] + v), of);
      InFrontTwice([u[0]], u[1..], Joined(Segments(v), of));
      assert u == [u[0]] + u[1..];
    }
  }

  ghost function InFront(u: string, e: Expansion): Expansion {
    if e.Ok? then Ok(u + e.value) else e
  }

  lemma InFrontEmpty(e: Expansion)
    ensures InFront("", e) == e
  {
    if e.Ok? { assert "" + e.value == e.value; }
  }

  lemma InFrontTwice(a: string, b: string, e: Expansion)
    ensures InFront(a, InFront(b, e)) == InFront(a + b, e)
  {
    if e.Ok? { assert a + (b + e.value) == (a + b) + e.value; }
  }

  lemma JoinedChar(c: char, segments: seq<Segment>, of: string -> Expansion)
    ensures Joined([Char(c)] + segments, of) == InFront([c], Joined(segments, of))
  {
    assert ([Char(c)] + segments)[1..] == segments;
  }

  lemma JoinedInclude(name: string, segments: seq<Segment>, of: string -> Expansion)
    ensures Joined([Include(name)] + segments, of) ==
            if of(name).Ok? then InFront(of(name).value, Joined(segments, of)) else of(name)
  {
    assert ([Include(name)] + segments)[1..] == segments;
  }

  lemma {:induction false} ItemsJoined(names: seq<string>, of: string -> Expansion)
    requires AllNames(names) && Joined(Segments(ItemLines(names)), of).Ok?
    ensures Joined(Segments(ItemLines(names)), of) == Ok(BreakEach(Texts(names, of)))
    ensures forall name :: name in names ==> of(name).Ok?
    decreases |names|
  {
    if names == [] {
      NoItems(names, of);
    } else {
      ItemLinesCons(names);
      ItemJoined(names[0], ItemLines(names[1..]), of);
      ItemsJoined(names[1..], of);
      TextsCons(names, of);
      assert names == [names[0]] + names[1..];
    }
  }

  lemma NoItems(names: seq<string>, of: string -> Expansion)
    requires names == []
    ensures Joined(Segments(ItemLines(names)), of) == Ok(BreakEach(Texts(names, of)))
  {}

  lemma ItemLinesCons(names: seq<string>)
    requires names != []
    ensures ItemLines(names) == IncludeItem(names[0]) + ("\n" + ItemLines(names[1..]))
  {
    JoinItems(names);
  }

  lemma TextsCons(names: seq<string>, of: string -> Expansion)
    requires names != [] && of(names[0]).Ok?
    ensures BreakEach(Texts(names, of)) == of(names[0]).value + ("\n" + BreakEach(Texts(names[1..], of)))
  {
    assert Texts(names, of)[1..] == Texts(names[1..], of);
  }

  lemma ItemJoined(name: string, rest: string, of: string -> Expansion)
    requires IsName(name) && Joined(Segments(IncludeItem(name) + ("\n" + rest)), of).Ok?
    ensures of(name).Ok? && Joined(Segments(rest), of).Ok?
    ensures Joined(Segments(IncludeItem(name) + ("\n" + rest)), of) ==
            Ok(of(name).value + ("\n" + Joined(Segments(rest), of).value))
  {
    ItemSegments(name, "\n" + rest);
    JoinedInclude(name, Segments("\n" + rest), of);
    BreakIsSealed();
    JoinedBehind("\n", rest, of);
  }

  /** A fragment without includes expands to itself. */
  lemma FragmentExpands(files: Files, q: string)
    requires Expand(files, q, []).Ok? && q in files.text && !HasLiteral(files.text[q])
    ensures Expand(files, q, []) == Ok(files.text[q])
  {
    ExpansionSubstitutes(files, q);
    PlainText(files.text[q], Child(files, q, []));
  }

  /** The fragments of a target, in the order of its include lines. */
  ghost predicate FragmentsAre(files: Files, p: string, names: seq<string>, texts: seq<string>) {
    && |texts| == |names|
    && forall i :: 0 <= i < |names| ==>
         var q := files.resolve(p, names[i]); q in files.text && files.text[q] == texts[i]
  }

  /** What a generated target expands to: its head, the allow line and its fragments. */
  lemma TargetExpands(files: Files, p: string, head: string, names: seq<string>, texts: seq<string>)
    requires Expand(files, p, []).Ok? && p in files.text && files.text[p] == Target(head, names)
    requires names != [] && AllNames(names) && !HasLiteral(head + GENERATED_ALLOW)
    requires FragmentsAre(files, p, names, texts) && forall i :: 0 <= i < |texts| ==> !HasLiteral(texts[i])
    ensures Expand(files, p, []).value == head + GENERATED_ALLOW + BreakEach(texts)
  {
    var front, of := head + GENERATED_ALLOW, Child(files, p, []);
    ExpansionSubstitutes(files, p);
    AllowSeals(head);
    assert Target(head, names) == front + ItemLines(names);
    JoinedBehind(front, ItemLines(names), of);
    ItemsJoined(names, of);
    forall i | 0 <= i < |names| ensures Texts(names, of)[i] == texts[i] {
      assert names[i] in names;
      FragmentExpands(files, files.resolve(p, names[i]));
    }
    assert Texts(names, of) == texts;
  }
}
