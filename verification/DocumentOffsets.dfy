/**
 When a write of scripts/render_task6_migration_document.py survives its own check, read off
 the document the write starts from.

 The second replacement searches the document that the first one has already changed. No
 text of the second table can bridge the start of the first region, before or after, so what
 stands in front of the first region and behind it is found at the same place or moved with
 its text, and what stood inside is gone. So the offsets of the old document decide: the
 second region encloses the first table exactly when it starts in front of it and its
 heading does not stand there too.
 */
module DocumentOffsets {
  import opened Outcome
  import opened Seqs
  import opened TextSearch
  import opened MigrationDocument

  ghost predicate Before(d: string, p: string, a: nat) {
    exists j :: j < a && OccursAt(d, p, j)
  }

  ghost predicate OnlyWithin(d: string, p: string, a: nat, b: nat) {
    forall j :: OccursAt(d, p, j) ==> a <= j < b
  }

  /**
   The second table begins in front of the first region and does not end there. An older
   header counts when the current one occurs at most inside the first region.
   */
  ghost predicate Encloses(d: string, one: Table, two: Table)
    requires Region(d, one).Some?
  {
    var (a, b) := Region(d, one).value;
    && !Before(d, two.heading, a)
    && (Before(d, two.header, a) || (OnlyWithin(d, two.header, a, b) && Before(d, two.legacy, a)))
  }

  /** Both headers of the first table occur at most in its own region. */
  ghost predicate SingleTable(d: string, t: Table)
    requires Region(d, t).Some?
  {
    var (a, b) := Region(d, t).value;
    OnlyWithin(d, t.header, a, b) && OnlyWithin(d, t.legacy, a, b)
  }

  /** `p` neither holds `q` nor ends like its beginning. */
  ghost predicate NoBridge(p: string, q: string) {
    !Occurs(p, q) && forall k :: !Overlaps(p, q, k)
  }

  ghost predicate Unbridged(one: Table, two: Table) {
    && NoBridge(two.header, one.header) && NoBridge(two.header, one.legacy)
    && NoBridge(two.legacy, one.header) && NoBridge(two.legacy, one.legacy)
  }

  /** A rendering holds its own header at the start only, and the older one nowhere. */
  ghost predicate RendersOnce(m: string, t: Table) {
    && (forall j :: OccursAt(m, t.header, j) ==> j == 0)
    && LegacyApart(t, t, m)
  }

  /** What the old document has in front of the region, the new one has too. */
  lemma StaysInFront(d: string, a: nat, b: nat, m: string, p: string, q: string, j: int)
    requires a < b <= |d| && OccursAt(d, q, a) && q != "" && q[0] == '|' && m != "" && m[0] == '|'
    requires NoBridge(p, q) && OccursAt(d, p, j) && j < a
    ensures OccursAt(Assembled(d[..a], m, d[b..]), p, j)
  {
    var e, k := Assembled(d[..a], m, d[b..]), j + |p| - a;
    assert d[a..a + |q|][0] == d[a];
    if k <= 0 {
      Stays(d, a, b, m, p, j);
    } else if k == 1 {
      assert e[..a + 1] == d[..a] + "|" == d[..a + 1];
      assert e[..a + 1][j..j + |p|] == d[..a + 1][j..j + |p|];
    } else {
      LongBridge(d, a, p, q, j);
    }
  }

  lemma LongBridge(d: string, a: nat, p: string, q: string, j: int)
    requires OccursAt(d, q, a) && OccursAt(d, p, j) && j < a && a + 2 <= j + |p|
    ensures !NoBridge(p, q)
  {
    var k := j + |p| - a;
    if k <= |q| {
      assert p[|p| - k..] == d[a..a + k] == d[a..a + |q|][..k];
      assert Overlaps(p, q, k);
    } else {
      SliceOfSlice(d, j, j + |p|, a - j, a - j + |q|);
      assert OccursAt(p, q, a - j);
    }
  }

  /** `p` is a header of the other table, and `q` starts the region the rendering goes to. */
  ghost predicate Searched(d: string, one: Table, first: string, p: string, q: string) {
    && ValidTable(one) && one.header + "\n" <= first
    && Region(d, one).Some? && OccursAt(d, q, Region(d, one).value.0) && q != "" && q[0] == '|'
    && p != "" && '\n' !in p && !Occurs(first, p)
    && NoBridge(p, q) && forall k :: !Overlaps(p, one.header, k)
  }

  /** What stands at `j` in the new document and in the old one. */
  ghost predicate SamePlace(e: string, d: string, p: string, a: nat, b: nat, shift: int, j: int) {
    && (j < a ==> (OccursAt(e, p, j) <==> OccursAt(d, p, j)))
    && (a <= j && OccursAt(e, p, j) ==> b <= j - shift && OccursAt(d, p, j - shift))
    && (b <= j && OccursAt(d, p, j) ==> OccursAt(e, p, j + shift))
  }

  /** In front of the rendering a header stands where it stood, behind it it moves with its text. */
  lemma HeaderMoves(d: string, one: Table, first: string, p: string, q: string, a: nat, b: nat, j: int)
    requires Searched(d, one, first, p, q) && Region(d, one) == Some((a, b))
    ensures SamePlace(Assembled(d[..a], first, d[b..]), d, p, a, b, a + |first| + 1 - b, j)
  {
    var e := Assembled(d[..a], first, d[b..]);
    RegionFacts(d, one, a, b);
    assert first[0] == '|';
    Stays(d, a, b, first, p, j);
    if OccursAt(e, p, j) { BeforeWritten(d, a, b, first, p, one.header, j); }
    if OccursAt(d, p, j) && j < a { StaysInFront(d, a, b, first, p, q, j); }
  }

  lemma OccursOutside(e: string, d: string, p: string, a: nat, b: nat, shift: int)
    requires a <= b && forall j :: SamePlace(e, d, p, a, b, shift, j)
    ensures forall j :: j < a ==> (OccursAt(e, p, j) <==> OccursAt(d, p, j))
    ensures Occurs(e, p) <==> !OnlyWithin(d, p, a, b)
  {
    forall j ensures j < a ==> (OccursAt(e, p, j) <==> OccursAt(d, p, j)) { assert SamePlace(e, d, p, a, b, shift, j); }
    if j :| OccursAt(d, p, j) && !(a <= j < b) {
      assert SamePlace(e, d, p, a, b, shift, j);
      assert OccursAt(e, p, if j < a then j else j + shift);
    }
    if j :| OccursAt(e, p, j) {
      assert SamePlace(e, d, p, a, b, shift, j);
      assert OccursAt(d, p, if j < a then j else j - shift);
    }
  }

  lemma HeadersAround(d: string, one: Table, first: string, p: string, q: string, a: nat, b: nat)
    requires Searched(d, one, first, p, q) && Region(d, one) == Some((a, b))
    ensures var e := Assembled(d[..a], first, d[b..]);
            && (forall j :: j < a ==> (OccursAt(e, p, j) <==> OccursAt(d, p, j)))
            && (Occurs(e, p) <==> !OnlyWithin(d, p, a, b))
  {
    var e, shift := Assembled(d[..a], first, d[b..]), a + |first| + 1 - b;
    forall j ensures SamePlace(e, d, p, a, b, shift, j) { HeaderMoves(d, one, first, p, q, a, b, j); }
    OccursOutside(e, d, p, a, b, shift);
  }

  lemma StartOccurs(d: string, t: Table) returns (q: string)
    requires Region(d, t).Some?
    ensures q == t.header || q == t.legacy
    ensures OccursAt(d, q, Region(d, t).value.0)
  {
    q := if FindFrom(d, t.header, 0).Some? then t.header else t.legacy;
  }

  /** Where the second table starts: in front of the rendering as in the old document. */
  lemma StartInFront(d: string, one: Table, first: string, two: Table)
    requires ValidTable(one) && ValidTable(two) && ValidRendering(first, one, two) && LegacyApart(two, one, first)
    requires Unbridged(one, two) && Region(d, one).Some?
    ensures var (a, b) := Region(d, one).value;
            var start := Start(Assembled(d[..a], first, d[b..]), two);
            start.Some? ==> (start.value < a <==>
              Before(d, two.header, a) || (OnlyWithin(d, two.header, a, b) && Before(d, two.legacy, a)))
  {
    var (a, b) := Region(d, one).value;
    var e := Assembled(d[..a], first, d[b..]);
    var q := StartOccurs(d, one);
    HeadersAround(d, one, first, two.header, q, a, b);
    HeadersAround(d, one, first, two.legacy, q, a, b);
    FirstInFront(e, d, two.header, a);
    FirstInFront(e, d, two.legacy, a);
  }

  lemma FirstInFront(e: string, d: string, p: string, a: nat)
    requires forall j :: j < a ==> (OccursAt(e, p, j) <==> OccursAt(d, p, j))
    ensures FindFrom(e, p, 0).Some? <==> Occurs(e, p)
    ensures FindFrom(e, p, 0).Some? ==> (FindFrom(e, p, 0).value < a <==> Before(d, p, a))
    ensures Before(d, p, a) ==> Occurs(e, p)
  {
    var r := FindFrom(e, p, 0);
    if j :| OccursAt(e, p, j) { assert r.Some?; }
    if j :| j < a && OccursAt(d, p, j) { assert OccursAt(e, p, j); }
    if r.Some? && r.value < a { assert OccursAt(d, p, r.value); }
  }

  /** The heading of the second table never stands at the start of the rendering or in it. */
  lemma HeadingInFront(d: string, one: Table, first: string, two: Table)
    requires ValidTable(one) && ValidTable(two) && ValidRendering(first, one, two) && Region(d, one).Some?
    ensures var (a, b) := Region(d, one).value;
            var end := FindFrom(Assembled(d[..a], first, d[b..]), two.heading, 0);
            end.Some? ==> (end.value < a <==> Before(d, two.heading, a)) && (end.value < a || a + |first| < end.value)
  {
    var (a, b) := Region(d, one).value;
    var e := Assembled(d[..a], first, d[b..]);
    RegionFacts(d, one, a, b);
    assert first[0] == '|';
    forall j | j <= a + |first| && OccursAt(e, two.heading, j) ensures j < a && OccursAt(d, two.heading, j) {
      HeadingNotEarlier(d, a, b, first, two.heading, j);
    }
    forall j | j < a && OccursAt(d, two.heading, j) ensures OccursAt(e, two.heading, j) {
      Covers(d, two.heading, j, a);
      Stays(d, a, b, first, two.heading, j);
    }
    FirstInFront(e, d, two.heading, a);
  }

  /** The regions overlap exactly when, in the old document, the second one encloses the first. */
  lemma OverlapOnInput(d: string, one: Table, first: string, two: Table)
    requires ValidTable(one) && ValidTable(two) && ValidRendering(first, one, two) && LegacyApart(two, one, first)
    requires Unbridged(one, two) && Replace(d, one, first).Ok?
    requires Region(Replace(d, one, first).value, two).Some?
    ensures DisjointRegions(d, one, first, two) <==> !Encloses(d, one, two)
  {
    var (a1, b1) := Region(d, one).value;
    ReplaceIsAssembled(d, one, first);
    var (a, b) := Region(Assembled(d[..a1], first, d[b1..]), two).value;
    StartInFront(d, one, first, two);
    HeadingInFront(d, one, first, two);
    if !DisjointRegions(d, one, first, two) {
      OverlapEncloses(d, one, first, two, a, b);
    }
  }

  /** A document with the first table once holds it once after the replacement. */
  lemma SingleStays(d: string, one: Table, first: string, other: Table)
    requires ValidTable(one) && ValidRendering(first, one, other) && RendersOnce(first, one)
    requires Replace(d, one, first).Ok? && SingleTable(d, one)
    ensures OnlyAt(Replace(d, one, first).value, one, Region(d, one).value.0)
  {
    var (a, b) := Region(d, one).value;
    ReplaceIsAssembled(d, one, first);
    RegionFacts(d, one, a, b);
    var e := Assembled(d[..a], first, d[b..]);
    forall j | OccursAt(e, one.header, j) ensures j == a {
      Trace(d, a, b, first, one.header, j);
      if j < a { HeaderNotEarlier(d, a, b, first, one.header, one.header, j); }
    }
    forall j ensures !OccursAt(e, one.legacy, j) {
      if OccursAt(e, one.legacy, j) { BeforeWritten(d, a, b, first, one.legacy, one.header, j); }
    }
  }

  /**
   In a document that holds the first table once, the check after a write passes exactly
   when the second table does not start in front of the first one without ending there.
   */
  lemma FreshExactlyOnInput(d: string, one: Table, first: string, two: Table, second: string)
    requires ValidTable(one) && ValidTable(two)
    requires ValidRendering(first, one, two) && ValidRendering(second, two, one)
    requires LegacyApart(two, one, first) && LegacyApart(one, two, second)
    requires Unbridged(one, two) && RendersOnce(first, one)
    requires ExpectedDocument(d, one, first, two, second).Ok? && SingleTable(d, one)
    ensures var r := Check(ExpectedDocument(d, one, first, two, second).value, one, first, two, second);
            (r == Fresh <==> !Encloses(d, one, two)) && r != Stale
  {
    SingleStays(d, one, first, two);
    OverlapOnInput(d, one, first, two);
    FreshExactlyWhenDisjoint(d, one, first, two, second);
  }
}
