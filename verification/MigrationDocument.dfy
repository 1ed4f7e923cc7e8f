/**
 scripts/render_task6_migration_document.py: two generated tables inside one Markdown
 document. A write replaces both; a later check run recomputes the document and fails
 unless nothing changed.

 A replacement finds its table by the first occurrence of a header and of the heading that
 follows the table, and puts a rendering in between. Whether a second run finds the same
 places again is a question of where these texts can occur in the new document: in front of
 the rendering, where the old document had them already; across the seam, where an end of
 the text searched for would have to begin like the new header; inside the rendering; or
 behind it, where everything has only moved. The same four cases decide what the other
 table's replacement does to this one. When the two regions are disjoint, both tables stay
 found and the document is a fixed point. When they overlap, the second region encloses the
 first table, and writing it erases the first header.
 */
module MigrationDocument {
  import opened Outcome
  import opened TextSearch

  /** What delimits a generated table: its header line, an older header, and the next heading. */
  datatype Table = Table(header: string, legacy: string, heading: string)

  datatype Failure = BoundariesMissing

  type Document = Result<string, Failure>

  /** Where the table starts: the current header, else the legacy one. */
  function Start(document: string, t: Table): Option<nat> {
    var current := FindFrom(document, t.header, 0);
    if current.Some? then current else FindFrom(document, t.legacy, 0)
  }

  function Region(document: string, t: Table): (r: Option<(nat, nat)>)
    ensures r.Some? ==> r.value.0 < r.value.1 <= |document|
  {
    var start, end := Start(document, t), FindFrom(document, t.heading, 0);
    if start.None? || end.None? || end.value <= start.value then None
    else Some((start.value, end.value))
  }

  /** `replace_table` and `replace_deleted_test_table`. */
  function Replace(document: string, t: Table, rendered: string): Document {
    match Region(document, t)
    case None => Err(BoundariesMissing)
    case Some((start, end)) => Ok(document[..start] + rendered + "\n" + document[end..])
  }

  /** What `main` expects the document to be. */
  function ExpectedDocument(document: string, one: Table, first: string, two: Table, second: string): Document {
    match Replace(document, one, first)
    case Err(why) => Err(why)
    case Ok(middle) => Replace(middle, two, second)
  }

  datatype CheckResult = Fresh | Stale | Broken

  /** The run without `--write`. */
  function Check(document: string, one: Table, first: string, two: Table, second: string): CheckResult {
    match ExpectedDocument(document, one, first, two, second)
    case Err(_) => Broken
    case Ok(expected) => if expected == document then Fresh else Stale
  }

  // ----- What the texts must be like -----

  /** An end of `p` is a beginning of `q`, more than the single bar they share. */
  ghost predicate Overlaps(p: string, q: string, k: nat) {
    2 <= k < |p| && k <= |q| && p[|p| - k..] == q[..k]
  }

  /** Headers are single lines that start with a bar, headings single lines without one. */
  ghost predicate ValidTable(t: Table) {
    && t.header != "" && t.header[0] == '|' && '\n' !in t.header
    && t.legacy != "" && t.legacy[0] == '|'
    && t.heading != "" && '|' !in t.heading && '\n' !in t.heading
    && forall k :: !Overlaps(t.header, t.header, k)
  }

  /** A rendered table starts with its header and mentions no heading of either table. */
  ghost predicate ValidRendering(rendered: string, t: Table, other: Table) {
    && t.header + "\n" <= rendered
    && !Occurs(rendered, t.heading)
    && !Occurs(rendered, other.heading)
    && !Occurs(rendered, other.header)
    && forall k :: !Overlaps(other.header, t.header, k)
  }

  // ----- Occurrences in a document put together from three pieces -----

  lemma OccursIn(a: string, b: string, p: string, j: int)
    ensures j + |p| <= |a| ==> (OccursAt(a + b, p, j) <==> OccursAt(a, p, j))
    ensures |a| <= j ==> (OccursAt(a + b, p, j) <==> OccursAt(b, p, j - |a|))
  {
    var s := a + b;
    if 0 <= j && j + |p| <= |a| { assert s[j..j + |p|] == a[j..j + |p|]; }
    if |a| <= j && j + |p| <= |s| { assert s[j..j + |p|] == b[j - |a|..j - |a| + |p|]; }
  }

  /** An occurrence only covers characters of the text searched for. */
  lemma Covers(s: string, p: string, j: int, k: int)
    requires OccursAt(s, p, j)
    ensures j <= k < j + |p| ==> s[k] in p
  {
    if j <= k < j + |p| {
      assert s[j..j + |p|][k - j] == s[k];
    }
  }

  /** The document after a replacement: what stays before, the rendering, what stays after. */
  ghost function Assembled(x: string, m: string, z: string): string { x + (m + ("\n" + z)) }

  lemma AssembledOccurs(x: string, m: string, z: string, p: string, j: int)
    requires p != "" && '\n' !in p && OccursAt(Assembled(x, m, z), p, j)
    ensures OccursAt(x + m, p, j) || (|x| + |m| < j && OccursAt(z, p, j - |x| - |m| - 1))
  {
    var e, n := Assembled(x, m, z), |x| + |m|;
    Covers(e, p, j, n);
    assert e == (x + m) + ("\n" + z) && e[n] == '\n';
    assert j + |p| <= n || n < j;
    OccursIn(x + m, "\n" + z, p, j);
    if n < j { OccursIn("\n", z, p, j - n); }
  }

  /** Where an occurrence in the new document comes from. */
  lemma Trace(d: string, a: nat, b: nat, m: string, p: string, j: int)
    requires a <= b <= |d| && p != "" && '\n' !in p
    requires OccursAt(Assembled(d[..a], m, d[b..]), p, j)
    ensures
      || (j + |p| <= a && OccursAt(d, p, j))
      || (j < a < j + |p| && OccursAt(d[..a] + m, p, j))
      || (a <= j && OccursAt(m, p, j - a))
      || (a + |m| < j && OccursAt(d, p, j - a - |m| - 1 + b))
  {
    var x, z := d[..a], d[b..];
    AssembledOccurs(x, m, z, p, j);
    assert d == x + d[a..] && d == d[..b] + z;
    OccursIn(x, m, p, j);
    OccursIn(x, d[a..], p, j);
    OccursIn(d[..b], z, p, j - a - |m| - 1 + b);
  }

  /** Pieces that stay keep their occurrences. */
  lemma Stays(d: string, a: nat, b: nat, m: string, p: string, j: int)
    requires a <= b <= |d|
    ensures j + |p| <= a && OccursAt(d, p, j) ==> OccursAt(Assembled(d[..a], m, d[b..]), p, j)
    ensures b <= j && OccursAt(d, p, j) ==> OccursAt(Assembled(d[..a], m, d[b..]), p, j - b + a + |m| + 1)
  {
    var x, z := d[..a], d[b..];
    assert d == x + d[a..] && d == d[..b] + z;
    OccursIn(x, d[a..], p, j);
    OccursIn(x, m + ("\n" + z), p, j);
    OccursIn(d[..b], z, p, j);
    assert Assembled(x, m, z) == (x + m + "\n") + z;
    OccursIn(x + m + "\n", z, p, j - b + a + |m| + 1);
  }

  /**
   An occurrence that runs from the kept text into a rendering which starts with the line
   `q` is one the old document had, or an end of it is a beginning of `q`.
   */
  lemma Crossing(d: string, a: nat, m: string, p: string, q: string, j: int)
    requires a < |d| && d[a] == '|' && q != "" && q[0] == '|' && q + "\n" <= m && '\n' !in p
    requires j < a < j + |p| && OccursAt(d[..a] + m, p, j)
    ensures OccursAt(d, p, j) || Overlaps(p, q, j + |p| - a)
  {
    var e, k := d[..a] + m, j + |p| - a;
    Covers(e, p, j, a + |q|);
    assert e[a + |q|] == '\n';
    assert k <= |q|;
    assert p == e[j..j + |p|];
    assert p[|p| - k..] == e[a..a + k] == m[..k] == q[..k];
    if k == 1 {
      assert d[j..j + |p|] == d[j..a] + [d[a]];
      assert e[j..j + |p|] == e[j..a] + [e[a]];
      assert e[j..a] == d[j..a];
    }
  }

  // ----- One replacement -----

  lemma FirstIsFound(s: string, p: string, i: nat)
    requires FirstFrom(s, p, 0, i)
    ensures FindFrom(s, p, 0) == Some(i)
  {
    var r := FindFrom(s, p, 0);
    assert OccursAt(s, p, i);
    assert r.Some?;
  }

  /** What the region says about the document. */
  lemma RegionFacts(d: string, t: Table, a: nat, b: nat)
    requires ValidTable(t) && Region(d, t) == Some((a, b))
    ensures d[a] == '|' && OccursAt(d, t.heading, b)
    ensures forall j :: 0 <= j < a ==> !OccursAt(d, t.header, j)
    ensures forall j :: 0 <= j < b ==> !OccursAt(d, t.heading, j)
  {
    var current := FindFrom(d, t.header, 0);
    var found := if current.Some? then t.header else t.legacy;
    assert OccursAt(d, found, a);
    assert d[a..a + |found|][0] == d[a];
  }

  lemma HeaderNotEarlier(d: string, a: nat, b: nat, m: string, p: string, q: string, j: int)
    requires a < b <= |d| && d[a] == '|' && p != "" && '\n' !in p
    requires q != "" && q[0] == '|' && q + "\n" <= m && j < a
    ensures OccursAt(Assembled(d[..a], m, d[b..]), p, j) ==> OccursAt(d, p, j) || Overlaps(p, q, j + |p| - a)
  {
    if OccursAt(Assembled(d[..a], m, d[b..]), p, j) {
      Trace(d, a, b, m, p, j);
      if j < a < j + |p| && OccursAt(d[..a] + m, p, j) { Crossing(d, a, m, p, q, j); }
    }
  }

  lemma HeadingNotEarlier(d: string, a: nat, b: nat, m: string, n: string, j: int)
    requires a < b <= |d| && m != "" && m[0] == '|' && n != "" && '\n' !in n && j <= a + |m|
    ensures OccursAt(Assembled(d[..a], m, d[b..]), n, j) ==>
              (j < a && OccursAt(d, n, j)) || Occurs(m, n) || '|' in n
  {
    if OccursAt(Assembled(d[..a], m, d[b..]), n, j) {
      Trace(d, a, b, m, n, j);
      if j < a < j + |n| && OccursAt(d[..a] + m, n, j) {
        Covers(d[..a] + m, n, j, a);
        assert (d[..a] + m)[a] == '|';
      }
    }
  }

  /** After a replacement the same search finds the same table again, now holding the rendering. */
  lemma AfterReplace(d: string, t: Table, other: Table, m: string, a: nat, b: nat)
    requires ValidTable(t) && ValidRendering(m, t, other) && Region(d, t) == Some((a, b))
    ensures var e := Assembled(d[..a], m, d[b..]);
            FirstFrom(e, t.header, 0, a) && FirstFrom(e, t.heading, 0, a + |m| + 1)
  {
    var e := Assembled(d[..a], m, d[b..]);
    RegionFacts(d, t, a, b);
    assert m[0] == '|' && t.header <= m;
    assert OccursAt(e, t.header, a) by { assert e[a..a + |t.header|] == m[..|t.header|]; }
    Stays(d, a, b, m, t.heading, b);
    forall j | 0 <= j < a ensures !OccursAt(e, t.header, j) {
      HeaderNotEarlier(d, a, b, m, t.header, t.header, j);
    }
    forall j | 0 <= j < a + |m| + 1 ensures !OccursAt(e, t.heading, j) {
      HeadingNotEarlier(d, a, b, m, t.heading, j);
    }
  }

  lemma ReplaceIsAssembled(d: string, t: Table, m: string)
    requires Replace(d, t, m).Ok?
    ensures var (a, b) := Region(d, t).value; Replace(d, t, m) == Ok(Assembled(d[..a], m, d[b..]))
  {
    var (a, b) := Region(d, t).value;
    assert d[..a] + m + "\n" + d[b..] == Assembled(d[..a], m, d[b..]);
  }

  /** A document whose region already holds the rendering is left alone. */
  lemma ReplaceFixed(e: string, t: Table, m: string, a: nat)
    requires FirstFrom(e, t.header, 0, a) && FirstFrom(e, t.heading, 0, a + |m| + 1)
    requires a + |m| + 1 <= |e| && e[a..a + |m| + 1] == m + "\n"
    ensures Replace(e, t, m) == Ok(e)
  {
    FirstIsFound(e, t.header, a);
    FirstIsFound(e, t.heading, a + |m| + 1);
    Rebuilt(e, m, a, a + |m| + 1);
  }

  lemma Rebuilt(e: string, m: string, a: nat, b: nat)
    requires a <= b <= |e| && e[a..b] == m + "\n"
    ensures e[..a] + m + "\n" + e[b..] == e
  {
    assert e[..a] + m + "\n" + e[b..] == e[..a] + (m + "\n") + e[b..];
    assert e[..a] + e[a..b] + e[b..] == e;
  }

  lemma ReplaceTwice(d: string, t: Table, other: Table, m: string)
    requires ValidTable(t) && ValidRendering(m, t, other) && Replace(d, t, m).Ok?
    ensures Replace(Replace(d, t, m).value, t, m) == Replace(d, t, m)
  {
    var (a, b) := Region(d, t).value;
    ReplaceIsAssembled(d, t, m);
    AfterReplace(d, t, other, m, a, b);
    var e := Assembled(d[..a], m, d[b..]);
    assert e[a..a + |m| + 1] == m + "\n";
    ReplaceFixed(e, t, m, a);
  }

  // ----- The other table -----

  /** `m` and a line break fill the region of `t`, which starts at `a`. */
  ghost predicate Holds(d: string, t: Table, m: string, a: nat) {
    && FirstFrom(d, t.header, 0, a)
    && FirstFrom(d, t.heading, 0, a + |m| + 1)
    && d[a..a + |m| + 1] == m + "\n"
  }

  /** Behind the replaced region, first occurrences move with their text. */
  lemma FirstMoves(d: string, a: nat, b: nat, m: string, p: string, i: nat)
    requires a < b <= i && i <= |d| && p != "" && '\n' !in p && FirstFrom(d, p, 0, i) && !Occurs(m, p)
    requires forall j :: 0 <= j < a ==> !OccursAt(Assembled(d[..a], m, d[b..]), p, j)
    ensures FirstFrom(Assembled(d[..a], m, d[b..]), p, 0, i - b + a + |m| + 1)
  {
    var e, i' := Assembled(d[..a], m, d[b..]), i - b + a + |m| + 1;
    Stays(d, a, b, m, p, i);
    forall j | a <= j < i' ensures !OccursAt(e, p, j) {
      if OccursAt(e, p, j) { Trace(d, a, b, m, p, j); }
    }
  }

  lemma HeadersBefore(d: string, one: Table, two: Table, m: string, a: nat, b: nat, j: int)
    requires ValidTable(one) && ValidTable(two) && ValidRendering(m, two, one) && Region(d, two) == Some((a, b))
    requires 0 <= j < a
    ensures OccursAt(Assembled(d[..a], m, d[b..]), one.header, j) ==> OccursAt(d, one.header, j)
    ensures OccursAt(Assembled(d[..a], m, d[b..]), one.heading, j) ==> OccursAt(d, one.heading, j)
  {
    RegionFacts(d, two, a, b);
    assert m[0] == '|';
    HeaderNotEarlier(d, a, b, m, one.header, two.header, j);
    HeadingNotEarlier(d, a, b, m, one.heading, j);
  }

  /** A table in front of the replaced region stays where it is. */
  lemma SurvivesInFront(d: string, one: Table, first: string, two: Table, m: string, a1: nat, a: nat, b: nat)
    requires ValidTable(one) && ValidTable(two) && ValidRendering(m, two, one) && Region(d, two) == Some((a, b))
    requires one.header <= first && Holds(d, one, first, a1) && a1 + |first| + 1 <= a
    ensures Holds(Assembled(d[..a], m, d[b..]), one, first, a1)
  {
    var e, b1 := Assembled(d[..a], m, d[b..]), a1 + |first| + 1;
    RegionFacts(d, two, a, b);
    Covers(d, one.heading, b1, a);
    Stays(d, a, b, m, one.header, a1);
    Stays(d, a, b, m, one.heading, b1);
    forall j | 0 <= j < b1
      ensures OccursAt(e, one.header, j) ==> OccursAt(d, one.header, j)
      ensures OccursAt(e, one.heading, j) ==> OccursAt(d, one.heading, j)
    {
      HeadersBefore(d, one, two, m, a, b, j);
    }
    assert e[a1..b1] == d[a1..b1];
  }

  /** A table behind the replaced region moves with its text. */
  lemma SurvivesBehind(d: string, one: Table, first: string, two: Table, m: string, a1: nat, a: nat, b: nat)
    requires ValidTable(one) && ValidTable(two) && ValidRendering(m, two, one) && Region(d, two) == Some((a, b))
    requires Holds(d, one, first, a1) && b <= a1
    ensures Holds(Assembled(d[..a], m, d[b..]), one, first, a1 - b + a + |m| + 1)
  {
    var e, b1 := Assembled(d[..a], m, d[b..]), a1 + |first| + 1;
    forall j | 0 <= j < a ensures !OccursAt(e, one.header, j) && !OccursAt(e, one.heading, j) {
      HeadersBefore(d, one, two, m, a, b, j);
    }
    FirstMoves(d, a, b, m, one.header, a1);
    FirstMoves(d, a, b, m, one.heading, b1);
    SliceMoves(d, a, b, m, a1, b1);
  }

  lemma SliceMoves(d: string, a: nat, b: nat, m: string, lo: nat, hi: nat)
    requires a <= b <= lo <= hi <= |d|
    ensures var e, shift := Assembled(d[..a], m, d[b..]), a + |m| + 1 - b;
            hi + shift <= |e| && e[lo + shift..hi + shift] == d[lo..hi]
  {
    var e := Assembled(d[..a], m, d[b..]);
    assert e == (d[..a] + m + "\n") + d[b..];
  }

  /** In the document with the first table written, the second region does not touch it. */
  ghost predicate DisjointRegions(d: string, one: Table, first: string, two: Table)
    requires Replace(d, one, first).Ok?
  {
    var start := Region(d, one).value.0;
    match Region(Replace(d, one, first).value, two)
    case None => true
    case Some((a, b)) => start + |first| + 1 <= a || b <= start
  }

  lemma FirstWritten(d: string, one: Table, first: string, two: Table)
    requires ValidTable(one) && ValidRendering(first, one, two) && Replace(d, one, first).Ok?
    ensures Holds(Replace(d, one, first).value, one, first, Region(d, one).value.0)
  {
    var (a1, b1) := Region(d, one).value;
    ReplaceIsAssembled(d, one, first);
    AfterReplace(d, one, two, first, a1, b1);
    var e := Assembled(d[..a1], first, d[b1..]);
    assert e[a1..a1 + |first| + 1] == first + "\n";
  }

  lemma OtherIsFixed(middle: string, one: Table, first: string, two: Table, second: string, a1: nat, a: nat, b: nat)
    requires ValidTable(one) && ValidTable(two) && one.header <= first && ValidRendering(second, two, one)
    requires Region(middle, two) == Some((a, b)) && Holds(middle, one, first, a1)
    requires a1 + |first| + 1 <= a || b <= a1
    ensures Replace(Assembled(middle[..a], second, middle[b..]), one, first) ==
            Ok(Assembled(middle[..a], second, middle[b..]))
  {
    var e := Assembled(middle[..a], second, middle[b..]);
    if a1 + |first| + 1 <= a {
      SurvivesInFront(middle, one, first, two, second, a1, a, b);
      ReplaceFixed(e, one, first, a1);
    } else {
      SurvivesBehind(middle, one, first, two, second, a1, a, b);
      ReplaceFixed(e, one, first, a1 - b + a + |second| + 1);
    }
  }

  /**
   Whoever writes the document finds it fresh afterwards: when the two regions do not
   overlap and the renderings mention no heading, the check run returns the written
   document unchanged.
   */
  lemma WriteThenCheckIsFresh(d: string, one: Table, first: string, two: Table, second: string)
    requires ValidTable(one) && ValidTable(two)
    requires ValidRendering(first, one, two) && ValidRendering(second, two, one)
    requires ExpectedDocument(d, one, first, two, second).Ok?
    requires DisjointRegions(d, one, first, two)
    ensures Check(ExpectedDocument(d, one, first, two, second).value, one, first, two, second) == Fresh
  {
    var middle := Replace(d, one, first).value;
    var (a, b) := Region(middle, two).value;
    FirstWritten(d, one, first, two);
    assert one.header <= first;
    ReplaceIsAssembled(middle, two, second);
    OtherIsFixed(middle, one, first, two, second, Region(d, one).value.0, a, b);
    ReplaceTwice(middle, two, one, second);
  }

  // ----- Why the regions must not overlap -----

  /** The first table stands once in the document, and an older header of it nowhere. */
  ghost predicate OnlyAt(d: string, t: Table, a: nat) {
    (forall j :: OccursAt(d, t.header, j) ==> j == a) && !Occurs(d, t.legacy)
  }

  /** The older header is a line that the other table's rendering neither holds nor completes. */
  ghost predicate LegacyApart(t: Table, other: Table, rendered: string) {
    && '\n' !in t.legacy
    && !Occurs(rendered, t.legacy)
    && forall k :: !Overlaps(t.legacy, other.header, k)
  }

  /** A text that occurs in front of, or inside, a written table occurs in the old document in front of it. */
  lemma BeforeWritten(d: string, a: nat, b: nat, m: string, p: string, q: string, j: int)
    requires a < b <= |d| && d[a] == '|' && p != "" && '\n' !in p && !Occurs(m, p)
    requires q != "" && q[0] == '|' && q + "\n" <= m && forall k :: !Overlaps(p, q, k)
    requires OccursAt(Assembled(d[..a], m, d[b..]), p, j)
    ensures (j < a && OccursAt(d, p, j)) || (a + |m| < j && OccursAt(d, p, j - a - |m| - 1 + b))
  {
    Trace(d, a, b, m, p, j);
    if j < a { HeaderNotEarlier(d, a, b, m, p, q, j); }
  }

  /** A region that overlaps the written first table encloses it. */
  lemma OverlapEncloses(d: string, one: Table, first: string, two: Table, a: nat, b: nat)
    requires ValidTable(one) && ValidTable(two) && ValidRendering(first, one, two) && LegacyApart(two, one, first)
    requires Replace(d, one, first).Ok? && Region(Replace(d, one, first).value, two) == Some((a, b))
    requires !DisjointRegions(d, one, first, two)
    ensures var a1 := Region(d, one).value.0; a < a1 && a1 + |first| + 1 <= b
  {
    var (a1, b1) := Region(d, one).value;
    ReplaceIsAssembled(d, one, first);
    RegionFacts(d, one, a1, b1);
    var middle := Assembled(d[..a1], first, d[b1..]);
    var found := if FindFrom(middle, two.header, 0).Some? then two.header else two.legacy;
    assert OccursAt(middle, found, a) && OccursAt(middle, two.heading, b);
    BeforeWritten(d, a1, b1, first, found, one.header, a);
    Trace(d, a1, b1, first, two.heading, b);
  }

  lemma EnclosedIsErased(d: string, two: Table, m: string, p: string, a1: nat, a: nat, b: nat)
    requires ValidTable(two) && Region(d, two) == Some((a, b)) && two.header + "\n" <= m
    requires p != "" && '\n' !in p && !Occurs(m, p) && forall k :: !Overlaps(p, two.header, k)
    requires a < a1 < b && forall j :: OccursAt(d, p, j) ==> j == a1
    ensures !Occurs(Assembled(d[..a], m, d[b..]), p)
  {
    var e := Assembled(d[..a], m, d[b..]);
    RegionFacts(d, two, a, b);
    forall j ensures !OccursAt(e, p, j) {
      if OccursAt(e, p, j) { BeforeWritten(d, a, b, m, p, two.header, j); }
    }
  }

  /**
   In a document that holds the first table once, the check after a write passes exactly
   when the regions are disjoint: writing the second table into a region that overlaps
   the first one erases it, and the next run finds its boundaries missing.
   */
  lemma FreshExactlyWhenDisjoint(d: string, one: Table, first: string, two: Table, second: string)
    requires ValidTable(one) && ValidTable(two)
    requires ValidRendering(first, one, two) && ValidRendering(second, two, one)
    requires LegacyApart(two, one, first) && LegacyApart(one, two, second)
    requires ExpectedDocument(d, one, first, two, second).Ok?
    requires OnlyAt(Replace(d, one, first).value, one, Region(d, one).value.0)
    ensures var r := Check(ExpectedDocument(d, one, first, two, second).value, one, first, two, second);
            (r == Fresh <==> DisjointRegions(d, one, first, two)) && r != Stale
  {
    if DisjointRegions(d, one, first, two) {
      WriteThenCheckIsFresh(d, one, first, two, second);
    } else {
      var middle, a1 := Replace(d, one, first).value, Region(d, one).value.0;
      var (a, b) := Region(middle, two).value;
      OverlapEncloses(d, one, first, two, a, b);
      ReplaceIsAssembled(middle, two, second);
      EnclosedIsErased(middle, two, second, one.header, a1, a, b);
      EnclosedIsErased(middle, two, second, one.legacy, a1, a, b);
    }
  }

  // ----- A document whose regions overlap -----

  /** The second header in front of the first table, and both headings behind it. */
  function Overlapping(one: Table, two: Table): string { Behind(two.header, Behind(one.header, Headings(one, two))) }

  function Headings(one: Table, two: Table): string { Behind(one.heading, two.heading) }

  function Behind(x: string, y: string): string { x + ("\n" + y) }

  /** What the headers and headings must not contain for that document. */
  ghost predicate Apart(one: Table, two: Table) {
    && !Occurs(two.header, one.header) && !Occurs(two.header, one.heading) && !Occurs(two.header, two.heading)
    && !Occurs(one.header, one.heading) && !Occurs(one.heading, two.heading)
  }

  lemma FirstBehind(x: string, y: string, p: string, i: nat)
    requires p != "" && '\n' !in p && !Occurs(x, p) && FirstFrom(y, p, 0, i)
    ensures FirstFrom(Behind(x, y), p, 0, |x| + 1 + i)
  {
    var s := Behind(x, y);
    assert s == (x + "\n") + y && s[|x|] == '\n';
    OccursIn(x + "\n", y, p, |x| + 1 + i);
    forall j | 0 <= j < |x| + 1 + i ensures !OccursAt(s, p, j) {
      if OccursAt(s, p, j) {
        Covers(s, p, j, |x|);
        OccursIn(x, "\n" + y, p, j);
        OccursIn(x + "\n", y, p, j);
      }
    }
  }

  lemma FirstAtStart(x: string, y: string)
    ensures FirstFrom(Behind(x, y), x, 0, 0)
  {
    assert Behind(x, y)[0..|x|] == x;
  }

  lemma FoundBehind(x: string, y: string, p: string, i: nat)
    requires p != "" && '\n' !in p && !Occurs(x, p) && FirstFrom(y, p, 0, i)
    ensures FindFrom(Behind(x, y), p, 0) == Some(|x| + 1 + i)
  {
    FirstBehind(x, y, p, i);
    FirstIsFound(Behind(x, y), p, |x| + 1 + i);
  }

  lemma BehindCut(x: string, h: string, rest: string, m: string)
    ensures var d, a, b := Behind(x, Behind(h, rest)), |x| + 1, |x| + |h| + 2;
            b <= |d| && d[..a] + m + "\n" + d[b..] == Behind(x, Behind(m, rest))
  {
    var d, a, b := Behind(x, Behind(h, rest)), |x| + 1, |x| + |h| + 2;
    assert d == (x + "\n") + Behind(h, rest) && d == (x + "\n" + h + "\n") + rest;
    assert d[..a] == x + "\n" && d[b..] == rest;
    assert (x + "\n") + m + "\n" + rest == Behind(x, Behind(m, rest));
  }

  lemma OverlappingFirst(one: Table, first: string, two: Table)
    requires ValidTable(one) && ValidTable(two) && Apart(one, two)
    ensures Replace(Overlapping(one, two), one, first) == Ok(Behind(two.header, Behind(first, Headings(one, two))))
  {
    HeaderSecond(two.header, one.header, Headings(one, two));
    HeadingThird(two.header, one.header, one.heading, two.heading);
    RegionIs(Overlapping(one, two), one, |two.header| + 1, |two.header| + |one.header| + 2);
    BehindCut(two.header, one.header, Headings(one, two), first);
  }

  lemma HeaderSecond(x: string, h: string, rest: string)
    requires h != "" && '\n' !in h && !Occurs(x, h)
    ensures FindFrom(Behind(x, Behind(h, rest)), h, 0) == Some(|x| + 1)
  {
    FirstAtStart(h, rest);
    FoundBehind(x, Behind(h, rest), h, 0);
  }

  lemma HeadingThird(x: string, h: string, n: string, rest: string)
    requires n != "" && '\n' !in n && !Occurs(x, n) && !Occurs(h, n)
    ensures FindFrom(Behind(x, Behind(h, Behind(n, rest))), n, 0) == Some(|x| + |h| + 2)
  {
    FirstAtStart(n, rest);
    FirstBehind(h, Behind(n, rest), n, 0);
    FoundBehind(x, Behind(h, Behind(n, rest)), n, |h| + 1);
  }

  lemma HeadingLast(x: string, m: string, n: string, p: string)
    requires p != "" && '\n' !in p && !Occurs(x, p) && !Occurs(m, p) && !Occurs(n, p)
    ensures FindFrom(Behind(x, Behind(m, Behind(n, p))), p, 0) == Some(|x| + |m| + |n| + 3)
  {
    HeadingSecond(n, p);
    FirstBehind(m, Behind(n, p), p, |n| + 1);
    FoundBehind(x, Behind(m, Behind(n, p)), p, |m| + |n| + 2);
  }

  lemma HeadingSecond(n: string, p: string)
    requires p != "" && '\n' !in p && !Occurs(n, p)
    ensures FirstFrom(Behind(n, p), p, 0, |n| + 1)
  {
    assert FirstFrom(p, p, 0, 0) by { assert p[0..|p|] == p; }
    FirstBehind(n, p, p, 0);
  }

  lemma LastSlice(x: string, m: string, n: string, p: string)
    ensures var d, b := Behind(x, Behind(m, Behind(n, p))), |x| + |m| + |n| + 3;
            b <= |d| && d[b..] == p
  {
    BehindTail(n, p, 0);
    BehindTail(m, Behind(n, p), |n| + 1);
    BehindTail(x, Behind(m, Behind(n, p)), |m| + |n| + 2);
    assert p[0..] == p;
  }

  lemma BehindTail(x: string, y: string, i: nat)
    requires i <= |y|
    ensures |x| + 1 + i <= |Behind(x, y)| && Behind(x, y)[|x| + 1 + i..] == y[i..]
  {}

  lemma OverlappingSecond(one: Table, first: string, two: Table, second: string)
    requires ValidTable(one) && ValidTable(two) && Apart(one, two) && !Occurs(first, two.heading)
    ensures Replace(Behind(two.header, Behind(first, Headings(one, two))), two, second) ==
            Ok(Behind(second, two.heading))
  {
    var d := Behind(two.header, Behind(first, Headings(one, two)));
    SecondRegion(two, first, one.heading);
    LastSlice(two.header, first, one.heading, two.heading);
    StartCut(d, second, |two.header| + |first| + |one.heading| + 3);
  }

  lemma SecondRegion(t: Table, m: string, n: string)
    requires ValidTable(t) && !Occurs(t.header, t.heading) && !Occurs(m, t.heading) && !Occurs(n, t.heading)
    ensures Region(Behind(t.header, Behind(m, Behind(n, t.heading))), t) == Some((0, |t.header| + |m| + |n| + 3))
  {
    var d := Behind(t.header, Behind(m, Behind(n, t.heading)));
    HeaderAtStart(t.header, Behind(m, Behind(n, t.heading)));
    HeadingLast(t.header, m, n, t.heading);
    RegionIs(d, t, 0, |t.header| + |m| + |n| + 3);
  }

  lemma HeaderAtStart(x: string, y: string)
    ensures FindFrom(Behind(x, y), x, 0) == Some(0)
  {
    FirstAtStart(x, y);
    FirstIsFound(Behind(x, y), x, 0);
  }

  lemma RegionIs(d: string, t: Table, a: nat, b: nat)
    requires FindFrom(d, t.header, 0) == Some(a) && FindFrom(d, t.heading, 0) == Some(b) && a < b
    ensures Region(d, t) == Some((a, b))
  {}

  lemma StartCut(d: string, m: string, b: nat)
    requires b <= |d|
    ensures d[..0] + m + "\n" + d[b..] == Behind(m, d[b..])
  {
    assert d[..0] == "" && "" + m + "\n" + d[b..] == m + ("\n" + d[b..]);
  }

  /** The write erases the first table, and the next run finds its boundaries missing. */
  lemma OverlappingBreaks(one: Table, first: string, two: Table, second: string)
    requires ValidTable(one) && ValidTable(two) && Apart(one, two)
    requires ValidRendering(first, one, two) && ValidRendering(second, two, one) && !Occurs(second, one.legacy)
    requires '\n' !in one.legacy
    ensures var written := ExpectedDocument(Overlapping(one, two), one, first, two, second);
            written.Ok? && Check(written.value, one, first, two, second) == Broken
  {
    OverlappingFirst(one, first, two);
    OverlappingSecond(one, first, two, second);
    var e := Behind(second, two.heading);
    BarsGone(second, two.heading, one.header);
    BarsGone(second, two.heading, one.legacy);
  }

  lemma BarsGone(x: string, y: string, p: string)
    requires p != "" && p[0] == '|' && '\n' !in p && !Occurs(x, p) && '|' !in y
    ensures FindFrom(Behind(x, y), p, 0).None?
  {
    var s := Behind(x, y);
    forall j | 0 <= j ensures !OccursAt(s, p, j) {
      if OccursAt(s, p, j) {
        Covers(s, p, j, |x|);
        assert s[|x|] == '\n' && s == (x + "\n") + y;
        OccursIn(x, "\n" + y, p, j);
        OccursIn(x + "\n", y, p, j);
      }
    }
  }
}
