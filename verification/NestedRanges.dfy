/**
 Ranges that nest (`test_ranges`, `rename_all_tests` and `without_ranges`,
 scripts/migrate_task6_deleted_tests.py).

 An attributed test inside another one gives a range inside a range. Then the backward
 splice works with offsets that an earlier replacement has already moved, and
 `without_ranges` goes back to the end of the inner range. What should come out is what the
 outermost ranges alone give. Nested to any depth, the splice meets that exactly when no
 inner replacement changes its length, provided none shortens its range; for one level of
 nesting shorter replacements are decided too. Dropping the ranges meets it exactly when no
 text inside an outer range stands between the inner ones.
 */
module NestedRanges {
  import opened Splicing

  // ----- One level -----

  /** How much longer the replacements are than their ranges. */
  function Growth(edits: seq<Edit>): int {
    if edits == [] then 0 else |edits[0].text| - (edits[0].end - edits[0].start) + Growth(edits[1..])
  }

  lemma {:induction false} SubstituteLength(source: string, edits: seq<Edit>, cursor: nat)
    requires InOrder(edits, cursor, |source|)
    ensures cursor <= |source| && |Substitute(source, edits, cursor)| == |source| - cursor + Growth(edits)
  {
    InOrderEnds(edits, cursor, |source|);
    if edits != [] { SubstituteLength(source, edits[1..], edits[0].end); }
  }

  /** Edits that end before `end` leave the text from there on alone. */
  lemma {:induction false} SubstituteTail(source: string, edits: seq<Edit>, cursor: nat, end: nat)
    requires InOrder(edits, cursor, end) && end <= |source|
    ensures InOrder(edits, cursor, |source|) && cursor <= end
    ensures Substitute(source, edits, cursor) == Substitute(source[..end], edits, cursor) + source[end..]
  {
    Widen(edits, cursor, end, |source|);
    InOrderEnds(edits, cursor, end);
    if edits == [] {
      assert source[cursor..] == source[..end][cursor..] + source[end..];
    } else {
      SubstituteTail(source, edits[1..], edits[0].end, end);
      var piece := source[cursor..edits[0].start];
      assert source[..end][cursor..edits[0].start] == piece;
      Assoc(piece + edits[0].text, Substitute(source[..end], edits[1..], edits[0].end), source[end..]);
    }
  }

  /** Splicing stops to matter in front of the first edit. */
  lemma {:induction false} SubstituteHead(source: string, edits: seq<Edit>, start: nat)
    requires InOrder(edits, start, |source|)
    ensures start <= |source| && InOrder(edits, 0, |source|)
    ensures Substitute(source, edits, 0) == source[..start] + Substitute(source, edits, start)
  {
    InOrderEnds(edits, start, |source|);
    if edits == [] {
      assert source[0..] == source[..start] + source[start..];
    } else {
      assert source[0..edits[0].start] == source[..start] + source[start..edits[0].start];
    }
  }

  /** Dropping by a stale offset is harmless exactly when nothing moved or nothing is left to drop. */
  lemma StaleOffset(head: string, moved: string, tail: string, end: nat)
    requires |head| <= end
    ensures var growth := |head| + |moved| - end;
            Drop(head + moved + tail, end) == tail <==> growth == 0 || (tail == "" && growth < 0)
  {
    var s, growth := head + moved + tail, |head| + |moved| - end;
    if growth == 0 {
      assert s[end..] == tail;
    } else if end <= |s| {
      assert |s[end..]| == |tail| + growth;
    }
  }

  /**
   A test whose range holds the ranges of other tests: the backward splice gives what
   replacing the outer range alone gives if and only if the inner replacements together
   keep the length, or shorten it and no text follows the outer range.
   */
  lemma NestedSpliceExactly(source: string, outer: Edit, inner: seq<Edit>)
    requires outer.end <= |source| && InOrder(inner, outer.start, outer.end)
    ensures SpliceAll(source, [outer] + inner) == Splice(source, outer) <==>
            Growth(inner) == 0 || (Growth(inner) < 0 && outer.end == |source|)
  {
    InOrderEnds(inner, outer.start, outer.end);
    Widen(inner, outer.start, outer.end, |source|);
    SubstituteHead(source, inner, outer.start);
    SubstituteTail(source, inner, outer.start, outer.end);
    SubstituteLength(source[..outer.end], inner, outer.start);
    var head, tail := source[..outer.start], source[outer.end..];
    var moved := Substitute(source[..outer.end], inner, outer.start);
    OuterLast(source, outer, inner);
    SpliceAllSubstitutes(source, inner);
    assert SpliceAll(source, inner) == head + moved + tail;
    StaleOffset(head, moved, tail, outer.end);
    assert Take(head + moved + tail, outer.start) == head;
    SameTail(head + outer.text, Drop(head + moved + tail, outer.end), tail);
  }

  lemma SameTail(head: string, a: string, b: string)
    ensures head + a == head + b <==> a == b
  {
    assert (head + a)[|head|..] == a && (head + b)[|head|..] == b;
  }

  lemma {:induction false} OuterLast(source: string, outer: Edit, inner: seq<Edit>)
    ensures SpliceAll(source, [outer] + inner) == Splice(SpliceAll(source, inner), outer)
    decreases |inner|
  {
    var all, n := [outer] + inner, |inner|;
    if n == 0 {
      assert all == [outer] && all[..0] == [];
    } else {
      assert all[n] == inner[n - 1] && all[..n] == [outer] + inner[..n - 1];
      OuterLast(Splice(source, inner[n - 1]), outer, inner[..n - 1]);
    }
  }

  lemma {:induction false} SpliceAllAppend(source: string, x: seq<Edit>, y: seq<Edit>)
    ensures SpliceAll(source, x + y) == SpliceAll(SpliceAll(source, y), x)
    decreases |y|
  {
    if y == [] {
      assert x + y == x;
    } else {
      var n := |y| - 1;
      assert (x + y)[|x + y| - 1] == y[n] && (x + y)[..|x + y| - 1] == x + y[..n];
      SpliceAllAppend(Splice(source, y[n]), x, y[..n]);
    }
  }

  lemma {:induction false} InOrderSplit(x: seq<Edit>, e: Edit, y: seq<Edit>, cursor: nat, length: nat)
    requires InOrder(x + ([e] + y), cursor, length)
    ensures InOrder(x, cursor, e.start) && e.start <= e.end <= length && InOrder(y, e.end, length)
    decreases |x|
  {
    var all := x + ([e] + y);
    InOrderEnds(all, cursor, length);
    if x == [] {
      assert all == [e] + y && all[0] == e && all[1..] == y;
      InOrderEnds(y, e.end, length);
    } else {
      assert all[0] == x[0] && all[1..] == x[1..] + ([e] + y);
      InOrderSplit(x[1..], e, y, x[0].end, length);
    }
  }

  /** Edits in front of `m` tell texts apart that agree up to `m`. */
  lemma BeforeKeeps(u: string, v: string, before: seq<Edit>, m: nat)
    requires InOrder(before, 0, m) && m <= |u| && m <= |v| && u[..m] == v[..m]
    ensures SpliceAll(u, before) == SpliceAll(v, before) <==> u == v
  {
    SubstituteTail(u, before, 0, m);
    SubstituteTail(v, before, 0, m);
    SpliceAllSubstitutes(u, before);
    SpliceAllSubstitutes(v, before);
    SameTail(Substitute(u[..m], before, 0), u[m..], v[m..]);
    assert u == u[..m] + u[m..] && v == v[..m] + v[m..];
  }

  /** The splice of an outer range keeps the text in front of it. */
  lemma NestedHead(source: string, outer: Edit, inner: seq<Edit>)
    requires outer.end <= |source| && InOrder(inner, outer.start, outer.end)
    ensures outer.start <= outer.end
    ensures var r := SpliceAll(source, [outer] + inner);
            outer.start <= |r| && r[..outer.start] == source[..outer.start]
  {
    InOrderEnds(inner, outer.start, outer.end);
    Widen(inner, outer.start, outer.end, |source|);
    SubstituteHead(source, inner, outer.start);
    OuterLast(source, outer, inner);
    SpliceAllSubstitutes(source, inner);
  }

  /**
   The same inside a whole run, with other tests in front and behind: the result is the
   simultaneous substitution of the outer ranges if and only if the inner replacements
   keep their total length, or shorten it and no text is left behind the outer range.
   */
  lemma NestedRunExactly(source: string, before: seq<Edit>, outer: Edit, inner: seq<Edit>, after: seq<Edit>)
    requires InOrder(before + ([outer] + after), 0, |source|) && InOrder(inner, outer.start, outer.end)
    ensures InOrder(after, outer.end, |source|)
    ensures SpliceAll(source, before + (([outer] + inner) + after)) ==
            Substitute(source, before + ([outer] + after), 0) <==>
            Growth(inner) == 0 || (Growth(inner) < 0 && Substitute(source, after, outer.end) == "")
  {
    InOrderSplit(before, outer, after, 0, |source|);
    SubstituteHead(source, after, outer.end);
    SpliceAllSubstitutes(source, after);
    var s := SpliceAll(source, after);
    assert s[..outer.end] == source[..outer.end] && s[outer.end..] == Substitute(source, after, outer.end);
    RunSplits(source, before, [outer] + inner, after);
    RunSplits(source, before, [outer], after);
    SpliceAllSubstitutes(source, before + ([outer] + after));
    OneEdit(s, outer);
    NestedSpliceExactly(s, outer, inner);
    NestedHead(s, outer, inner);
    NestedHead(s, outer, []);
    assert [outer] + [] == [outer];
    BeforeKeeps(SpliceAll(s, [outer] + inner), SpliceAll(s, [outer]), before, outer.start);
  }

  lemma RunSplits(source: string, x: seq<Edit>, y: seq<Edit>, z: seq<Edit>)
    ensures SpliceAll(source, x + (y + z)) == SpliceAll(SpliceAll(SpliceAll(source, z), y), x)
  {
    SpliceAllAppend(source, x, y + z);
    SpliceAllAppend(source, y, z);
  }

  lemma OneEdit(source: string, e: Edit)
    ensures SpliceAll(source, [e]) == Splice(source, e)
  {
    assert [e][..0] == [];
  }

  // ----- Any depth -----

  /**
   Ranges in source order that nest: each begins behind the last outermost one, which is
   `[from, cursor)`, or lies inside it.
   */
  predicate Laminar(edits: seq<Edit>, from: nat, cursor: nat, length: nat) {
    if edits == [] then from <= cursor <= length
    else if edits[0].start < cursor then
      from <= edits[0].start <= edits[0].end <= cursor && Laminar(edits[1..], from, cursor, length)
    else
      from <= cursor && edits[0].start <= edits[0].end && Laminar(edits[1..], edits[0].start, edits[0].end, length)
  }

  /** The outermost ranges. */
  function Tops(edits: seq<Edit>, cursor: nat): seq<Edit> {
    if edits == [] then []
    else if edits[0].start < cursor then Tops(edits[1..], cursor)
    else [edits[0]] + Tops(edits[1..], edits[0].end)
  }

  /** The ranges inside others are replaced by text of the same length. */
  predicate InnerKeepLength(edits: seq<Edit>, cursor: nat) {
    if edits == [] then true
    else if edits[0].start < cursor then
      |edits[0].text| == edits[0].end - edits[0].start && InnerKeepLength(edits[1..], cursor)
    else InnerKeepLength(edits[1..], edits[0].end)
  }

  /** No replacement is shorter than its range. */
  predicate NoneShrinks(edits: seq<Edit>) {
    forall i :: 0 <= i < |edits| ==> |edits[i].text| >= edits[i].end - edits[i].start
  }

  lemma {:induction false} TopsInOrder(edits: seq<Edit>, from: nat, cursor: nat, length: nat)
    requires Laminar(edits, from, cursor, length)
    ensures cursor <= length && InOrder(Tops(edits, cursor), cursor, length)
  {
    if edits != [] {
      if edits[0].start < cursor {
        TopsInOrder(edits[1..], from, cursor, length);
      } else {
        TopsInOrder(edits[1..], edits[0].start, edits[0].end, length);
        assert Tops(edits, cursor)[1..] == Tops(edits[1..], edits[0].end);
      }
    }
  }

  /** All replacements together add at least what the outermost add, and no more only if the inner add nothing. */
  lemma {:induction false} InnerGrowth(edits: seq<Edit>, cursor: nat)
    requires NoneShrinks(edits)
    ensures Growth(edits) >= Growth(Tops(edits, cursor))
    ensures Growth(edits) == Growth(Tops(edits, cursor)) <==> InnerKeepLength(edits, cursor)
  {
    if edits != [] {
      var next := if edits[0].start < cursor then cursor else edits[0].end;
      InnerGrowth(edits[1..], next);
      assert edits[0].start >= cursor ==> Tops(edits, cursor)[1..] == Tops(edits[1..], next);
    }
  }

  /** Growing replacements find their ranges within the text, so every one adds its growth. */
  lemma {:induction false} SplicedLength(source: string, edits: seq<Edit>)
    requires NoneShrinks(edits)
    requires forall i :: 0 <= i < |edits| ==> edits[i].start <= edits[i].end <= |source|
    ensures Growth(edits) >= 0 && |SpliceAll(source, edits)| == |source| + Growth(edits)
  {
    if edits != [] {
      SplicedLength(source, edits[1..]);
      assert edits == [edits[0]] + edits[1..];
      OuterLast(source, edits[0], edits[1..]);
    }
  }

  lemma {:induction false} LaminarEnds(edits: seq<Edit>, from: nat, cursor: nat, length: nat)
    requires Laminar(edits, from, cursor, length)
    ensures cursor <= length
    ensures forall i :: 0 <= i < |edits| ==> edits[i].start <= edits[i].end <= length
  {
    if edits != [] {
      if edits[0].start < cursor {
        LaminarEnds(edits[1..], from, cursor, length);
      } else {
        LaminarEnds(edits[1..], edits[0].start, edits[0].end, length);
      }
      assert forall i :: 0 < i < |edits| ==> edits[i] == edits[1..][i - 1];
    }
  }

  /** With inner replacements of the same length, the text around each outermost range is right. */
  lemma {:induction false} SplicedAround(source: string, edits: seq<Edit>, from: nat, cursor: nat)
    requires Laminar(edits, from, cursor, |source|) && InnerKeepLength(edits, cursor)
    ensures from <= cursor <= |source| && InOrder(Tops(edits, cursor), cursor, |source|)
    ensures var r := SpliceAll(source, edits);
            && cursor <= |r| && r[..from] == source[..from]
            && r[cursor..] == Substitute(source, Tops(edits, cursor), cursor)
  {
    TopsInOrder(edits, from, cursor, |source|);
    if edits != [] {
      var e, rest := edits[0], edits[1..];
      assert edits == [e] + rest;
      OuterLast(source, e, rest);
      var r := SpliceAll(source, rest);
      if e.start < cursor {
        SplicedAround(source, rest, from, cursor);
        SameLengthInside(r, e, from, cursor);
      } else {
        SplicedAround(source, rest, e.start, e.end);
        var tops := Tops(rest, e.end);
        assert Tops(edits, cursor)[1..] == tops;
        OutermostLast(source, r, e, cursor, Substitute(source, tops, e.end));
      }
    }
  }

  lemma SameLengthInside(r: string, e: Edit, from: nat, cursor: nat)
    requires from <= e.start <= e.end <= cursor <= |r| && |e.text| == e.end - e.start
    ensures var s := Splice(r, e); |s| == |r| && s[..from] == r[..from] && s[cursor..] == r[cursor..]
  {}

  lemma OutermostLast(source: string, r: string, e: Edit, cursor: nat, behind: string)
    requires cursor <= e.start <= e.end <= |source| && e.end <= |r|
    requires r[..e.start] == source[..e.start] && r[e.end..] == behind
    ensures var s := Splice(r, e);
            && cursor <= |s|
            && s[..cursor] == source[..cursor]
            && s[cursor..] == source[cursor..e.start] + e.text + behind
  {
    assert Splice(r, e) == source[..e.start] + e.text + behind;
    assert source[..e.start] == source[..cursor] + source[cursor..e.start];
  }

  /**
   Nested to any depth, the backward splice is the simultaneous substitution of the
   outermost ranges if and only if no inner replacement is longer than its range.
   */
  lemma NestedRangesExactly(source: string, edits: seq<Edit>)
    requires Laminar(edits, 0, 0, |source|) && NoneShrinks(edits)
    ensures InOrder(Tops(edits, 0), 0, |source|)
    ensures SpliceAll(source, edits) == Substitute(source, Tops(edits, 0), 0) <==> InnerKeepLength(edits, 0)
  {
    TopsInOrder(edits, 0, 0, |source|);
    if InnerKeepLength(edits, 0) {
      SplicedAround(source, edits, 0, 0);
      assert SpliceAll(source, edits)[0..] == SpliceAll(source, edits);
    } else {
      LaminarEnds(edits, 0, 0, |source|);
      SplicedLength(source, edits);
      SubstituteLength(source, Tops(edits, 0), 0);
      InnerGrowth(edits, 0);
    }
  }

  /** How much text inside the outermost ranges `without_ranges` brings back. */
  function Returned(edits: seq<Edit>, cursor: nat, top: nat): (n: nat)
    requires cursor <= top
  {
    if edits == [] then top - cursor
    else if edits[0].start < top then
      (if cursor < edits[0].start then edits[0].start - cursor else 0) +
      Returned(edits[1..], if edits[0].end <= top then edits[0].end else top, top)
    else top - cursor + Returned(edits[1..], edits[0].end, edits[0].end)
  }

  lemma {:induction false} KeptAgainst(source: string, edits: seq<Edit>, from: nat, cursor: nat, top: nat)
    requires Laminar(edits, from, top, |source|) && cursor <= top
    ensures |Kept(source, edits, cursor)| == |Kept(source, Tops(edits, top), top)| + Returned(edits, cursor, top)
    ensures Returned(edits, cursor, top) == 0 ==>
            Kept(source, edits, cursor) == Kept(source, Tops(edits, top), top)
  {
    LaminarEnds(edits, from, top, |source|);
    if edits != [] {
      var e, rest := edits[0], edits[1..];
      GapLength(source, cursor, e.start);
      if e.start < top {
        KeptAgainst(source, rest, from, e.end, top);
        GapThen(source, cursor, e.start, Kept(source, rest, e.end));
      } else {
        KeptAgainst(source, rest, e.start, e.end, e.end);
        GapLength(source, top, e.start);
        assert Tops(edits, top)[1..] == Tops(rest, e.end);
      }
    }
  }

  lemma GapLength(s: string, a: nat, b: nat)
    requires b <= |s|
    ensures |Gap(s, a, b)| == if a < b then b - a else 0
  {}

  lemma GapThen(s: string, a: nat, b: nat, rest: string)
    ensures |Gap(s, a, b) + rest| == |Gap(s, a, b)| + |rest|
    ensures |Gap(s, a, b)| == 0 ==> Gap(s, a, b) + rest == rest
  {}

  /**
   Nested to any depth, dropping all ranges equals dropping the outermost ones if and only
   if no text of theirs lies behind an inner range and in front of the next one or the end.
   */
  lemma NestedKeptExactly(source: string, edits: seq<Edit>)
    requires Laminar(edits, 0, 0, |source|)
    ensures Kept(source, edits, 0) == Kept(source, Tops(edits, 0), 0) <==> Returned(edits, 0, 0) == 0
  {
    KeptAgainst(source, edits, 0, 0, 0);
  }

  /** The inner ranges end in front of the outer end, as a closing brace behind them makes them. */
  predicate EndInside(edits: seq<Edit>, top: nat) {
    if edits == [] then true
    else if edits[0].start < top then edits[0].end < top && EndInside(edits[1..], top)
    else EndInside(edits[1..], edits[0].end)
  }

  lemma {:induction false} FlatExactly(edits: seq<Edit>, from: nat, cursor: nat, top: nat, length: nat)
    requires Laminar(edits, from, top, length) && cursor <= top && EndInside(edits, top)
    ensures Returned(edits, cursor, top) == 0 <==> cursor == top && InOrder(edits, top, length)
  {
    if edits != [] {
      if edits[0].start < top {
        FlatExactly(edits[1..], from, edits[0].end, top, length);
      } else {
        FlatExactly(edits[1..], edits[0].start, edits[0].end, edits[0].end, length);
      }
    }
  }

  /** When inner ranges end inside, dropping them is right if and only if no ranges nest. */
  lemma KeptWithoutNesting(source: string, edits: seq<Edit>)
    requires Laminar(edits, 0, 0, |source|) && EndInside(edits, 0)
    ensures Kept(source, edits, 0) == Kept(source, Tops(edits, 0), 0) <==> InOrder(edits, 0, |source|)
  {
    NestedKeptExactly(source, edits);
    FlatExactly(edits, 0, 0, 0, |source|);
  }

  lemma {:induction false} LongerIsFlat(edits: seq<Edit>, from: nat, cursor: nat, length: nat)
    requires Laminar(edits, from, cursor, length)
    requires forall i :: 0 <= i < |edits| ==> |edits[i].text| > edits[i].end - edits[i].start
    ensures InnerKeepLength(edits, cursor) <==> InOrder(edits, cursor, length)
  {
    if edits != [] {
      assert forall i :: 0 <= i < |edits[1..]| ==> edits[1..][i] == edits[i + 1];
      if edits[0].start >= cursor { LongerIsFlat(edits[1..], edits[0].start, edits[0].end, length); }
    } else {
      LaminarEnds(edits, from, cursor, length);
    }
  }

  /** When every new name is longer, the splice is right if and only if no ranges nest. */
  lemma SplicedWithoutNesting(source: string, edits: seq<Edit>)
    requires Laminar(edits, 0, 0, |source|)
    requires forall i :: 0 <= i < |edits| ==> |edits[i].text| > edits[i].end - edits[i].start
    ensures InOrder(Tops(edits, 0), 0, |source|)
    ensures SpliceAll(source, edits) == Substitute(source, Tops(edits, 0), 0) <==> InOrder(edits, 0, |source|)
  {
    NestedRangesExactly(source, edits);
    LongerIsFlat(edits, 0, 0, |source|);
  }

  // ----- A nested test -----

  /** With one inner range, the text comes out twice that stands at the end of the moved one. */
  lemma EndComesTwice(a: string, b: string, c: string, longer: string, whole: string)
    requires |b| <= |longer|
    ensures var s, outer, inner := a + b + c, Edit(0, |a + b + c|, whole), Edit(|a|, |a + b|, longer);
            && SpliceAll(s, [outer, inner]) == whole + (longer + c)[|b + c|..]
            && SpliceAll(s, [outer]) == whole
  {
    var s, outer, inner := a + b + c, Edit(0, |a + b + c|, whole), Edit(|a|, |a + b|, longer);
    OneEdit(s, outer);
    OneEdit(s, inner);
    assert [outer, inner] == [outer] + [inner];
    OuterLast(s, outer, [inner]);
    var moved := Splice(s, inner);
    assert s[..|a|] == a && s[|a + b|..] == c;
    assert moved == a + (longer + c);
    assert moved[|s|..] == (longer + c)[|b + c|..];
    assert Take(moved, 0) == "" && Take(s, 0) == "" && Drop(s, |s|) == "";
  }

  const ATTRIBUTE: string := "#[test]\n"
  const HEAD_A: string := ATTRIBUTE + "fn a() {\n"
  const TEST_B: string := ATTRIBUTE + "fn b() {}\n"
  const CLOSE: string := "}\n"

  /**
   A test inside a test, with the ranges and names the script gives them: the end of the
   moved text comes out a second time.
   */
  lemma NestedTestDuplicatesText()
    ensures var source := HEAD_A + TEST_B + CLOSE;
            var outer := Edit(0, 37, ATTRIBUTE + "fn task6_m_a() {\n" + TEST_B + CLOSE);
            var inner := Edit(17, 35, ATTRIBUTE + "fn task6_m_b() {}\n");
            && SpliceAll(source, [outer, inner]) == outer.text + "() {}\n}\n"
            && SpliceAll(source, [outer]) == outer.text
  {
    var renamed := ATTRIBUTE + "fn task6_m_b() {}\n";
    assert |TEST_B| == 18 && |renamed| == 26;
    assert (renamed + CLOSE)[20..] == "() {}\n}\n";
    EndComesTwice(HEAD_A, TEST_B, CLOSE, renamed, ATTRIBUTE + "fn task6_m_a() {\n" + TEST_B + CLOSE);
  }
}
