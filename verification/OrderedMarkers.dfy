/**
 `_markers_in_order` (scripts/verify_druid_single_standard.py): a greedy search for
 markers that must occur one after the other.
 */
module OrderedMarkers {
  import opened Outcome
  import opened TextSearch

  /** Marker `i` occurs at `at[i]`, after the end of marker `i - 1`; the first one from `start` on. */
  ghost predicate Placed(body: string, markers: seq<string>, start: int, at: seq<int>) {
    |at| == |markers| &&
    (markers != [] ==>
       && start <= at[0]
       && OccursAt(body, markers[0], at[0])
       && Placed(body, markers[1..], at[0] + |markers[0]|, at[1..]))
  }

  /** A placement from further on is also one from here. */
  lemma StartEarlier(body: string, markers: seq<string>, late: int, early: int, at: seq<int>)
    requires Placed(body, markers, late, at) && early <= late
    ensures Placed(body, markers, early, at)
  {}

  lemma PlaceFirst(body: string, markers: seq<string>, start: nat, p: nat, at: seq<int>)
    requires markers != [] && FirstFrom(body, markers[0], start, p) && Placed(body, markers, start, at)
    ensures Placed(body, markers[1..], p + |markers[0]|, at[1..])
  {
    assert p <= at[0];
    StartEarlier(body, markers[1..], at[0] + |markers[0]|, p + |markers[0]|, at[1..]);
  }

  lemma PlaceMore(body: string, markers: seq<string>, start: nat, p: nat, at: seq<int>)
    requires markers != [] && FirstFrom(body, markers[0], start, p)
    requires Placed(body, markers[1..], p + |markers[0]|, at)
    ensures Placed(body, markers, start, [p] + at)
  {
    assert ([p] + at)[1..] == at;
  }

  ghost predicate Placeable(body: string, markers: seq<string>, start: int) {
    exists at :: Placed(body, markers, start, at)
  }

  /** Taking the leftmost occurrence never spoils the rest. */
  lemma GreedyStep(body: string, markers: seq<string>, start: nat)
    requires markers != []
    ensures var p := FindFrom(body, markers[0], start);
            Placeable(body, markers, start) <==> p.Some? && Placeable(body, markers[1..], p.value + |markers[0]|)
  {
    var p := FindFrom(body, markers[0], start);
    if Placeable(body, markers, start) {
      var at :| Placed(body, markers, start, at);
      assert OccursAt(body, markers[0], at[0]);
      assert p.Some?;
      PlaceFirst(body, markers, start, p.value, at);
    }
    if p.Some? && Placeable(body, markers[1..], p.value + |markers[0]|) {
      var at :| Placed(body, markers[1..], p.value + |markers[0]|, at);
      PlaceMore(body, markers, start, p.value, at);
    }
  }

  method MarkersInOrder(body: string, markers: seq<string>) returns (found: bool)
    ensures found <==> Placeable(body, markers, 0)
  {
    var cursor: nat := 0;
    assert markers[0..] == markers;
    for i := 0 to |markers|
      invariant Placeable(body, markers, 0) <==> Placeable(body, markers[i..], cursor)
    {
      GreedyStep(body, markers[i..], cursor);
      assert markers[i..][0] == markers[i] && markers[i..][1..] == markers[i + 1..];
      var position := Find(body, markers[i], cursor);
      if position.None? {
        return false;
      }
      cursor := position.value + |markers[i]|;
    }
    assert markers[|markers|..] == [];
    assert Placed(body, markers[|markers|..], cursor, []);
    assert Placeable(body, markers, 0);
    return true;
  }
}
