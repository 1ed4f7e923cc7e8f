/**
 `emit_task5_consumers` (scripts/verify_druid_single_standard.py): refreshes the ledger by
 merging the frozen Task 5 rows with the live ones through buckets keyed by identity.
 */
module LedgerEmitter {
  import opened Outcome
  import opened Sorting
  import opened Ledger

  datatype EmitFailure = AdditionsDrift | Unclassified | ShimDrift | UnapprovedAddition(identity: Identity)

  /** The deques of live rows by identity; an absent key is an empty deque. */
  type Buckets = map<Identity, seq<Row>>

  function Get(b: Buckets, id: Identity): seq<Row> {
    if id in b then b[id] else []
  }

  ghost predicate WellFilled(b: Buckets) {
    forall id, k :: 0 <= k < |Get(b, id)| ==> IdentityOf(Get(b, id)[k]) == id
  }

  lemma PutGet(b: Buckets, id: Identity, rows: seq<Row>, x: Identity)
    ensures Get(b[id := rows], x) == if x == id then rows else Get(b, x)
  {}

  lemma PutWellFilled(b: Buckets, id: Identity, rows: seq<Row>)
    requires WellFilled(b) && forall k :: 0 <= k < |rows| ==> IdentityOf(rows[k]) == id
    ensures WellFilled(b[id := rows])
  {
    var b1 := b[id := rows];
    forall x, k | 0 <= k < |Get(b1, x)| ensures IdentityOf(Get(b1, x)[k]) == x {
      PutGet(b, id, rows, x);
    }
  }

  // ----- Filling the buckets -----

  method Fill(rows: seq<Row>) returns (b: Buckets)
    ensures WellFilled(b)
    ensures forall id :: Get(b, id) == Of(rows, id)
  {
    b := map[];
    var i := 0;
    assert rows[..0] == [];
    while i < |rows|
      invariant 0 <= i <= |rows|
      invariant WellFilled(b)
      invariant forall id :: Get(b, id) == Of(rows[..i], id)
    {
      var id := IdentityOf(rows[i]);
      var longer := Get(b, id) + [rows[i]];
      ghost var next := b[id := longer];
      PutWellFilled(b, id, longer);
      forall x ensures Get(next, x) == Of(rows[..i + 1], x) {
        OfSnoc(rows, i, x);
        PutGet(b, id, longer, x);
      }
      b := b[id := longer];
      i := i + 1;
    }
    assert rows[..i] == rows;
  }

  lemma OfSnoc(rows: seq<Row>, i: nat, id: Identity)
    requires i < |rows|
    ensures Of(rows[..i + 1], id) == Of(rows[..i], id) + (if id == IdentityOf(rows[i]) then [rows[i]] else [])
  {
    OfAppend(rows[..i], [rows[i]], id);
    assert rows[..i + 1] == rows[..i] + [rows[i]] && [rows[i]][1..] == [];
  }

  // ----- The frozen rows -----

  /** One frozen row: takes the oldest live row of its identity while Task 6 is pending. */
  function FreezeOne(policy: Policy, row: Row, b: Buckets): (r: (Row, Buckets))
    requires policy.classify(IdentityOf(row)).Some?
  {
    var id := IdentityOf(row);
    var state := policy.classify(id).value;
    if state == Task6Pending && Get(b, id) != []
    then (Get(b, id)[0].(state := state), b[id := Get(b, id)[1..]])
    else (row.(state := state), b)
  }

  function Freeze(policy: Policy, rows: seq<Row>, b: Buckets): (r: (seq<Row>, Buckets))
    requires AllClassified(policy, rows)
  {
    if rows == [] then ([], b)
    else
      var (row, b1) := FreezeOne(policy, rows[0], b);
      var (rest, b2) := Freeze(policy, rows[1..], b1);
      ([row] + rest, b2)
  }

  lemma FreezeOneKeeps(policy: Policy, row: Row, b: Buckets)
    requires policy.classify(IdentityOf(row)).Some? && WellFilled(b)
    ensures var (out, b1) := FreezeOne(policy, row, b);
            && IdentityOf(out) == IdentityOf(row)
            && out.state == policy.classify(IdentityOf(row)).value
            && WellFilled(b1)
  {
    var id := IdentityOf(row);
    if Get(b, id) != [] {
      assert IdentityOf(Get(b, id)[0]) == id;
      forall k | 0 <= k < |Get(b, id)[1..]| ensures IdentityOf(Get(b, id)[1..][k]) == id {
        assert Get(b, id)[1..][k] == Get(b, id)[k + 1];
      }
      PutWellFilled(b, id, Get(b, id)[1..]);
    }
  }

  /** How many live rows of an identity are left after `taken` frozen rows of it. */
  function LeftOver(policy: Policy, id: Identity, live: nat, taken: nat): nat {
    if policy.classify(id) == Some(Task6Pending) then (if live > taken then live - taken else 0) else live
  }

  /** How many frozen rows of an identity are replaced by live ones. */
  function Taken(policy: Policy, id: Identity, live: nat, frozen: nat): nat {
    if policy.classify(id) != Some(Task6Pending) then 0 else if live < frozen then live else frozen
  }

  /** The frozen rows of one identity: the first ones are live rows, the others keep their coordinates. */
  ghost predicate Replaced(policy: Policy, id: Identity, frozen: seq<Row>, live: seq<Row>, out: seq<Row>) {
    var n := Taken(policy, id, |live|, |frozen|);
    && n <= |live| && n <= |frozen|
    && if frozen == [] then out == []
       else policy.classify(id).Some? && out == Restated(live[..n] + frozen[n..], policy.classify(id).value)
  }

  lemma FreezeOneOf(policy: Policy, row: Row, b: Buckets, id: Identity)
    requires policy.classify(IdentityOf(row)).Some?
    ensures var (out, b1) := FreezeOne(policy, row, b);
            if IdentityOf(row) != id then Get(b1, id) == Get(b, id)
            else
              var n := Taken(policy, id, |Get(b, id)|, 1);
              && n <= 1 && n <= |Get(b, id)|
              && Get(b1, id) == Get(b, id)[n..]
              && out == (if n == 1 then Get(b, id)[0] else row).(state := policy.classify(id).value)
  {}

  /** One more frozen row in front. */
  lemma ReplacedCons(policy: Policy, id: Identity, row: Row, frozen: seq<Row>, live: seq<Row>,
                     first: Row, out: seq<Row>)
    requires policy.classify(id).Some?
    requires var n := Taken(policy, id, |live|, 1);
             && n <= 1 && n <= |live|
             && first == (if n == 1 then live[0] else row).(state := policy.classify(id).value)
             && Replaced(policy, id, frozen, live[n..], out)
    ensures Replaced(policy, id, [row] + frozen, live, [first] + out)
    ensures var n := Taken(policy, id, |live|, 1);
            live[n..][Taken(policy, id, |live[n..]|, |frozen|)..] == live[Taken(policy, id, |live|, |[row] + frozen|)..]
  {
    var n, all := Taken(policy, id, |live|, 1), [row] + frozen;
    var m := Taken(policy, id, |live[n..]|, |frozen|);
    assert Taken(policy, id, |live|, |all|) == n + m;
    assert live[..n + m] == live[..n] + live[n..][..m];
    if n == 0 {
      assert m == 0;
      assert live[..0] + all[0..] == [row] + (live[n..][..0] + frozen[0..]);
    } else {
      assert live[..n + m] + all[n + m..] == [live[0]] + (live[n..][..m] + frozen[m..]);
    }
  }

  lemma {:induction false} FreezeKeeps(policy: Policy, rows: seq<Row>, b: Buckets)
    requires AllClassified(policy, rows) && WellFilled(b)
    ensures WellFilled(Freeze(policy, rows, b).1)
  {
    if rows != [] {
      FreezeOneKeeps(policy, rows[0], b);
      FreezeKeeps(policy, rows[1..], FreezeOne(policy, rows[0], b).1);
    }
  }

  /** Identity by identity: the first frozen rows are replaced, and so many live rows are used up. */
  lemma {:induction false} FreezeOf(policy: Policy, rows: seq<Row>, b: Buckets, id: Identity)
    requires AllClassified(policy, rows) && WellFilled(b)
    ensures var (out, b1) := Freeze(policy, rows, b);
            && Replaced(policy, id, Of(rows, id), Get(b, id), Of(out, id))
            && Get(b1, id) == Get(b, id)[Taken(policy, id, |Get(b, id)|, Count(rows, id))..]
  {
    if rows != [] {
      var (first, b1) := FreezeOne(policy, rows[0], b);
      FreezeOneKeeps(policy, rows[0], b);
      FreezeOneOf(policy, rows[0], b, id);
      FreezeOf(policy, rows[1..], b1, id);
      var (rest, b2) := Freeze(policy, rows[1..], b1);
      if IdentityOf(rows[0]) == id {
        FrozenSame(policy, rows[0], rows[1..], first, rest, Get(b, id), Get(b1, id), Get(b2, id), id);
      } else {
        FrozenOther(policy, rows[0], rows[1..], first, rest, Get(b, id), Get(b2, id), id);
      }
      assert rows == [rows[0]] + rows[1..];
    }
  }

  lemma FrozenOther(policy: Policy, row: Row, rows: seq<Row>, first: Row, rest: seq<Row>,
                    live: seq<Row>, live2: seq<Row>, id: Identity)
    requires IdentityOf(first) == IdentityOf(row) != id && Replaced(policy, id, Of(rows, id), live, Of(rest, id))
    requires live2 == live[Taken(policy, id, |live|, Count(rows, id))..]
    ensures Replaced(policy, id, Of([row] + rows, id), live, Of([first] + rest, id))
    ensures live2 == live[Taken(policy, id, |live|, Count([row] + rows, id))..]
  {
    OfCons(row, rows, id);
    OfCons(first, rest, id);
    assert [] + Of(rows, id) == Of(rows, id) && [] + Of(rest, id) == Of(rest, id);
  }

  lemma FrozenSame(policy: Policy, row: Row, rows: seq<Row>, first: Row, rest: seq<Row>,
                   live: seq<Row>, live1: seq<Row>, live2: seq<Row>, id: Identity)
    requires policy.classify(id).Some? && IdentityOf(first) == IdentityOf(row) == id
    requires var n := Taken(policy, id, |live|, 1);
             && n <= 1 && n <= |live| && live1 == live[n..]
             && first == (if n == 1 then live[0] else row).(state := policy.classify(id).value)
    requires Replaced(policy, id, Of(rows, id), live1, Of(rest, id))
    requires live2 == live1[Taken(policy, id, |live1|, Count(rows, id))..]
    ensures Replaced(policy, id, Of([row] + rows, id), live, Of([first] + rest, id))
    ensures live2 == live[Taken(policy, id, |live|, Count([row] + rows, id))..]
  {
    OfCons(row, rows, id);
    OfCons(first, rest, id);
    ReplacedCons(policy, id, row, Of(rows, id), live, first, Of(rest, id));
  }

  lemma {:induction false} FreezeCounts(policy: Policy, rows: seq<Row>, b: Buckets, id: Identity)
    requires AllClassified(policy, rows) && WellFilled(b)
    ensures var (out, b1) := Freeze(policy, rows, b);
            && Count(out, id) == Count(rows, id)
            && |Get(b1, id)| == LeftOver(policy, id, |Get(b, id)|, Count(rows, id))
            && WellFilled(b1)
  {
    FreezeOf(policy, rows, b, id);
    FreezeKeeps(policy, rows, b);
    ReplacedCount(policy, id, Of(rows, id), Get(b, id), Of(Freeze(policy, rows, b).0, id));
  }

  lemma ReplacedCount(policy: Policy, id: Identity, frozen: seq<Row>, live: seq<Row>, out: seq<Row>)
    requires Replaced(policy, id, frozen, live, out)
    ensures |out| == |frozen|
    ensures var n := Taken(policy, id, |live|, |frozen|);
            |live[n..]| == LeftOver(policy, id, |live|, |frozen|)
  {}

  lemma {:induction false} FreezeStates(policy: Policy, rows: seq<Row>, b: Buckets, row: Row)
    requires AllClassified(policy, rows) && WellFilled(b) && row in Freeze(policy, rows, b).0
    ensures Count(rows, IdentityOf(row)) > 0 && policy.classify(IdentityOf(row)) == Some(row.state)
  {
    var (first, b1) := FreezeOne(policy, rows[0], b);
    FreezeOneKeeps(policy, rows[0], b);
    if row != first { FreezeStates(policy, rows[1..], b1, row); }
  }

  lemma FreezeStep(policy: Policy, rows: seq<Row>, i: nat, b: Buckets, done: seq<Row>)
    requires i < |rows| && AllClassified(policy, rows)
    ensures var (row, b1) := FreezeOne(policy, rows[i], b);
            && done + Freeze(policy, rows[i..], b).0 == (done + [row]) + Freeze(policy, rows[i + 1..], b1).0
            && Freeze(policy, rows[i..], b).1 == Freeze(policy, rows[i + 1..], b1).1
  {
    assert rows[i..][0] == rows[i] && rows[i..][1..] == rows[i + 1..];
  }

  method FreezeAll(policy: Policy, rows: seq<Row>, b: Buckets) returns (emitted: seq<Row>, left: Buckets)
    requires AllClassified(policy, rows)
    ensures emitted == Freeze(policy, rows, b).0 && left == Freeze(policy, rows, b).1
  {
    emitted, left := [], b;
    assert rows[0..] == rows && emitted + Freeze(policy, rows, b).0 == Freeze(policy, rows, b).0;
    for i := 0 to |rows|
      invariant emitted + Freeze(policy, rows[i..], left).0 == Freeze(policy, rows, b).0
      invariant Freeze(policy, rows[i..], left).1 == Freeze(policy, rows, b).1
    {
      FreezeStep(policy, rows, i, left, emitted);
      var identity := IdentityOf(rows[i]);
      var state := policy.classify(identity).value;
      if state == Task6Pending && Get(left, identity) != [] {
        emitted := emitted + [Get(left, identity)[0].(state := state)];
        left := left[identity := Get(left, identity)[1..]];
      } else {
        emitted := emitted + [rows[i].(state := state)];
      }
    }
  }

  // ----- What is left over -----

  /** Live rows with no frozen row to take them are all pending for Task 6. */
  lemma {:induction false} PendingOf(rows: seq<Row>, id: Identity, x: Identity)
    requires forall k :: 0 <= k < |rows| ==> IdentityOf(rows[k]) == id
    ensures Of(Restated(rows, Task6Pending), x) == if x == id then Restated(rows, Task6Pending) else []
  {
    if rows != [] {
      var out := Restated(rows, Task6Pending);
      PendingOf(rows[1..], id, x);
      assert out[1..] == Restated(rows[1..], Task6Pending);
      assert out == [out[0]] + out[1..];
    }
  }

  ghost predicate AllApproved(policy: Policy, b: Buckets) {
    forall id :: Get(b, id) != [] ==> policy.approved(id)
  }

  ghost predicate AllPending(rows: seq<Row>) {
    forall k :: 0 <= k < |rows| ==> rows[k].state == Task6Pending
  }

  method Drain(policy: Policy, b: Buckets) returns (r: Result<seq<Row>, EmitFailure>)
    requires WellFilled(b)
    ensures r.Ok? <==> AllApproved(policy, b)
    ensures r.Ok? ==> AllPending(r.value) && forall id :: Of(r.value, id) == Restated(Get(b, id), Task6Pending)
  {
    var rows: seq<Row> := [];
    var keys := b.Keys;
    while keys != {}
      invariant keys <= b.Keys
      invariant AllPending(rows)
      invariant forall id :: Of(rows, id) == if id in keys then [] else Restated(Get(b, id), Task6Pending)
      invariant forall id :: id !in keys && Get(b, id) != [] ==> policy.approved(id)
      decreases keys
    {
      var identity :| identity in keys;
      var additions := b[identity];
      assert Get(b, identity) == additions;
      if additions != [] && !policy.approved(identity) {
        return Err(UnapprovedAddition(identity));
      }
      ghost var before := rows;
      rows := rows + Restated(additions, Task6Pending);
      keys := keys - {identity};
      forall id ensures Of(rows, id) == if id in keys then [] else Restated(Get(b, id), Task6Pending) {
        OfAppend(before, Restated(additions, Task6Pending), id);
        PendingOf(additions, identity, id);
      }
    }
    r := Ok(rows);
  }

  // ----- The rows of other tasks -----

  /** `current` records the identity as live. */
  predicate WasLive(current: seq<Row>, id: Identity) {
    exists i :: 0 <= i < |current| && IdentityOf(current[i]) == id && current[i].state == ReferenceLive
  }

  function Refresh(current: seq<Row>, row: Row): Row {
    row.(state := if WasLive(current, IdentityOf(row)) then ReferenceLive else ReferencePlanned)
  }

  function Others(current: seq<Row>, scanned: seq<Row>): seq<Row> {
    if scanned == [] then []
    else (if scanned[0].targetTask.Task5? then [] else [Refresh(current, scanned[0])]) + Others(current, scanned[1..])
  }

  function Carried(current: seq<Row>): seq<Row> {
    if current == [] then []
    else (if current[0].state == ReferenceClosed then [current[0]] else []) + Carried(current[1..])
  }

  lemma {:induction false} OthersAreNotTask5(current: seq<Row>, scanned: seq<Row>, id: Identity)
    ensures Count5(Others(current, scanned), id) == 0
    ensures forall row :: row in Others(current, scanned) ==> !row.targetTask.Task5?
  {
    if scanned != [] {
      OthersAreNotTask5(current, scanned[1..], id);
      var rest := Others(current, scanned[1..]);
      assert ([Refresh(current, scanned[0])] + rest)[1..] == rest && [] + rest == rest;
    }
  }

  lemma {:induction false} CarriedMember(current: seq<Row>, row: Row)
    ensures row in Carried(current) <==> row in current && row.state == ReferenceClosed
  {
    if current != [] {
      CarriedMember(current[1..], row);
      assert current == [current[0]] + current[1..];
    }
  }

  // ----- The emitter -----

  /** What the emitter checks before and while it writes. */
  ghost predicate Emittable(policy: Policy, live: seq<Row>, baseline: seq<Row>) {
    && policy.digest(Identities(live) - Identities(baseline)) == policy.additionsDigest
    && AllClassified(policy, baseline)
    && policy.digest(FrozenTask6(policy, baseline) - Identities(live)) == policy.shimDigest
    && forall id :: LeftOver(policy, id, Count(live, id), Count(baseline, id)) > 0 ==> policy.approved(id)
  }

  /** The merged Task 5 rows: the frozen ones and the additions. */
  ghost predicate Merged(policy: Policy, live: seq<Row>, baseline: seq<Row>, frozen: seq<Row>, additions: seq<Row>) {
    && (forall id :: Count(frozen, id) == Count(baseline, id))
    && (forall id :: Count(additions, id) == LeftOver(policy, id, Count(live, id), Count(baseline, id)))
    && (forall row :: row in frozen ==> policy.classify(IdentityOf(row)) == Some(row.state))
    && AllPending(additions)
  }

  /**
   The same with coordinates: while Task 6 is pending, the first frozen rows of an identity
   take those of the oldest live ones; the other frozen rows keep theirs, and what is left
   of the live rows is added.
   */
  ghost predicate MergedRows(policy: Policy, live: seq<Row>, baseline: seq<Row>,
                             frozen: seq<Row>, additions: seq<Row>)
  {
    forall id :: MergedOf(policy, id, Of(live, id), Of(baseline, id), Of(frozen, id), Of(additions, id))
  }

  ghost predicate MergedOf(policy: Policy, id: Identity, live: seq<Row>, baseline: seq<Row>,
                           frozen: seq<Row>, additions: seq<Row>)
  {
    && Replaced(policy, id, baseline, live, frozen)
    && additions == Restated(live[Taken(policy, id, |live|, |baseline|)..], Task6Pending)
  }

  method Emit(policy: Policy, current: seq<Row>, scanned: seq<Row>, baselineRows: seq<Row>)
    returns (r: Result<seq<Row>, EmitFailure>, ghost frozen: seq<Row>, ghost additions: seq<Row>)
    ensures r.Ok? <==> Emittable(policy, Task5Rows(scanned), Task5Rows(baselineRows))
    ensures r.Ok? ==> Merged(policy, Task5Rows(scanned), Task5Rows(baselineRows), frozen, additions)
    ensures r.Ok? ==> MergedRows(policy, Task5Rows(scanned), Task5Rows(baselineRows), frozen, additions)
    ensures r.Ok? ==> r.value == Sort(Others(current, scanned) + Carried(current) + frozen + additions, RowLeq)
  {
    frozen, additions := [], [];
    var baseline := Task5Rows(baselineRows);
    var live := Task5Rows(scanned);
    if policy.digest(Identities(live) - Identities(baseline)) != policy.additionsDigest {
      return Err(AdditionsDrift), frozen, additions;
    }
    if !AllClassified(policy, baseline) {
      return Err(Unclassified), frozen, additions;
    }
    if policy.digest(FrozenTask6(policy, baseline) - Identities(live)) != policy.shimDigest {
      return Err(ShimDrift), frozen, additions;
    }
    var emitted := Others(current, scanned) + Carried(current);
    var merged, f, a := MergeTask5(policy, live, baseline);
    frozen, additions := f, a;
    if merged.Err? {
      return Err(merged.error), frozen, additions;
    }
    assert emitted + (frozen + additions) == emitted + frozen + additions;
    r := Ok(Sort(emitted + merged.value, RowLeq));
  }

  /** The bucket merge of the frozen and the live Task 5 rows. */
  method MergeTask5(policy: Policy, live: seq<Row>, baseline: seq<Row>)
    returns (r: Result<seq<Row>, EmitFailure>, ghost frozen: seq<Row>, ghost additions: seq<Row>)
    requires AllClassified(policy, baseline)
    ensures r.Ok? <==>
            forall id :: LeftOver(policy, id, Count(live, id), Count(baseline, id)) > 0 ==> policy.approved(id)
    ensures r.Ok? ==> Merged(policy, live, baseline, frozen, additions) && r.value == frozen + additions
    ensures r.Ok? ==> MergedRows(policy, live, baseline, frozen, additions)
  {
    var buckets := Fill(live);
    var emitted, left := FreezeAll(policy, baseline, buckets);
    frozen, additions := emitted, [];
    forall id ensures
        && Count(frozen, id) == Count(baseline, id)
        && |Get(left, id)| == LeftOver(policy, id, Count(live, id), Count(baseline, id))
        && Replaced(policy, id, Of(baseline, id), Of(live, id), Of(frozen, id))
        && Get(left, id) == Of(live, id)[Taken(policy, id, Count(live, id), Count(baseline, id))..]
    {
      FreezeCounts(policy, baseline, buckets, id);
      FreezeOf(policy, baseline, buckets, id);
    }
    assert WellFilled(left) by {
      var any: Identity :| true;
      FreezeCounts(policy, baseline, buckets, any);
    }
    forall row | row in frozen ensures policy.classify(IdentityOf(row)) == Some(row.state) {
      FreezeStates(policy, baseline, buckets, row);
    }
    var drained := Drain(policy, left);
    if drained.Err? {
      return Err(drained.error), frozen, additions;
    }
    additions := drained.value;
    r := Ok(emitted + drained.value);
  }
}
