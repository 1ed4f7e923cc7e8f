/**
 The rows of an emitted ledger (`emit_task5_consumers`,
 scripts/verify_druid_single_standard.py), each with its coordinates, its state and how
 often it occurs, in terms of the recorded, the scanned and the frozen rows alone.
 */
module LedgerRows {
  import opened Outcome
  import opened Sorting
  import opened Ledger
  import opened LedgerEmitter
  import opened LedgerVerifier

  /** The recorded ledger holds a live row of this identity. */
  ghost predicate SeenLive(current: seq<Row>, id: Identity) {
    exists row :: row in current && IdentityOf(row) == id && row.state == ReferenceLive
  }

  /** How often some of the rows, their states replaced, are this row. */
  ghost function Alike(rows: seq<Row>, row: Row): nat {
    multiset(Restated(rows, row.state))[row]
  }

  /** A scanned row of another task is live or planned, as the recorded ledger has it. */
  ghost function OtherTimes(current: seq<Row>, scanned: seq<Row>, row: Row): nat {
    if row.state == (if SeenLive(current, IdentityOf(row)) then ReferenceLive else ReferencePlanned)
    then Alike(scanned, row) else 0
  }

  /** The frozen rows of an identity that no scanned row replaces. */
  ghost function Unreplaced(live: seq<Row>, frozen: seq<Row>): seq<Row> {
    if |live| <= |frozen| then frozen[|live|..] else []
  }

  /**
   While Task 6 is pending, all scanned rows of the identity and the frozen ones they do not
   replace are pending. Otherwise the frozen rows carry their class, and the scanned ones
   are pending besides.
   */
  ghost function Task5Times(policy: Policy, live: seq<Row>, frozen: seq<Row>, row: Row): nat {
    var class_ := policy.classify(IdentityOf(row));
    if class_ == Some(Task6Pending) then
      if row.state == Task6Pending then Alike(live, row) + Alike(Unreplaced(live, frozen), row) else 0
    else
      (if class_ == Some(row.state) then Alike(frozen, row) else 0) +
      (if row.state == Task6Pending then Alike(live, row) else 0)
  }

  ghost function ClosedTimes(current: seq<Row>, row: Row): nat {
    if row.state == ReferenceClosed then multiset(current)[row] else 0
  }

  // ----- The rows of other tasks -----

  lemma SeenLiveIs(current: seq<Row>, id: Identity)
    ensures WasLive(current, id) <==> SeenLive(current, id)
  {
    if row :| row in current && IdentityOf(row) == id && row.state == ReferenceLive {
      var i :| 0 <= i < |current| && current[i] == row;
    }
  }

  lemma {:induction false} AlikeCons(first: Row, rest: seq<Row>, row: Row)
    ensures Alike([first] + rest, row) == (if first.(state := row.state) == row then 1 else 0) + Alike(rest, row)
  {
    assert Restated([first] + rest, row.state) == [first.(state := row.state)] + Restated(rest, row.state);
  }

  lemma {:induction false} OthersTimes(current: seq<Row>, scanned: seq<Row>, row: Row)
    ensures multiset(Others(current, scanned))[row] ==
            if row.targetTask.Task5? then 0 else OtherTimes(current, scanned, row)
  {
    SeenLiveIs(current, IdentityOf(row));
    if scanned != [] {
      var first, rest := scanned[0], scanned[1..];
      OthersTimes(current, rest, row);
      AlikeCons(first, rest, row);
      assert scanned == [first] + rest;
      SeenLiveIs(current, IdentityOf(first));
      if !first.targetTask.Task5? { RefreshedIs(current, first, row); }
    }
  }

  /** Rows that agree up to their states have one identity. */
  lemma RefreshedIs(current: seq<Row>, first: Row, row: Row)
    ensures Refresh(current, first) == row <==>
            && first.(state := row.state) == row
            && row.state == if SeenLive(current, IdentityOf(row)) then ReferenceLive else ReferencePlanned
  {
    SeenLiveIs(current, IdentityOf(first));
    assert first.(state := row.state) == row ==> IdentityOf(first) == IdentityOf(row);
  }

  lemma {:induction false} CarriedTimes(current: seq<Row>, row: Row)
    ensures multiset(Carried(current))[row] == ClosedTimes(current, row)
  {
    if current != [] {
      CarriedTimes(current[1..], row);
      assert current == [current[0]] + current[1..];
    }
  }

  // ----- The rows of Task 5 -----

  lemma {:induction false} Task5Of(rows: seq<Row>, id: Identity)
    requires id.targetTask.Task5?
    ensures Of(Task5Rows(rows), id) == Of(rows, id)
  {
    if rows != [] {
      Task5Of(rows[1..], id);
      OfCons(rows[0], Task5Rows(rows[1..]), id);
    }
  }

  lemma AlikeAppend(a: seq<Row>, b: seq<Row>, row: Row)
    ensures Alike(a + b, row) == Alike(a, row) + Alike(b, row)
  {
    assert Restated(a + b, row.state) == Restated(a, row.state) + Restated(b, row.state);
  }

  lemma OtherState(rows: seq<Row>, state: State, row: Row)
    ensures multiset(Restated(rows, state))[row] == if state == row.state then Alike(rows, row) else 0
  {
    if state != row.state {
      assert row !in Restated(rows, state);
    }
  }

  lemma MergedTimes(policy: Policy, live: seq<Row>, frozen: seq<Row>, out: seq<Row>, additions: seq<Row>, row: Row)
    requires MergedOf(policy, IdentityOf(row), live, frozen, out, additions)
    ensures multiset(out)[row] + multiset(additions)[row] == Task5Times(policy, live, frozen, row)
  {
    var class_ := policy.classify(IdentityOf(row));
    var n := Taken(policy, IdentityOf(row), |live|, |frozen|);
    AlikeAppend(live[..n], frozen[n..], row);
    AlikeAppend(live[..n], live[n..], row);
    assert live[..n] + live[n..] == live;
    OtherState(live[n..], Task6Pending, row);
    if frozen == [] {
      assert Restated(frozen, row.state) == [];
    } else {
      OtherState(live[..n] + frozen[n..], class_.value, row);
    }
    assert class_ == Some(Task6Pending) ==> frozen[n..] == Unreplaced(live, frozen);
  }

  lemma NoOther(policy: Policy, live: seq<Row>, frozen: seq<Row>, out: seq<Row>, additions: seq<Row>, id: Identity)
    requires MergedOf(policy, id, live, frozen, out, additions) && live == [] && frozen == []
    ensures out == [] && additions == []
  {}

  /**
   How often any row occurs in an emitted ledger: recorded closed rows are carried over, rows
   of other tasks are the scanned ones, and rows of Task 5 merge the scanned and the frozen.
   */
  lemma EmittedRows(policy: Policy, current: seq<Row>, scanned: seq<Row>, baselineRows: seq<Row>,
                    frozen: seq<Row>, additions: seq<Row>, rows: seq<Row>, row: Row)
    requires IsEmitted(policy, current, scanned, baselineRows, frozen, additions, rows)
    ensures var id := IdentityOf(row);
            multiset(rows)[row] == ClosedTimes(current, row) +
              if row.targetTask.Task5? then Task5Times(policy, Of(scanned, id), Of(baselineRows, id), row)
              else OtherTimes(current, scanned, row)
  {
    var id := IdentityOf(row);
    var live, baseline := Task5Rows(scanned), Task5Rows(baselineRows);
    FourParts(Others(current, scanned), Carried(current), frozen, additions, rows, row);
    OthersTimes(current, scanned, row);
    CarriedTimes(current, row);
    OfMultiset(frozen, id, row);
    OfMultiset(additions, id, row);
    assert MergedOf(policy, id, Of(live, id), Of(baseline, id), Of(frozen, id), Of(additions, id));
    if row.targetTask.Task5? {
      Task5Of(scanned, id);
      Task5Of(baselineRows, id);
      MergedTimes(policy, Of(scanned, id), Of(baselineRows, id), Of(frozen, id), Of(additions, id), row);
    } else {
      OnlyTask5(scanned, id);
      OnlyTask5(baselineRows, id);
      NoOther(policy, Of(live, id), Of(baseline, id), Of(frozen, id), Of(additions, id), id);
    }
  }

  lemma FourParts(a: seq<Row>, b: seq<Row>, c: seq<Row>, d: seq<Row>, rows: seq<Row>, row: Row)
    requires rows == Sort(a + b + c + d, RowLeq)
    ensures multiset(rows)[row] == multiset(a)[row] + multiset(b)[row] + multiset(c)[row] + multiset(d)[row]
  {}

  /** By source path; for one path by kind, and so on, column by column. */
  ghost predicate ColumnsAscend(a: Row, b: Row) {
    && StringLeq(a.sourcePath, b.sourcePath)
    && (a.sourcePath == b.sourcePath ==>
         && StringLeq(a.occurrenceKind, b.occurrenceKind)
         && (a.occurrenceKind == b.occurrenceKind ==>
              && StringLeq(a.symbol, b.symbol)
              && (a.symbol == b.symbol ==>
                   && StringLeq(a.oldPath, b.oldPath)
                   && (a.oldPath == b.oldPath ==>
                        && StringLeq(a.targetPath, b.targetPath)
                        && (a.targetPath == b.targetPath ==>
                             StringLeq(TaskText(a.targetTask), TaskText(b.targetTask)))))))
  }

  lemma FirstColumn(x: string, s: seq<string>, y: string, t: seq<string>)
    requires LexLeq([x] + s, [y] + t, StringLeq)
    ensures StringLeq(x, y)
    ensures x == y ==> LexLeq(s, t, StringLeq)
  {
    StringTotal();
    assert StringLeq(x, x);
    assert ([x] + s)[1..] == s && ([y] + t)[1..] == t;
  }

  ghost function LaterColumns(row: Row): seq<string> {
    [row.targetPath] + ([TaskText(row.targetTask)] + [StateText(row.state)])
  }

  lemma LaterAscend(a: Row, b: Row)
    requires LexLeq([a.oldPath] + LaterColumns(a), [b.oldPath] + LaterColumns(b), StringLeq)
    ensures StringLeq(a.oldPath, b.oldPath)
    ensures a.oldPath == b.oldPath ==> StringLeq(a.targetPath, b.targetPath)
    ensures a.oldPath == b.oldPath && a.targetPath == b.targetPath ==>
              StringLeq(TaskText(a.targetTask), TaskText(b.targetTask))
  {
    FirstColumn(a.oldPath, LaterColumns(a), b.oldPath, LaterColumns(b));
    var s, t := [TaskText(a.targetTask)] + [StateText(a.state)], [TaskText(b.targetTask)] + [StateText(b.state)];
    if a.oldPath == b.oldPath {
      FirstColumn(a.targetPath, s, b.targetPath, t);
      if a.targetPath == b.targetPath {
        FirstColumn(TaskText(a.targetTask), [StateText(a.state)], TaskText(b.targetTask), [StateText(b.state)]);
      }
    }
  }

  ghost function Columns(row: Row): seq<string> {
    [row.sourcePath] + ([row.occurrenceKind] + ([row.symbol] + ([row.oldPath] + LaterColumns(row))))
  }

  lemma KeyIsColumns(row: Row)
    ensures RowKey(row) == Columns(row)
  {}

  lemma KeysAscend(a: Row, b: Row)
    requires RowLeq(a, b)
    ensures ColumnsAscend(a, b)
  {
    KeyIsColumns(a);
    KeyIsColumns(b);
    var s, t := [a.oldPath] + LaterColumns(a), [b.oldPath] + LaterColumns(b);
    var s1, t1 := [a.symbol] + s, [b.symbol] + t;
    FirstColumn(a.sourcePath, [a.occurrenceKind] + s1, b.sourcePath, [b.occurrenceKind] + t1);
    if a.sourcePath == b.sourcePath {
      FirstColumn(a.occurrenceKind, s1, b.occurrenceKind, t1);
      if a.occurrenceKind == b.occurrenceKind {
        FirstColumn(a.symbol, s, b.symbol, t);
        if a.symbol == b.symbol { LaterAscend(a, b); }
      }
    }
  }

  /** The ledger is sorted by its columns. */
  lemma EmittedSorted(policy: Policy, current: seq<Row>, scanned: seq<Row>, baselineRows: seq<Row>,
                      frozen: seq<Row>, additions: seq<Row>, rows: seq<Row>)
    requires IsEmitted(policy, current, scanned, baselineRows, frozen, additions, rows)
    ensures forall i, j :: 0 <= i < j < |rows| ==> ColumnsAscend(rows[i], rows[j])
  {
    StringTotal();
    LexTotal(StringLeq);
    var byKey := (a: seq<string>, b: seq<string>) => LexLeq(a, b, StringLeq);
    forall x, y ensures RowLeq(x, y) || RowLeq(y, x) {
      assert byKey(RowKey(x), RowKey(y)) || byKey(RowKey(y), RowKey(x));
    }
    forall x, y, z | RowLeq(x, y) && RowLeq(y, z) ensures RowLeq(x, z) {
      assert byKey(RowKey(x), RowKey(y)) && byKey(RowKey(y), RowKey(z));
      assert byKey(RowKey(x), RowKey(z));
    }
    SortOrdered(Others(current, scanned) + Carried(current) + frozen + additions, RowLeq);
    forall i, j | 0 <= i < j < |rows| ensures ColumnsAscend(rows[i], rows[j]) { KeysAscend(rows[i], rows[j]); }
  }
}
