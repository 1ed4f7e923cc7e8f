/**
 The Task 5 consumer ledger (scripts/verify_druid_single_standard.py): rows, their
 coordinate-free identities, and the policy both the emitter and the verifier follow.
 */
module Ledger {
  import opened Outcome
  import opened Sorting

  /** The row states that `parse_consumer_payload` accepts. */
  datatype State =
    | ReferencePlanned
    | ReferenceLive
    | ReferenceClosed
    | Task5Closed
    | Task6Pending
    | Task6Closed
    | Task7Pending

  datatype Task = Task5 | OtherTask(name: string)

  datatype Row = Row(
    sourcePath: string, occurrenceKind: string, symbol: string,
    oldPath: string, targetPath: string, targetTask: Task, state: State)

  datatype Identity = Identity(
    sourcePath: string, occurrenceKind: string, symbol: string,
    oldPath: string, targetPath: string, targetTask: Task)

  /** A symbol up to its source coordinate, `@token=...` or `@qualified-token=...`. */
  function SymbolIdentity(symbol: string): string {
    if symbol == "" then ""
    else if StartsCoordinate(symbol) then ""
    else [symbol[0]] + SymbolIdentity(symbol[1..])
  }

  predicate StartsCoordinate(symbol: string) {
    "@token=" <= symbol || ("@" <= symbol && "qualified-" + "token=" <= symbol[1..])
  }

  /** The symbol up to its first coordinate, the whole symbol when it has none. */
  lemma {:induction false} SymbolCut(symbol: string)
    ensures var cut := SymbolIdentity(symbol);
            && cut <= symbol
            && (forall k :: 0 <= k < |cut| ==> !StartsCoordinate(symbol[k..]))
            && (cut == symbol || StartsCoordinate(symbol[|cut|..]))
  {
    assert symbol[0..] == symbol;
    if symbol != "" && !StartsCoordinate(symbol) {
      SymbolCut(symbol[1..]);
      var rest := SymbolIdentity(symbol[1..]);
      var cut := SymbolIdentity(symbol);
      assert cut == [symbol[0]] + rest && symbol == [symbol[0]] + symbol[1..];
      forall k | 0 <= k < |cut| ensures !StartsCoordinate(symbol[k..]) {
        if k > 0 { assert symbol[k..] == symbol[1..][k - 1..]; }
      }
      assert symbol[|cut|..] == symbol[1..][|rest|..];
    }
  }

  /** Two rows of one identity differ in coordinates and states only. */
  lemma OneIdentity(a: Row, b: Row)
    ensures IdentityOf(a) == IdentityOf(b) <==>
            && a == b.(symbol := a.symbol, state := a.state)
            && SymbolIdentity(a.symbol) == SymbolIdentity(b.symbol)
  {}

  function IdentityOf(row: Row): Identity {
    Identity(row.sourcePath, row.occurrenceKind, SymbolIdentity(row.symbol),
             row.oldPath, row.targetPath, row.targetTask)
  }

  /** The identity multiset of some rows. */
  function Identities(rows: seq<Row>): multiset<Identity> {
    if rows == [] then multiset{} else multiset{IdentityOf(rows[0])} + Identities(rows[1..])
  }

  function Task5Rows(rows: seq<Row>): seq<Row> {
    if rows == [] then []
    else if rows[0].targetTask.Task5? then [rows[0]] + Task5Rows(rows[1..])
    else Task5Rows(rows[1..])
  }

  /**
   What the scripts decide by path tables and pinned hashes: the state of a frozen
   identity (none for an unclassified path), the identities that may be added, and the
   digests that pin the additions and the shimmed rows.
   */
  datatype Policy = Policy(
    classify: Identity -> Option<State>,
    approved: Identity -> bool,
    digest: multiset<Identity> -> string,
    additionsDigest: string,
    shimDigest: string)

  ghost predicate ValidPolicy(policy: Policy) {
    forall id :: policy.classify(id).Some? ==>
      policy.classify(id).value == Task5Closed || policy.classify(id).value == Task6Pending ||
      policy.classify(id).value == Task7Pending
  }

  predicate AllClassified(policy: Policy, rows: seq<Row>) {
    forall i :: 0 <= i < |rows| ==> policy.classify(IdentityOf(rows[i])).Some?
  }

  /** The frozen identities still waiting for Task 6. */
  function FrozenTask6(policy: Policy, rows: seq<Row>): multiset<Identity> {
    if rows == [] then multiset{}
    else
      var id := IdentityOf(rows[0]);
      (if policy.classify(id) == Some(Task6Pending) then multiset{id} else multiset{}) + FrozenTask6(policy, rows[1..])
  }

  // ----- Counting -----

  /** How often an identity occurs. */
  ghost function Count(rows: seq<Row>, id: Identity): nat {
    if rows == [] then 0 else (if IdentityOf(rows[0]) == id then 1 else 0) + Count(rows[1..], id)
  }

  lemma {:induction false} IdentitiesCount(rows: seq<Row>, id: Identity)
    ensures Identities(rows)[id] == Count(rows, id)
  {
    if rows != [] { IdentitiesCount(rows[1..], id); }
  }

  lemma {:induction false} CountAppend(a: seq<Row>, b: seq<Row>, id: Identity)
    ensures Count(a + b, id) == Count(a, id) + Count(b, id)
  {
    if a == [] {
      assert a + b == b;
    } else {
      CountAppend(a[1..], b, id);
      assert (a + b)[0] == a[0] && (a + b)[1..] == a[1..] + b;
    }
  }

  lemma {:induction false} IdentityPresent(rows: seq<Row>, id: Identity)
    ensures Count(rows, id) > 0 <==> exists i :: 0 <= i < |rows| && IdentityOf(rows[i]) == id
  {
    if rows != [] {
      IdentityPresent(rows[1..], id);
      forall i | 0 <= i < |rows[1..]| ensures rows[1..][i] == rows[i + 1] {}
      if i :| 0 <= i < |rows| && IdentityOf(rows[i]) == id {
        if i > 0 { assert rows[1..][i - 1] == rows[i]; }
      }
    }
  }

  /** The rows of one identity, in order. */
  ghost function Of(rows: seq<Row>, id: Identity): (r: seq<Row>)
    ensures |r| == Count(rows, id)
    ensures forall k :: 0 <= k < |r| ==> IdentityOf(r[k]) == id
  {
    if rows == [] then [] else (if IdentityOf(rows[0]) == id then [rows[0]] else []) + Of(rows[1..], id)
  }

  lemma OfCons(row: Row, rest: seq<Row>, id: Identity)
    ensures Of([row] + rest, id) == (if IdentityOf(row) == id then [row] else []) + Of(rest, id)
  {
    assert ([row] + rest)[1..] == rest;
  }

  lemma RowsAssoc(a: seq<Row>, b: seq<Row>, c: seq<Row>)
    ensures a + (b + c) == (a + b) + c
  {}

  lemma {:induction false} OfAppend(a: seq<Row>, b: seq<Row>, id: Identity)
    ensures Of(a + b, id) == Of(a, id) + Of(b, id)
  {
    if a == [] {
      assert a + b == b;
    } else {
      OfAppend(a[1..], b, id);
      assert (a + b)[0] == a[0] && (a + b)[1..] == a[1..] + b;
      RowsAssoc(if IdentityOf(a[0]) == id then [a[0]] else [], Of(a[1..], id), Of(b, id));
    }
  }

  lemma {:induction false} OfMultiset(rows: seq<Row>, id: Identity, row: Row)
    ensures multiset(Of(rows, id))[row] == if IdentityOf(row) == id then multiset(rows)[row] else 0
  {
    if rows != [] {
      OfMultiset(rows[1..], id, row);
      assert rows == [rows[0]] + rows[1..];
    }
  }

  /** The rows with another state. */
  function Restated(rows: seq<Row>, state: State): (r: seq<Row>)
    ensures |r| == |rows|
    ensures forall k :: 0 <= k < |rows| ==> r[k] == rows[k].(state := state)
  {
    seq(|rows|, k requires 0 <= k < |rows| => rows[k].(state := state))
  }

  lemma {:induction false} Task5Member(rows: seq<Row>, row: Row)
    ensures row in Task5Rows(rows) <==> row in rows && row.targetTask.Task5?
  {
    if rows != [] {
      Task5Member(rows[1..], row);
      assert rows == [rows[0]] + rows[1..];
    }
  }

  lemma {:induction false} FrozenTask6Count(policy: Policy, rows: seq<Row>, id: Identity)
    ensures FrozenTask6(policy, rows)[id] ==
            if policy.classify(id) == Some(Task6Pending) then Count(rows, id) else 0
  {
    if rows != [] { FrozenTask6Count(policy, rows[1..], id); }
  }

  // ----- Sorting a ledger -----

  function StateText(state: State): string {
    match state
    case ReferencePlanned => "CURRENT_REFERENCE_" + "TARGET_PLANNED"
    case ReferenceLive => "STANDARD_REFERENCE_" + "LIVE"
    case ReferenceClosed => "STANDARD_REFERENCE_" + "CLOSED"
    case Task5Closed => "DRUID_INTERNAL_" + "REFERENCE_CLOSED"
    case Task6Pending => "TASK6_COMPATIBILITY_" + "PENDING"
    case Task6Closed => "TASK6_COMPATIBILITY_" + "CLOSED"
    case Task7Pending => "TASK7_RESOURCE_" + "OPERATIONS_PENDING"
  }

  function TaskText(task: Task): string {
    if task.Task5? then "P04_TASK_5_DRUID_" + "INTERNALIZATION" else task.name
  }

  /** A row as the tuple of strings Python compares. */
  function RowKey(row: Row): seq<string> {
    [row.sourcePath, row.occurrenceKind, row.symbol, row.oldPath, row.targetPath,
     TaskText(row.targetTask), StateText(row.state)]
  }

  predicate RowLeq(a: Row, b: Row) {
    LexLeq(RowKey(a), RowKey(b), StringLeq)
  }

  /** The Task 5 rows of one identity. */
  ghost function Count5(rows: seq<Row>, id: Identity): nat {
    if id.targetTask.Task5? then Count(rows, id) else 0
  }

  lemma {:induction false} Task5Count(rows: seq<Row>, id: Identity)
    ensures Count(Task5Rows(rows), id) == Count5(rows, id)
  {
    if rows != [] {
      Task5Count(rows[1..], id);
      var rest := Task5Rows(rows[1..]);
      assert ([rows[0]] + rest)[1..] == rest && [] + rest == rest;
    }
  }

  lemma {:induction false} InsertCount(x: Row, s: seq<Row>, leq: (Row, Row) -> bool, id: Identity)
    ensures Count(Insert(x, s, leq), id) == (if IdentityOf(x) == id then 1 else 0) + Count(s, id)
  {
    if s != [] && !leq(x, s[0]) {
      var rest := Insert(x, s[1..], leq);
      InsertCount(x, s[1..], leq, id);
      assert ([s[0]] + rest)[1..] == rest;
    } else {
      assert ([x] + s)[1..] == s;
    }
  }

  /** Sorting keeps every identity's count. */
  lemma {:induction false} SortCount(s: seq<Row>, leq: (Row, Row) -> bool, id: Identity)
    ensures Count(Sort(s, leq), id) == Count(s, id)
  {
    if s != [] {
      SortCount(s[1..], leq, id);
      InsertCount(s[0], Sort(s[1..], leq), leq, id);
    }
  }
}
