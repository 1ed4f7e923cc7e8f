/**
 `_require_consumer_source_proof` with the state check of `verify_task5_consumer_states`
 (scripts/verify_druid_single_standard.py), and what it says about the emitter's output.
 */
module LedgerVerifier {
  import opened Outcome
  import opened Sorting
  import opened Ledger
  import opened LedgerEmitter

  datatype ProofFailure =
    | InvalidState
    | OmitsFrozenRows
    | CheckedAdditionsDrift
    | LiveAdditionsDrift
    | UnclassifiedRow
    | ShimTransitionsDrift
    | ShimSourceMissing
    | ClosedRowStillLive
    | WrongDisposition
    | OldIdentityStillLive

  /** The number of closed, Task 6 pending and Task 7 pending rows. */
  datatype Summary = Summary(closed: nat, task6: nat, task7: nat)

  function StateCount(rows: seq<Row>, state: State): nat {
    if rows == [] then 0 else (if rows[0].state == state then 1 else 0) + StateCount(rows[1..], state)
  }

  predicate IsDisposition(state: State) { state.Task5Closed? || state.Task6Pending? || state.Task7Pending? }

  /** The state a row of this identity must carry. */
  function Expected(policy: Policy, baseline: seq<Row>, id: Identity): State
    requires AllClassified(policy, baseline)
  {
    if exists i :: 0 <= i < |baseline| && IdentityOf(baseline[i]) == id
    then policy.classify(id).value else Task6Pending
  }

  predicate StatesValid(checked: seq<Row>) {
    forall i :: 0 <= i < |checked| ==> IsDisposition(checked[i].state)
  }

  predicate ShimsPresent(shimmed: multiset<Identity>, isFile: string -> bool) {
    forall id :: id in shimmed ==> isFile(id.sourcePath)
  }

  predicate ClosedAreGone(checked: seq<Row>, liveIds: multiset<Identity>) {
    forall i :: 0 <= i < |checked| && checked[i].state == Task5Closed ==> IdentityOf(checked[i]) !in liveIds
  }

  predicate DispositionsRight(policy: Policy, checked: seq<Row>, baseline: seq<Row>)
    requires AllClassified(policy, baseline)
  {
    forall i :: 0 <= i < |checked| ==> checked[i].state == Expected(policy, baseline, IdentityOf(checked[i]))
  }

  predicate OldAreGone(policy: Policy, live: seq<Row>, baseline: seq<Row>)
    requires AllClassified(policy, baseline)
  {
    forall i :: 0 <= i < |live| ==> Expected(policy, baseline, IdentityOf(live[i])) == Task6Pending
  }

  function Shimmed(policy: Policy, live: seq<Row>, baseline: seq<Row>): multiset<Identity> {
    FrozenTask6(policy, baseline) - Identities(live)
  }

  function Verify(policy: Policy, checked: seq<Row>, baseline: seq<Row>, live: seq<Row>, isFile: string -> bool)
    : Result<Summary, ProofFailure>
  {
    var frozenIds, checkedIds, liveIds := Identities(baseline), Identities(checked), Identities(live);
    if !StatesValid(checked) then Err(InvalidState)
    else if frozenIds - checkedIds != multiset{} then Err(OmitsFrozenRows)
    else if policy.digest(checkedIds - frozenIds) != policy.additionsDigest then Err(CheckedAdditionsDrift)
    else if policy.digest(liveIds - frozenIds) != policy.additionsDigest then Err(LiveAdditionsDrift)
    else if !AllClassified(policy, baseline) then Err(UnclassifiedRow)
    else VerifyRows(policy, checked, baseline, live, isFile)
  }

  /** The checks that need the states of the frozen rows. */
  function VerifyRows(policy: Policy, checked: seq<Row>, baseline: seq<Row>, live: seq<Row>, isFile: string -> bool)
    : Result<Summary, ProofFailure>
    requires AllClassified(policy, baseline)
  {
    if policy.digest(Shimmed(policy, live, baseline)) != policy.shimDigest then Err(ShimTransitionsDrift)
    else if !ShimsPresent(Shimmed(policy, live, baseline), isFile) then Err(ShimSourceMissing)
    else if !ClosedAreGone(checked, Identities(live)) then Err(ClosedRowStillLive)
    else if !DispositionsRight(policy, checked, baseline) then Err(WrongDisposition)
    else if !OldAreGone(policy, live, baseline) then Err(OldIdentityStillLive)
    else
      Ok(Summary(StateCount(checked, Task5Closed), StateCount(checked, Task6Pending),
                 StateCount(checked, Task7Pending)))
  }

  // ----- When the emitter's output passes -----

  /** No carried-over closed row belongs to Task 5. */
  ghost predicate NothingCarried(current: seq<Row>) {
    forall row :: row in current && row.state == ReferenceClosed ==> !row.targetTask.Task5?
  }

  /** An identity that is both frozen and live is waiting for Task 6. */
  ghost predicate NoConflict(policy: Policy, live: seq<Row>, baseline: seq<Row>) {
    forall id :: Count(baseline, id) > 0 && Count(live, id) > 0 ==> policy.classify(id) == Some(Task6Pending)
  }

  ghost predicate IsEmitted(policy: Policy, current: seq<Row>, scanned: seq<Row>, baselineRows: seq<Row>,
                            frozen: seq<Row>, additions: seq<Row>, rows: seq<Row>)
  {
    && Emittable(policy, Task5Rows(scanned), Task5Rows(baselineRows))
    && Merged(policy, Task5Rows(scanned), Task5Rows(baselineRows), frozen, additions)
    && MergedRows(policy, Task5Rows(scanned), Task5Rows(baselineRows), frozen, additions)
    && rows == Sort(Others(current, scanned) + Carried(current) + frozen + additions, RowLeq)
  }

  lemma EmittedMember(current: seq<Row>, scanned: seq<Row>, frozen: seq<Row>, additions: seq<Row>, row: Row)
    requires row.targetTask.Task5?
    ensures row in Task5Rows(Sort(Others(current, scanned) + Carried(current) + frozen + additions, RowLeq)) <==>
            row in Carried(current) || row in frozen || row in additions
  {
    var all := Others(current, scanned) + Carried(current) + frozen + additions;
    Task5Member(Sort(all, RowLeq), row);
    assert row in Sort(all, RowLeq) <==> row in multiset(Sort(all, RowLeq));
    assert row in all <==> row in multiset(all);
    OthersAreNotTask5(current, scanned, IdentityOf(row));
  }

  lemma EmittedCount(policy: Policy, current: seq<Row>, scanned: seq<Row>, baselineRows: seq<Row>,
                     frozen: seq<Row>, additions: seq<Row>, rows: seq<Row>, id: Identity)
    requires IsEmitted(policy, current, scanned, baselineRows, frozen, additions, rows) && id.targetTask.Task5?
    ensures var live, baseline := Task5Rows(scanned), Task5Rows(baselineRows);
            Count(Task5Rows(rows), id) ==
            Count(Carried(current), id) + Count(baseline, id) +
            LeftOver(policy, id, Count(live, id), Count(baseline, id))
  {
    var a, b := Others(current, scanned), Carried(current);
    Task5Count(rows, id);
    SortCount(a + b + frozen + additions, RowLeq, id);
    CountAppend(a + b + frozen, additions, id);
    CountAppend(a + b, frozen, id);
    CountAppend(a, b, id);
    OthersAreNotTask5(current, scanned, id);
  }

  lemma {:induction false} CarriedCount(current: seq<Row>, id: Identity)
    requires NothingCarried(current) && id.targetTask.Task5?
    ensures Count(Carried(current), id) == 0
  {
    IdentityPresent(Carried(current), id);
    forall i | 0 <= i < |Carried(current)| ensures IdentityOf(Carried(current)[i]) != id {
      CarriedMember(current, Carried(current)[i]);
    }
  }

  lemma {:induction false} OnlyTask5(rows: seq<Row>, id: Identity)
    requires !id.targetTask.Task5?
    ensures Count(Task5Rows(rows), id) == 0
  {
    Task5Count(rows, id);
  }

  ghost predicate FrozenRow(policy: Policy, baseline: seq<Row>, row: Row) {
    Count(baseline, IdentityOf(row)) > 0 && policy.classify(IdentityOf(row)) == Some(row.state)
  }

  ghost predicate AddedRow(policy: Policy, live: seq<Row>, baseline: seq<Row>, row: Row) {
    var id := IdentityOf(row);
    row.state == Task6Pending && LeftOver(policy, id, Count(live, id), Count(baseline, id)) > 0
  }

  /** `checked` holds one row per frozen row and one per live row left over, and nothing else. */
  ghost predicate Reflects(policy: Policy, live: seq<Row>, baseline: seq<Row>, checked: seq<Row>) {
    && (forall id :: Count(checked, id) ==
          Count(baseline, id) + LeftOver(policy, id, Count(live, id), Count(baseline, id)))
    && (forall row :: row in checked ==> FrozenRow(policy, baseline, row) || AddedRow(policy, live, baseline, row))
  }

  /** The Task 5 rows of an emitted ledger reflect the frozen and the live ones. */
  lemma EmittedReflects(policy: Policy, current: seq<Row>, scanned: seq<Row>, baselineRows: seq<Row>,
                        frozen: seq<Row>, additions: seq<Row>, rows: seq<Row>)
    requires IsEmitted(policy, current, scanned, baselineRows, frozen, additions, rows) && NothingCarried(current)
    ensures Reflects(policy, Task5Rows(scanned), Task5Rows(baselineRows), Task5Rows(rows))
  {
    var live, baseline, checked := Task5Rows(scanned), Task5Rows(baselineRows), Task5Rows(rows);
    forall id ensures
        Count(checked, id) == Count(baseline, id) + LeftOver(policy, id, Count(live, id), Count(baseline, id))
    {
      if id.targetTask.Task5? {
        EmittedCount(policy, current, scanned, baselineRows, frozen, additions, rows, id);
        CarriedCount(current, id);
      } else {
        OnlyTask5(rows, id);
        OnlyTask5(scanned, id);
        OnlyTask5(baselineRows, id);
      }
    }
    forall row | row in checked ensures FrozenRow(policy, baseline, row) || AddedRow(policy, live, baseline, row) {
      Task5Member(rows, row);
      EmittedMember(current, scanned, frozen, additions, row);
      CarriedMember(current, row);
      IdentityPresent(frozen, IdentityOf(row));
      IdentityPresent(additions, IdentityOf(row));
    }
  }

  /** As an identity multiset, what reflects both sides is their pointwise maximum. */
  lemma EmittedIsMaximum(policy: Policy, live: seq<Row>, baseline: seq<Row>, checked: seq<Row>, id: Identity)
    requires Reflects(policy, live, baseline, checked) && NoConflict(policy, live, baseline)
    ensures var f, l := Identities(baseline)[id], Identities(live)[id];
            Identities(checked)[id] == if f > l then f else l
  {
    IdentitiesCount(checked, id);
    IdentitiesCount(baseline, id);
    IdentitiesCount(live, id);
  }

  lemma ExpectedIs(policy: Policy, baseline: seq<Row>, id: Identity)
    requires AllClassified(policy, baseline)
    ensures Count(baseline, id) > 0 ==> policy.classify(id) == Some(Expected(policy, baseline, id))
    ensures Count(baseline, id) == 0 ==> Expected(policy, baseline, id) == Task6Pending
  {
    IdentityPresent(baseline, id);
  }

  /** Every row carries the state the verifier expects, and no closed one is live. */
  lemma EmittedStates(policy: Policy, live: seq<Row>, baseline: seq<Row>, checked: seq<Row>, row: Row)
    requires ValidPolicy(policy) && AllClassified(policy, baseline) && row in checked
    requires Reflects(policy, live, baseline, checked) && NoConflict(policy, live, baseline)
    ensures row.state == Expected(policy, baseline, IdentityOf(row)) && IsDisposition(row.state)
    ensures row.state == Task5Closed ==> Count(live, IdentityOf(row)) == 0
  {
    ExpectedIs(policy, baseline, IdentityOf(row));
    assert FrozenRow(policy, baseline, row) || AddedRow(policy, live, baseline, row);
  }

  /** Nothing frozen is missing, and the additions are the live ones. */
  lemma EmittedAdditions(policy: Policy, live: seq<Row>, baseline: seq<Row>, checked: seq<Row>)
    requires Reflects(policy, live, baseline, checked) && NoConflict(policy, live, baseline)
    ensures Identities(baseline) - Identities(checked) == multiset{}
    ensures Identities(checked) - Identities(baseline) == Identities(live) - Identities(baseline)
  {
    var base, out := Identities(baseline), Identities(checked);
    forall id ensures out[id] == if base[id] > Identities(live)[id] then base[id] else Identities(live)[id] {
      EmittedIsMaximum(policy, live, baseline, checked, id);
    }
    MaximumDifferences(base, Identities(live), out);
  }

  lemma MaximumDifferences(base: multiset<Identity>, live: multiset<Identity>, out: multiset<Identity>)
    requires forall id :: out[id] == if base[id] > live[id] then base[id] else live[id]
    ensures base - out == multiset{} && out - base == live - base
  {
    forall id ensures (out - base)[id] == (live - base)[id] {}
    forall id ensures (base - out)[id] == 0 {}
  }

  /** The row checks of the verifier. */
  ghost predicate RowsRight(policy: Policy, checked: seq<Row>, baseline: seq<Row>, live: seq<Row>) {
    && AllClassified(policy, baseline)
    && StatesValid(checked)
    && ClosedAreGone(checked, Identities(live))
    && DispositionsRight(policy, checked, baseline)
    && OldAreGone(policy, live, baseline)
  }

  lemma EmittedRowsRight(policy: Policy, live: seq<Row>, baseline: seq<Row>, checked: seq<Row>)
    requires ValidPolicy(policy) && AllClassified(policy, baseline)
    requires Reflects(policy, live, baseline, checked) && NoConflict(policy, live, baseline)
    ensures RowsRight(policy, checked, baseline, live)
  {
    forall i | 0 <= i < |checked|
      ensures IsDisposition(checked[i].state) && checked[i].state == Expected(policy, baseline, IdentityOf(checked[i]))
      ensures checked[i].state == Task5Closed ==> IdentityOf(checked[i]) !in Identities(live)
    {
      EmittedStates(policy, live, baseline, checked, checked[i]);
      IdentitiesCount(live, IdentityOf(checked[i]));
    }
    forall i | 0 <= i < |live| ensures Expected(policy, baseline, IdentityOf(live[i])) == Task6Pending {
      IdentityPresent(live, IdentityOf(live[i]));
      ExpectedIs(policy, baseline, IdentityOf(live[i]));
    }
  }

  lemma EmittedPasses(policy: Policy, live: seq<Row>, baseline: seq<Row>, checked: seq<Row>, isFile: string -> bool)
    requires ValidPolicy(policy) && Emittable(policy, live, baseline)
    requires Reflects(policy, live, baseline, checked) && NoConflict(policy, live, baseline)
    requires ShimsPresent(Shimmed(policy, live, baseline), isFile)
    ensures Verify(policy, checked, baseline, live, isFile).Ok?
  {
    EmittedAdditions(policy, live, baseline, checked);
    EmittedRowsRight(policy, live, baseline, checked);
    RightRowsPass(policy, checked, baseline, live, isFile);
  }

  lemma RightRowsPass(policy: Policy, checked: seq<Row>, baseline: seq<Row>, live: seq<Row>, isFile: string -> bool)
    requires RowsRight(policy, checked, baseline, live) && Emittable(policy, live, baseline)
    requires Identities(baseline) - Identities(checked) == multiset{}
    requires Identities(checked) - Identities(baseline) == Identities(live) - Identities(baseline)
    requires ShimsPresent(Shimmed(policy, live, baseline), isFile)
    ensures Verify(policy, checked, baseline, live, isFile).Ok?
  {}

  lemma CarriedIsEmitted(current: seq<Row>, scanned: seq<Row>, frozen: seq<Row>, additions: seq<Row>, row: Row)
    requires row in current && row.state == ReferenceClosed && row.targetTask.Task5?
    ensures row in Task5Rows(Sort(Others(current, scanned) + Carried(current) + frozen + additions, RowLeq))
  {
    CarriedMember(current, row);
    EmittedMember(current, scanned, frozen, additions, row);
  }

  lemma CarriedFails(policy: Policy, checked: seq<Row>, baseline: seq<Row>, live: seq<Row>,
                     isFile: string -> bool, row: Row)
    requires row in checked && row.state == ReferenceClosed
    ensures Verify(policy, checked, baseline, live, isFile) == Err(InvalidState)
  {
    var i :| 0 <= i < |checked| && checked[i] == row;
    assert !IsDisposition(checked[i].state);
  }

  lemma ConflictFails(policy: Policy, checked: seq<Row>, baseline: seq<Row>, live: seq<Row>, isFile: string -> bool,
                      id: Identity)
    requires Count(baseline, id) > 0 && Count(live, id) > 0 && policy.classify(id) != Some(Task6Pending)
    ensures Verify(policy, checked, baseline, live, isFile).Err?
  {
    IdentityPresent(live, id);
    var i :| 0 <= i < |live| && IdentityOf(live[i]) == id;
    if AllClassified(policy, baseline) {
      ExpectedIs(policy, baseline, id);
      assert Expected(policy, baseline, IdentityOf(live[i])) != Task6Pending;
    }
  }

  /**
   The verifier accepts what the emitter wrote exactly when no carried-over closed row is
   a Task 5 row, no frozen identity past Task 6 is still live, and the shim sources exist.
   */
  lemma VerifierAcceptsEmitter(policy: Policy, current: seq<Row>, scanned: seq<Row>, baselineRows: seq<Row>,
                               frozen: seq<Row>, additions: seq<Row>, rows: seq<Row>, isFile: string -> bool)
    requires IsEmitted(policy, current, scanned, baselineRows, frozen, additions, rows) && ValidPolicy(policy)
    ensures var live, baseline := Task5Rows(scanned), Task5Rows(baselineRows);
            Verify(policy, Task5Rows(rows), baseline, live, isFile).Ok? <==>
            && NothingCarried(current)
            && NoConflict(policy, live, baseline)
            && ShimsPresent(Shimmed(policy, live, baseline), isFile)
  {
    var live, baseline := Task5Rows(scanned), Task5Rows(baselineRows);
    if !NothingCarried(current) {
      var row :| row in current && row.state == ReferenceClosed && row.targetTask.Task5?;
      CarriedIsEmitted(current, scanned, frozen, additions, row);
      CarriedFails(policy, Task5Rows(rows), baseline, live, isFile, row);
    } else if !NoConflict(policy, live, baseline) {
      var id :| Count(baseline, id) > 0 && Count(live, id) > 0 && policy.classify(id) != Some(Task6Pending);
      ConflictFails(policy, Task5Rows(rows), baseline, live, isFile, id);
    } else if ShimsPresent(Shimmed(policy, live, baseline), isFile) {
      EmittedReflects(policy, current, scanned, baselineRows, frozen, additions, rows);
      EmittedPasses(policy, live, baseline, Task5Rows(rows), isFile);
    }
  }
}
