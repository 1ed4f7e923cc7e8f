/**
 What `_require_consumer_source_proof` and `verify_task5_consumer_states`
 (scripts/verify_druid_single_standard.py) accept, for any ledger, in terms of how often
 each identity occurs: not only on what the emitter writes.
 */
module LedgerVerdict {
  import opened Outcome
  import opened Ledger
  import opened LedgerVerifier

  /** What the multiset of `a` has more than that of `b`, identity by identity. */
  ghost predicate Excess(m: multiset<Identity>, a: seq<Row>, b: seq<Row>) {
    forall id :: m[id] == if Count(a, id) > Count(b, id) then Count(a, id) - Count(b, id) else 0
  }

  /** The digest of that difference is the pinned one. */
  ghost predicate ExcessPinned(policy: Policy, a: seq<Row>, b: seq<Row>, pin: string) {
    exists m :: Excess(m, a, b) && policy.digest(m) == pin
  }

  /** The frozen rows pending for Task 6 that are no longer live. */
  ghost predicate Gone(policy: Policy, m: multiset<Identity>, baseline: seq<Row>, live: seq<Row>) {
    forall id :: m[id] ==
      if policy.classify(id) == Some(Task6Pending) && Count(baseline, id) > Count(live, id)
      then Count(baseline, id) - Count(live, id) else 0
  }

  ghost predicate GonePinned(policy: Policy, baseline: seq<Row>, live: seq<Row>) {
    exists m :: Gone(policy, m, baseline, live) && policy.digest(m) == policy.shimDigest
  }

  /** No occurrence of the identity is missing. */
  ghost predicate Covers(checked: seq<Row>, baseline: seq<Row>, id: Identity) {
    Count(baseline, id) <= Count(checked, id)
  }

  /** The demand whose failing the verifier reports as `why`. */
  ghost predicate Meets(why: ProofFailure, policy: Policy, checked: seq<Row>, baseline: seq<Row>,
                        live: seq<Row>, isFile: string -> bool)
  {
    match why
    case InvalidState =>
      forall row :: row in checked ==> row.state in {Task5Closed, Task6Pending, Task7Pending}
    case OmitsFrozenRows => forall id :: Covers(checked, baseline, id)
    case CheckedAdditionsDrift => ExcessPinned(policy, checked, baseline, policy.additionsDigest)
    case LiveAdditionsDrift => ExcessPinned(policy, live, baseline, policy.additionsDigest)
    case UnclassifiedRow => forall id :: Count(baseline, id) > 0 ==> policy.classify(id).Some?
    case ShimTransitionsDrift => GonePinned(policy, baseline, live)
    case ShimSourceMissing =>
      forall id :: policy.classify(id) == Some(Task6Pending) && Count(baseline, id) > Count(live, id) ==>
        isFile(id.sourcePath)
    case ClosedRowStillLive =>
      forall row :: row in checked && row.state == Task5Closed ==> Count(live, IdentityOf(row)) == 0
    case WrongDisposition => forall row :: row in checked ==> Disposed(policy, baseline, row)
    case OldIdentityStillLive =>
      forall id :: Count(baseline, id) > 0 && Count(live, id) > 0 ==> policy.classify(id) == Some(Task6Pending)
  }

  /** A frozen row carries its classified state, any other row is pending for Task 6. */
  ghost predicate Disposed(policy: Policy, baseline: seq<Row>, row: Row) {
    if Count(baseline, IdentityOf(row)) > 0 then policy.classify(IdentityOf(row)) == Some(row.state)
    else row.state == Task6Pending
  }

  /** The order in which the demands are made. */
  function Turn(why: ProofFailure): nat {
    match why
    case InvalidState => 0
    case OmitsFrozenRows => 1
    case CheckedAdditionsDrift => 2
    case LiveAdditionsDrift => 3
    case UnclassifiedRow => 4
    case ShimTransitionsDrift => 5
    case ShimSourceMissing => 6
    case ClosedRowStillLive => 7
    case WrongDisposition => 8
    case OldIdentityStillLive => 9
  }

  // ----- Each check is its demand -----

  lemma StatesDemand(checked: seq<Row>)
    ensures StatesValid(checked) <==>
            forall row :: row in checked ==> row.state in {Task5Closed, Task6Pending, Task7Pending}
  {
    forall i | 0 <= i < |checked| ensures checked[i] in checked {}
  }

  lemma OmittedDemand(checked: seq<Row>, baseline: seq<Row>)
    ensures Identities(baseline) - Identities(checked) == multiset{} <==>
            forall id :: Covers(checked, baseline, id)
  {
    var m := Identities(baseline) - Identities(checked);
    forall id ensures m[id] == 0 <==> Covers(checked, baseline, id) {
      IdentitiesCount(baseline, id);
      IdentitiesCount(checked, id);
    }
    EmptyMultiset(m);
  }

  lemma EmptyMultiset<T>(m: multiset<T>)
    ensures m == multiset{} <==> forall x :: m[x] == 0
  {
    if forall x :: m[x] == 0 {
      forall x ensures x !in m { assert m[x] == 0; }
    }
  }

  lemma ExcessIs(a: seq<Row>, b: seq<Row>, m: multiset<Identity>)
    ensures Excess(m, a, b) <==> m == Identities(a) - Identities(b)
  {
    var d := Identities(a) - Identities(b);
    forall id ensures d[id] == if Count(a, id) > Count(b, id) then Count(a, id) - Count(b, id) else 0 {
      IdentitiesCount(a, id);
      IdentitiesCount(b, id);
    }
    if Excess(m, a, b) {
      assert forall id :: m[id] == d[id];
    }
  }

  lemma ExcessDemand(policy: Policy, a: seq<Row>, b: seq<Row>, pin: string)
    ensures policy.digest(Identities(a) - Identities(b)) == pin <==> ExcessPinned(policy, a, b, pin)
  {
    ExcessIs(a, b, Identities(a) - Identities(b));
    forall m | Excess(m, a, b) ensures m == Identities(a) - Identities(b) { ExcessIs(a, b, m); }
  }

  lemma ClassifiedDemand(policy: Policy, baseline: seq<Row>)
    ensures AllClassified(policy, baseline) <==>
            forall id :: Count(baseline, id) > 0 ==> policy.classify(id).Some?
  {
    forall id ensures Count(baseline, id) > 0 <==> exists i :: 0 <= i < |baseline| && IdentityOf(baseline[i]) == id {
      IdentityPresent(baseline, id);
    }
  }

  lemma ShimmedIs(policy: Policy, baseline: seq<Row>, live: seq<Row>, id: Identity)
    ensures Shimmed(policy, live, baseline)[id] ==
            if policy.classify(id) == Some(Task6Pending) && Count(baseline, id) > Count(live, id)
            then Count(baseline, id) - Count(live, id) else 0
  {
    FrozenTask6Count(policy, baseline, id);
    IdentitiesCount(live, id);
  }

  lemma ShimDemand(policy: Policy, baseline: seq<Row>, live: seq<Row>, isFile: string -> bool)
    ensures policy.digest(Shimmed(policy, live, baseline)) == policy.shimDigest <==> GonePinned(policy, baseline, live)
    ensures ShimsPresent(Shimmed(policy, live, baseline), isFile) <==>
            forall id :: policy.classify(id) == Some(Task6Pending) && Count(baseline, id) > Count(live, id) ==>
              isFile(id.sourcePath)
  {
    var shimmed := Shimmed(policy, live, baseline);
    forall id ensures shimmed[id] ==
      if policy.classify(id) == Some(Task6Pending) && Count(baseline, id) > Count(live, id)
      then Count(baseline, id) - Count(live, id) else 0
    {
      ShimmedIs(policy, baseline, live, id);
    }
    assert Gone(policy, shimmed, baseline, live);
    forall m | Gone(policy, m, baseline, live) ensures m == shimmed {
      assert forall id :: m[id] == shimmed[id];
    }
  }

  lemma GoneDemand(checked: seq<Row>, live: seq<Row>)
    ensures ClosedAreGone(checked, Identities(live)) <==>
            forall row :: row in checked && row.state == Task5Closed ==> Count(live, IdentityOf(row)) == 0
  {
    forall id ensures Identities(live)[id] == Count(live, id) { IdentitiesCount(live, id); }
    forall i | 0 <= i < |checked| ensures checked[i] in checked {}
  }

  lemma ExpectedDemand(policy: Policy, baseline: seq<Row>, row: Row)
    requires AllClassified(policy, baseline)
    ensures row.state == Expected(policy, baseline, IdentityOf(row)) <==> Disposed(policy, baseline, row)
  {
    ExpectedIs(policy, baseline, IdentityOf(row));
  }

  lemma DispositionDemand(policy: Policy, checked: seq<Row>, baseline: seq<Row>)
    requires AllClassified(policy, baseline)
    ensures DispositionsRight(policy, checked, baseline) <==>
            forall row :: row in checked ==> Disposed(policy, baseline, row)
  {
    forall i | 0 <= i < |checked|
      ensures checked[i] in checked
      ensures checked[i].state == Expected(policy, baseline, IdentityOf(checked[i])) <==>
              Disposed(policy, baseline, checked[i])
    {
      ExpectedDemand(policy, baseline, checked[i]);
    }
  }

  lemma OldDemand(policy: Policy, baseline: seq<Row>, live: seq<Row>)
    requires AllClassified(policy, baseline)
    ensures OldAreGone(policy, live, baseline) <==>
            forall id :: Count(baseline, id) > 0 && Count(live, id) > 0 ==> policy.classify(id) == Some(Task6Pending)
  {
    forall id
      ensures Count(live, id) > 0 <==> exists i :: 0 <= i < |live| && IdentityOf(live[i]) == id
      ensures Expected(policy, baseline, id) == Task6Pending <==>
              (Count(baseline, id) > 0 ==> policy.classify(id) == Some(Task6Pending))
    {
      IdentityPresent(live, id);
      ExpectedIs(policy, baseline, id);
    }
  }

  // ----- The verdict -----

  ghost predicate MeetsAll(policy: Policy, checked: seq<Row>, baseline: seq<Row>,
                           live: seq<Row>, isFile: string -> bool)
  {
    forall why :: Meets(why, policy, checked, baseline, live, isFile)
  }

  /** `why` is the first demand that fails. */
  ghost predicate FirstUnmet(why: ProofFailure, policy: Policy, checked: seq<Row>, baseline: seq<Row>,
                             live: seq<Row>, isFile: string -> bool)
  {
    && !Meets(why, policy, checked, baseline, live, isFile)
    && forall other :: Turn(other) < Turn(why) ==> Meets(other, policy, checked, baseline, live, isFile)
  }

  /** The demands one after the other; the first one not met decides. */
  ghost predicate Decides(meets: ProofFailure -> bool, r: Result<Summary, ProofFailure>) {
    && DecidesEarly(meets, r)
    && (EarlyMet(meets) ==> DecidesLate(meets, r))
  }

  ghost predicate DecidesEarly(meets: ProofFailure -> bool, r: Result<Summary, ProofFailure>) {
    if !meets(InvalidState) then r == Err(InvalidState)
    else if !meets(OmitsFrozenRows) then r == Err(OmitsFrozenRows)
    else if !meets(CheckedAdditionsDrift) then r == Err(CheckedAdditionsDrift)
    else if !meets(LiveAdditionsDrift) then r == Err(LiveAdditionsDrift)
    else if !meets(UnclassifiedRow) then r == Err(UnclassifiedRow)
    else true
  }

  ghost predicate EarlyMet(meets: ProofFailure -> bool) {
    && meets(InvalidState) && meets(OmitsFrozenRows) && meets(CheckedAdditionsDrift)
    && meets(LiveAdditionsDrift) && meets(UnclassifiedRow)
  }

  ghost predicate DecidesLate(meets: ProofFailure -> bool, r: Result<Summary, ProofFailure>) {
    if !meets(ShimTransitionsDrift) then r == Err(ShimTransitionsDrift)
    else if !meets(ShimSourceMissing) then r == Err(ShimSourceMissing)
    else if !meets(ClosedRowStillLive) then r == Err(ClosedRowStillLive)
    else if !meets(WrongDisposition) then r == Err(WrongDisposition)
    else if !meets(OldIdentityStillLive) then r == Err(OldIdentityStillLive)
    else r.Ok?
  }

  lemma FirstDecides(meets: ProofFailure -> bool, r: Result<Summary, ProofFailure>, why: ProofFailure)
    requires Decides(meets, r)
    ensures r.Ok? ==> meets(why)
    ensures r == Err(why) ==> !meets(why)
    ensures r.Err? && Turn(why) < Turn(r.error) ==> meets(why)
    ensures r.Err? ==> !meets(r.error)
  {
    match why {
      case InvalidState =>
      case OmitsFrozenRows =>
      case CheckedAdditionsDrift =>
      case LiveAdditionsDrift =>
      case UnclassifiedRow =>
      case ShimTransitionsDrift =>
      case ShimSourceMissing =>
      case ClosedRowStillLive =>
      case WrongDisposition =>
      case OldIdentityStillLive =>
    }
  }

  lemma TurnsDiffer(a: ProofFailure, b: ProofFailure)
    ensures Turn(a) == Turn(b) ==> a == b
  {}

  lemma FirstIsUnmet(meets: ProofFailure -> bool, r: Result<Summary, ProofFailure>)
    requires Decides(meets, r)
    ensures r.Ok? <==> forall why :: meets(why)
    ensures forall why :: r == Err(why) <==> !meets(why) && forall other :: Turn(other) < Turn(why) ==> meets(other)
  {
    forall why
      ensures r.Ok? ==> meets(why)
      ensures r.Err? && Turn(why) < Turn(r.error) ==> meets(why)
      ensures r.Err? ==> !meets(r.error)
    {
      FirstDecides(meets, r, why);
    }
    forall why ensures r == Err(why) <==> !meets(why) && forall other :: Turn(other) < Turn(why) ==> meets(other) {
      if r.Err? { TurnsDiffer(why, r.error); }
    }
  }

  ghost function Demanded(policy: Policy, checked: seq<Row>, baseline: seq<Row>, live: seq<Row>, isFile: string -> bool)
    : ProofFailure -> bool
  {
    why => Meets(why, policy, checked, baseline, live, isFile)
  }

  lemma Early(meets: ProofFailure -> bool, r: Result<Summary, ProofFailure>, rest: Result<Summary, ProofFailure>,
              states: bool, covered: bool, checked: bool, live: bool, classified: bool)
    requires meets(InvalidState) == states && meets(OmitsFrozenRows) == covered
    requires meets(CheckedAdditionsDrift) == checked && meets(LiveAdditionsDrift) == live
    requires meets(UnclassifiedRow) == classified
    requires r == if !states then Err(InvalidState)
                  else if !covered then Err(OmitsFrozenRows)
                  else if !checked then Err(CheckedAdditionsDrift)
                  else if !live then Err(LiveAdditionsDrift)
                  else if !classified then Err(UnclassifiedRow)
                  else rest
    ensures DecidesEarly(meets, r)
    ensures EarlyMet(meets) ==> classified && r == rest
  {}

  lemma StatesDemanded(policy: Policy, checked: seq<Row>, baseline: seq<Row>, live: seq<Row>, isFile: string -> bool)
    ensures Demanded(policy, checked, baseline, live, isFile)(InvalidState) <==>
            StatesValid(checked)
  {
    StatesDemand(checked);
  }

  lemma FrozenDemanded(policy: Policy, checked: seq<Row>, baseline: seq<Row>, live: seq<Row>, isFile: string -> bool)
    ensures Demanded(policy, checked, baseline, live, isFile)(OmitsFrozenRows) <==>
            Identities(baseline) - Identities(checked) == multiset{}
  {
    OmittedDemand(checked, baseline);
  }

  lemma CheckedDemanded(policy: Policy, checked: seq<Row>, baseline: seq<Row>, live: seq<Row>, isFile: string -> bool)
    ensures Demanded(policy, checked, baseline, live, isFile)(CheckedAdditionsDrift) <==>
            policy.digest(Identities(checked) - Identities(baseline)) == policy.additionsDigest
  {
    ExcessDemand(policy, checked, baseline, policy.additionsDigest);
  }

  lemma LiveDemanded(policy: Policy, checked: seq<Row>, baseline: seq<Row>, live: seq<Row>, isFile: string -> bool)
    ensures Demanded(policy, checked, baseline, live, isFile)(LiveAdditionsDrift) <==>
            policy.digest(Identities(live) - Identities(baseline)) == policy.additionsDigest
  {
    ExcessDemand(policy, live, baseline, policy.additionsDigest);
  }

  lemma ClassesDemanded(policy: Policy, checked: seq<Row>, baseline: seq<Row>, live: seq<Row>, isFile: string -> bool)
    ensures Demanded(policy, checked, baseline, live, isFile)(UnclassifiedRow) <==>
            AllClassified(policy, baseline)
  {
    ClassifiedDemand(policy, baseline);
  }

  lemma VerifyEarly(policy: Policy, checked: seq<Row>, baseline: seq<Row>, live: seq<Row>, isFile: string -> bool)
    ensures var meets, r := Demanded(policy, checked, baseline, live, isFile),
                            Verify(policy, checked, baseline, live, isFile);
            && DecidesEarly(meets, r)
            && (EarlyMet(meets) ==>
                  AllClassified(policy, baseline) && r == VerifyRows(policy, checked, baseline, live, isFile))
  {
    StatesDemanded(policy, checked, baseline, live, isFile);
    FrozenDemanded(policy, checked, baseline, live, isFile);
    CheckedDemanded(policy, checked, baseline, live, isFile);
    LiveDemanded(policy, checked, baseline, live, isFile);
    ClassesDemanded(policy, checked, baseline, live, isFile);
    var classified := AllClassified(policy, baseline);
    Early(Demanded(policy, checked, baseline, live, isFile), Verify(policy, checked, baseline, live, isFile),
          if classified then VerifyRows(policy, checked, baseline, live, isFile) else Err(UnclassifiedRow),
          StatesValid(checked), Identities(baseline) - Identities(checked) == multiset{},
          policy.digest(Identities(checked) - Identities(baseline)) == policy.additionsDigest,
          policy.digest(Identities(live) - Identities(baseline)) == policy.additionsDigest, classified);
  }

  lemma Late(meets: ProofFailure -> bool, r: Result<Summary, ProofFailure>,
             shims: bool, present: bool, gone: bool, right: bool, past: bool)
    requires meets(ShimTransitionsDrift) == shims && meets(ShimSourceMissing) == present
    requires meets(ClosedRowStillLive) == gone && meets(WrongDisposition) == right
    requires meets(OldIdentityStillLive) == past
    requires if !shims then r == Err(ShimTransitionsDrift)
             else if !present then r == Err(ShimSourceMissing)
             else if !gone then r == Err(ClosedRowStillLive)
             else if !right then r == Err(WrongDisposition)
             else if !past then r == Err(OldIdentityStillLive)
             else r.Ok?
    ensures DecidesLate(meets, r)
  {}

  lemma RowsDecide(policy: Policy, checked: seq<Row>, baseline: seq<Row>, live: seq<Row>, isFile: string -> bool)
    requires AllClassified(policy, baseline)
    ensures var r := VerifyRows(policy, checked, baseline, live, isFile);
            if policy.digest(Shimmed(policy, live, baseline)) != policy.shimDigest then r == Err(ShimTransitionsDrift)
            else if !ShimsPresent(Shimmed(policy, live, baseline), isFile) then r == Err(ShimSourceMissing)
            else if !ClosedAreGone(checked, Identities(live)) then r == Err(ClosedRowStillLive)
            else if !DispositionsRight(policy, checked, baseline) then r == Err(WrongDisposition)
            else if !OldAreGone(policy, live, baseline) then r == Err(OldIdentityStillLive)
            else r.Ok?
  {}

  lemma ShimsDemanded(policy: Policy, checked: seq<Row>, baseline: seq<Row>, live: seq<Row>, isFile: string -> bool)
    requires AllClassified(policy, baseline)
    ensures Demanded(policy, checked, baseline, live, isFile)(ShimTransitionsDrift) <==>
            policy.digest(Shimmed(policy, live, baseline)) == policy.shimDigest
  {
    ShimDemand(policy, baseline, live, isFile);
  }

  lemma SourcesDemanded(policy: Policy, checked: seq<Row>, baseline: seq<Row>, live: seq<Row>, isFile: string -> bool)
    requires AllClassified(policy, baseline)
    ensures Demanded(policy, checked, baseline, live, isFile)(ShimSourceMissing) <==>
            ShimsPresent(Shimmed(policy, live, baseline), isFile)
  {
    ShimDemand(policy, baseline, live, isFile);
  }

  lemma ClosedDemanded(policy: Policy, checked: seq<Row>, baseline: seq<Row>, live: seq<Row>, isFile: string -> bool)
    requires AllClassified(policy, baseline)
    ensures Demanded(policy, checked, baseline, live, isFile)(ClosedRowStillLive) <==>
            ClosedAreGone(checked, Identities(live))
  {
    GoneDemand(checked, live);
  }

  lemma DispositionsDemanded(policy: Policy, checked: seq<Row>, baseline: seq<Row>, live: seq<Row>,
                             isFile: string -> bool)
    requires AllClassified(policy, baseline)
    ensures Demanded(policy, checked, baseline, live, isFile)(WrongDisposition) <==>
            DispositionsRight(policy, checked, baseline)
  {
    DispositionDemand(policy, checked, baseline);
  }

  lemma OldDemanded(policy: Policy, checked: seq<Row>, baseline: seq<Row>, live: seq<Row>, isFile: string -> bool)
    requires AllClassified(policy, baseline)
    ensures Demanded(policy, checked, baseline, live, isFile)(OldIdentityStillLive) <==>
            OldAreGone(policy, live, baseline)
  {
    OldDemand(policy, baseline, live);
  }

  lemma VerifyLate(policy: Policy, checked: seq<Row>, baseline: seq<Row>, live: seq<Row>, isFile: string -> bool)
    requires AllClassified(policy, baseline)
    ensures DecidesLate(Demanded(policy, checked, baseline, live, isFile),
                        VerifyRows(policy, checked, baseline, live, isFile))
  {
    RowsDecide(policy, checked, baseline, live, isFile);
    ShimsDemanded(policy, checked, baseline, live, isFile);
    SourcesDemanded(policy, checked, baseline, live, isFile);
    ClosedDemanded(policy, checked, baseline, live, isFile);
    DispositionsDemanded(policy, checked, baseline, live, isFile);
    OldDemanded(policy, checked, baseline, live, isFile);
    Late(Demanded(policy, checked, baseline, live, isFile), VerifyRows(policy, checked, baseline, live, isFile),
         policy.digest(Shimmed(policy, live, baseline)) == policy.shimDigest,
         ShimsPresent(Shimmed(policy, live, baseline), isFile), ClosedAreGone(checked, Identities(live)),
         DispositionsRight(policy, checked, baseline), OldAreGone(policy, live, baseline));
  }

  lemma VerifyDecides(policy: Policy, checked: seq<Row>, baseline: seq<Row>, live: seq<Row>, isFile: string -> bool)
    ensures Decides(Demanded(policy, checked, baseline, live, isFile), Verify(policy, checked, baseline, live, isFile))
  {
    VerifyEarly(policy, checked, baseline, live, isFile);
    if EarlyMet(Demanded(policy, checked, baseline, live, isFile)) {
      VerifyLate(policy, checked, baseline, live, isFile);
    }
  }

  /**
   For every ledger: the verifier accepts it if and only if all demands are met, and fails
   with the first one, in the order of the script, that is not.
   */
  lemma VerifiesExactly(policy: Policy, checked: seq<Row>, baseline: seq<Row>, live: seq<Row>, isFile: string -> bool)
    ensures var r := Verify(policy, checked, baseline, live, isFile);
            && (r.Ok? <==> MeetsAll(policy, checked, baseline, live, isFile))
            && forall why :: r == Err(why) <==> FirstUnmet(why, policy, checked, baseline, live, isFile)
  {
    VerifyDecides(policy, checked, baseline, live, isFile);
    var meets, r := Demanded(policy, checked, baseline, live, isFile), Verify(policy, checked, baseline, live, isFile);
    FirstIsUnmet(meets, r);
    forall why ensures meets(why) <==> Meets(why, policy, checked, baseline, live, isFile) {}
    VerdictFrom(meets, r, policy, checked, baseline, live, isFile);
  }

  lemma VerdictFrom(meets: ProofFailure -> bool, r: Result<Summary, ProofFailure>, policy: Policy,
                    checked: seq<Row>, baseline: seq<Row>, live: seq<Row>, isFile: string -> bool)
    requires r.Ok? <==> forall why :: meets(why)
    requires forall why :: r == Err(why) <==> !meets(why) && forall other :: Turn(other) < Turn(why) ==> meets(other)
    requires forall why :: meets(why) <==> Meets(why, policy, checked, baseline, live, isFile)
    ensures r.Ok? <==> MeetsAll(policy, checked, baseline, live, isFile)
    ensures forall why :: r == Err(why) <==> FirstUnmet(why, policy, checked, baseline, live, isFile)
  {}

  lemma AcceptedMeets(why: ProofFailure, policy: Policy, checked: seq<Row>, baseline: seq<Row>, live: seq<Row>,
                      isFile: string -> bool)
    requires Verify(policy, checked, baseline, live, isFile).Ok?
    ensures Meets(why, policy, checked, baseline, live, isFile)
  {
    VerifiesExactly(policy, checked, baseline, live, isFile);
  }

  lemma AcceptedDisposed(policy: Policy, checked: seq<Row>, baseline: seq<Row>, live: seq<Row>,
                         isFile: string -> bool, row: Row)
    requires Verify(policy, checked, baseline, live, isFile).Ok? && row in checked
    ensures Disposed(policy, baseline, row)
  {
    AcceptedMeets(WrongDisposition, policy, checked, baseline, live, isFile);
  }

  lemma AcceptedState(policy: Policy, checked: seq<Row>, baseline: seq<Row>, live: seq<Row>,
                      isFile: string -> bool, row: Row)
    requires Verify(policy, checked, baseline, live, isFile).Ok? && row in checked
    ensures row.state in {Task5Closed, Task6Pending, Task7Pending}
  {
    AcceptedMeets(InvalidState, policy, checked, baseline, live, isFile);
  }

  // ----- The three numbers -----

  function States(rows: seq<Row>): (r: seq<State>)
    ensures |r| == |rows| && forall i :: 0 <= i < |rows| ==> r[i] == rows[i].state
  {
    seq(|rows|, i requires 0 <= i < |rows| => rows[i].state)
  }

  lemma {:induction false} StateCountIs(rows: seq<Row>, state: State)
    ensures StateCount(rows, state) == multiset(States(rows))[state]
  {
    if rows != [] {
      StateCountIs(rows[1..], state);
      assert States(rows) == [rows[0].state] + States(rows[1..]);
    }
  }

  lemma {:induction false} OneOfThree(states: seq<State>)
    requires forall i :: 0 <= i < |states| ==> states[i] in {Task5Closed, Task6Pending, Task7Pending}
    ensures multiset(states)[Task5Closed] + multiset(states)[Task6Pending] + multiset(states)[Task7Pending] == |states|
  {
    if states != [] {
      OneOfThree(states[1..]);
      assert states == [states[0]] + states[1..];
    }
  }

  lemma SummaryIs(policy: Policy, checked: seq<Row>, baseline: seq<Row>, live: seq<Row>, isFile: string -> bool)
    requires Verify(policy, checked, baseline, live, isFile).Ok?
    ensures Verify(policy, checked, baseline, live, isFile).value ==
            Summary(StateCount(checked, Task5Closed), StateCount(checked, Task6Pending),
                    StateCount(checked, Task7Pending))
    ensures StatesValid(checked)
  {
    RowsSummary(policy, checked, baseline, live, isFile);
  }

  lemma RowsSummary(policy: Policy, checked: seq<Row>, baseline: seq<Row>, live: seq<Row>, isFile: string -> bool)
    requires AllClassified(policy, baseline) && VerifyRows(policy, checked, baseline, live, isFile).Ok?
    ensures VerifyRows(policy, checked, baseline, live, isFile).value ==
            Summary(StateCount(checked, Task5Closed), StateCount(checked, Task6Pending),
                    StateCount(checked, Task7Pending))
  {}

  /** The summary counts the rows of each state, and together they are all rows. */
  lemma SummaryCounts(policy: Policy, checked: seq<Row>, baseline: seq<Row>, live: seq<Row>, isFile: string -> bool)
    requires Verify(policy, checked, baseline, live, isFile).Ok?
    ensures var summary, states := Verify(policy, checked, baseline, live, isFile).value, multiset(States(checked));
            && summary.closed == states[Task5Closed]
            && summary.task6 == states[Task6Pending]
            && summary.task7 == states[Task7Pending]
            && summary.closed + summary.task6 + summary.task7 == |checked|
  {
    SummaryIs(policy, checked, baseline, live, isFile);
    StateCountIs(checked, Task5Closed);
    StateCountIs(checked, Task6Pending);
    StateCountIs(checked, Task7Pending);
    OneOfThree(States(checked));
  }
}
