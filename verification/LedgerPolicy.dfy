/**
 The path tables behind the ledger policy (`classify_frozen_task5_row`,
 `DRUID_TASK6_COMPAT_PATHS` and the approval test of the emitter,
 scripts/verify_druid_single_standard.py).

 Emitter and verifier are modelled for any classification and any approval. Here both are
 the scripts' own: the state of a frozen row follows from the crate and directory of its
 source path, and a live row without a frozen counterpart is approved in `core/compat/` and
 in the listed compatibility files. The two tables do not agree everywhere. A listed file
 is pending for Task 6 and approved, so its rows never conflict; a file in `core/compat/`
 is approved but closed by Task 5, so a row there that is frozen and still live passes the
 emitter and fails the verifier. Everything else that is frozen, closed and live is already
 stopped by the emitter as an addition that is not approved. The exact condition under
 which a written ledger passes is therefore about `core/compat/` alone, next to the carried
 rows and the shim sources.
 */
module LedgerPolicy {
  import opened Outcome
  import opened Ledger
  import opened LedgerEmitter
  import opened LedgerVerifier
  import opened LedgerVerdict

  const CRATES: string := "crates/druid"
  const DRUID: string := CRATES + "/"
  const WRAPPER: string := CRATES + "-wrapper/"
  const RESOURCE: string := CRATES + "-rdbc/src/resource/"
  const SPI_RDBC: string := CRATES + "-rdbc/src/spi/"
  const CORE: string := DRUID + "src/core/"
  const SPI: string := DRUID + "src/spi/"
  const COMPAT: string := CORE + "compat/"
  const CAPABILITIES: string := "druid_rdbc::" + "resource::" + "RdbcResource" + "Capabilities"

  predicate IsCompatFile(path: string) {
    || path == CORE + "mod.rs"
    || path == CORE + "physical_" + "connection_info.rs"
    || path == CORE + "prepared_" + "statement_key.rs"
    || path == SPI + "mod.rs"
    || (SPI + "rdbc_resource_" <= path && IsSpiResource(path[|SPI + "rdbc_resource_"|..]))
  }

  predicate IsSpiResource(name: string) {
    name in ["capabilities.rs", "context.rs", "factory.rs", "id.rs", "kind.rs", "owner.rs", "state.rs"]
  }

  function Classify(id: Identity): Option<State> {
    if RESOURCE <= id.sourcePath then
      if id.oldPath == CAPABILITIES then Some(Task7Pending) else Some(Task5Closed)
    else if SPI_RDBC <= id.sourcePath then Some(Task6Pending)
    else if WRAPPER <= id.sourcePath then Some(Task6Pending)
    else if DRUID <= id.sourcePath then
      if IsCompatFile(id.sourcePath) then Some(Task6Pending) else Some(Task5Closed)
    else None
  }

  predicate Approved(id: Identity) {
    COMPAT <= id.sourcePath || IsCompatFile(id.sourcePath)
  }

  /** A policy with the scripts' tables, for any digest function and any pinned digests. */
  ghost predicate ScriptTables(policy: Policy) {
    policy.classify == Classify && policy.approved == Approved
  }

  lemma PrefixOf(a: string, b: string, path: string)
    requires a + b <= path
    ensures a <= path
  {}

  lemma ApprovedIsDruid(id: Identity)
    requires Approved(id)
    ensures DRUID <= id.sourcePath
  {
    var path := id.sourcePath;
    assert SPI == DRUID + "src/spi/" && CORE == DRUID + "src/core/";
    if COMPAT <= path {
      PrefixOf(CORE, "compat/", path);
      PrefixOf(DRUID, "src/core/", path);
    } else if CORE <= path {
      PrefixOf(DRUID, "src/core/", path);
    } else {
      assert SPI <= path;
      PrefixOf(DRUID, "src/spi/", path);
    }
  }

  lemma ResourceIsNotDruid(path: string)
    requires RESOURCE <= path
    ensures !(DRUID <= path)
  {
    var n := |CRATES|;
    assert RESOURCE[n] == '-' && DRUID[n] == '/';
    assert path[n] == RESOURCE[n];
  }

  lemma ScriptTablesValid(policy: Policy)
    requires ScriptTables(policy)
    ensures ValidPolicy(policy)
  {
    forall id ensures policy.classify(id) == Classify(id) {}
  }

  /** The path `core/compat/` is approved, and closed by Task 5. */
  lemma CompatIsClosed(id: Identity)
    requires COMPAT <= id.sourcePath
    ensures Approved(id) && Classify(id) == Some(Task5Closed)
  {
    ApprovedIsDruid(id);
    NotOtherPrefixes(id.sourcePath);
    CompatDirIsNoFile(id.sourcePath);
  }

  /** With the scripts' tables, only a frozen row under `core/compat/` can conflict with a live one. */
  lemma ConflictsAreCompat(policy: Policy, live: seq<Row>, baseline: seq<Row>, id: Identity)
    requires ScriptTables(policy) && Emittable(policy, live, baseline)
    requires Count(baseline, id) > 0 && Count(live, id) > 0
    ensures Classify(id) != Some(Task6Pending) <==> COMPAT <= id.sourcePath
  {
    if COMPAT <= id.sourcePath {
      CompatIsClosed(id);
    } else if Classify(id) != Some(Task6Pending) {
      assert LeftOver(policy, id, Count(live, id), Count(baseline, id)) > 0;
      assert policy.approved(id);
      ApprovedIsDruid(id);
      if RESOURCE <= id.sourcePath { ResourceIsNotDruid(id.sourcePath); }
    }
  }

  /** No row under `core/compat/` is both frozen and live. */
  ghost predicate CompatGone(live: seq<Row>, baseline: seq<Row>) {
    forall id :: Count(baseline, id) > 0 && COMPAT <= id.sourcePath ==> Count(live, id) == 0
  }

  lemma ConflictExactly(policy: Policy, live: seq<Row>, baseline: seq<Row>)
    requires ScriptTables(policy) && Emittable(policy, live, baseline)
    ensures NoConflict(policy, live, baseline) <==> CompatGone(live, baseline)
  {
    forall id | Count(baseline, id) > 0 && Count(live, id) > 0
      ensures Classify(id) != Some(Task6Pending) <==> COMPAT <= id.sourcePath
    {
      ConflictsAreCompat(policy, live, baseline, id);
    }
  }

  /**
   With the scripts' tables, the verifier accepts what the emitter wrote exactly when no
   carried-over closed row is a Task 5 row, no frozen row under `core/compat/` is still
   live, and the shim sources exist.
   */
  lemma ScriptLedgerAccepted(policy: Policy, current: seq<Row>, scanned: seq<Row>, baselineRows: seq<Row>,
                             frozen: seq<Row>, additions: seq<Row>, rows: seq<Row>, isFile: string -> bool)
    requires ScriptTables(policy) && IsEmitted(policy, current, scanned, baselineRows, frozen, additions, rows)
    ensures var live, baseline := Task5Rows(scanned), Task5Rows(baselineRows);
            Verify(policy, Task5Rows(rows), baseline, live, isFile).Ok? <==>
            && NothingCarried(current)
            && CompatGone(live, baseline)
            && ShimsPresent(Shimmed(policy, live, baseline), isFile)
  {
    ConflictExactly(policy, Task5Rows(scanned), Task5Rows(baselineRows));
    ScriptTablesValid(policy);
    VerifierAcceptsEmitter(policy, current, scanned, baselineRows, frozen, additions, rows, isFile);
  }

  lemma {:induction false} CountOne(rows: seq<Row>, row: Row, id: Identity)
    ensures Count(rows + [row], id) == Count(rows, id) + if IdentityOf(row) == id then 1 else 0
  {
    CountAppend(rows, [row], id);
    assert [row][1..] == [];
  }

  lemma {:induction false} IdentitiesOne(rows: seq<Row>, row: Row)
    ensures Identities(rows + [row]) == Identities(rows) + multiset{IdentityOf(row)}
  {
    forall id ensures Identities(rows + [row])[id] == (Identities(rows) + multiset{IdentityOf(row)})[id] {
      CountOne(rows, row, id);
      IdentitiesCount(rows, id);
      IdentitiesCount(rows + [row], id);
    }
  }

  lemma {:induction false} FrozenOne(policy: Policy, rows: seq<Row>, row: Row)
    requires policy.classify(IdentityOf(row)) != Some(Task6Pending)
    ensures FrozenTask6(policy, rows + [row]) == FrozenTask6(policy, rows)
  {
    forall id ensures FrozenTask6(policy, rows + [row])[id] == FrozenTask6(policy, rows)[id] {
      CountOne(rows, row, id);
      FrozenTask6Count(policy, rows, id);
      FrozenTask6Count(policy, rows + [row], id);
    }
  }

  /** A row past Task 6, added on both sides, changes neither the additions nor the shims. */
  lemma SameDifferences(policy: Policy, live: seq<Row>, baseline: seq<Row>, row: Row)
    requires policy.classify(IdentityOf(row)) != Some(Task6Pending)
    ensures Identities(live + [row]) - Identities(baseline + [row]) == Identities(live) - Identities(baseline)
    ensures FrozenTask6(policy, baseline + [row]) - Identities(live + [row]) ==
            FrozenTask6(policy, baseline) - Identities(live)
  {
    IdentitiesOne(live, row);
    IdentitiesOne(baseline, row);
    FrozenOne(policy, baseline, row);
    FrozenTask6Count(policy, baseline, IdentityOf(row));
    OneMore(Identities(live), Identities(baseline), FrozenTask6(policy, baseline), IdentityOf(row));
  }

  lemma OneMore<T>(a: multiset<T>, b: multiset<T>, c: multiset<T>, x: T)
    requires c[x] == 0
    ensures (a + multiset{x}) - (b + multiset{x}) == a - b
    ensures c - (a + multiset{x}) == c - a
  {}

  /**
   Whatever the pins are: when a ledger can be emitted, it can still be emitted with a
   further row under `core/compat/` that is frozen and live, and then the verifier rejects
   every ledger.
   */
  lemma CompatConflictExists(policy: Policy, live: seq<Row>, baseline: seq<Row>, row: Row,
                             checked: seq<Row>, isFile: string -> bool)
    requires ScriptTables(policy) && Emittable(policy, live, baseline)
    requires row.targetTask.Task5? && COMPAT <= row.sourcePath
    ensures Emittable(policy, live + [row], baseline + [row])
    ensures Verify(policy, checked, baseline + [row], live + [row], isFile).Err?
  {
    var id := IdentityOf(row);
    CompatIsClosed(id);
    SameDifferences(policy, live, baseline, row);
    assert AllClassified(policy, baseline + [row]);
    forall x ensures
      LeftOver(policy, x, Count(live + [row], x), Count(baseline + [row], x)) > 0 ==> policy.approved(x)
    {
      CountOne(live, row, x);
      CountOne(baseline, row, x);
    }
    CountOne(live, row, id);
    CountOne(baseline, row, id);
    ConflictFails(policy, checked, baseline + [row], live + [row], isFile, id);
  }

  /** Frozen in the RDBC provider, the wrapper or a listed compatibility file. */
  ghost predicate WaitsForTask6(path: string) {
    SPI_RDBC <= path || WRAPPER <= path || IsCompatFile(path)
  }

  /** Frozen for the operations of the resource layer. */
  ghost predicate WaitsForTask7(id: Identity) {
    RESOURCE <= id.sourcePath && id.oldPath == CAPABILITIES
  }

  /**
   With the scripts' tables, the state of each row of an accepted ledger follows from its
   path: pending for Task 6 when it is not frozen or waits there, pending for Task 7 when it
   is a frozen capability of the resource layer, and closed otherwise.
   */
  lemma AcceptedStates(policy: Policy, checked: seq<Row>, baseline: seq<Row>, live: seq<Row>,
                       isFile: string -> bool, row: Row)
    requires ScriptTables(policy) && Verify(policy, checked, baseline, live, isFile).Ok? && row in checked
    ensures var id := IdentityOf(row);
            var frozen := Count(baseline, id) > 0;
            && (row.state == Task6Pending <==> !frozen || WaitsForTask6(row.sourcePath))
            && (row.state == Task7Pending <==> frozen && WaitsForTask7(id))
            && (row.state == Task5Closed <==> frozen && !WaitsForTask6(row.sourcePath) && !WaitsForTask7(id))
  {
    AcceptedDisposed(policy, checked, baseline, live, isFile, row);
    AcceptedState(policy, checked, baseline, live, isFile, row);
    ClassByPath(IdentityOf(row));
  }

  lemma ClassByPath(id: Identity)
    ensures Classify(id) == Some(Task7Pending) <==> WaitsForTask7(id)
    ensures Classify(id) == Some(Task6Pending) <==> WaitsForTask6(id.sourcePath)
  {
    var path := id.sourcePath;
    if IsCompatFile(path) {
      ApprovedIsDruid(id);
      NotOtherPrefixes(path);
    }
    if RESOURCE <= path { ResourceAlone(path); }
  }

  lemma ResourceAlone(path: string)
    requires RESOURCE <= path
    ensures !(SPI_RDBC <= path) && !(WRAPPER <= path)
  {
    var n, m := |CRATES|, |CRATES + "-rdbc/src/"|;
    assert RESOURCE[n + 1] == 'r' && WRAPPER[n + 1] == 'w' && path[n + 1] == 'r';
    assert RESOURCE[m] == 'r' && SPI_RDBC[m] == 's' && path[m] == 'r';
  }

  lemma NotOtherPrefixes(path: string)
    requires DRUID <= path
    ensures !(RESOURCE <= path) && !(SPI_RDBC <= path) && !(WRAPPER <= path)
  {
    var n := |CRATES|;
    assert DRUID[n] == '/' && RESOURCE[n] == '-' && SPI_RDBC[n] == '-' && WRAPPER[n] == '-';
    assert path[n] == '/';
  }

  lemma CompatDirIsNoFile(path: string)
    requires COMPAT <= path
    ensures !IsCompatFile(path)
  {
    var n := |CORE|;
    assert path[n] == 'c';
    assert (CORE + "mod.rs")[n] == 'm';
    assert (CORE + "physical_")[n] == 'p' && (CORE + "prepared_")[n] == 'p';
    var m := |DRUID + "src/"|;
    assert path[m] == 'c';
    assert SPI[m] == 's';
  }
}
