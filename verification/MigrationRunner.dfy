/** The runner's own methods on one connection, statement by statement. */
module MigrationRunner {
  import opened Primitives
  import opened Text
  import opened Sorting
  import opened Migrations

  class Connection {
    var hasLedger: bool
    var ledger: seq<LedgerRow>
    var installed: set<Text>
    var userVersion: int
    var violations: bool
    var historyIndex: bool
    var foreignKeys: bool

    function Contents(): (db: Db)
      reads this
    {
      Db(hasLedger, ledger, installed, userVersion, violations, historyIndex)
    }

    constructor (db: Db)
      ensures Contents() == db
    {
      hasLedger, ledger, installed := db.hasLedger, db.ledger, db.installed;
      userVersion, violations, historyIndex := db.userVersion, db.violations, db.historyIndex;
      foreignKeys := false;
    }

    /** The recorded migrations by id, or None where the ledger is refused. */
    method ValidatedLedgerById(c: Catalog) returns (recorded: Option<map<Text, LedgerRow>>)
      ensures recorded.Some? <==> Validates(c, ledger, Contents())
      ensures recorded.Some? ==> forall id :: id in recorded.value <==> IsRecorded(ledger, id)
    {
      hide Matches, KnownById;
      if userVersion > c.supportedVersion {
        return None;
      }
      var result: map<Text, LedgerRow> := map[];
      var i := 0;
      while i < |ledger|
        invariant i <= |ledger| && (forall j | 0 <= j < i :: RowOk(c, ledger[j], installed))
        invariant forall id :: id in result <==> IsRecorded(ledger[..i], id)
      {
        if !RowOk(c, ledger[i], installed) {
          return None;
        }
        RecordedOneMore(ledger, i);
        result := result[ledger[i].id := ledger[i]];
        i := i + 1;
      }
      assert ledger[..i] == ledger;
      var gapFree := RecordsGapFree(c, result);
      return if gapFree then Some(result) else None;
    }

    /** Whether no recorded migration comes after one that is not recorded. */
    method RecordsGapFree(c: Catalog, recorded: map<Text, LedgerRow>) returns (ok: bool)
      requires forall id :: id in recorded <==> IsRecorded(ledger, id)
      ensures ok == GapFree(c, ledger)
    {
      hide IsRecorded;
      var gapSeen := false;
      var i := 0;
      while i < |c.migrations|
        invariant i <= |c.migrations|
        invariant gapSeen <==> exists j | 0 <= j < i :: !IsRecorded(ledger, c.migrations[j].id)
        invariant forall j, k | 0 <= j < k < i
            && IsRecorded(ledger, c.migrations[k].id) :: IsRecorded(ledger, c.migrations[j].id)
      {
        var isRecorded := c.migrations[i].id in recorded;
        if !isRecorded {
          gapSeen := true;
        }
        if isRecorded && gapSeen {
          return false;
        }
        i := i + 1;
      }
      return true;
    }

    predicate AssertForeignKeys()
      reads this
    {
      ForeignKeysHold(Contents(), foreignKeys)
    }

    /** Inserts the row in order of its primary key; false where a unique key refuses it. */
    method RecordMigration(c: Catalog, m: Migration, kind: Kind) returns (ok: bool)
      modifies this
      ensures foreignKeys == old(foreignKeys)
      ensures forall report ::
          Record(c, old(Contents()), m, kind, report) == Outcome(Contents(), if ok then Some(report) else None)
    {
      ok := hasLedger && !(exists row | row in ledger :: row.sequence == m.sequence || row.id == m.id);
      if ok {
        ledger := Insert(RowFor(c, m, kind), ledger, EarlierSequence);
      }
    }

    method AdoptMigration(c: Catalog, m: Migration) returns (report: Option<Action>)
      modifies this
      ensures foreignKeys == old(foreignKeys)
      ensures Outcome(Contents(), report) == AdoptTransaction(c, old(Contents()), foreignKeys, m)
    {
      hide Validates, Record, IsRecorded;
      var recorded := ValidatedLedgerById(c);
      if recorded == None {
        return None;
      }
      if m.id in recorded.value {
        return Some(Unchanged);
      }
      if m.id !in installed || !AssertForeignKeys() {
        return None;
      }
      var ok := RecordMigration(c, m, AdoptedKind);
      return if ok then Some(DidAdopt) else None;
    }

    method Execute(e: Effect)
      modifies this
      ensures Contents() == Applied(old(Contents()), e) && foreignKeys == old(foreignKeys)
    {
      installed := installed + e.installs;
      userVersion, violations, historyIndex := e.userVersion, e.violations, historyIndex || e.historyIndex;
    }

    method Rollback(before: Db)
      modifies this
      ensures Contents() == before && foreignKeys == old(foreignKeys)
    {
      hasLedger, ledger, installed := before.hasLedger, before.ledger, before.installed;
      userVersion, violations, historyIndex := before.userVersion, before.violations, before.historyIndex;
    }

    /** `e` is what the migration's statements do. */
    method ApplyTransactionalMigration(c: Catalog, m: Migration, e: Effect) returns (report: Option<Action>)
      modifies this
      ensures foreignKeys == old(foreignKeys)
      ensures Outcome(Contents(), report) == ApplyTransaction(c, old(Contents()), foreignKeys, m, e)
    {
      hide Validates, Record, IsRecorded;
      var before := Contents();
      var recorded := ValidatedLedgerById(c);
      if recorded == None {
        return None;
      }
      if m.id in recorded.value {
        return Some(Unchanged);
      }
      var ok;
      if m.id in installed {
        if !AssertForeignKeys() {
          return None;
        }
        ok := RecordMigration(c, m, AdoptedKind);
        return if ok then Some(DidAdopt) else None;
      }
      Execute(e);
      if e.fails || m.id !in installed || !AssertForeignKeys() {
        Rollback(before);
        return None;
      }
      ok := RecordMigration(c, m, AppliedKind);
      if !ok {
        Rollback(before);
        return None;
      }
      return Some(DidApply);
    }

    /** Rebuilds the requirement table unless its index is there, with enforcement off only meanwhile. */
    method MigrateCoverageRequirementsForHistory(e: Effect) returns (ok: bool)
      modifies this
      ensures old(historyIndex) ==> ok && Contents() == old(Contents()) && foreignKeys == old(foreignKeys)
      ensures !old(historyIndex) ==>
        foreignKeys && Contents() == RebuildTransaction(old(Contents()), e).db
            && ok == RebuildTransaction(old(Contents()), e).report.Some?
    {
      if historyIndex {
        return true;
      }
      foreignKeys := false;
      var before := Contents();
      Execute(e);
      ok := !e.fails && !violations;
      if !ok {
        Rollback(before);
      }
      foreignKeys := true;
    }

    /** `ensureApiSchema`, then the record in a transaction of its own. */
    method ApplyNonTransactionalMigration(c: Catalog, m: Migration, rebuild: Effect, additive: Effect)
        returns (report: Option<Action>)
      modifies this
      ensures old(foreignKeys) ==> foreignKeys
      ensures report.Some? ==>
          m.id in installed
            && Outcome(Contents(), report) == RecordTransaction(c, Contents().(ledger := old(ledger)), m)
      ensures report == None ==> ledger == old(ledger)
      ensures old(installed) <= installed && hasLedger == old(hasLedger)
    {
      hide Validates, Record, IsRecorded;
      var rebuilt := MigrateCoverageRequirementsForHistory(rebuild);
      if !rebuilt {
        return None;
      }
      Execute(additive);
      if additive.fails || m.id !in installed || !AssertForeignKeys() {
        return None;
      }
      ghost var start := Contents();
      var recorded := ValidatedLedgerById(c);
      if recorded == None {
        return None;
      }
      if m.id in recorded.value {
        return Some(Unchanged);
      }
      var ok := RecordMigration(c, m, AppliedKind);
      RecordKeepsRest(c, start, m, AppliedKind, DidApply);
      return if ok then Some(DidApply) else None;
    }

    /** Plans migration k and carries the plan out; None where the source throws. */
    method MigrateOne(c: Catalog, k: nat, effects: (Effect, Effect)) returns (report: Option<Action>)
      requires Sound(c) && LedgerSound(c, Contents()) && k < |c.migrations| && k <= |ledger| && foreignKeys && hasLedger
      modifies this
      ensures foreignKeys && LedgerSound(c, Contents()) && Grows(old(Contents()), Contents())
      ensures k < old(|ledger|) ==>
          Contents() == old(Contents()) && (report == None ==> userVersion > c.supportedVersion)
      ensures report.Some? ==> (report == Some(Unchanged) <==> k < old(|ledger|))
      ensures report.Some? && k == old(|ledger|) ==> |ledger| == k + 1
    {
      hide Validates, LedgerSound, IsRecorded, AdoptTransaction, ApplyTransaction, RecordTransaction;
      var m := c.migrations[k];
      ghost var start := Contents();
      ValidWhenSound(c, start);
      PrefixIsRecorded(c, start, k);
      var recorded := ValidatedLedgerById(c);
      if recorded == None {
        return None;
      }
      if m.id in recorded.value {
        return Some(Unchanged);
      }
      TransactionsSound(c, start, true, k, effects.0);
      NotUnchanged(c, start, true, m, effects.0);
      if m.id in installed {
        report := AdoptMigration(c, m);
      } else if m.transactional {
        report := ApplyTransactionalMigration(c, m, effects.0);
      } else {
        report := ApplyNonTransactionalMigration(c, m, effects.0, effects.1);
        NonTransactionalSound(c, start, Contents(), k, report);
      }
    }

    /** Every migration in order; None where the source throws. `effects` holds, for each migration, what its
        statements do. */
    method MigrateDatabase(c: Catalog, effects: seq<(Effect, Effect)>) returns (reports: Option<seq<Action>>)
      requires Sound(c) && LedgerSound(c, Contents()) && |effects| == |c.migrations|
      modifies this
      ensures foreignKeys && LedgerSound(c, Contents()) && Grows(old(Contents()), Contents())
      ensures reports.Some? ==> |ledger| == |c.migrations| == |reports.value| && !violations
      ensures reports.Some? ==> forall k | 0 <= k < |c.migrations| :: reports.value[k] == Unchanged <==>
          k < |old(ledger)|
      ensures old(|ledger| == |c.migrations| && userVersion <= c.supportedVersion && !violations) ==>
        reports.Some? && Contents() == CreateLedger(old(Contents()))
    {
      hide Validates, LedgerSound, IsRecorded;
      ghost var before := Contents();
      foreignKeys := true;
      if userVersion > c.supportedVersion {
        return None;
      }
      hasLedger := true;
      GrowthKeepsLedger(c, before, Contents());
      LedgerBounded(c, before);
      var results: seq<Action> := [];
      var k := 0;
      while k < |c.migrations|
        invariant k == |results| <= |c.migrations| && k <= |ledger| && foreignKeys && hasLedger
        invariant LedgerSound(c, Contents()) && Grows(before, Contents())
        invariant |ledger| == if k < |before.ledger| then |before.ledger| else k
        invariant forall j | 0 <= j < k :: results[j] == Unchanged <==> j < |before.ledger|
        invariant k <= |before.ledger| ==> Contents() == CreateLedger(before)
      {
        var report := MigrateOne(c, k, effects[k]);
        if report == None {
          return None;
        }
        results := results + [report.value];
        k := k + 1;
      }
      ValidWhenSound(c, Contents());
      AllRecorded(c, Contents());
      if !AssertForeignKeys() {
        return None;
      }
      var recorded := ValidatedLedgerById(c);
      if recorded == None || exists i | 0 <= i < |c.migrations| :: c.migrations[i].id !in recorded.value {
        return None;
      }
      return Some(results);
    }
  }

  lemma NotUnchanged(c: Catalog, db: Db, foreignKeys: bool, m: Migration, e: Effect)
    requires !IsRecorded(db.ledger, m.id)
    ensures AdoptTransaction(c, db, foreignKeys, m).report != Some(Unchanged)
    ensures ApplyTransaction(c, db, foreignKeys, m, e).report != Some(Unchanged)
  {
    hide Validates, IsRecorded;
  }

  lemma RecordedOneMore(rows: seq<LedgerRow>, i: nat)
    requires i < |rows|
    ensures forall id :: IsRecorded(rows[..i + 1], id) <==> IsRecorded(rows[..i], id) || id == rows[i].id
  {
    assert rows[..i + 1][i] == rows[i];
    forall id | IsRecorded(rows[..i], id) ensures IsRecorded(rows[..i + 1], id) {
      var j :| 0 <= j < i && rows[..i][j].id == id;
      assert rows[..i + 1][j].id == id;
    }
  }

  lemma RecordKeepsRest(c: Catalog, db: Db, m: Migration, kind: Kind, report: Action)
    ensures var o := Record(c, db, m, kind, report);
        o.db.(ledger := db.ledger) == db
          && (o.report == None ==> o.db == db) && (o.report.Some? ==> o.report == Some(report))
  {
  }

  lemma PrefixIsRecorded(c: Catalog, db: Db, k: nat)
    requires Sound(c) && LedgerSound(c, db) && k < |c.migrations|
    ensures IsRecorded(db.ledger, c.migrations[k].id) <==> k < |db.ledger|
  {
    PrefixRecords(c, db.ledger, k);
  }

  lemma ValidWhenSound(c: Catalog, db: Db)
    requires Sound(c) && LedgerSound(c, db)
    ensures Validates(c, db.ledger, db) <==> db.userVersion <= c.supportedVersion
  {
    forall i, j | 0 <= i < j < |db.ledger| ensures EarlierSequence(db.ledger[i], db.ledger[j]) {
      assert Matches(c, db.ledger[i], c.migrations[i]) && Matches(c, db.ledger[j], c.migrations[j]);
    }
    ValidatesPrefixes(c, db.ledger, db);
  }

  lemma AllRecorded(c: Catalog, db: Db)
    requires Sound(c) && LedgerSound(c, db) && |db.ledger| == |c.migrations|
    ensures forall i | 0 <= i < |c.migrations| :: IsRecorded(db.ledger, c.migrations[i].id)
  {
    forall i | 0 <= i < |c.migrations| ensures IsRecorded(db.ledger, c.migrations[i].id) {
      PrefixRecords(c, db.ledger, i);
    }
  }

  lemma NonTransactionalSound(c: Catalog, before: Db, after: Db, k: nat, report: Option<Action>)
    requires Sound(c) && LedgerSound(c, before) && k < |c.migrations| && k == |before.ledger| && before.hasLedger
        && after.hasLedger
    requires before.installed <= after.installed && (report == None ==> after.ledger == before.ledger)
    requires report.Some? ==>
        c.migrations[k].id in after.installed
            && Outcome(after, report) == RecordTransaction(c, after.(ledger := before.ledger), c.migrations[k])
    ensures LedgerSound(c, after) && Grows(before, after)
    ensures report.Some? ==> report == Some(DidApply) && |after.ledger| == k + 1
  {
    hide Validates, Record;
    var middle := after.(ledger := before.ledger);
    GrowthKeepsLedger(c, before, middle);
    PrefixRecords(c, before.ledger, k);
    if report.Some? {
      RecordKeepsRest(c, middle, c.migrations[k], AppliedKind, DidApply);
      RecordSound(c, middle, k, AppliedKind, DidApply);
    }
  }
}
