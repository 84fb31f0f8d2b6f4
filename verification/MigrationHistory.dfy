/** What a ledger row tells of its migration: who wrote it, and whether the schema was there before. */
module MigrationHistory {
  import opened Primitives
  import opened Text
  import opened Sorting
  import opened Migrations

  // ---------- one row ----------

  /** The row is about that migration, word for word. */
  ghost predicate Tells(c: Catalog, row: LedgerRow, m: Migration) {
    row == LedgerRow(m.sequence, m.id, m.name, c.checksum(m), row.kind)
  }

  /** Validation passes exactly when the rows tell of the first migrations, each of which is installed: no unknown id,
      no changed name, sequence or checksum, no gap. */
  lemma ValidLedgersTell(c: Catalog, rows: seq<LedgerRow>, db: Db)
    requires Sound(c) && SortedBy(rows, EarlierSequence)
    ensures Validates(c, rows, db) <==>
      && db.userVersion <= c.supportedVersion && |rows| <= |c.migrations|
      && forall i | 0 <= i < |rows| :: Tells(c, rows[i], c.migrations[i]) && c.migrations[i].id in db.installed
  {
    hide Validates, EarlierSequence;
    ValidatesPrefixes(c, rows, db);
    assert forall i | 0 <= i < |rows| && i < |c.migrations| ::
      Matches(c, rows[i], c.migrations[i]) <==> Tells(c, rows[i], c.migrations[i]);
  }

  // ---------- one transaction ----------

  /** The database with one more row, for m. */
  ghost function WithRow(c: Catalog, db: Db, m: Migration, kind: Kind): Db {
    db.(ledger := db.ledger + [LedgerRow(m.sequence, m.id, m.name, c.checksum(m), kind)])
  }

  ghost predicate IsNext(c: Catalog, db: Db, k: nat) {
    && Sound(c) && LedgerSound(c, db) && k < |c.migrations| && k == |db.ledger| && db.hasLedger
    && db.userVersion <= c.supportedVersion
  }

  lemma NextIsOpen(c: Catalog, db: Db, k: nat)
    requires IsNext(c, db, k)
    ensures Validates(c, db.ledger, db) && !IsRecorded(db.ledger, c.migrations[k].id)
  {
    forall i, j | 0 <= i < j < |db.ledger| ensures EarlierSequence(db.ledger[i], db.ledger[j]) {
      assert Matches(c, db.ledger[i], c.migrations[i]) && Matches(c, db.ledger[j], c.migrations[j]);
    }
    ValidatesPrefixes(c, db.ledger, db);
    PrefixRecords(c, db.ledger, k);
  }

  /** Adopting succeeds exactly where the schema is there and foreign keys are enforced and kept. */
  lemma AdoptionMeans(c: Catalog, db: Db, foreignKeys: bool, k: nat)
    requires IsNext(c, db, k)
    ensures var m, o := c.migrations[k], AdoptTransaction(c, db, foreignKeys, c.migrations[k]);
      o == if m.id in db.installed && foreignKeys && !db.violations
        then Outcome(WithRow(c, db, m, AdoptedKind), Some(DidAdopt)) else Outcome(db, None)
  {
    hide Validates, Record;
    NextIsOpen(c, db, k);
    RecordAppends(c, db, k, AdoptedKind, DidAdopt);
  }

  /** Applying runs the statements only where the schema is not there yet, and keeps what they did only where they
      brought the schema about without a violation. */
  lemma ApplicationMeans(c: Catalog, db: Db, foreignKeys: bool, k: nat, e: Effect)
    requires IsNext(c, db, k)
    ensures var m, o := c.migrations[k], ApplyTransaction(c, db, foreignKeys, c.migrations[k], e);
      o == if m.id in db.installed then AdoptTransaction(c, db, foreignKeys, m)
        else if !e.fails && m.id in e.installs && foreignKeys && !e.violations
        then Outcome(WithRow(c, Applied(db, e), m, AppliedKind), Some(DidApply)) else Outcome(db, None)
  {
    hide Validates, Record;
    NextIsOpen(c, db, k);
    RecordAppends(c, Applied(db, e), k, AppliedKind, DidApply);
  }

  lemma RecordingMeans(c: Catalog, db: Db, k: nat)
    requires IsNext(c, db, k)
    ensures RecordTransaction(c, db, c.migrations[k])
      == Outcome(WithRow(c, db, c.migrations[k], AppliedKind), Some(DidApply))
  {
    hide Validates, Record;
    NextIsOpen(c, db, k);
    RecordAppends(c, db, k, AppliedKind, DidApply);
  }

  // ---------- runs ----------

  ghost function KindOfReport(report: Action): Kind {
    if report == DidApply then AppliedKind else AdoptedKind
  }

  /** The runner reported that it recorded migration k. */
  ghost predicate Wrote(r: Runner, k: int) {
    0 <= k < |r.reports| && r.reports[k] != Unchanged
  }

  ghost predicate HasWriter(runners: seq<Runner>, k: int) {
    exists i | 0 <= i < |runners| :: Wrote(runners[i], k)
  }

  lemma WriterIs(runners: seq<Runner>, i: nat, k: int)
    requires i < |runners| && Wrote(runners[i], k)
    ensures HasWriter(runners, k)
  {
  }

  lemma WritersStay(before: seq<Runner>, after: seq<Runner>, k: int)
    requires HasWriter(before, k) && |before| <= |after|
    requires forall i | 0 <= i < |before| :: before[i].reports <= after[i].reports
    ensures HasWriter(after, k)
  {
    var i :| 0 <= i < |before| && Wrote(before[i], k);
    assert Wrote(after[i], k);
  }

  /** Apart from "unchanged", a runner reports what the row says, and only of rows since the start. */
  ghost predicate ReportsTrue(first: nat, db: Db, r: Runner) {
    forall k | 0 <= k < |r.reports| && r.reports[k] != Unchanged ::
      first <= k < |db.ledger| && db.ledger[k].kind == KindOfReport(r.reports[k])
  }

  predicate PlansRebuild(p: Phase) {
    ChangesSchema(p) || p.Recording?
  }

  /** A runner that applies a migration outside its own transaction found it missing. */
  ghost predicate RebuildsMissing(c: Catalog, start: Db, p: Phase) {
    PlansRebuild(p) && p.k < |c.migrations| ==> c.migrations[p.k].id !in start.installed
  }

  /** Every row since the start was written by a runner that reported it. */
  ghost predicate RowsWritten(first: nat, s: State) {
    forall k | first <= k < |s.db.ledger| :: HasWriter(s.runners, k)
  }

  /** What was installed at the start is never recorded as applied. */
  ghost predicate StartIsAdopted(start: Db, db: Db) {
    forall k | |start.ledger| <= k < |db.ledger| && db.ledger[k].id in start.installed ::
      db.ledger[k].kind == AdoptedKind
  }

  ghost predicate History(c: Catalog, start: Db, s: State) {
    && Grows(start, s.db) && RowsWritten(|start.ledger|, s) && StartIsAdopted(start, s.db)
    && forall i | 0 <= i < |s.runners| ::
      ReportsTrue(|start.ledger|, s.db, s.runners[i]) && RebuildsMissing(c, start, s.runners[i].phase)
  }

  /** What a runner's step does to the ledger and its reports. */
  ghost predicate StepTells(c: Catalog, start: Db, db: Db, r: Runner, after: Db, r': Runner) {
    && RebuildsMissing(c, start, r'.phase)
    && ((after.ledger == db.ledger && (r'.reports == r.reports || r'.reports == r.reports + [Unchanged]))
      || exists row: LedgerRow, report: Action :: WritesRow(start, db, r, after, r', row, report))
  }

  ghost predicate WritesRow(start: Db, db: Db, r: Runner, after: Db, r': Runner, row: LedgerRow, report: Action) {
    && after.ledger == db.ledger + [row] && r'.reports == r.reports + [report] && report != Unchanged
    && |r.reports| == |db.ledger| && row.kind == KindOfReport(report)
    && (row.kind == AppliedKind ==> row.id !in start.installed)
  }

  lemma ReportTells(c: Catalog, start: Db, db: Db, r: Runner, k: nat, o: Outcome)
    requires |r.reports| == k && k < |c.migrations|
    requires o.report == None || o.report == Some(Unchanged) ==> o.db == db
    requires o.report.Some? && o.report != Some(Unchanged) ==>
      k == |db.ledger| && o.db.ledger == WithRow(c, db, c.migrations[k], KindOfReport(o.report.value)).ledger
    requires o.report == Some(DidApply) ==> c.migrations[k].id !in start.installed
    ensures StepTells(c, start, db, r, o.db, Reports(r, k, o.report))
  {
    if o.report.Some? && o.report != Some(Unchanged) {
      var row := LedgerRow(c.migrations[k].sequence, c.migrations[k].id, c.migrations[k].name,
        c.checksum(c.migrations[k]), KindOfReport(o.report.value));
      assert WritesRow(start, db, r, o.db, Reports(r, k, o.report), row, o.report.value);
    }
  }

  /** A transaction on a migration that is recorded, or on a newer database, writes nothing. */
  lemma NothingToWrite(c: Catalog, db: Db, foreignKeys: bool, k: nat, e: Effect)
    requires Sound(c) && LedgerSound(c, db) && k < |c.migrations| && k <= |db.ledger| && db.hasLedger
    requires !IsNext(c, db, k)
    ensures forall o | o == AdoptTransaction(c, db, foreignKeys, c.migrations[k])
        || o == ApplyTransaction(c, db, foreignKeys, c.migrations[k], e)
        || o == RecordTransaction(c, db, c.migrations[k]) ::
      o.db == db && (o.report == None || o.report == Some(Unchanged))
  {
    hide Record, LedgerSound;
    LedgerRecords(c, db);
    PrefixRecords(c, db.ledger, k);
  }

  lemma TransactionTells(c: Catalog, start: Db, db: Db, r: Runner, e: Effect)
    requires Sound(c) && LedgerSound(c, db) && RunnerSound(c, db, r) && Grows(start, db)
    requires RebuildsMissing(c, start, r.phase) && (r.phase.Adopting? || r.phase.Applying? || r.phase.Recording?)
    ensures var (after, r') := RunnerStep(c, db, r, e); StepTells(c, start, db, r, after, r')
  {
    hide AdoptTransaction, ApplyTransaction, RecordTransaction, LedgerSound, Reports, StepTells;
    var k := r.phase.k;
    if k >= |c.migrations| {
      ThrowTells(c, start, db, r);
    } else {
      var m := c.migrations[k];
      if IsNext(c, db, k) {
        AdoptionMeans(c, db, r.foreignKeys, k);
        ApplicationMeans(c, db, r.foreignKeys, k, e);
        RecordingMeans(c, db, k);
      } else {
        NothingToWrite(c, db, r.foreignKeys, k, e);
      }
      ReportTells(c, start, db, r, k,
        if r.phase.Adopting? then AdoptTransaction(c, db, r.foreignKeys, m)
        else if r.phase.Applying? then ApplyTransaction(c, db, r.foreignKeys, m, e)
        else RecordTransaction(c, db, m));
    }
  }

  lemma ThrowTells(c: Catalog, start: Db, db: Db, r: Runner)
    ensures StepTells(c, start, db, r, db, Throws(r))
  {
  }

  /** Any other step of a runner writes no row. */
  lemma OtherStepTells(c: Catalog, start: Db, db: Db, r: Runner, e: Effect)
    requires RebuildsMissing(c, start, r.phase) && start.installed <= db.installed
    requires !(r.phase.Adopting? || r.phase.Applying? || r.phase.Recording?)
    ensures var (after, r') := RunnerStep(c, db, r, e); StepTells(c, start, db, r, after, r')
  {
    hide RunnerStep, WritesRow, RebuildsMissing, Inspect;
    if r.phase.Inspecting? {
      InspectingStep(c, db, r, e);
      InspectTells(c, start, db, r, r.phase.k, r.phase.rows);
    } else {
      OtherStepWrites(c, db, r, e);
      OtherStepPlans(c, start, db, r, e);
    }
  }

  lemma InspectingStep(c: Catalog, db: Db, r: Runner, e: Effect)
    requires r.phase.Inspecting?
    ensures RunnerStep(c, db, r, e) == (db, Inspect(c, db, r, r.phase.k, r.phase.rows))
  {
  }

  lemma OtherStepWrites(c: Catalog, db: Db, r: Runner, e: Effect)
    requires !(r.phase.Adopting? || r.phase.Applying? || r.phase.Recording? || r.phase.Inspecting?)
    ensures RunnerStep(c, db, r, e).0.ledger == db.ledger && RunnerStep(c, db, r, e).1.reports == r.reports
  {
  }

  lemma OtherStepPlans(c: Catalog, start: Db, db: Db, r: Runner, e: Effect)
    requires !(r.phase.Adopting? || r.phase.Applying? || r.phase.Recording? || r.phase.Inspecting?)
    requires RebuildsMissing(c, start, r.phase)
    ensures RebuildsMissing(c, start, RunnerStep(c, db, r, e).1.phase)
  {
  }

  lemma InspectTells(c: Catalog, start: Db, db: Db, r: Runner, k: nat, rows: seq<LedgerRow>)
    requires start.installed <= db.installed
    ensures StepTells(c, start, db, r, db, Inspect(c, db, r, k, rows))
  {
    hide Validates, IsRecorded, ForeignKeysHold, WritesRow;
  }

  lemma StepOfRunnerTells(c: Catalog, start: Db, db: Db, r: Runner, e: Effect)
    requires Sound(c) && LedgerSound(c, db) && RunnerSound(c, db, r) && Grows(start, db)
    requires RebuildsMissing(c, start, r.phase)
    ensures var (after, r') := RunnerStep(c, db, r, e); StepTells(c, start, db, r, after, r')
  {
    hide RunnerStep, StepTells, RunnerSound, LedgerSound, RebuildsMissing;
    if r.phase.Adopting? || r.phase.Applying? || r.phase.Recording? {
      TransactionTells(c, start, db, r, e);
    } else {
      OtherStepTells(c, start, db, r, e);
    }
  }

  lemma StepTellsKeeps(c: Catalog, start: Db, s: State, i: nat, after: Db, r': Runner)
    requires History(c, start, s) && i < |s.runners| && Grows(s.db, after)
    requires StepTells(c, start, s.db, s.runners[i], after, r')
    ensures History(c, start, State(after, s.runners[i := r']))
  {
    hide RebuildsMissing, KindOfReport, HasWriter;
    var r, t := s.runners[i], State(after, s.runners[i := r']);
    if after.ledger != s.db.ledger {
      var row, report :| WritesRow(start, s.db, r, after, r', row, report);
      WriterIs(t.runners, i, |s.db.ledger|);
    }
    forall k | |start.ledger| <= k < |s.db.ledger| ensures HasWriter(t.runners, k) {
      WritersStay(s.runners, t.runners, k);
    }
  }

  lemma StepKeepsHistory(c: Catalog, start: Db, s: State, step: Step)
    requires Sound(c) && Invariant(c, s) && History(c, start, s)
    ensures History(c, start, Next(c, s, step))
  {
    hide RunnerStep, LedgerSound, RunnerSound, StepTells, History, Invariant;
    match step
    case Advance(i, e) =>
      if i < |s.runners| {
        var (after, r') := RunnerStep(c, s.db, s.runners[i], e);
        StepKeepsInvariant(c, s, step);
        PartsHold(c, start, s, i);
        StepOfRunnerTells(c, start, s.db, s.runners[i], e);
        StepTellsKeeps(c, start, s, i, after, r');
      }
    case _ =>
      IdleKeepsHistory(c, start, s, step);
  }

  lemma PartsHold(c: Catalog, start: Db, s: State, i: nat)
    requires Invariant(c, s) && History(c, start, s) && i < |s.runners|
    ensures LedgerSound(c, s.db) && RunnerSound(c, s.db, s.runners[i]) && Grows(start, s.db)
    ensures RebuildsMissing(c, start, s.runners[i].phase)
  {
  }

  lemma IdleKeepsHistory(c: Catalog, start: Db, s: State, step: Step)
    requires History(c, start, s) && !step.Advance?
    ensures History(c, start, Next(c, s, step))
  {
    hide KindOfReport, HasWriter;
    var t := Next(c, s, step);
    forall k | |start.ledger| <= k < |s.db.ledger| ensures HasWriter(t.runners, k) {
      WritersStay(s.runners, t.runners, k);
    }
  }

  lemma {:induction false} RunKeepsHistory(c: Catalog, start: Db, s: State, steps: seq<Step>)
    requires Sound(c) && Invariant(c, s) && History(c, start, s)
    ensures History(c, start, Run(c, s, steps))
    decreases |steps|
  {
    hide Next, Invariant, History;
    if steps != [] {
      StepKeepsInvariant(c, s, steps[0]);
      StepKeepsHistory(c, start, s, steps[0]);
      RunKeepsHistory(c, start, Next(c, s, steps[0]), steps[1..]);
    }
  }

  /** Over every interleaving and crash, each row tells of its migration; each row since the start was written by
      exactly one runner, which reported it as applied or adopted just as the row says; and what was installed at the
      start is recorded as adopted. */
  lemma RowsTellTheirHistory(c: Catalog, db: Db, steps: seq<Step>)
    requires Sound(c) && LedgerSound(c, db)
    ensures var s := Run(c, State(db, []), steps);
      && |s.db.ledger| <= |c.migrations|
      && (forall k | 0 <= k < |s.db.ledger| :: Tells(c, s.db.ledger[k], c.migrations[k]))
      && (forall k | |db.ledger| <= k < |s.db.ledger| && c.migrations[k].id in db.installed ::
        s.db.ledger[k].kind == AdoptedKind)
      && (forall k | |db.ledger| <= k < |s.db.ledger| :: HasWriter(s.runners, k))
      && (forall i, j, k | 0 <= i < j < |s.runners| && Wrote(s.runners[i], k) :: !Wrote(s.runners[j], k))
      && (forall i | 0 <= i < |s.runners| :: ReportsTrue(|db.ledger|, s.db, s.runners[i]))
  {
    hide Next, Run, RunnerSound, Invariant, History, HasWriter;
    StartSound(c, db);
    StartHistory(c, db);
    RunKeepsInvariant(c, State(db, []), steps);
    RunKeepsHistory(c, db, State(db, []), steps);
    HistoryTells(c, db, Run(c, State(db, []), steps));
  }

  lemma StartHistory(c: Catalog, db: Db)
    ensures History(c, db, State(db, []))
  {
  }

  lemma HistoryTells(c: Catalog, db: Db, s: State)
    requires Invariant(c, s) && History(c, db, s)
    ensures |s.db.ledger| <= |c.migrations|
    ensures forall k | 0 <= k < |s.db.ledger| :: Tells(c, s.db.ledger[k], c.migrations[k])
    ensures forall k | |db.ledger| <= k < |s.db.ledger| && c.migrations[k].id in db.installed ::
      s.db.ledger[k].kind == AdoptedKind
    ensures forall k | |db.ledger| <= k < |s.db.ledger| :: HasWriter(s.runners, k)
    ensures forall i, j, k | 0 <= i < j < |s.runners| && Wrote(s.runners[i], k) :: !Wrote(s.runners[j], k)
    ensures forall i | 0 <= i < |s.runners| :: ReportsTrue(|db.ledger|, s.db, s.runners[i])
  {
    hide RunnerSound, RebuildsMissing, KindOfReport, HasWriter;
    assert forall k | 0 <= k < |s.db.ledger| :: Matches(c, s.db.ledger[k], c.migrations[k]);
  }
}
