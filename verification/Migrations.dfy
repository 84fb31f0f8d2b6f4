/** The migration runner and its ledger: one database, any number of runners, each with its own connection. */
module Migrations {
  import opened Primitives
  import opened Text
  import opened Sorting

  // ---------- the catalogue and the database ----------

  datatype Migration = Migration(sequence: int, id: Text, name: Text, checksumMaterial: Text, transactional: bool)

  datatype Catalog = Catalog(migrations: seq<Migration>, checksum: Migration -> Text, supportedVersion: int)

  /** Sequences go up and ids differ. */
  ghost predicate Sound(c: Catalog) {
    && (forall i, j | 0 <= i < j < |c.migrations| :: c.migrations[i].sequence < c.migrations[j].sequence)
    && (forall i, j | 0 <= i < j < |c.migrations| :: c.migrations[i].id != c.migrations[j].id)
  }

  datatype Kind = AppliedKind | AdoptedKind

  datatype LedgerRow = LedgerRow(sequence: int, id: Text, name: Text, checksum: Text, kind: Kind)

  /** `installed` holds the ids of the migrations whose schema contract the database meets, and
      `violations` tells whether a foreign-key check finds any; `historyIndex` is the index that
      the requirement-history rebuild leaves behind. */
  datatype Db = Db(
    hasLedger: bool, ledger: seq<LedgerRow>, installed: set<Text>, userVersion: int, violations: bool,
        historyIndex: bool)

  /** What running a migration's statements does: never does it uninstall another migration. */
  datatype Effect = Effect(fails: bool, installs: set<Text>, userVersion: int, violations: bool, historyIndex: bool)

  function Applied(db: Db, e: Effect): (r: Db) {
    db.(installed := db.installed + e.installs, userVersion := e.userVersion, violations := e.violations,
        historyIndex := db.historyIndex || e.historyIndex)
  }

  // ---------- validating the ledger ----------

  function RowFor(c: Catalog, m: Migration, kind: Kind): (r: LedgerRow) {
    LedgerRow(m.sequence, m.id, m.name, c.checksum(m), kind)
  }

  predicate Matches(c: Catalog, row: LedgerRow, m: Migration) {
    row.id == m.id && row.sequence == m.sequence && row.name == m.name && row.checksum == c.checksum(m)
  }

  function KnownById(c: Catalog, id: Text): (k: nat)
    ensures k <= |c.migrations| && (k < |c.migrations| ==> c.migrations[k].id == id)
    ensures forall i | 0 <= i < k :: c.migrations[i].id != id
  {
    IndexOf(c.migrations, (m: Migration) => m.id == id)
  }

  predicate RowOk(c: Catalog, row: LedgerRow, installed: set<Text>) {
    var k := KnownById(c, row.id);
    k < |c.migrations| && Matches(c, row, c.migrations[k]) && row.id in installed
  }

  predicate IsRecorded(rows: seq<LedgerRow>, id: Text) {
    exists i | 0 <= i < |rows| :: rows[i].id == id
  }

  predicate GapFree(c: Catalog, rows: seq<LedgerRow>) {
    forall i, j | 0 <= i < j < |c.migrations|
        && IsRecorded(rows, c.migrations[j].id) :: IsRecorded(rows, c.migrations[i].id)
  }

  /** Whether validation passes on these ledger rows, looking at the schema as it is in db. */
  predicate Validates(c: Catalog, rows: seq<LedgerRow>, db: Db) {
    && db.userVersion <= c.supportedVersion
    && (forall i | 0 <= i < |rows| :: RowOk(c, rows[i], db.installed))
    && GapFree(c, rows)
  }

  predicate EarlierSequence(a: LedgerRow, b: LedgerRow) {
    a.sequence < b.sequence
  }

  /** The rows record exactly the first |rows| migrations, in order. */
  ghost predicate RecordsPrefix(c: Catalog, rows: seq<LedgerRow>) {
    |rows| <= |c.migrations| && forall i | 0 <= i < |rows| :: Matches(c, rows[i], c.migrations[i])
  }

  ghost predicate RecordedInstalled(rows: seq<LedgerRow>, db: Db) {
    forall i | 0 <= i < |rows| :: rows[i].id in db.installed
  }

  lemma PrefixRecords(c: Catalog, rows: seq<LedgerRow>, k: nat)
    requires Sound(c) && RecordsPrefix(c, rows) && k < |c.migrations|
    ensures IsRecorded(rows, c.migrations[k].id) <==> k < |rows|
  {
    if k < |rows| {
      assert rows[k].id == c.migrations[k].id;
    }
  }

  /** Validation passes on the rows of a ledger exactly when they record a prefix of the catalogue that is installed. */
  lemma ValidatesPrefixes(c: Catalog, rows: seq<LedgerRow>, db: Db)
    requires Sound(c) && SortedBy(rows, EarlierSequence)
    ensures Validates(c, rows, db) <==>
      db.userVersion <= c.supportedVersion && RecordsPrefix(c, rows) && RecordedInstalled(rows, db)
  {
    hide IndexOf;
    if RecordsPrefix(c, rows) && RecordedInstalled(rows, db) {
      forall k: nat | k < |c.migrations| ensures IsRecorded(rows, c.migrations[k].id) <==> k < |rows| {
        PrefixRecords(c, rows, k);
      }
      forall i | 0 <= i < |rows| ensures RowOk(c, rows[i], db.installed) {
        assert rows[i].id == c.migrations[i].id;
        assert KnownById(c, rows[i].id) == i;
      }
    } else if Validates(c, rows, db) {
      ValidRowsArePrefix(c, rows, db.installed, |rows|);
    }
  }

  lemma {:induction false} ValidRowsArePrefix(c: Catalog, rows: seq<LedgerRow>, installed: set<Text>, n: nat)
    requires Sound(c) && SortedBy(rows, EarlierSequence) && GapFree(c, rows) && n <= |rows|
    requires forall i | 0 <= i < |rows| :: RowOk(c, rows[i], installed)
    ensures n <= |c.migrations| && forall i | 0 <= i < n :: Matches(c, rows[i], c.migrations[i])
  {
    hide IndexOf, EarlierSequence, GapFree, Matches, SortedBy;
    if n > 0 {
      ValidRowsArePrefix(c, rows, installed, n - 1);
      var k := KnownById(c, rows[n - 1].id);
      assert RowOk(c, rows[n - 1], installed);
      NotBefore(c, rows, n, k);
      NotBeyond(c, rows, installed, n, k);
    }
  }

  lemma NotBefore(c: Catalog, rows: seq<LedgerRow>, n: nat, k: nat)
    requires SortedBy(rows, EarlierSequence) && 0 < n <= |rows| && k < |c.migrations|
        && Matches(c, rows[n - 1], c.migrations[k])
    requires n - 1 <= |c.migrations| && forall i | 0 <= i < n - 1 :: Matches(c, rows[i], c.migrations[i])
    ensures k >= n - 1
  {
    assert forall i | 0 <= i < n - 1 :: EarlierSequence(rows[i], rows[n - 1]);
  }

  lemma NotBeyond(c: Catalog, rows: seq<LedgerRow>, installed: set<Text>, n: nat, k: nat)
    requires Sound(c) && SortedBy(rows, EarlierSequence) && GapFree(c, rows)
    requires 0 < n <= |rows| && k < |c.migrations| && Matches(c, rows[n - 1], c.migrations[k])
    requires forall i | 0 <= i < |rows| :: RowOk(c, rows[i], installed)
    requires n - 1 <= |c.migrations| && forall i | 0 <= i < n - 1 :: Matches(c, rows[i], c.migrations[i])
    ensures k <= n - 1
  {
    hide RowOk, KnownById, SortedBy, Sound, Matches, GapFree;
    if k > n - 1 {
      IsRecordedAt(c, rows, n, k);
      var i :| 0 <= i < |rows| && rows[i].id == c.migrations[n - 1].id;
      PlaceOf(c, rows, installed, i, n - 1);
      EarlierPlace(c, rows, i, n, k);
      DistinctIds(c, rows[i], i, n - 1);
    }
  }

  lemma IsRecordedAt(c: Catalog, rows: seq<LedgerRow>, n: nat, k: nat)
    requires GapFree(c, rows) && 0 < n <= |rows| && n - 1 < k < |c.migrations|
    requires Matches(c, rows[n - 1], c.migrations[k])
    ensures IsRecorded(rows, c.migrations[n - 1].id)
  {
    assert IsRecorded(rows, c.migrations[k].id);
  }

  lemma EarlierPlace(c: Catalog, rows: seq<LedgerRow>, i: nat, n: nat, k: nat)
    requires Sound(c) && SortedBy(rows, EarlierSequence) && i < |rows| && 0 < n <= |rows| && n - 1 < k < |c.migrations|
    requires Matches(c, rows[i], c.migrations[n - 1]) && Matches(c, rows[n - 1], c.migrations[k])
    ensures i < n - 1
  {
    assert n - 1 < i ==> EarlierSequence(rows[n - 1], rows[i]);
  }

  lemma DistinctIds(c: Catalog, row: LedgerRow, i: nat, j: nat)
    requires Sound(c) && i < j < |c.migrations|
    ensures !(Matches(c, row, c.migrations[i]) && row.id == c.migrations[j].id)
  {
  }

  lemma PlaceOf(c: Catalog, rows: seq<LedgerRow>, installed: set<Text>, i: nat, k: nat)
    requires Sound(c) && i < |rows| && k < |c.migrations| && RowOk(c, rows[i], installed)
        && rows[i].id == c.migrations[k].id
    ensures Matches(c, rows[i], c.migrations[k])
  {
    hide IndexOf;
    assert KnownById(c, rows[i].id) == k;
  }

  // ---------- the transactions ----------

  datatype Action = Unchanged | DidApply | DidAdopt

  /** The database a transaction leaves, and its report; without one it threw and rolled back. */
  datatype Outcome = Outcome(db: Db, report: Option<Action>)

  predicate ForeignKeysHold(db: Db, foreignKeys: bool) {
    foreignKeys && !db.violations
  }

  /** Inserting by the primary key `sequence`; a second row with the sequence or id is refused. */
  function Record(c: Catalog, db: Db, m: Migration, kind: Kind, report: Action): (r: Outcome) {
    if !db.hasLedger || (exists row | row in db.ledger :: row.sequence == m.sequence || row.id == m.id)
        then Outcome(db, None)
    else Outcome(db.(ledger := Insert(RowFor(c, m, kind), db.ledger, EarlierSequence)), Some(report))
  }

  /** A refused transaction leaves what was there before it began. */
  function OrRollback(before: Db, o: Outcome): (r: Outcome) {
    if o.report == None then Outcome(before, None) else o
  }

  function AdoptTransaction(c: Catalog, db: Db, foreignKeys: bool, m: Migration): (r: Outcome) {
    if !Validates(c, db.ledger, db) then Outcome(db, None)
    else if IsRecorded(db.ledger, m.id) then Outcome(db, Some(Unchanged))
    else if m.id !in db.installed || !ForeignKeysHold(db, foreignKeys) then Outcome(db, None)
    else Record(c, db, m, AdoptedKind, DidAdopt)
  }

  function ApplyTransaction(c: Catalog, db: Db, foreignKeys: bool, m: Migration, e: Effect): (r: Outcome) {
    if !Validates(c, db.ledger, db) then Outcome(db, None)
    else if IsRecorded(db.ledger, m.id) then Outcome(db, Some(Unchanged))
    else if m.id in db.installed then
      if !ForeignKeysHold(db, foreignKeys) then Outcome(db, None) else Record(c, db, m, AdoptedKind, DidAdopt)
    else
      var after := Applied(db, e);
      if e.fails || m.id !in after.installed || !ForeignKeysHold(after, foreignKeys) then Outcome(db, None)
      else OrRollback(db, Record(c, after, m, AppliedKind, DidApply))
  }

  function RecordTransaction(c: Catalog, db: Db, m: Migration): (r: Outcome) {
    if !Validates(c, db.ledger, db) then Outcome(db, None)
    else if IsRecorded(db.ledger, m.id) then Outcome(db, Some(Unchanged))
    else Record(c, db, m, AppliedKind, DidApply)
  }

  /** The rebuild's own transaction: it commits only without foreign-key violations. */
  function RebuildTransaction(db: Db, e: Effect): (r: Outcome) {
    if e.fails || e.violations then Outcome(db, None) else Outcome(Applied(db, e), Some(DidApply))
  }

  function CreateLedger(db: Db): (r: Db) {
    db.(hasLedger := true)
  }

  // ---------- runners ----------

  /** Where a runner stands; k is the migration it works on. Threw and Crashed are for good. */
  datatype Phase =
    | Starting
    | CreatingLedger
    | Planning(k: nat)
    | Inspecting(k: nat, rows: seq<LedgerRow>)
    | Adopting(k: nat)
    | Applying(k: nat)
    | Entering(k: nat)
    | Rebuilding(k: nat)
    | Restoring(k: nat, rebuilt: bool)
    | Adding(k: nat)
    | Checking(k: nat)
    | Recording(k: nat)
    | Confirming
    | Returned
    | Threw
    | Crashed

  /** `startedCurrent` remembers whether the ledger was complete when the runner was launched. */
  datatype Runner = Runner(phase: Phase, foreignKeys: bool, reports: seq<Action>, startedCurrent: bool)

  datatype State = State(db: Db, runners: seq<Runner>)

  function Throws(r: Runner): (s: Runner) {
    r.(phase := Threw)
  }

  function Reports(r: Runner, k: nat, report: Option<Action>): (s: Runner) {
    if report == None then Throws(r) else r.(phase := Planning(k + 1), reports := r.reports + [report.value])
  }

  /** What a runner does after reading the ledger: `planDatabaseMigrations` for migration k, or the last check of
      all. */
  function Inspect(c: Catalog, db: Db, r: Runner, k: nat, rows: seq<LedgerRow>): (s: Runner) {
    if !Validates(c, rows, db) then Throws(r)
    else if k >= |c.migrations| then
      if (forall i | 0 <= i < |c.migrations| :: IsRecorded(rows, c.migrations[i].id))
          && ForeignKeysHold(db, r.foreignKeys)
      then r.(phase := Returned) else Throws(r)
    else
      var m := c.migrations[k];
      if IsRecorded(rows, m.id) then Reports(r, k, Some(Unchanged))
      else if m.id in db.installed then r.(phase := Adopting(k))
      else if m.transactional then r.(phase := Applying(k))
      else r.(phase := Entering(k))
  }

  /** One atomic step of a runner; e is what the statements of this step do, if it runs any. */
  function RunnerStep(c: Catalog, db: Db, r: Runner, e: Effect): (s: (Db, Runner)) {
    match r.phase
    case Starting =>
      var on := r.(foreignKeys := true);
      (db, if db.userVersion > c.supportedVersion then Throws(on) else on.(phase := CreatingLedger))
    case CreatingLedger => (CreateLedger(db), r.(phase := Planning(0)))
    case Planning(k) =>
      if k < |c.migrations| then (db, r.(phase := Inspecting(k, db.ledger)))
      else (db, if ForeignKeysHold(db, r.foreignKeys) then r.(phase := Confirming) else Throws(r))
    case Confirming => (db, r.(phase := Inspecting(|c.migrations|, db.ledger)))
    case Inspecting(k, rows) => (db, Inspect(c, db, r, k, rows))
    case Adopting(k) =>
      if k >= |c.migrations| then (db, Throws(r))
      else var o := AdoptTransaction(c, db, r.foreignKeys, c.migrations[k]); (o.db, Reports(r, k, o.report))
    case Applying(k) =>
      if k >= |c.migrations| then (db, Throws(r))
      else var o := ApplyTransaction(c, db, r.foreignKeys, c.migrations[k], e); (o.db, Reports(r, k, o.report))
    case Entering(k) =>
      (db, if db.historyIndex then r.(phase := Adding(k)) else r.(foreignKeys := false, phase := Rebuilding(k)))
    case Rebuilding(k) =>
      var o := RebuildTransaction(db, e); (o.db, r.(phase := Restoring(k, o.report.Some?)))
    case Restoring(k, rebuilt) =>
      (db, var on := r.(foreignKeys := true); if rebuilt then on.(phase := Adding(k)) else Throws(on))
    case Adding(k) => (Applied(db, e), if e.fails then Throws(r) else r.(phase := Checking(k)))
    case Checking(k) =>
      (db, if k >= |c.migrations| || c.migrations[k].id !in db.installed
          || !ForeignKeysHold(db, r.foreignKeys) then Throws(r)
           else r.(phase := Recording(k)))
    case Recording(k) =>
      if k >= |c.migrations| then (db, Throws(r))
      else var o := RecordTransaction(c, db, c.migrations[k]); (o.db, Reports(r, k, o.report))
    case Returned => (db, r)
    case Threw => (db, r)
    case Crashed => (db, r)
  }

  datatype Step =
    | Launch(foreignKeys: bool)
    | Advance(runner: nat, effect: Effect)
    | Crash(runner: nat)
    | Busy(runner: nat)
    | OtherWrites(effect: Effect)

  /** A statement may also fail because the database is busy: the runner throws, after `finally` turned enforcement
      on. */
  function Interrupted(r: Runner): (s: Runner) {
    match r.phase
    case Starting => r
    case Returned => r
    case Crashed => r
    case Rebuilding(k) => r.(phase := Restoring(k, false))
    case Restoring(k, _) => r.(phase := Restoring(k, false))
    case _ => Throws(r)
  }

  function Next(c: Catalog, s: State, step: Step): (r: State) {
    match step
    case Launch(foreignKeys) => s.(runners := s.runners
        + [Runner(Starting, foreignKeys, [], |s.db.ledger| == |c.migrations|)])
    case Advance(i, e) =>
      if i < |s.runners| then
        var (db, runner) := RunnerStep(c, s.db, s.runners[i], e);
        State(db, s.runners[i := runner])
      else s
    case Crash(i) => if i < |s.runners| then s.(runners := s.runners[i := s.runners[i].(phase := Crashed)]) else s
    case Busy(i) => if i < |s.runners| then s.(runners := s.runners[i := Interrupted(s.runners[i])]) else s
    case OtherWrites(e) => s.(db := Applied(s.db, e))
  }

  function Run(c: Catalog, s: State, steps: seq<Step>): (r: State)
    decreases |steps|
  {
    if steps == [] then s else Run(c, Next(c, s, steps[0]), steps[1..])
  }

  // ---------- what every step keeps ----------

  /** The ledger records a prefix of the catalogue, and everything recorded is installed. */
  ghost predicate LedgerSound(c: Catalog, db: Db) {
    RecordsPrefix(c, db.ledger) && RecordedInstalled(db.ledger, db) && (db.ledger != [] ==> db.hasLedger)
  }

  /** The migration a runner has got to. */
  function Reached(c: Catalog, p: Phase): (k: Option<nat>) {
    match p
    case Planning(k) => Some(k)
    case Inspecting(k, _) => Some(k)
    case Adopting(k) => Some(k)
    case Applying(k) => Some(k)
    case Entering(k) => Some(k)
    case Rebuilding(k) => Some(k)
    case Restoring(k, _) => Some(k)
    case Adding(k) => Some(k)
    case Checking(k) => Some(k)
    case Recording(k) => Some(k)
    case Confirming => Some(|c.migrations|)
    case Returned => Some(|c.migrations|)
    case CreatingLedger => Some(0)
    case Starting => Some(0)
    case _ => None
  }

  /** What is known of one runner: how far it got is recorded, and enforcement is off only inside a rebuild. */
  ghost predicate RunnerSound(c: Catalog, db: Db, r: Runner) {
    && (Reached(c, r.phase).Some? ==> |r.reports| == Reached(c, r.phase).value <= |db.ledger|)
    && |r.reports| <= |db.ledger|
    && (r.phase.Inspecting? ==> r.phase.rows <= db.ledger && r.phase.k <= |r.phase.rows|)
    && (!(r.phase.Starting? || r.phase.CreatingLedger? || r.phase.Crashed? || r.phase.Threw?) ==> db.hasLedger)
    && (!r.foreignKeys ==> r.phase.Starting? || r.phase.Rebuilding? || r.phase.Restoring? || r.phase.Crashed?)
    && (r.phase.Recording? ==> r.phase.k < |c.migrations| && c.migrations[r.phase.k].id in db.installed)
    && (r.phase.Inspecting? ==> r.phase.k <= |c.migrations|)
    && (r.phase.Returned? ==> |db.ledger| == |c.migrations|)
    && (r.startedCurrent ==> ReadsOnly(c, db, r))
  }

  /** A runner launched on a complete ledger finds everything recorded. */
  ghost predicate ReadsOnly(c: Catalog, db: Db, r: Runner) {
    && |db.ledger| == |c.migrations| && OnlyReads(r.phase) && (r.phase.Inspecting? ==> |r.phase.rows| == |c.migrations|)
    && forall i | 0 <= i < |r.reports| :: r.reports[i] == Unchanged
  }

  predicate OnlyReads(p: Phase) {
    p.Starting? || p.CreatingLedger? || p.Planning? || p.Inspecting? || p.Confirming? || p.Returned? || p.Threw?
        || p.Crashed?
  }

  /** Each migration is reported as applied or adopted by at most one runner. */
  ghost predicate ReportedOnce(runners: seq<Runner>) {
    forall i, j, k | 0 <= i < j < |runners| && 0 <= k < |runners[i].reports| && k < |runners[j].reports| ::
      runners[i].reports[k] == Unchanged || runners[j].reports[k] == Unchanged
  }

  ghost predicate Invariant(c: Catalog, s: State) {
    && LedgerSound(c, s.db)
    && (forall i | 0 <= i < |s.runners| :: RunnerSound(c, s.db, s.runners[i]))
    && ReportedOnce(s.runners)
  }

  /** The database only gains: rows at the end of the ledger, and installed migrations. */
  ghost predicate Grows(before: Db, after: Db) {
    before.ledger <= after.ledger && before.installed <= after.installed && (before.hasLedger ==> after.hasLedger)
  }

  lemma InsertLast(row: LedgerRow, rows: seq<LedgerRow>)
    requires forall i | 0 <= i < |rows| :: EarlierSequence(rows[i], row)
    ensures Insert(row, rows, EarlierSequence) == rows + [row]
  {
    if rows != [] {
      InsertLast(row, rows[1..]);
      assert rows + [row] == [rows[0]] + (rows[1..] + [row]);
    }
  }

  /** Recording the next migration of a sound ledger appends its row. */
  lemma RecordAppends(c: Catalog, db: Db, k: nat, kind: Kind, report: Action)
    requires Sound(c) && LedgerSound(c, db) && k < |c.migrations| && |db.ledger| == k && db.hasLedger
    ensures Record(c, db, c.migrations[k], kind, report)
        == Outcome(db.(ledger := db.ledger + [RowFor(c, c.migrations[k], kind)]), Some(report))
  {
    forall i | 0 <= i < |db.ledger| ensures db.ledger[i].sequence < c.migrations[k].sequence
        && db.ledger[i].id != c.migrations[k].id {
      assert Matches(c, db.ledger[i], c.migrations[i]);
    }
    InsertLast(RowFor(c, c.migrations[k], kind), db.ledger);
  }

  /** What a transaction on migration k may do when everything before k is recorded. */
  ghost predicate TransactionSound(c: Catalog, db: Db, k: nat, o: Outcome) {
    && LedgerSound(c, o.db) && Grows(db, o.db)
    && (o.report == None ==> o.db == db)
    && (o.report.Some? ==> |o.db.ledger| > k)
    && (o.report == Some(Unchanged) ==> o.db == db)
    && (o.report.Some? && o.report != Some(Unchanged) ==> |db.ledger| == k && |o.db.ledger| == k + 1)
  }

  lemma TransactionsSound(c: Catalog, db: Db, foreignKeys: bool, k: nat, e: Effect)
    requires Sound(c) && LedgerSound(c, db) && k < |c.migrations| && k <= |db.ledger| && db.hasLedger
    ensures TransactionSound(c, db, k, AdoptTransaction(c, db, foreignKeys, c.migrations[k]))
    ensures TransactionSound(c, db, k, ApplyTransaction(c, db, foreignKeys, c.migrations[k], e))
    ensures c.migrations[k].id in db.installed ==> TransactionSound(c, db, k, RecordTransaction(c, db, c.migrations[k]))
  {
    hide Validates, Record, RowFor;
    PrefixRecords(c, db.ledger, k);
    if |db.ledger| == k {
      RecordSound(c, db, k, AdoptedKind, DidAdopt);
      RecordSound(c, db, k, AppliedKind, DidApply);
      RecordSound(c, Applied(db, e), k, AppliedKind, DidApply);
    }
  }

  lemma RecordSound(c: Catalog, db: Db, k: nat, kind: Kind, report: Action)
    requires Sound(c) && LedgerSound(c, db) && k < |c.migrations| && k == |db.ledger| && db.hasLedger
        && report != Unchanged
    ensures c.migrations[k].id in db.installed ==>
        TransactionSound(c, db, k, Record(c, db, c.migrations[k], kind, report))
  {
    hide Record;
    RecordAppends(c, db, k, kind, report);
  }

  // ---------- one step ----------

  lemma GrowthKeepsLedger(c: Catalog, before: Db, after: Db)
    requires LedgerSound(c, before) && Grows(before, after) && after.ledger == before.ledger
    ensures LedgerSound(c, after)
  {
  }

  /** Other runners stay sound while the database grows. */
  lemma OthersStaySound(c: Catalog, before: Db, after: Db, r: Runner)
    requires RunnerSound(c, before, r) && Grows(before, after) && |after.ledger| <= |c.migrations|
    ensures RunnerSound(c, after, r)
  {
  }

  /** The step leaves ledger and runner sound, and reports at most one thing; anything but "unchanged"
      is reported by the runner that found exactly that many migrations recorded. */
  ghost predicate StepSound(c: Catalog, db: Db, r: Runner, after: Db, r': Runner) {
    && LedgerSound(c, after) && Grows(db, after) && RunnerSound(c, after, r')
    && (r'.reports == r.reports
        || exists report :: r'.reports == r.reports + [report]
            && (report == Unchanged || (|db.ledger| == |r.reports| && |after.ledger| > |db.ledger|)))
  }

  lemma ReportSound(c: Catalog, db: Db, r: Runner, k: nat, o: Outcome)
    requires LedgerSound(c, db) && RunnerSound(c, db, r) && Reached(c, r.phase) == Some(k) && k < |c.migrations|
    requires !OnlyReads(r.phase) && r.foreignKeys && db.hasLedger && TransactionSound(c, db, k, o)
    ensures StepSound(c, db, r, o.db, Reports(r, k, o.report))
  {
    hide LedgerSound;
    LedgerBounded(c, o.db);
    if o.report.Some? {
      assert Reports(r, k, o.report).reports == r.reports + [o.report.value];
    }
  }

  predicate ChangesSchema(p: Phase) {
    p.Entering? || p.Rebuilding? || p.Restoring? || p.Adding? || p.Checking?
  }

  /** The phases of a migration that runs outside the runner's own transaction. */
  lemma RebuildStepSound(c: Catalog, db: Db, r: Runner, e: Effect)
    requires LedgerSound(c, db) && RunnerSound(c, db, r) && ChangesSchema(r.phase)
    ensures var (after, r') := RunnerStep(c, db, r, e); StepSound(c, db, r, after, r')
  {
    hide LedgerSound, Inspect, AdoptTransaction, ApplyTransaction, RecordTransaction, ReadsOnly;
    var (after, r') := RunnerStep(c, db, r, e);
    assert !r.startedCurrent by {
      WritesOnlyWhenIncomplete(c, db, r);
    }
    LedgerBounded(c, db);
    GrowthKeepsLedger(c, db, after);
  }

  lemma WritesOnlyWhenIncomplete(c: Catalog, db: Db, r: Runner)
    requires RunnerSound(c, db, r) && !OnlyReads(r.phase)
    ensures !r.startedCurrent
  {
  }

  lemma PlainStepSound(c: Catalog, db: Db, r: Runner, e: Effect)
    requires LedgerSound(c, db) && RunnerSound(c, db, r) && OnlyReads(r.phase) && !r.phase.Inspecting?
    ensures var (after, r') := RunnerStep(c, db, r, e); StepSound(c, db, r, after, r')
  {
    hide LedgerSound, Inspect, AdoptTransaction, ApplyTransaction, RecordTransaction;
    var (after, r') := RunnerStep(c, db, r, e);
    LedgerBounded(c, db);
    GrowthKeepsLedger(c, db, after);
  }

  lemma RunnerStepSound(c: Catalog, db: Db, r: Runner, e: Effect)
    requires Sound(c) && LedgerSound(c, db) && RunnerSound(c, db, r)
    ensures var (after, r') := RunnerStep(c, db, r, e); StepSound(c, db, r, after, r')
  {
    hide LedgerSound, Inspect, AdoptTransaction, ApplyTransaction, RecordTransaction, StepSound, Reports;
    hide TransactionSound;
    match r.phase
    case Inspecting(k, rows) =>
      InspectSound(c, db, r, k, rows);
    case Adopting(k) =>
      if k < |c.migrations| {
        TransactionsSound(c, db, r.foreignKeys, k, e);
        ReportSound(c, db, r, k, AdoptTransaction(c, db, r.foreignKeys, c.migrations[k]));
      } else {
        ThrowSound(c, db, r);
      }
    case Applying(k) =>
      if k < |c.migrations| {
        TransactionsSound(c, db, r.foreignKeys, k, e);
        ReportSound(c, db, r, k, ApplyTransaction(c, db, r.foreignKeys, c.migrations[k], e));
      } else {
        ThrowSound(c, db, r);
      }
    case Recording(k) =>
      TransactionsSound(c, db, r.foreignKeys, k, e);
      ReportSound(c, db, r, k, RecordTransaction(c, db, c.migrations[k]));
    case _ =>
      if ChangesSchema(r.phase) {
        RebuildStepSound(c, db, r, e);
      } else {
        PlainStepSound(c, db, r, e);
      }
  }

  lemma ThrowSound(c: Catalog, db: Db, r: Runner)
    requires LedgerSound(c, db) && RunnerSound(c, db, r) && r.foreignKeys
    ensures StepSound(c, db, r, db, Throws(r))
  {
  }

  lemma LedgerBounded(c: Catalog, db: Db)
    requires LedgerSound(c, db)
    ensures |db.ledger| <= |c.migrations|
  {
  }

  lemma InspectSound(c: Catalog, db: Db, r: Runner, k: nat, rows: seq<LedgerRow>)
    requires Sound(c) && LedgerSound(c, db) && RunnerSound(c, db, r) && r.phase == Inspecting(k, rows)
    ensures StepSound(c, db, r, db, Inspect(c, db, r, k, rows))
  {
    hide Validates, LedgerSound;
    LedgerBounded(c, db);
    LedgerRecords(c, db);
    forall i: nat | i < |c.migrations| ensures IsRecorded(rows, c.migrations[i].id) <==> i < |rows| {
      assert RecordsPrefix(c, rows);
      PrefixRecords(c, rows, i);
    }
  }

  lemma LedgerRecords(c: Catalog, db: Db)
    requires LedgerSound(c, db)
    ensures RecordsPrefix(c, db.ledger)
  {
  }

  // ---------- runs ----------

  lemma StepKeepsInvariant(c: Catalog, s: State, step: Step)
    requires Sound(c) && Invariant(c, s)
    ensures Invariant(c, Next(c, s, step)) && Grows(s.db, Next(c, s, step).db)
  {
    hide RunnerStep, LedgerSound, RunnerSound, Interrupted;
    var t := Next(c, s, step);
    match step
    case Launch(foreignKeys) =>
      LaunchSound(c, s.db, foreignKeys);
    case Advance(i, e) =>
      if i < |s.runners| {
        AdvanceKeepsInvariant(c, s, i, e);
      }
    case Crash(i) =>
      if i < |s.runners| {
        StopSound(c, s.db, s.runners[i]);
      }
    case Busy(i) =>
      if i < |s.runners| {
        StopSound(c, s.db, s.runners[i]);
      }
    case OtherWrites(e) =>
      GrowthKeepsLedger(c, s.db, t.db);
      LedgerBounded(c, t.db);
      forall i | 0 <= i < |s.runners| ensures RunnerSound(c, t.db, s.runners[i]) {
        OthersStaySound(c, s.db, t.db, s.runners[i]);
      }
  }

  lemma LaunchSound(c: Catalog, db: Db, foreignKeys: bool)
    ensures RunnerSound(c, db, Runner(Starting, foreignKeys, [], |db.ledger| == |c.migrations|))
  {
  }

  lemma StopSound(c: Catalog, db: Db, r: Runner)
    requires RunnerSound(c, db, r)
    ensures RunnerSound(c, db, r.(phase := Crashed)) && RunnerSound(c, db, Interrupted(r))
    ensures Interrupted(r).reports == r.reports
  {
  }

  lemma AdvanceKeepsInvariant(c: Catalog, s: State, i: nat, e: Effect)
    requires Sound(c) && Invariant(c, s) && i < |s.runners|
    ensures Invariant(c, Next(c, s, Advance(i, e))) && Grows(s.db, Next(c, s, Advance(i, e)).db)
  {
    hide RunnerStep, LedgerSound, RunnerSound;
    var (after, r') := RunnerStep(c, s.db, s.runners[i], e);
    var t := Next(c, s, Advance(i, e));
    RunnerStepSound(c, s.db, s.runners[i], e);
    LedgerBounded(c, after);
    forall j | 0 <= j < |t.runners| ensures RunnerSound(c, after, t.runners[j]) {
      if j != i {
        OthersStaySound(c, s.db, after, s.runners[j]);
      }
    }
    forall j | 0 <= j < |s.runners| ensures |s.runners[j].reports| <= |s.db.ledger| {
      ReportsWithinLedger(c, s.db, s.runners[j]);
    }
  }

  lemma ReportsWithinLedger(c: Catalog, db: Db, r: Runner)
    requires RunnerSound(c, db, r)
    ensures |r.reports| <= |db.ledger|
  {
  }

  /** Over every interleaving and crash, the invariant holds and the database only gains. */
  lemma {:induction false} RunKeepsInvariant(c: Catalog, s: State, steps: seq<Step>)
    requires Sound(c) && Invariant(c, s)
    ensures Invariant(c, Run(c, s, steps)) && Grows(s.db, Run(c, s, steps).db)
    decreases |steps|
  {
    hide Next, Invariant;
    if steps != [] {
      StepKeepsInvariant(c, s, steps[0]);
      RunKeepsInvariant(c, Next(c, s, steps[0]), steps[1..]);
    }
  }

  /** Whatever runners do to a database with a sound ledger: the ledger is a prefix of the catalogue and
      recorded migrations are installed; none is recorded twice; a normal return leaves all recorded and
      enforcement on; a rerun reports only "unchanged"; a throw leaves enforcement on as well. */
  lemma RunsAreSafe(c: Catalog, db: Db, steps: seq<Step>)
    requires Sound(c) && LedgerSound(c, db)
    ensures var s := Run(c, State(db, []), steps);
      && db.ledger <= s.db.ledger && RecordsPrefix(c, s.db.ledger) && RecordedInstalled(s.db.ledger, s.db)
      && (forall i, j | 0 <= i < j < |s.db.ledger| :: s.db.ledger[i].id != s.db.ledger[j].id)
      && (forall i | 0 <= i < |s.runners| && s.runners[i].phase == Returned ::
            |s.db.ledger| == |c.migrations| == |s.runners[i].reports| && s.runners[i].foreignKeys)
      && (forall i | 0 <= i < |s.runners| && s.runners[i].phase == Threw :: s.runners[i].foreignKeys)
      && (forall i, k | 0 <= i < |s.runners| && s.runners[i].startedCurrent && 0 <= k < |s.runners[i].reports| ::
            s.runners[i].reports[k] == Unchanged)
      && ReportedOnce(s.runners)
  {
    hide Next, ReportedOnce, Run;
    StartSound(c, db);
    RunKeepsInvariant(c, State(db, []), steps);
    var s := Run(c, State(db, []), steps);
    forall i, j | 0 <= i < j < |s.db.ledger| ensures s.db.ledger[i].id != s.db.ledger[j].id {
      assert Matches(c, s.db.ledger[i], c.migrations[i]) && Matches(c, s.db.ledger[j], c.migrations[j]);
    }
  }

  lemma StartSound(c: Catalog, db: Db)
    requires LedgerSound(c, db)
    ensures Invariant(c, State(db, []))
  {
  }
}
