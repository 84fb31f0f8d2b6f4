/** Reminder delivery by any number of workers over one organisation's rows. */
module Reminders {
  import opened Primitives
  import opened Text
  import opened Sorting

  type Id = int
  type Time = int

  datatype Status = Pending | Processing | Sent | Cancelled | Failed
  datatype Channel = Email | InApp

  datatype Row = Row(
    scheduledFor: Time, channel: Channel, status: Status, attemptCount: nat, lastAttemptAt: Option<Time>,
    sentAt: Option<Time>, errorMessage: Option<Text>, retryEligible: bool, nextAttemptAt: Option<Time>, updatedAt: Time)

  function NewRow(scheduledFor: Time, channel: Channel, at: Time): (r: Row) {
    Row(scheduledFor, channel, Pending, 0, None, None, None, false, None, at)
  }

  // ---------- what one statement does to one row ----------

  function SafeMaxAttempts(maxAttempts: int): (r: nat)
    ensures 1 <= r <= 10 && (1 <= maxAttempts <= 10 ==> r == maxAttempts)
    ensures (maxAttempts < 1 ==> r == 1) && (maxAttempts > 10 ==> r == 10)
  {
    if maxAttempts < 1 then 1 else if maxAttempts > 10 then 10 else maxAttempts
  }

  predicate NotAfter(a: Option<Time>, b: Option<Time>) {
    a.Some? && b.Some? && a.value <= b.value
  }

  predicate Claimable(row: Row, at: Time, staleBefore: Option<Time>, maxAttempts: int) {
    || (row.status == Pending && row.scheduledFor <= at)
    || (row.status == Failed && row.retryEligible && NotAfter(row.nextAttemptAt, Some(at)))
    || (row.status == Processing && NotAfter(row.lastAttemptAt, staleBefore)
        && row.attemptCount < SafeMaxAttempts(maxAttempts))
  }

  function Claimed(row: Row, at: Time): (r: Row) {
    row.(status := Processing, attemptCount := row.attemptCount + 1, lastAttemptAt := Some(at),
         retryEligible := false, nextAttemptAt := None, updatedAt := at)
  }

  predicate Sweepable(row: Row, staleBefore: Time, maxAttempts: int) {
    row.status == Processing && NotAfter(row.lastAttemptAt, Some(staleBefore))
        && row.attemptCount >= SafeMaxAttempts(maxAttempts)
  }

  function Swept(row: Row, message: Text, at: Time): (r: Row) {
    row.(status := Failed, retryEligible := false, nextAttemptAt := None, errorMessage := Some(message),
        updatedAt := at)
  }

  /** The inputs of `markReminder`. */
  datatype Marking = Marking(
    status: Status, errorMessage: Option<Text>, retryAt: Option<Time>, claimedAt: Option<Time>,
        attemptNumber: Option<int>, at: Time)

  predicate IsCompletion(m: Marking) {
    m.status == Sent || m.status == Failed
  }

  /** Otherwise the source throws a RangeError and changes nothing. */
  predicate Accepted(m: Marking) {
    && m.status in {Sent, Cancelled, Failed}
    && (m.retryAt.Some? ==> m.status == Failed && m.retryAt.value > m.at)
    && (IsCompletion(m) ==>
        m.claimedAt.Some? && m.attemptNumber.Some? && 1 <= m.attemptNumber.value <= MAX_SAFE_INTEGER)
  }

  predicate Markable(row: Row, m: Marking) {
    || (IsCompletion(m) && row.status == Processing && row.lastAttemptAt.Some? && row.lastAttemptAt == m.claimedAt
        && m.attemptNumber == Some(row.attemptCount))
    || (m.status == Cancelled && row.status in {Pending, Failed})
  }

  function Marked(row: Row, m: Marking): (r: Row) {
    row.(status := m.status,
         sentAt := if m.status == Sent then Some(m.at) else row.sentAt,
         errorMessage := if m.status == Sent then None else m.errorMessage,
         retryEligible := m.status == Failed && m.retryAt.Some?,
         nextAttemptAt := if m.status == Failed then m.retryAt else None,
         updatedAt := m.at)
  }

  // ---------- statements and their effects ----------

  datatype Operation =
    | Create(id: Id, scheduledFor: Time, channel: Channel, at: Time)
    | Claim(id: Id, at: Time, staleBefore: Option<Time>, maxAttempts: int)
    | Mark(id: Id, marking: Marking)
    | Sweep(cutoff: Time, maxAttempts: int, message: Text, at: Time)

  /** What an operation does to one row: a settlement ends the attempt it names. */
  datatype Effect = Nothing | Claims(claimedAt: Time, attempt: nat) | Settles(claimedAt: Time, attempt: nat,
      scheduled: bool) | Cancels

  function EffectOn(id: Id, row: Row, op: Operation): (r: Effect) {
    match op
    case Create(_, _, _, _) => Nothing
    case Claim(target, at, staleBefore, maxAttempts) =>
      if target == id && Claimable(row, at, staleBefore, maxAttempts) then Claims(at, row.attemptCount + 1) else Nothing
    case Mark(target, m) =>
      if target == id && Accepted(m) && Markable(row, m) then
        if m.status == Cancelled then Cancels else Settles(m.claimedAt.value, m.attemptNumber.value, m.retryAt.Some?)
      else Nothing
    case Sweep(staleBefore, maxAttempts, message, at) =>
      if Sweepable(row, staleBefore, maxAttempts) then Settles(row.lastAttemptAt.value, row.attemptCount, false)
          else Nothing
  }

  function After(id: Id, row: Row, op: Operation): (r: Row) {
    if EffectOn(id, row, op) == Nothing then row
    else
      match op
      case Claim(_, at, _, _) => Claimed(row, at)
      case Mark(_, m) => Marked(row, m)
      case Sweep(_, _, message, at) => Swept(row, message, at)
  }

  // ---------- the table ----------

  datatype ClaimToken = ClaimToken(claimedAt: Time, attemptNumber: nat)

  /** Listed as due: claimable, and a failed row only if it is an email with attempts left. */
  predicate IsDue(row: Row, at: Time, staleBefore: Option<Time>, maxAttempts: int) {
    || (row.status == Pending && row.scheduledFor <= at)
    || (row.status == Failed && row.channel == Email && row.retryEligible && NotAfter(row.nextAttemptAt, Some(at))
        && row.attemptCount < SafeMaxAttempts(maxAttempts))
    || (row.status == Processing && NotAfter(row.lastAttemptAt, staleBefore)
        && row.attemptCount < SafeMaxAttempts(maxAttempts))
  }

  function SafeLimit(limit: int): (r: nat)
    ensures 1 <= r <= 500 && (1 <= limit <= 500 ==> r == limit)
    ensures (limit < 1 ==> r == 1) && (limit > 500 ==> r == 500)
  {
    if limit < 1 then 1 else if limit > 500 then 500 else limit
  }

  datatype Due = Due(scheduledFor: Time, id: Id)

  predicate Sooner(a: Due, b: Due) {
    a.scheduledFor < b.scheduledFor || (a.scheduledFor == b.scheduledFor && a.id < b.id)
  }

  class ReminderTable {
    var rows: map<Id, Row>

    constructor ()
      ensures rows == map[]
    {
      rows := map[];
    }

    method CreateReminder(id: Id, scheduledFor: Time, channel: Channel, at: Time) returns (ok: bool)
      modifies this
      ensures ok == (id !in old(rows))
      ensures rows == TableAfter(old(rows), Create(id, scheduledFor, channel, at))
    {
      ok := id !in rows;
      if ok {
        rows := rows[id := NewRow(scheduledFor, channel, at)];
      }
    }

    method ClaimReminder(id: Id, at: Time, staleBefore: Option<Time>, maxAttempts: int)
        returns (claim: Option<ClaimToken>)
      modifies this
      ensures rows == TableAfter(old(rows), Claim(id, at, staleBefore, maxAttempts))
      ensures claim.Some? <==>
          id in old(rows) && EffectOn(id, old(rows)[id], Claim(id, at, staleBefore, maxAttempts)).Claims?
      ensures claim.Some? ==>
        EffectOn(id, old(rows)[id], Claim(id, at, staleBefore, maxAttempts))
            == Claims(claim.value.claimedAt, claim.value.attemptNumber)
    {
      if id in rows && Claimable(rows[id], at, staleBefore, maxAttempts) {
        rows := rows[id := Claimed(rows[id], at)];
        return Some(ClaimToken(at, rows[id].attemptCount));
      }
      return None;
    }

    /** None where the source throws. A status of processing is a claim, which alone uses the last two inputs. */
    method MarkReminder(id: Id, m: Marking, staleBefore: Option<Time>, maxAttempts: int) returns (changed: Option<bool>)
      requires m.status != Pending
      modifies this
      ensures m.status == Processing ==> rows == TableAfter(old(rows), Claim(id, m.at, staleBefore, maxAttempts))
      ensures m.status == Processing ==>
        changed == Some(id in old(rows)
            && EffectOn(id, old(rows)[id], Claim(id, m.at, staleBefore, maxAttempts)).Claims?)
      ensures m.status != Processing ==> rows == TableAfter(old(rows), Mark(id, m))
      ensures m.status != Processing ==> (changed == None <==> !Accepted(m))
      ensures m.status != Processing ==>
          (changed == Some(true) <==> id in old(rows) && EffectOn(id, old(rows)[id], Mark(id, m)) != Nothing)
    {
      if m.status == Processing {
        var claim := ClaimReminder(id, m.at, staleBefore, maxAttempts);
        return Some(claim.Some?);
      }
      if m.retryAt.Some? && (m.status != Failed || m.retryAt.value <= m.at) {
        return None;
      }
      if (m.status == Sent || m.status == Failed)
         && (m.claimedAt == None || m.attemptNumber == None || m.attemptNumber.value > MAX_SAFE_INTEGER
             || m.attemptNumber.value < 1) {
        return None;
      }
      if id in rows && Markable(rows[id], m) {
        rows := rows[id := Marked(rows[id], m)];
        return Some(true);
      }
      return Some(false);
    }

    method FailExhaustedStaleClaims(staleBefore: Time, maxAttempts: int, message: Text, at: Time) returns (changes: nat)
      modifies this
      ensures rows == TableAfter(old(rows), Sweep(staleBefore, maxAttempts, message, at))
      ensures changes == |set id | id in old(rows)
          && EffectOn(id, old(rows)[id], Sweep(staleBefore, maxAttempts, message, at)) != Nothing|
    {
      var hit := set id | id in rows && Sweepable(rows[id], staleBefore, maxAttempts);
      assert hit == set id | id in rows
          && EffectOn(id, rows[id], Sweep(staleBefore, maxAttempts, message, at)) != Nothing;
      rows := map id | id in rows :: if id in hit then Swept(rows[id], message, at) else rows[id];
      return |hit|;
    }

    /** The first due rows by schedule and id. */
    method ListDueReminders(at: Time, limit: int, maxAttempts: int, staleBefore: Option<Time>) returns (due: seq<Due>)
      ensures forall d | d in due ::
          d.id in rows && d.scheduledFor == rows[d.id].scheduledFor && IsDue(rows[d.id], at, staleBefore, maxAttempts)
      ensures SortedBy(due, Sooner) && |due| <= SafeLimit(limit)
      ensures forall id | id in rows && IsDue(rows[id], at, staleBefore, maxAttempts) ::
        var d := Due(rows[id].scheduledFor, id);
        d in due || (due != [] && Sooner(due[|due| - 1], d) && |due| == SafeLimit(limit))
    {
      var safeLimit := SafeLimit(limit);
      var all := SelectDue(at, maxAttempts, staleBefore);
      var sorted := SortBy(all, Sooner);
      SortBySorts(all, Sooner);
      SameElements(all, sorted);
      due := if |sorted| <= safeLimit then sorted else sorted[..safeLimit];
    }

    method SelectDue(at: Time, maxAttempts: int, staleBefore: Option<Time>) returns (all: seq<Due>)
      ensures Distinct(all)
      ensures forall d | d in all ::
          d.id in rows && d.scheduledFor == rows[d.id].scheduledFor && IsDue(rows[d.id], at, staleBefore, maxAttempts)
      ensures forall id | id in rows && IsDue(rows[id], at, staleBefore, maxAttempts) ::
          Due(rows[id].scheduledFor, id) in all
    {
      hide IsDue;
      all := [];
      var rest: set<Id> := rows.Keys;
      while rest != {}
        invariant rest <= rows.Keys && Distinct(all)
        invariant forall d | d in all ::
          d.id in rows && d.id !in rest && d.scheduledFor == rows[d.id].scheduledFor
              && IsDue(rows[d.id], at, staleBefore, maxAttempts)
        invariant forall id | id in rows && id !in rest && IsDue(rows[id], at, staleBefore, maxAttempts) ::
          Due(rows[id].scheduledFor, id) in all
        decreases |rest|
      {
        var id := Pick(rest);
        if IsDue(rows[id], at, staleBefore, maxAttempts) {
          all := all + [Due(rows[id].scheduledFor, id)];
        }
        rest := rest - {id};
      }
    }
  }

  lemma SameElements<T(!new)>(s: seq<T>, t: seq<T>)
    requires Elements(s) == Elements(t)
    ensures forall x :: x in s <==> x in t
  {
    forall x ensures x in s <==> x in t {
      assert x in Elements(s) <==> x in Elements(t);
    }
  }

  method Pick<T>(xs: set<T>) returns (x: T)
    requires xs != {}
    ensures x in xs
  {
    x :| x in xs;
  }

  /** The row a creation adds. */
  function CreatedRow(op: Operation): (r: Row)
    requires op.Create?
  {
    NewRow(op.scheduledFor, op.channel, op.at)
  }

  /** Every row goes its own way, and a creation adds a row unless its id is taken. */
  function TableAfter(rows: map<Id, Row>, op: Operation): (r: map<Id, Row>) {
    var stepped := map id | id in rows :: After(id, rows[id], op);
    if op.Create? && op.id !in rows then stepped[op.id := CreatedRow(op)] else stepped
  }

  // ---------- runs ----------

  function TableFinal(rows: map<Id, Row>, ops: seq<Operation>): (r: map<Id, Row>) {
    if ops == [] then rows else TableAfter(TableFinal(rows, ops[..|ops| - 1]), ops[|ops| - 1])
  }

  function Final(id: Id, row: Row, ops: seq<Operation>): (r: Row) {
    if ops == [] then row else After(id, Final(id, row, ops[..|ops| - 1]), ops[|ops| - 1])
  }

  function Effects(id: Id, row: Row, ops: seq<Operation>): (r: seq<Effect>)
    ensures |r| == |ops|
  {
    if ops == [] then []
    else
      var last := |ops| - 1;
      Effects(id, row, ops[..last]) + [EffectOn(id, Final(id, row, ops[..last]), ops[last])]
  }

  /** The operation at place n created the row, which has since gone its own way. */
  ghost predicate CreatedAt(rows: map<Id, Row>, ops: seq<Operation>, id: Id, n: int) {
    && 0 <= n < |ops| && ops[n].Create? && ops[n].id == id && id !in TableFinal(rows, ops[..n])
    && id in TableFinal(rows, ops) && TableFinal(rows, ops)[id] == Final(id, CreatedRow(ops[n]), ops[n + 1..])
  }

  lemma CreatedStays(rows: map<Id, Row>, ops: seq<Operation>, id: Id, n: int)
    requires ops != [] && CreatedAt(rows, ops[..|ops| - 1], id, n)
    ensures CreatedAt(rows, ops, id, n)
  {
    hide After;
    var last := |ops| - 1;
    assert ops[..last][..n] == ops[..n];
    assert ops[n + 1..][..last - (n + 1)] == ops[..last][n + 1..];
  }

  lemma CreatedNow(rows: map<Id, Row>, ops: seq<Operation>)
    requires ops != [] && ops[|ops| - 1].Create? && ops[|ops| - 1].id !in TableFinal(rows, ops[..|ops| - 1])
    ensures CreatedAt(rows, ops, ops[|ops| - 1].id, |ops| - 1)
  {
    hide After;
    assert ops[|ops|..] == [];
  }

  /** A run of the whole table, by whatever workers, is a run of each of its rows: of an old row from the start, of
      a new one from its creation; no row ever goes away. */
  lemma {:induction false} TableRunsAreRowRuns(rows: map<Id, Row>, ops: seq<Operation>)
    ensures rows.Keys <= TableFinal(rows, ops).Keys
    ensures forall id | id in rows :: TableFinal(rows, ops)[id] == Final(id, rows[id], ops)
    ensures forall id | id in TableFinal(rows, ops) && id !in rows :: exists n :: CreatedAt(rows, ops, id, n)
  {
    hide After, CreatedAt, CreatedRow;
    if ops != [] {
      var last := |ops| - 1;
      TableRunsAreRowRuns(rows, ops[..last]);
      var before := TableFinal(rows, ops[..last]);
      forall id | id in TableFinal(rows, ops) && id !in rows ensures exists n :: CreatedAt(rows, ops, id, n) {
        if id in before {
          var n :| CreatedAt(rows, ops[..last], id, n);
          CreatedStays(rows, ops, id, n);
        } else {
          CreatedNow(rows, ops);
        }
      }
    }
  }

  // ---------- what every operation keeps ----------

  ghost predicate Coherent(row: Row) {
    && (row.retryEligible <==> row.status == Failed && row.nextAttemptAt.Some?)
    && (row.nextAttemptAt.Some? ==> row.status == Failed)
    && (row.status == Processing ==> row.attemptCount >= 1)
    && (row.attemptCount >= 1 <==> row.lastAttemptAt.Some?)
    && (row.sentAt.Some? <==> row.status == Sent)
  }

  lemma AfterKeepsCoherent(id: Id, row: Row, op: Operation)
    requires Coherent(row)
    ensures Coherent(After(id, row, op))
  {
  }

  /** Only a claim moves the token, to the time and number it reports; nothing moves the schedule or the channel. */
  lemma OnlyClaimsMoveTokens(id: Id, row: Row, op: Operation)
    ensures var e, after := EffectOn(id, row, op), After(id, row, op);
      && after.scheduledFor == row.scheduledFor && after.channel == row.channel
      && (if e.Claims? then after.status == Processing && after.lastAttemptAt == Some(e.claimedAt)
          && after.attemptCount == e.attempt
          else after.lastAttemptAt == row.lastAttemptAt && after.attemptCount == row.attemptCount)
      && (e.Settles? ==> row.status == Processing && row.attemptCount == e.attempt && after.status in {Sent, Failed})
      && (e.Settles? ==> (e.scheduled <==> after.retryEligible))
      && (e.Cancels? ==> row.status in {Pending, Failed} && after.status == Cancelled)
  {
  }

  /** In every reachable row a retry is eligible exactly when the row failed and has a next attempt time. */
  lemma {:induction false} RunsKeepCoherent(id: Id, row: Row, ops: seq<Operation>)
    requires Coherent(row)
    ensures Coherent(Final(id, row, ops))
  {
    hide After, Coherent;
    if ops != [] {
      RunsKeepCoherent(id, row, ops[..|ops| - 1]);
      AfterKeepsCoherent(id, Final(id, row, ops[..|ops| - 1]), ops[|ops| - 1]);
    }
  }

  /** Sent and cancelled rows never change again. */
  lemma {:induction false} SentAndCancelledStay(id: Id, row: Row, ops: seq<Operation>)
    requires row.status == Sent || row.status == Cancelled
    ensures Final(id, row, ops) == row && forall i | 0 <= i < |ops| :: Effects(id, row, ops)[i] == Nothing
  {
    if ops != [] {
      SentAndCancelledStay(id, row, ops[..|ops| - 1]);
    }
  }

  lemma NewRowCoherent(scheduledFor: Time, channel: Channel, at: Time)
    ensures Coherent(NewRow(scheduledFor, channel, at))
  {
  }

  /** At every point of every run of a created row, a claim is stale or not; a stale one can be claimed again or swept
      away, and never both, and a fresh one neither. */
  lemma StaleClaimHasOneWay(id: Id, create: Operation, ops: seq<Operation>, at: Time, staleBefore: Time,
      maxAttempts: int)
    requires create.Create? && Final(id, CreatedRow(create), ops).status == Processing
    ensures var row := Final(id, CreatedRow(create), ops);
      row.lastAttemptAt.Some? &&
      if row.lastAttemptAt.value <= staleBefore
      then Claimable(row, at, Some(staleBefore), maxAttempts) <==> !Sweepable(row, staleBefore, maxAttempts)
      else !Claimable(row, at, Some(staleBefore), maxAttempts) && !Sweepable(row, staleBefore, maxAttempts)
  {
    hide Final;
    NewRowCoherent(create.scheduledFor, create.channel, create.at);
    RunsKeepCoherent(id, CreatedRow(create), ops);
  }

  /** A due row can be claimed; a claimable row is due unless it is a failed one that is no email or has no attempts
      left. */
  lemma DueRowsAreClaimable(row: Row, at: Time, staleBefore: Option<Time>, maxAttempts: int)
    ensures IsDue(row, at, staleBefore, maxAttempts) <==>
      Claimable(row, at, staleBefore, maxAttempts)
      && (row.status == Failed ==> row.channel == Email && row.attemptCount < SafeMaxAttempts(maxAttempts))
  {
  }

  // ---------- attempts over a run ----------

  function ClaimCount(effects: seq<Effect>): (n: nat) {
    if effects == [] then 0 else
        ClaimCount(effects[..|effects| - 1]) + (if effects[|effects| - 1].Claims? then 1 else 0)
  }

  lemma OneClaimCounts(id: Id, row: Row, op: Operation)
    ensures After(id, row, op).attemptCount == row.attemptCount + (if EffectOn(id, row, op).Claims? then 1 else 0)
  {
  }

  /** The attempt count is the number of claims that took effect. */
  lemma {:induction false} AttemptsCountClaims(id: Id, row: Row, ops: seq<Operation>)
    ensures Final(id, row, ops).attemptCount == row.attemptCount + ClaimCount(Effects(id, row, ops))
  {
    hide After, EffectOn;
    if ops != [] {
      AttemptsCountClaims(id, row, ops[..|ops| - 1]);
      OneClaimCounts(id, Final(id, row, ops[..|ops| - 1]), ops[|ops| - 1]);
      assert Effects(id, row, ops)[..|ops| - 1] == Effects(id, row, ops[..|ops| - 1]);
    }
  }

  /** Attempt numbers go up with every claim and with every settlement, and stay within the row's count. */
  ghost predicate Increasing(effects: seq<Effect>, row: Row) {
    && (forall i, j | 0 <= i < j < |effects| && effects[i].Claims?
        && effects[j].Claims? :: effects[i].attempt < effects[j].attempt)
    && (forall i, j | 0 <= i < j < |effects| && effects[i].Settles?
        && effects[j].Settles? :: effects[i].attempt < effects[j].attempt)
    && (forall i | 0 <= i < |effects| && effects[i].Claims? :: effects[i].attempt <= row.attemptCount)
    && (forall i | 0 <= i < |effects| && effects[i].Settles? ::
          effects[i].attempt < row.attemptCount || (effects[i].attempt == row.attemptCount && row.status != Processing))
  }

  /** Every settlement follows the claim it names, with nothing in between; so would one of the current claim. */
  ghost predicate Paired(effects: seq<Effect>, row: Row) {
    && (row.status == Processing ==>
          row.lastAttemptAt.Some? && exists i ::
              OpenClaim(effects, i, |effects|, row.lastAttemptAt.value, row.attemptCount))
    && (forall j | 0 <= j < |effects| && effects[j].Settles? ::
          exists i :: OpenClaim(effects, i, j, effects[j].claimedAt, effects[j].attempt))
  }

  ghost predicate Accounted(effects: seq<Effect>, row: Row) {
    Increasing(effects, row) && Paired(effects, row)
  }

  /** The claim at place i, of that time and attempt, and nothing since, up to place j. */
  ghost predicate OpenClaim(effects: seq<Effect>, i: int, j: int, claimedAt: Time, attempt: nat) {
    && 0 <= i < j <= |effects| && effects[i] == Claims(claimedAt, attempt)
    && forall k | i < k < j :: effects[k] == Nothing
  }

  lemma OpenClaimLonger(effects: seq<Effect>, e: Effect, i: int, j: int, claimedAt: Time, attempt: nat)
    requires OpenClaim(effects, i, j, claimedAt, attempt)
    ensures OpenClaim(effects + [e], i, j, claimedAt, attempt)
    ensures j == |effects| && e == Nothing ==> OpenClaim(effects + [e], i, j + 1, claimedAt, attempt)
  {
  }

  lemma AfterKeepsIncreasing(id: Id, effects: seq<Effect>, row: Row, op: Operation)
    requires Increasing(effects, row)
    ensures Increasing(effects + [EffectOn(id, row, op)], After(id, row, op))
  {
    hide Claimable;
  }

  lemma AfterKeepsPaired(id: Id, effects: seq<Effect>, row: Row, op: Operation)
    requires Paired(effects, row)
    ensures Paired(effects + [EffectOn(id, row, op)], After(id, row, op))
  {
    hide OpenClaim, Claimable;
    var e, row' := EffectOn(id, row, op), After(id, row, op);
    var longer := effects + [e];
    forall i, j, t, n | OpenClaim(effects, i, j, t, n)
      ensures OpenClaim(longer, i, j, t, n) && (j == |effects| && e == Nothing ==> OpenClaim(longer, i, j + 1, t, n))
    {
      OpenClaimLonger(effects, e, i, j, t, n);
    }
    if row'.status == Processing {
      assert e.Claims? || (e == Nothing && row' == row);
      if e.Claims? {
        NewClaimOpen(effects, e);
      } else {
        var i :| OpenClaim(effects, i, |effects|, row.lastAttemptAt.value, row.attemptCount);
        assert OpenClaim(longer, i, |longer|, row.lastAttemptAt.value, row.attemptCount);
      }
    }
    forall j | 0 <= j < |longer| && longer[j].Settles?
      ensures exists i :: OpenClaim(longer, i, j, longer[j].claimedAt, longer[j].attempt)
    {
      if j < |effects| {
        var i :| OpenClaim(effects, i, j, effects[j].claimedAt, effects[j].attempt);
      } else {
        var i :| OpenClaim(effects, i, j, row.lastAttemptAt.value, row.attemptCount);
      }
    }
  }

  lemma NewClaimOpen(effects: seq<Effect>, e: Effect)
    requires e.Claims?
    ensures OpenClaim(effects + [e], |effects|, |effects| + 1, e.claimedAt, e.attempt)
  {
  }

  /** Along every run of a new row: no claim token repeats, each attempt is settled at most once, and
      what settles an attempt is the holder of the latest claim, with nothing in between. */
  lemma {:induction false} EachAttemptSettlesOnce(id: Id, row: Row, ops: seq<Operation>)
    requires row.status == Pending
    ensures Accounted(Effects(id, row, ops), Final(id, row, ops))
  {
    hide Increasing, Paired, After, EffectOn;
    if ops == [] {
      NothingAccounted(row);
    } else {
      var effects, before := Effects(id, row, ops[..|ops| - 1]), Final(id, row, ops[..|ops| - 1]);
      EachAttemptSettlesOnce(id, row, ops[..|ops| - 1]);
      AfterKeepsIncreasing(id, effects, before, ops[|ops| - 1]);
      AfterKeepsPaired(id, effects, before, ops[|ops| - 1]);
    }
  }

  lemma NothingAccounted(row: Row)
    requires row.status != Processing
    ensures Accounted([], row)
  {
  }

  /** The same for a whole table that starts empty: every row it ever holds was created once, is coherent, and its
      claims and settlements since then are accounted for. */
  lemma EveryRowAccounted(ops: seq<Operation>, id: Id)
    requires id in TableFinal(map[], ops)
    ensures Coherent(TableFinal(map[], ops)[id])
    ensures exists n :: CreatedAt(map[], ops, id, n)
              && Accounted(Effects(id, CreatedRow(ops[n]), ops[n + 1..]), TableFinal(map[], ops)[id])
  {
    hide Accounted, Coherent, TableFinal, Final, Effects;
    TableRunsAreRowRuns(map[], ops);
    var n :| CreatedAt(map[], ops, id, n);
    NewRowCoherent(ops[n].scheduledFor, ops[n].channel, ops[n].at);
    RunsKeepCoherent(id, CreatedRow(ops[n]), ops[n + 1..]);
    EachAttemptSettlesOnce(id, CreatedRow(ops[n]), ops[n + 1..]);
  }

  // ---------- the bound on attempts ----------

  /** No claim allows more attempts than the maximum. */
  ghost predicate UsesMaximum(ops: seq<Operation>, maximum: nat) {
    forall i | 0 <= i < |ops| && ops[i].Claim? :: SafeMaxAttempts(ops[i].maxAttempts) <= maximum
  }

  /** Some retry is scheduled although the attempt it follows is the maximum or beyond. */
  ghost predicate RetriesTooLate(effects: seq<Effect>, maximum: nat) {
    exists i | 0 <= i < |effects| :: effects[i].Settles? && effects[i].scheduled && effects[i].attempt >= maximum
  }

  /** Claims stay within the maximum as long as retries are scheduled only below it. */
  lemma {:induction false} ClaimsWithinMaximum(id: Id, row: Row, ops: seq<Operation>, maximum: nat)
    requires Coherent(row) && row.status == Pending && row.attemptCount == 0 && maximum >= 1
    requires UsesMaximum(ops, maximum) && !RetriesTooLate(Effects(id, row, ops), maximum)
    ensures Final(id, row, ops).attemptCount <= maximum
    ensures Final(id, row, ops).status == Pending ==> Final(id, row, ops).attemptCount == 0
    ensures Final(id, row, ops).retryEligible ==> Final(id, row, ops).attemptCount < maximum
  {
    if ops != [] {
      var last := |ops| - 1;
      var effects := Effects(id, row, ops);
      assert effects[..last] == Effects(id, row, ops[..last]);
      assert forall i | 0 <= i < last :: effects[i] == Effects(id, row, ops[..last])[i];
      ClaimsWithinMaximum(id, row, ops[..last], maximum);
      assert !(effects[last].Settles? && effects[last].scheduled && effects[last].attempt >= maximum);
    }
  }

  /** And only then: after a retry scheduled too late, claiming at its time goes past the maximum. */
  lemma LateRetryExceeds(id: Id, row: Row, m: Marking, maximum: nat, claim: Operation)
    requires var e := EffectOn(id, row, Mark(id, m)); e.Settles? && e.scheduled && e.attempt >= maximum
    requires claim.Claim? && claim.id == id && claim.at >= m.retryAt.value
    ensures After(id, After(id, row, Mark(id, m)), claim).attemptCount > maximum
  {
  }

  lemma {:induction false} EffectsOfPrefix(id: Id, row: Row, ops: seq<Operation>, n: nat)
    requires n <= |ops|
    ensures Effects(id, row, ops[..n]) == Effects(id, row, ops)[..n]
  {
    if n < |ops| {
      EffectsOfPrefix(id, row, ops[..|ops| - 1], n);
      assert ops[..|ops| - 1][..n] == ops[..n];
    } else {
      assert ops[..n] == ops;
    }
  }

  /** At some point of the run the next claim, with that maximum too, goes past it. */
  ghost predicate MayExceed(id: Id, row: Row, ops: seq<Operation>, maximum: nat) {
    exists n, claim :: ClaimExceeds(id, row, ops, n, claim, maximum)
  }

  ghost predicate ClaimExceeds(id: Id, row: Row, ops: seq<Operation>, n: int, claim: Operation, maximum: nat) {
    && 0 <= n <= |ops| && claim.Claim? && SafeMaxAttempts(claim.maxAttempts) <= maximum
    && After(id, Final(id, row, ops[..n]), claim).attemptCount > maximum
  }

  /** The maximum can be exceeded exactly when some retry was scheduled at it or beyond. */
  lemma MaximumHoldsExactly(id: Id, row: Row, ops: seq<Operation>, maximum: nat)
    requires Coherent(row) && row.status == Pending && row.attemptCount == 0 && maximum >= 1
        && UsesMaximum(ops, maximum)
    ensures MayExceed(id, row, ops, maximum) <==> RetriesTooLate(Effects(id, row, ops), maximum)
  {
    hide After, EffectOn, Coherent;
    if MayExceed(id, row, ops, maximum) {
      var n, claim :| ClaimExceeds(id, row, ops, n, claim, maximum);
      ExceedingRun(id, row, ops, n, claim, maximum);
    }
    if RetriesTooLate(Effects(id, row, ops), maximum) {
      var i :| 0 <= i < |ops| && var e := Effects(id, row, ops)[i]; e.Settles? && e.scheduled && e.attempt >= maximum;
      EffectsOfPrefix(id, row, ops, i + 1);
      assert ops[..i + 1][..i] == ops[..i];
      var before := Final(id, row, ops[..i]);
      assert EffectOn(id, before, ops[i]) == Effects(id, row, ops[..i + 1])[i];
      OnlyMarksSchedule(id, before, ops[i]);
      var m := ops[i].marking;
      var claim := Claim(id, m.retryAt.value, None, 1);
      LateRetryExceeds(id, before, m, maximum, claim);
      assert ClaimExceeds(id, row, ops, i + 1, claim, maximum);
    }
  }

  lemma OnlyMarksSchedule(id: Id, row: Row, op: Operation)
    requires EffectOn(id, row, op).Settles? && EffectOn(id, row, op).scheduled
    ensures op.Mark? && op.id == id && op.marking.retryAt.Some?
  {
  }

  lemma ExceedingRun(id: Id, row: Row, ops: seq<Operation>, n: nat, claim: Operation, maximum: nat)
    requires Coherent(row) && row.status == Pending && row.attemptCount == 0 && maximum >= 1
        && UsesMaximum(ops, maximum)
    requires ClaimExceeds(id, row, ops, n, claim, maximum)
    ensures RetriesTooLate(Effects(id, row, ops), maximum)
  {
    hide After, Coherent;
    var run := ops[..n] + [claim];
    assert run[..n] == ops[..n] && UsesMaximum(run, maximum);
    if !RetriesTooLate(Effects(id, row, run), maximum) {
      ClaimsWithinMaximum(id, row, run, maximum);
    }
    EffectsOfPrefix(id, row, ops, n);
    var i :| 0 <= i < |run| && var e := Effects(id, row, run)[i]; e.Settles? && e.scheduled && e.attempt >= maximum;
    ClaimsDoNotSettle(id, Final(id, row, ops[..n]), claim);
    assert Effects(id, row, run)[i] == Effects(id, row, ops)[i];
  }

  lemma ClaimsDoNotSettle(id: Id, row: Row, claim: Operation)
    requires claim.Claim?
    ensures !EffectOn(id, row, claim).Settles?
  {
  }
}
