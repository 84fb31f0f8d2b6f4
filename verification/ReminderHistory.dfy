/** What may happen to a reminder next, told from the history of its row alone. */
module ReminderHistory {
  import opened Primitives
  import opened Text
  import opened Reminders

  /** Nothing has happened to the row since it was created. */
  ghost predicate Untouched(id: Id, create: Operation, ops: seq<Operation>)
    requires create.Create?
  {
    var effects := Effects(id, CreatedRow(create), ops);
    forall k | 0 <= k < |ops| :: effects[k] == Nothing
  }

  /** The operation at place i is the latest that did something to the row. */
  ghost predicate Latest(id: Id, create: Operation, ops: seq<Operation>, i: int)
    requires create.Create?
  {
    var effects := Effects(id, CreatedRow(create), ops);
    && 0 <= i < |ops| && effects[i] != Nothing
    && forall k | i < k < |ops| :: effects[k] == Nothing
  }

  /** The row shows what that operation did. */
  ghost predicate Reflects(row: Row, op: Operation) {
    match op
    case Create(_, _, _, _) => false
    case Claim(_, at, _, _) =>
      && row.status == Processing && row.lastAttemptAt == Some(at) && row.updatedAt == at
      && row.nextAttemptAt == None && !row.retryEligible
    case Mark(_, m) =>
      && row.status == m.status && row.updatedAt == m.at
      && (m.status == Sent ==> row.sentAt == Some(m.at) && row.errorMessage == None)
      && (m.status != Sent ==> row.errorMessage == m.errorMessage)
      && (m.status == Failed ==> row.nextAttemptAt == m.retryAt && row.retryEligible == m.retryAt.Some?)
      && (m.status != Failed ==> row.nextAttemptAt == None && !row.retryEligible)
    case Sweep(_, _, message, at) =>
      && row.status == Failed && row.errorMessage == Some(message) && row.updatedAt == at
      && row.nextAttemptAt == None && !row.retryEligible
  }

  lemma LatestReflects(id: Id, row: Row, op: Operation)
    ensures EffectOn(id, row, op) != Nothing ==> Reflects(After(id, row, op), op)
    ensures EffectOn(id, row, op) == Nothing ==> After(id, row, op) == row
    ensures After(id, row, op).scheduledFor == row.scheduledFor && After(id, row, op).channel == row.channel
  {
  }

  /** An untouched row is as it was created; any other reflects the latest operation that did something to it. */
  lemma {:induction false} RowTells(id: Id, create: Operation, ops: seq<Operation>)
    requires create.Create?
    ensures var row := Final(id, CreatedRow(create), ops);
      && row.scheduledFor == create.scheduledFor && row.channel == create.channel
      && (Untouched(id, create, ops) ==>
            row == Row(create.scheduledFor, create.channel, Pending, 0, None, None, None, false, None, create.at))
      && (forall i | Latest(id, create, ops, i) :: Reflects(row, ops[i]))
      && (Untouched(id, create, ops) || exists i :: Latest(id, create, ops, i))
  {
    hide EffectOn, After, Reflects, Untouched, Latest;
    if ops == [] {
      NothingYet(id, create);
    } else {
      var last := |ops| - 1;
      RowTells(id, create, ops[..last]);
      LatestReflects(id, Final(id, CreatedRow(create), ops[..last]), ops[last]);
      HistoryStep(id, create, ops);
      forall i | Latest(id, create, ops[..last], i) ensures 0 <= i < last && ops[..last][i] == ops[i] {
        LatestInside(id, create, ops[..last], i);
      }
      if !Untouched(id, create, ops) && !Latest(id, create, ops, last) {
        var i :| Latest(id, create, ops[..last], i);
        assert Latest(id, create, ops, i);
      }
    }
  }

  lemma NothingYet(id: Id, create: Operation)
    requires create.Create?
    ensures Untouched(id, create, []) && forall i :: !Latest(id, create, [], i)
  {
  }

  lemma LatestInside(id: Id, create: Operation, ops: seq<Operation>, i: int)
    requires create.Create? && Latest(id, create, ops, i)
    ensures 0 <= i < |ops|
  {
  }

  lemma HistoryStep(id: Id, create: Operation, ops: seq<Operation>)
    requires create.Create? && ops != []
    ensures var last := |ops| - 1;
      var idle := EffectOn(id, Final(id, CreatedRow(create), ops[..last]), ops[last]) == Nothing;
      && (Untouched(id, create, ops) <==> idle && Untouched(id, create, ops[..last]))
      && (forall i :: Latest(id, create, ops, i) <==> if idle then Latest(id, create, ops[..last], i) else i == last)
  {
    hide EffectOn, Final;
    var last := |ops| - 1;
    var effects, before := Effects(id, CreatedRow(create), ops), Effects(id, CreatedRow(create), ops[..last]);
    assert effects == before + [EffectOn(id, Final(id, CreatedRow(create), ops[..last]), ops[last])];
    assert forall k | 0 <= k < last :: effects[k] == before[k];
    if effects[last] == Nothing {
      forall i ensures Latest(id, create, ops, i) <==> Latest(id, create, ops[..last], i) {
      }
    } else {
      forall i ensures Latest(id, create, ops, i) <==> i == last {
      }
    }
  }

  lemma LatestIsOne(id: Id, create: Operation, ops: seq<Operation>, i: int, k: int)
    requires create.Create? && Latest(id, create, ops, i)
    ensures !Untouched(id, create, ops) && (Latest(id, create, ops, k) ==> k == i)
  {
    hide EffectOn;
  }

  /** Attempts are left after n of them, the maximum being taken as one from 1 through 10. */
  ghost predicate Left(n: nat, maxAttempts: int) {
    n < 1 || (n < 10 && n < maxAttempts)
  }

  ghost function Attempts(id: Id, create: Operation, ops: seq<Operation>): nat
    requires create.Create?
  {
    ClaimCount(Effects(id, CreatedRow(create), ops))
  }

  /** The latest that happened is a failure with a retry scheduled for that time. */
  ghost predicate AwaitsRetry(op: Operation, retryAt: Time) {
    op.Mark? && op.marking.status == Failed && op.marking.retryAt == Some(retryAt)
  }

  /** A row can be claimed exactly when it is due for the first time, when its retry is due, or when its latest claim
      is stale and attempts are left. */
  lemma WhenClaimable(id: Id, create: Operation, ops: seq<Operation>, at: Time, staleBefore: Option<Time>,
      maxAttempts: int)
    requires create.Create?
    ensures Claimable(Final(id, CreatedRow(create), ops), at, staleBefore, maxAttempts) <==>
      || (Untouched(id, create, ops) && create.scheduledFor <= at)
      || (exists i :: Latest(id, create, ops, i)
            && (|| (exists t :: AwaitsRetry(ops[i], t) && t <= at)
                || (ops[i].Claim? && staleBefore.Some? && ops[i].at <= staleBefore.value
                    && Left(Attempts(id, create, ops), maxAttempts))))
  {
    hide Final, Effects, ClaimCount, Untouched, Latest;
    var row := Final(id, CreatedRow(create), ops);
    RowTells(id, create, ops);
    AttemptsCountClaims(id, CreatedRow(create), ops);
    if !Untouched(id, create, ops) {
      var i :| Latest(id, create, ops, i);
      forall k ensures Latest(id, create, ops, k) ==> k == i {
        LatestIsOne(id, create, ops, i, k);
      }
      MarkingsSettle(id, create, ops, i);
      if row.status == Failed && row.retryEligible {
        assert AwaitsRetry(ops[i], row.nextAttemptAt.value);
      }
    } else {
      UntouchedHasNone(id, create, ops);
    }
  }

  /** A row is listed as due exactly when it can be claimed, except that a retry is listed only for an e-mail with
      attempts left. */
  lemma WhenDue(id: Id, create: Operation, ops: seq<Operation>, at: Time, staleBefore: Option<Time>, maxAttempts: int)
    requires create.Create?
    ensures IsDue(Final(id, CreatedRow(create), ops), at, staleBefore, maxAttempts) <==>
      && Claimable(Final(id, CreatedRow(create), ops), at, staleBefore, maxAttempts)
      && forall i, t | Latest(id, create, ops, i) && AwaitsRetry(ops[i], t) ::
           create.channel == Email && Left(Attempts(id, create, ops), maxAttempts)
  {
    hide Final, Effects, ClaimCount, Untouched, Latest;
    var row := Final(id, CreatedRow(create), ops);
    RowTells(id, create, ops);
    AttemptsCountClaims(id, CreatedRow(create), ops);
    if !Untouched(id, create, ops) {
      var i :| Latest(id, create, ops, i);
      forall k ensures Latest(id, create, ops, k) ==> k == i {
        LatestIsOne(id, create, ops, i, k);
      }
      MarkingsSettle(id, create, ops, i);
      if row.status == Failed && row.retryEligible {
        assert AwaitsRetry(ops[i], row.nextAttemptAt.value);
      }
    } else {
      UntouchedHasNone(id, create, ops);
    }
  }

  lemma UntouchedHasNone(id: Id, create: Operation, ops: seq<Operation>)
    requires create.Create? && Untouched(id, create, ops)
    ensures forall i :: !Latest(id, create, ops, i)
  {
    hide EffectOn;
  }

  lemma MarkingsSettle(id: Id, create: Operation, ops: seq<Operation>, i: int)
    requires create.Create? && Latest(id, create, ops, i)
    ensures 0 <= i < |ops| && !ops[i].Create?
    ensures ops[i].Mark? ==> ops[i].marking.status in {Sent, Failed, Cancelled}
  {
    EffectsOfPrefix(id, CreatedRow(create), ops, i + 1);
    assert ops[..i + 1][..i] == ops[..i];
    assert Effects(id, CreatedRow(create), ops[..i + 1])[i] == Effects(id, CreatedRow(create), ops)[i];
    OnlyAcceptedMarks(id, Final(id, CreatedRow(create), ops[..i]), ops[i]);
  }

  lemma OnlyAcceptedMarks(id: Id, row: Row, op: Operation)
    ensures EffectOn(id, row, op) != Nothing ==> !op.Create?
    ensures EffectOn(id, row, op) != Nothing && op.Mark? ==> op.marking.status in {Sent, Failed, Cancelled}
  {
  }

  /** A row can be swept away exactly when its latest claim is stale and no attempts are left. */
  lemma WhenSweepable(id: Id, create: Operation, ops: seq<Operation>, cutoff: Time, maxAttempts: int)
    requires create.Create?
    ensures Sweepable(Final(id, CreatedRow(create), ops), cutoff, maxAttempts) <==>
      exists i :: Latest(id, create, ops, i) && ops[i].Claim? && ops[i].at <= cutoff
        && !Left(Attempts(id, create, ops), maxAttempts)
  {
    hide Final, Effects, ClaimCount, Untouched, Latest;
    RowTells(id, create, ops);
    AttemptsCountClaims(id, CreatedRow(create), ops);
    if !Untouched(id, create, ops) {
      var i :| Latest(id, create, ops, i);
      forall k ensures Latest(id, create, ops, k) ==> k == i {
        LatestIsOne(id, create, ops, i, k);
      }
      MarkingsSettle(id, create, ops, i);
    } else {
      UntouchedHasNone(id, create, ops);
    }
  }

  /** An accepted completion changes the row exactly when the latest that happened is the claim it names; an accepted
      cancellation exactly before the first claim or after a failure. */
  lemma WhenMarkable(id: Id, create: Operation, ops: seq<Operation>, m: Marking)
    requires create.Create? && Accepted(m)
    ensures m.status in {Sent, Failed} ==>
      (Markable(Final(id, CreatedRow(create), ops), m) <==>
         exists i :: Latest(id, create, ops, i) && ops[i].Claim?
           && m.claimedAt == Some(ops[i].at) && m.attemptNumber == Some(Attempts(id, create, ops)))
    ensures m.status == Cancelled ==>
      (Markable(Final(id, CreatedRow(create), ops), m) <==>
         || Untouched(id, create, ops)
         || exists i :: Latest(id, create, ops, i)
              && (ops[i].Sweep? || (ops[i].Mark? && ops[i].marking.status == Failed)))
  {
    hide Final, Effects, ClaimCount, Untouched, Latest;
    RowTells(id, create, ops);
    AttemptsCountClaims(id, CreatedRow(create), ops);
    if !Untouched(id, create, ops) {
      var i :| Latest(id, create, ops, i);
      forall k ensures Latest(id, create, ops, k) ==> k == i {
        LatestIsOne(id, create, ops, i, k);
      }
      MarkingsSettle(id, create, ops, i);
    } else {
      UntouchedHasNone(id, create, ops);
    }
  }

  /** A scheduled retry waits: until something else happens to the row it can be claimed at every time from the
      scheduled one on and at none before, and the claim that comes next is no earlier. */
  lemma RetryWaits(id: Id, create: Operation, ops: seq<Operation>, i: int, retryAt: Time, next: Operation,
      at: Time, staleBefore: Option<Time>, maxAttempts: int)
    requires create.Create? && Latest(id, create, ops, i) && AwaitsRetry(ops[i], retryAt)
    ensures Claimable(Final(id, CreatedRow(create), ops), at, staleBefore, maxAttempts) <==> retryAt <= at
    ensures var e := EffectOn(id, Final(id, CreatedRow(create), ops), next); e.Claims? ==> e.claimedAt >= retryAt
  {
    hide Final, Effects, ClaimCount, Untouched, Latest, Claimable;
    forall k ensures Latest(id, create, ops, k) ==> k == i {
      LatestIsOne(id, create, ops, i, k);
    }
    LatestIsOne(id, create, ops, i, i);
    forall other, stale, n
      ensures Claimable(Final(id, CreatedRow(create), ops), other, stale, n) <==> retryAt <= other
    {
      WhenClaimable(id, create, ops, other, stale, n);
    }
  }
}
