/** What crediting one umbrella limit on top of a base limit means. */
module UmbrellaCredit {
  import opened Primitives
  import opened Text
  import opened Sorting
  import opened Calendar
  import opened Compliance

  /** The day a requirement is evaluated for, and the last day cover must reach. */
  datatype Window = Window(date: IsoDate, through: IsoDate)

  ghost predicate Reviewed<T>(document: Document, field: Field<T>) {
    document.reviewStatus == Confirmed && field.confirmation == Confirmed
  }

  /** An umbrella policy of the document whose limit and period a person confirmed, in force for the whole window. */
  ghost predicate Usable(p: Policy, limitType: LimitType, document: Document, w: Window) {
    && p in document.policies && p.coverageType.value == UmbrellaExcessLiability && limitType in p.limits
    && Reviewed(document, p.coverageType) && Reviewed(document, p.limits[limitType])
    && p.effectiveDate.Some? && Reviewed(document, p.effectiveDate.value)
    && p.expirationDate.Some? && Reviewed(document, p.expirationDate.value)
    && EpochDay(p.effectiveDate.value.value) <= EpochDay(w.date)
    && EpochDay(w.through) <= EpochDay(p.expirationDate.value.value)
  }

  /** An umbrella policy of the document with the limit, about which something is still to be confirmed. */
  ghost predicate Undecided(p: Policy, limitType: LimitType, document: Document) {
    && p in document.policies && p.coverageType.value == UmbrellaExcessLiability && limitType in p.limits
    && (|| !Reviewed(document, p.coverageType) || p.limits[limitType].confirmation == Unconfirmed
        || (p.effectiveDate.Some? && p.effectiveDate.value.confirmation == Unconfirmed)
        || (p.expirationDate.Some? && p.expirationDate.value.confirmation == Unconfirmed))
  }

  ghost predicate Greatest(p: Policy, limitType: LimitType, document: Document, w: Window) {
    Usable(p, limitType, document, w)
    && forall q | Usable(q, limitType, document, w) :: q.limits[limitType].value <= p.limits[limitType].value
  }

  /** The umbrella that is credited: of greatest amount, and of those the first by id. */
  ghost predicate Chosen(p: Policy, limitType: LimitType, document: Document, w: Window) {
    Greatest(p, limitType, document, w) && forall q | Greatest(q, limitType, document, w) :: p.id <= q.id
  }

  lemma UmbrellaOfMeans(p: Policy, limitType: LimitType, document: Document, w: Window)
    requires p in document.policies && HasUmbrellaLimit(p, limitType)
    ensures var u := UmbrellaOf(p, limitType, document, w.date, w.through);
      && u.id == p.id && u.amount == p.limits[limitType].value && (u.usable <==> Usable(p, limitType, document, w))
      && (u.indeterminate <==> Undecided(p, limitType, document))
  {
    hide IsIsoDate, EpochDay;
  }

  /** The sorted candidates are what the document's umbrella policies with the limit amount to. */
  lemma CandidatesAre(limitType: LimitType, document: Document, w: Window)
    ensures var us := UmbrellaCandidates(document, limitType, w.date, w.through);
      && (forall u | u in us :: exists p | p in document.policies && HasUmbrellaLimit(p, limitType) ::
            u == UmbrellaOf(p, limitType, document, w.date, w.through))
      && (forall p | p in document.policies && HasUmbrellaLimit(p, limitType) ::
            UmbrellaOf(p, limitType, document, w.date, w.through) in us)
      && WeaklySorted(us, UmbrellaBefore)
  {
    hide UmbrellaOf, IsIsoDate, SortBy, Filter, Map;
    var f := (p: Policy) => UmbrellaOf(p, limitType, document, w.date, w.through);
    var policies := UmbrellaPolicies(document, limitType);
    var listed := Map(f, policies);
    var us := UmbrellaCandidates(document, limitType, w.date, w.through);
    assert us == SortBy(listed, UmbrellaBefore);
    SortByWeakly(listed, UmbrellaBefore);
    forall u | u in us ensures u in listed {
      assert u in Elements(us);
    }
    forall u | u in listed ensures u in us {
      assert u in Elements(listed);
    }
    forall p | p in document.policies && HasUmbrellaLimit(p, limitType)
      ensures UmbrellaOf(p, limitType, document, w.date, w.through) in us
    {
      assert p in policies;
      var i :| 0 <= i < |policies| && policies[i] == p;
      assert listed[i] == f(p);
    }
    forall u | u in us ensures exists p | p in document.policies && HasUmbrellaLimit(p, limitType) ::
        u == UmbrellaOf(p, limitType, document, w.date, w.through)
    {
      var i :| 0 <= i < |listed| && listed[i] == u;
      assert u == f(policies[i]) && policies[i] in policies;
    }
  }

  /** The credited umbrella is a usable one of greatest amount, and there is one whenever any is usable. */
  lemma CreditsGreatest(limitType: LimitType, document: Document, w: Window)
    ensures var us := UmbrellaCandidates(document, limitType, w.date, w.through);
      var k := IndexOf(us, (u: Umbrella) => u.usable);
      && (k == |us| <==> !exists p :: Usable(p, limitType, document, w))
      && (k < |us| ==> exists p :: Chosen(p, limitType, document, w)
                         && us[k] == UmbrellaOf(p, limitType, document, w.date, w.through))
      && ((exists u | u in us :: u.indeterminate) <==> exists p :: Undecided(p, limitType, document))
  {
    hide UmbrellaOf, IsIsoDate, UmbrellaCandidates, Usable, Undecided, IndexOf;
    var us := UmbrellaCandidates(document, limitType, w.date, w.through);
    var k := IndexOf(us, (u: Umbrella) => u.usable);
    CandidatesAre(limitType, document, w);
    forall p | p in document.policies && HasUmbrellaLimit(p, limitType)
      ensures var u := UmbrellaOf(p, limitType, document, w.date, w.through);
        u in us && u.amount == p.limits[limitType].value && (u.usable <==> Usable(p, limitType, document, w))
        && (u.indeterminate <==> Undecided(p, limitType, document))
    {
      UmbrellaOfMeans(p, limitType, document, w);
    }
    forall p ensures Usable(p, limitType, document, w) || Undecided(p, limitType, document)
                     ==> p in document.policies && HasUmbrellaLimit(p, limitType)
    {
      OnlyUmbrellas(p, limitType, document, w);
    }
    if k < |us| {
      FirstIsGreatest(limitType, document, w, k);
    }
  }

  lemma FirstIsGreatest(limitType: LimitType, document: Document, w: Window, k: nat)
    requires k < |UmbrellaCandidates(document, limitType, w.date, w.through)|
    requires UmbrellaCandidates(document, limitType, w.date, w.through)[k].usable
    requires forall i | 0 <= i < k :: !UmbrellaCandidates(document, limitType, w.date, w.through)[i].usable
    ensures exists p :: Chosen(p, limitType, document, w)
              && UmbrellaCandidates(document, limitType, w.date, w.through)[k]
                  == UmbrellaOf(p, limitType, document, w.date, w.through)
  {
    hide UmbrellaOf, IsIsoDate, UmbrellaCandidates, Usable, Undecided;
    var us := UmbrellaCandidates(document, limitType, w.date, w.through);
    CandidatesAre(limitType, document, w);
    assert us[k] in us;
    var p :| p in document.policies && HasUmbrellaLimit(p, limitType)
             && us[k] == UmbrellaOf(p, limitType, document, w.date, w.through);
    UmbrellaOfMeans(p, limitType, document, w);
    forall q | Usable(q, limitType, document, w)
      ensures limitType in q.limits && q.limits[limitType].value <= us[k].amount
    {
      OnlyUmbrellas(q, limitType, document, w);
      UmbrellaOfMeans(q, limitType, document, w);
      var i :| 0 <= i < |us| && us[i] == UmbrellaOf(q, limitType, document, w.date, w.through);
      assert i == k || !UmbrellaBefore(us[i], us[k]);
    }
    forall q | Greatest(q, limitType, document, w) ensures p.id <= q.id {
      OnlyUmbrellas(q, limitType, document, w);
      UmbrellaOfMeans(q, limitType, document, w);
      var i :| 0 <= i < |us| && us[i] == UmbrellaOf(q, limitType, document, w.date, w.through);
      assert i == k || !UmbrellaBefore(us[i], us[k]);
    }
    assert Chosen(p, limitType, document, w);
  }

  lemma OnlyUmbrellas(p: Policy, limitType: LimitType, document: Document, w: Window)
    ensures Usable(p, limitType, document, w) || Undecided(p, limitType, document)
            ==> p in document.policies && HasUmbrellaLimit(p, limitType)
  {
    hide IsIsoDate, EpochDay;
  }

  // ---------- the meaning of a limit finding ----------

  /** The umbrella limit that counts: the one named, else the aggregate for aggregates and each occurrence for the
      rest. */
  ghost function StackedType(limit: LimitRequirement): LimitType {
    if limit.umbrellaLimitType.Some? then limit.umbrellaLimitType.value
    else if limit.limitType in {GeneralAggregate, ProductsCompletedOperationsAggregate, Aggregate} then Aggregate
    else EachOccurrence
  }

  lemma StackedTypeIs(limit: LimitRequirement)
    ensures UmbrellaLimitType(limit) == StackedType(limit)
  {
  }

  ghost predicate Shown(limit: LimitRequirement, p: Policy, document: Document) {
    limit.limitType in p.limits && Reviewed(document, p.limits[limit.limitType])
  }

  ghost function Base(limit: LimitRequirement, p: Policy): MoneyMinor
    requires limit.limitType in p.limits
  {
    p.limits[limit.limitType].value
  }

  /** Stacking is asked for and needed. */
  ghost predicate Stacks(limit: LimitRequirement, p: Policy, document: Document) {
    Shown(limit, p, document) && Base(limit, p) < limit.minimumMinor && limit.allowUmbrellaStacking
  }

  ghost function Credit(limit: LimitRequirement, p: Policy, u: Policy): int
    requires limit.limitType in p.limits
  {
    Base(limit, p) + (if StackedType(limit) in u.limits then u.limits[StackedType(limit)].value else 0)
  }

  /** The limit is confirmed, and it, or it and one greatest usable umbrella within the safe range, reaches the
      minimum. */
  ghost predicate LimitMet(limit: LimitRequirement, p: Policy, document: Document, w: Window) {
    && Shown(limit, p, document)
    && (|| Base(limit, p) >= limit.minimumMinor
        || (limit.allowUmbrellaStacking
            && exists u :: Greatest(u, StackedType(limit), document, w)
                 && limit.minimumMinor <= Credit(limit, p, u) <= MAX_SAFE_INTEGER))
  }

  /** A reviewed document shows too little, and no umbrella that could be credited, now or once confirmed, is in the
      way. */
  ghost predicate LimitFails(limit: LimitRequirement, p: Policy, document: Document, w: Window) {
    && document.reviewStatus == Confirmed
    && (|| limit.limitType !in p.limits
        || (&& Shown(limit, p, document) && Base(limit, p) < limit.minimumMinor
            && (|| !limit.allowUmbrellaStacking
                || (&& !(exists u :: Usable(u, StackedType(limit), document, w))
                    && !(exists u :: Undecided(u, StackedType(limit), document)))
                || (exists u ::
                    Greatest(u, StackedType(limit), document, w) && Credit(limit, p, u) < limit.minimumMinor))))
  }

  ghost predicate LimitOverflows(limit: LimitRequirement, p: Policy, document: Document, w: Window) {
    Stacks(limit, p, document)
    && exists u :: Greatest(u, StackedType(limit), document, w) && Credit(limit, p, u) > MAX_SAFE_INTEGER
  }

  /** The status of every limit finding, and what it credits, in terms of the document alone. */
  lemma LimitMeans(requirement: CoverageRequirement, limit: LimitRequirement, p: Policy, document: Document, w: Window)
    ensures var f := LimitFinding(requirement, limit, p, document, w.date, w.through);
      && (f.status == Pass <==> LimitMet(limit, p, document, w))
      && (f.status == Fail <==> LimitFails(limit, p, document, w))
      && (f.code == StackedLimitOverflow <==> LimitOverflows(limit, p, document, w))
      && f.status != NotApplicable
      && (f.credited.Some? <==> f.status in {Pass, Fail} && limit.limitType in p.limits)
      && (f.status == Pass ==> f.credited.Some? && f.credited.value >= limit.minimumMinor)
      && (f.credited.Some? && !Stacks(limit, p, document) ==> f.credited.value == Base(limit, p))
      && (f.credited.Some? && Stacks(limit, p, document) ==>
            if exists u :: Usable(u, StackedType(limit), document, w)
            then exists u ::
                Greatest(u, StackedType(limit), document, w) && f.credited.value == Credit(limit, p, u)
            else f.credited.value == Base(limit, p))
  {
    hide UmbrellaCandidates, UmbrellaOf, Usable, Undecided, IsIsoDate, EpochDay, IndexOf, StackedType;
    hide UmbrellaIds, UmbrellaLimitType;
    StackedTypeIs(limit);
    var limitType := StackedType(limit);
    CreditsGreatest(limitType, document, w);
    GreatestAgree(limitType, document, w);
    forall q | Greatest(q, limitType, document, w)
      ensures limitType in q.limits && q.limits[limitType].value
          == UmbrellaOf(q, limitType, document, w.date, w.through).amount
    {
      OnlyUmbrellas(q, limitType, document, w);
      UmbrellaOfMeans(q, limitType, document, w);
    }
  }

  /** Every code of a limit finding and what it cites, in terms of the document alone. */
  lemma LimitCodesMean(requirement: CoverageRequirement, limit: LimitRequirement, p: Policy, document: Document,
      w: Window)
    ensures var f, t := LimitFinding(requirement, limit, p, document, w.date, w.through), StackedType(limit);
      && f.requirementId == requirement.id
      && (f.code == RequiredLimitMissing <==> limit.limitType !in p.limits && document.reviewStatus == Confirmed)
      && (f.code == LimitReviewRequired <==> limit.limitType !in p.limits && document.reviewStatus != Confirmed)
      && (f.code == LimitUnconfirmed <==> limit.limitType in p.limits && !Shown(limit, p, document))
      && (f.code == LimitSatisfies <==> Shown(limit, p, document) && Base(limit, p) >= limit.minimumMinor)
      && (f.code == LimitInadequate <==>
            Shown(limit, p, document) && Base(limit, p) < limit.minimumMinor && !limit.allowUmbrellaStacking)
      && (f.code == UmbrellaEvidenceUnconfirmed <==>
            && Stacks(limit, p, document) && !(exists u :: Usable(u, t, document, w))
            && exists u :: Undecided(u, t, document))
      && (f.code in {StackedLimitOverflow, StackedLimitSatisfies, StackedLimitInadequate}
            && (exists u :: Usable(u, t, document, w)) ==>
            exists u :: Chosen(u, t, document, w) && f.evidenceIds == [p.id, u.id]
              && (f.code == StackedLimitOverflow <==> Credit(limit, p, u) > MAX_SAFE_INTEGER)
              && (f.code == StackedLimitSatisfies <==> limit.minimumMinor <= Credit(limit, p, u) <= MAX_SAFE_INTEGER))
      && (f.code !in {UmbrellaEvidenceUnconfirmed, StackedLimitOverflow, StackedLimitSatisfies, StackedLimitInadequate}
            || (f.code == StackedLimitInadequate && !(exists u :: Usable(u, t, document, w))) ==>
            f.evidenceIds == [p.id])
  {
    hide UmbrellaCandidates, UmbrellaOf, Usable, Undecided, Greatest, IsIsoDate, EpochDay, IndexOf, StackedType;
    hide UmbrellaIds, UmbrellaLimitType;
    StackedTypeIs(limit);
    var limitType := StackedType(limit);
    CreditsGreatest(limitType, document, w);
    forall q | Chosen(q, limitType, document, w)
      ensures limitType in q.limits && q.id == UmbrellaOf(q, limitType, document, w.date, w.through).id
      ensures q.limits[limitType].value == UmbrellaOf(q, limitType, document, w.date, w.through).amount
    {
      GreatestIsUsable(q, limitType, document, w);
      OnlyUmbrellas(q, limitType, document, w);
      UmbrellaOfMeans(q, limitType, document, w);
    }
  }

  /** While an umbrella is undecided and none is usable, every umbrella policy with the limit is cited besides the
      policy itself. */
  lemma UndecidedCites(requirement: CoverageRequirement, limit: LimitRequirement, p: Policy, document: Document,
      w: Window)
    requires LimitFinding(requirement, limit, p, document, w.date, w.through).code == UmbrellaEvidenceUnconfirmed
    ensures var ids := LimitFinding(requirement, limit, p, document, w.date, w.through).evidenceIds;
      && ids != [] && ids[0] == p.id
      && forall id :: id in ids[1..] <==>
           exists q :: q in document.policies && q.id == id
             && q.coverageType.value == UmbrellaExcessLiability && StackedType(limit) in q.limits
  {
    hide UmbrellaCandidates, UmbrellaOf, IsIsoDate, EpochDay, IndexOf, StackedType, UmbrellaLimitType;
    StackedTypeIs(limit);
    var limitType := StackedType(limit);
    var us := UmbrellaCandidates(document, limitType, w.date, w.through);
    var ids := LimitFinding(requirement, limit, p, document, w.date, w.through).evidenceIds;
    assert ids == [p.id] + UmbrellaIds(us) && ids[1..] == UmbrellaIds(us);
    CandidatesAre(limitType, document, w);
    forall id ensures id in UmbrellaIds(us) <==> exists u | u in us :: u.id == id {
      IdsAre(us, id);
    }
    forall q | q in document.policies && HasUmbrellaLimit(q, limitType)
      ensures UmbrellaOf(q, limitType, document, w.date, w.through).id == q.id
    {
      UmbrellaOfMeans(q, limitType, document, w);
    }
  }

  lemma IdsAre(us: seq<Umbrella>, id: Id)
    ensures id in UmbrellaIds(us) <==> exists u | u in us :: u.id == id
  {
    if u :| u in us && u.id == id {
      var k :| 0 <= k < |us| && us[k] == u;
      assert UmbrellaIds(us)[k] == id;
    }
  }

  lemma GreatestIsUsable(p: Policy, limitType: LimitType, document: Document, w: Window)
    requires Greatest(p, limitType, document, w)
    ensures Usable(p, limitType, document, w)
  {
    hide IsIsoDate, EpochDay;
  }

  lemma GreatestAgree(limitType: LimitType, document: Document, w: Window)
    ensures forall q, r | Greatest(q, limitType, document, w) && Greatest(r, limitType, document, w) ::
      q.limits[limitType].value == r.limits[limitType].value
  {
    hide IsIsoDate, EpochDay;
  }

  /** A stacked failure: crediting any usable umbrella whatever would leave the limit short. */
  lemma StackedFailMeans(requirement: CoverageRequirement, limit: LimitRequirement, p: Policy, document: Document,
      w: Window, u: Policy)
    requires LimitFinding(requirement, limit, p, document, w.date, w.through).status == Fail
    requires Stacks(limit, p, document) && Usable(u, StackedType(limit), document, w)
    ensures Credit(limit, p, u) < limit.minimumMinor
  {
    hide LimitFinding, IsIsoDate, EpochDay, StackedType;
    LimitMeans(requirement, limit, p, document, w);
    var g :| Greatest(g, StackedType(limit), document, w) && Credit(limit, p, g) < limit.minimumMinor;
  }

  /** Asking for less never loses a PASS. */
  lemma LoweringMinimumKeepsPass(requirement: CoverageRequirement, limit: LimitRequirement, minimum: MoneyMinor,
      p: Policy, document: Document, w: Window)
    requires minimum <= limit.minimumMinor
    requires LimitFinding(requirement, limit, p, document, w.date, w.through).status == Pass
    ensures LimitFinding(requirement, limit.(minimumMinor := minimum), p, document, w.date, w.through).status == Pass
  {
    hide LimitFinding, Greatest, IsIsoDate, Usable, Undecided, LimitFails, LimitOverflows;
    LimitMeans(requirement, limit, p, document, w);
    LimitMeans(requirement, limit.(minimumMinor := minimum), p, document, w);
    if Base(limit, p) < minimum {
      var u :| Greatest(u, StackedType(limit), document, w)
          && limit.minimumMinor <= Credit(limit, p, u) <= MAX_SAFE_INTEGER;
      assert minimum <= Credit(limit.(minimumMinor := minimum), p, u) <= MAX_SAFE_INTEGER;
    }
  }

  // ---------- raising a base limit ----------

  function Raised(p: Policy, limitType: LimitType, amount: MoneyMinor): (r: Policy)
    requires limitType in p.limits
  {
    p.(limits := p.limits[limitType := p.limits[limitType].(value := amount)])
  }

  /** The document with the policy at place i showing that amount; the policy may itself be an umbrella. */
  function RaisedIn(document: Document, i: nat, limitType: LimitType, amount: MoneyMinor): (r: Document)
    requires i < |document.policies| && limitType in document.policies[i].limits
  {
    document.(policies := document.policies[i := Raised(document.policies[i], limitType, amount)])
  }

  /** Each umbrella that was usable has a usable successor that shows at least as much. */
  lemma UsableStays(document: Document, i: nat, limitType: LimitType, amount: MoneyMinor, stacked: LimitType,
      w: Window, u: Policy)
      returns (v: Policy)
    requires i < |document.policies| && limitType in document.policies[i].limits
    requires amount >= document.policies[i].limits[limitType].value && Usable(u, stacked, document, w)
    ensures Usable(v, stacked, RaisedIn(document, i, limitType, amount), w)
        && u.limits[stacked].value <= v.limits[stacked].value
  {
    hide IsIsoDate, EpochDay;
    var after := RaisedIn(document, i, limitType, amount);
    var k :| 0 <= k < |document.policies| && document.policies[k] == u;
    v := after.policies[k];
    assert v in after.policies;
  }

  /** Raising a confirmed base limit never turns a PASS into a FAIL. */
  lemma RaisingBaseNeverFails(requirement: CoverageRequirement, limit: LimitRequirement, document: Document, i: nat,
      amount: MoneyMinor, w: Window)
    requires i < |document.policies| && limit.limitType in document.policies[i].limits
    requires amount >= document.policies[i].limits[limit.limitType].value
    requires LimitFinding(requirement, limit, document.policies[i], document, w.date, w.through).status == Pass
    ensures var after := RaisedIn(document, i, limit.limitType, amount);
      LimitFinding(requirement, limit, after.policies[i], after, w.date, w.through).status != Fail
  {
    hide LimitFinding, Usable, Undecided, IsIsoDate, LimitOverflows, StackedType, HasUmbrellaLimit, Greatest;
    var p := document.policies[i];
    var after := RaisedIn(document, i, limit.limitType, amount);
    var raised := after.policies[i];
    LimitMeans(requirement, limit, p, document, w);
    LimitMeans(requirement, limit, raised, after, w);
    if LimitFails(limit, raised, after, w) {
      var u :| Greatest(u, StackedType(limit), document, w)
          && limit.minimumMinor <= Credit(limit, p, u) <= MAX_SAFE_INTEGER;
      GreatestGrows(document, i, limit.limitType, amount, StackedType(limit), w, u);
    }
  }

  lemma GreatestGrows(document: Document, i: nat, limitType: LimitType, amount: MoneyMinor, stacked: LimitType,
      w: Window, u: Policy)
    requires i < |document.policies| && limitType in document.policies[i].limits
    requires amount >= document.policies[i].limits[limitType].value && Greatest(u, stacked, document, w)
    ensures exists v :: Usable(v, stacked, RaisedIn(document, i, limitType, amount), w)
    ensures forall g | Greatest(g, stacked, RaisedIn(document, i, limitType, amount), w) ::
      stacked in g.limits && g.limits[stacked].value >= u.limits[stacked].value
  {
    hide IsIsoDate, EpochDay;
    var v := UsableStays(document, i, limitType, amount, stacked, w, u);
  }
}
