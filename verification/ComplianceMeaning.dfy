/** The document's label, stated without the evaluator. */
module ComplianceMeaning {
  import opened Primitives
  import opened Text
  import opened Sorting
  import opened Calendar
  import opened Compliance
  import opened UmbrellaCredit

  // ---------- what a policy must show ----------

  ghost predicate IsWindow(w: Window, date: IsoDate, days: nat) {
    w.date == date && EpochDay(w.through) == EpochDay(date) + days
  }

  ghost predicate DatesReviewed(p: Policy, document: Document) {
    && p.effectiveDate.Some? && Reviewed(document, p.effectiveDate.value)
    && p.expirationDate.Some? && Reviewed(document, p.expirationDate.value)
  }

  ghost predicate InForce(p: Policy, w: Window)
    requires p.effectiveDate.Some? && p.expirationDate.Some?
  {
    && EpochDay(p.effectiveDate.value.value) <= EpochDay(w.date)
    && EpochDay(w.through) <= EpochDay(p.expirationDate.value.value)
  }

  ghost function ShownField(p: Policy, name: PolicyFieldName): Option<Field<Text>> {
    match name
    case InsurerName => p.insurerName
    case PolicyNumber => p.policyNumber
  }

  /** One policy that meets the requirement alone: confirmed, with its fields, in force, every limit reached. */
  ghost predicate Meets(r: CoverageRequirement, p: Policy, document: Document, w: Window) {
    && p in document.policies && p.coverageType.value == r.coverageType && Reviewed(document, p.coverageType)
    && (forall name | name in r.requiredPolicyFields ::
          ShownField(p, name).Some? && Reviewed(document, ShownField(p, name).value))
    && DatesReviewed(p, document) && InForce(p, w)
    && (forall limit | limit in r.minimumLimits :: LimitMet(limit, p, document, w))
  }

  ghost predicate PeriodFails(p: Policy, document: Document, w: Window) {
    && document.reviewStatus == Confirmed
    && (p.effectiveDate == None || p.expirationDate == None || (DatesReviewed(p, document) && !InForce(p, w)))
  }

  /** A reviewed policy that lacks something the requirement asks for. */
  ghost predicate Deficient(r: CoverageRequirement, p: Policy, document: Document, w: Window) {
    && document.reviewStatus == Confirmed
    && (|| (exists name | name in r.requiredPolicyFields :: ShownField(p, name) == None)
        || PeriodFails(p, document, w)
        || (exists limit | limit in r.minimumLimits :: LimitFails(limit, p, document, w)))
  }

  lemma PeriodMeans(r: CoverageRequirement, p: Policy, document: Document, w: Window)
    ensures var f := PeriodFinding(r, p, document, w.date, w.through);
      && (f.status == Pass <==> DatesReviewed(p, document) && InForce(p, w))
      && (f.status == Fail <==> PeriodFails(p, document, w))
      && f.status != NotApplicable && f.requirementId == r.id && f.evidenceIds == [p.id]
      && (f.code in {PolicyPeriodMissing, PolicyPeriodReviewRequired} <==>
            p.effectiveDate == None || p.expirationDate == None)
      && (f.code == PolicyPeriodUnconfirmed <==>
            p.effectiveDate.Some? && p.expirationDate.Some? && !DatesReviewed(p, document))
      && (f.code in {PolicyPeriodSatisfies, PolicyPeriodDeficient} <==> DatesReviewed(p, document))
  {
    hide IsIsoDate, EpochDay;
  }

  lemma FieldMeans(r: CoverageRequirement, name: PolicyFieldName, p: Policy, document: Document)
    ensures var f := FieldFinding(r, name, p, document);
      && (f.status == Pass <==> ShownField(p, name).Some? && Reviewed(document, ShownField(p, name).value))
      && (f.status == Fail <==> document.reviewStatus == Confirmed && ShownField(p, name) == None)
      && f.status != NotApplicable && f.requirementId == r.id && f.evidenceIds == [p.id]
      && (f.code in {RequiredPolicyFieldMissing, PolicyFieldReviewRequired} <==> ShownField(p, name) == None)
      && (f.code in {PolicyFieldUnconfirmed, RequiredPolicyFieldFound} <==> ShownField(p, name).Some?)
  {
  }

  lemma HasJoined(a: seq<Finding>, b: seq<Finding>, status: Status)
    ensures Has(a + b, status) <==> Has(a, status) || Has(b, status)
  {
    if i :| 0 <= i < |a| && a[i].status == status {
      assert (a + b)[i].status == status;
    }
    if i :| 0 <= i < |b| && b[i].status == status {
      assert (a + b)[|a| + i].status == status;
    }
  }

  lemma FieldFindingsMean(r: CoverageRequirement, p: Policy, document: Document)
    ensures var fs := FieldFindings(r, p, document);
      && (Has(fs, Fail) <==>
          document.reviewStatus == Confirmed
            && exists name | name in r.requiredPolicyFields :: ShownField(p, name) == None)
      && (!Has(fs, Fail) && !Has(fs, Unknown) <==>
            forall name | name in r.requiredPolicyFields ::
              ShownField(p, name).Some? && Reviewed(document, ShownField(p, name).value))
      && !Has(fs, NotApplicable)
  {
    hide FieldFinding, ShownField, FieldFindings, Reviewed;
    var fs := FieldFindings(r, p, document);
    forall i | 0 <= i < |fs|
      ensures var name := r.requiredPolicyFields[i];
        && (fs[i].status == Pass <==> ShownField(p, name).Some? && Reviewed(document, ShownField(p, name).value))
        && (fs[i].status == Fail <==> document.reviewStatus == Confirmed && ShownField(p, name) == None)
        && fs[i].status != NotApplicable && name in r.requiredPolicyFields
    {
      FieldMeans(r, r.requiredPolicyFields[i], p, document);
    }
    if name :|
      name in r.requiredPolicyFields && !(ShownField(p, name).Some? && Reviewed(document, ShownField(p, name).value))
    {
      var i :| 0 <= i < |fs| && r.requiredPolicyFields[i] == name;
      assert fs[i].status == Fail || fs[i].status == Unknown;
    }
    if name :| name in r.requiredPolicyFields && ShownField(p, name) == None {
      var i :| 0 <= i < |fs| && r.requiredPolicyFields[i] == name;
      assert document.reviewStatus == Confirmed ==> fs[i].status == Fail;
    }
  }

  lemma FailingIsReviewed(limit: LimitRequirement, p: Policy, document: Document, w: Window)
    ensures LimitFails(limit, p, document, w) ==> document.reviewStatus == Confirmed
  {
  }

  lemma LimitFindingsMean(r: CoverageRequirement, p: Policy, document: Document, w: Window)
    ensures var fs := LimitFindings(r, p, document, w.date, w.through);
      && (Has(fs, Fail) <==>
          document.reviewStatus == Confirmed
            && exists limit | limit in r.minimumLimits :: LimitFails(limit, p, document, w))
      && (!Has(fs, Fail) && !Has(fs, Unknown) <==>
          forall limit | limit in r.minimumLimits :: LimitMet(limit, p, document, w))
      && !Has(fs, NotApplicable)
  {
    hide LimitFinding, LimitFindings, LimitFails, LimitMet, LimitOverflows, IsIsoDate;
    var fs := LimitFindings(r, p, document, w.date, w.through);
    forall i | 0 <= i < |fs|
      ensures var limit := r.minimumLimits[i];
        && (fs[i].status == Pass <==> LimitMet(limit, p, document, w))
        && (fs[i].status == Fail <==> LimitFails(limit, p, document, w))
        && fs[i].status != NotApplicable && limit in r.minimumLimits
        && (LimitFails(limit, p, document, w) ==> document.reviewStatus == Confirmed)
    {
      FailingIsReviewed(r.minimumLimits[i], p, document, w);
      LimitMeans(r, r.minimumLimits[i], p, document, w);
    }
    if limit :| limit in r.minimumLimits && !LimitMet(limit, p, document, w) {
      var i :| 0 <= i < |fs| && r.minimumLimits[i] == limit;
      assert fs[i].status == Fail || fs[i].status == Unknown;
    }
    if limit :| limit in r.minimumLimits && LimitFails(limit, p, document, w) {
      var i :| 0 <= i < |fs| && r.minimumLimits[i] == limit;
      assert fs[i].status == Fail;
    }
  }

  /** All findings of a policy pass exactly when it meets the requirement; one fails exactly when it is deficient. */
  lemma PolicyMeans(r: CoverageRequirement, p: Policy, document: Document, w: Window)
    requires p in document.policies && p.coverageType.value == r.coverageType
    ensures var fs := PolicyFindings(r, p, document, w.date, w.through);
      && (!Has(fs, Fail) && !Has(fs, Unknown) <==> Meets(r, p, document, w))
      && (Has(fs, Fail) <==> Deficient(r, p, document, w))
      && !Has(fs, NotApplicable) && fs != []
  {
    hide LimitFindings, FieldFindings, PeriodFinding, LimitFails, LimitMet, IsIsoDate, ShownField, Has, InForce;
    hide DatesReviewed;
    var first := [CoverageFinding(r, p, document)];
    var fields := FieldFindings(r, p, document);
    var period := [PeriodFinding(r, p, document, w.date, w.through)];
    var limits := LimitFindings(r, p, document, w.date, w.through);
    forall status: Status
      ensures Has(PolicyFindings(r, p, document, w.date, w.through), status)
              <==> first[0].status == status || Has(fields, status) || period[0].status == status || Has(limits, status)
    {
      HasJoined(first + fields + period, limits, status);
      HasJoined(first + fields, period, status);
      HasJoined(first, fields, status);
      HasOne(first[0], status);
      HasOne(period[0], status);
    }
    FieldFindingsMean(r, p, document);
    PeriodMeans(r, p, document, w);
    LimitFindingsMean(r, p, document, w);
  }

  lemma HasOne(f: Finding, status: Status)
    ensures Has([f], status) <==> f.status == status
  {
    assert [f][0] == f;
  }

  // ---------- which policy is chosen ----------

  lemma {:induction false} CountHas(findings: seq<Finding>, status: Status)
    ensures Count(findings, status) == 0 <==> !Has(findings, status)
  {
    if findings != [] {
      CountHas(findings[1..], status);
      assert findings == [findings[0]] + findings[1..];
      HasJoined([findings[0]], findings[1..], status);
      HasOne(findings[0], status);
    }
  }

  lemma PreferredIsWeakOrder()
    ensures WeakOrder(Preferred)
  {
    hide Count;
  }

  /** The chosen policy is a least one among those of the requirement's type. */
  lemma SelectedIsLeast(r: CoverageRequirement, document: Document, date: IsoDate, through: IsoDate)
    requires MatchingPolicies(r, document) != []
    ensures exists p | p in MatchingPolicies(r, document) ::
        Selected(r, document, date, through) == CandidateOf(r, p, document, date, through)
    ensures forall p | p in MatchingPolicies(r, document) ::
        !Preferred(CandidateOf(r, p, document, date, through), Selected(r, document, date, through))
  {
    hide IsIsoDate, MatchingPolicies, CandidateOf, Preferred, Evaluated, Insert, SortBy;
    var policies := SortBy(MatchingPolicies(r, document), PolicyBefore);
    var listed := Evaluated(r, document, date, through);
    var sorted := SortBy(listed, Preferred);
    PreferredIsWeakOrder();
    SortByWeakly(listed, Preferred);
    assert sorted[0] in Elements(listed) && Elements(policies) == Elements(MatchingPolicies(r, document));
    var k :| 0 <= k < |listed| && listed[k] == sorted[0];
    assert policies[k] in Elements(MatchingPolicies(r, document));
    forall p | p in MatchingPolicies(r, document) ensures !Preferred(CandidateOf(r, p, document, date, through),
        sorted[0]) {
      assert p in Elements(policies);
      var i :| 0 <= i < |policies| && policies[i] == p;
      assert listed[i] in Elements(sorted);
      var j :| 0 <= j < |sorted| && sorted[j] == listed[i];
      NotBeforeFirst(sorted, j);
    }
  }

  /** How many findings have the status. */
  ghost function NumberOf(fs: seq<Finding>, status: Status): nat {
    multiset(seq(|fs|, i requires 0 <= i < |fs| => fs[i].status))[status]
  }

  lemma {:induction false} CountIsNumber(fs: seq<Finding>, status: Status)
    ensures Count(fs, status) == NumberOf(fs, status)
  {
    var statuses := seq(|fs|, i requires 0 <= i < |fs| => fs[i].status);
    if fs != [] {
      var rest := seq(|fs[1..]|, i requires 0 <= i < |fs[1..]| => fs[1..][i].status);
      CountIsNumber(fs[1..], status);
      assert statuses == [fs[0].status] + rest;
    }
  }

  /** Fewer failures, then fewer unknowns, then the smaller id. */
  ghost predicate NoWorse(a: Candidate, b: Candidate) {
    var aFail, bFail := NumberOf(a.findings, Fail), NumberOf(b.findings, Fail);
    var aUnknown, bUnknown := NumberOf(a.findings, Unknown), NumberOf(b.findings, Unknown);
    aFail < bFail || (aFail == bFail && (aUnknown < bUnknown || (aUnknown == bUnknown && a.policyId <= b.policyId)))
  }

  /** The chosen candidate is a policy of the requirement's type with the fewest failures, then the fewest unknowns,
      then the smallest id. */
  lemma SelectedIsBest(r: CoverageRequirement, document: Document, date: IsoDate, through: IsoDate)
    requires MatchingPolicies(r, document) != []
    ensures exists p | p in document.policies && p.coverageType.value == r.coverageType ::
        var c := Selected(r, document, date, through);
        c.policyId == p.id && c.findings == PolicyFindings(r, p, document, date, through)
    ensures forall p | p in document.policies && p.coverageType.value == r.coverageType ::
        NoWorse(Selected(r, document, date, through), Candidate(p.id, PolicyFindings(r, p, document, date, through)))
  {
    hide IsIsoDate, EpochDay, Selected, PolicyFindings, Preferred, NoWorse, MatchingPolicies;
    var c := Selected(r, document, date, through);
    SelectedIsLeast(r, document, date, through);
    MatchingMeans(r, document);
    forall p | p in document.policies && p.coverageType.value == r.coverageType
      ensures NoWorse(c, CandidateOf(r, p, document, date, through))
    {
      NotPreferredIsNoBetter(CandidateOf(r, p, document, date, through), c);
    }
  }

  lemma NotPreferredIsNoBetter(left: Candidate, right: Candidate)
    requires !Preferred(left, right)
    ensures NoWorse(right, left)
  {
    hide Count, NumberOf;
    CountIsNumber(left.findings, Fail);
    CountIsNumber(left.findings, Unknown);
    CountIsNumber(right.findings, Fail);
    CountIsNumber(right.findings, Unknown);
  }

  lemma NotBeforeFirst(s: seq<Candidate>, j: nat)
    requires j < |s| && WeaklySorted(s, Preferred)
    ensures !Preferred(s[j], s[0])
  {
    if j == 0 {
      PreferredIsWeakOrder();
    }
  }

  ghost predicate AllPass(c: Candidate) {
    !Has(c.findings, Fail) && !Has(c.findings, Unknown)
  }

  /** What the comparator ranks first: candidates that pass throughout, then those that fail nowhere. */
  lemma PreferredTiers(left: Candidate, right: Candidate)
    requires !Preferred(left, right)
    ensures AllPass(left) ==> AllPass(right)
    ensures !Has(left.findings, Fail) ==> !Has(right.findings, Fail)
  {
    hide Count;
    CountHas(left.findings, Fail);
    CountHas(left.findings, Unknown);
    CountHas(right.findings, Fail);
    CountHas(right.findings, Unknown);
  }

  /** A policy that passes throughout makes the chosen one do so; otherwise one that fails nowhere keeps failures
      out. */
  lemma SelectedTiers(r: CoverageRequirement, document: Document, date: IsoDate, through: IsoDate)
    requires MatchingPolicies(r, document) != []
    ensures AllPass(Selected(r, document, date, through)) <==>
        exists p | p in MatchingPolicies(r, document) :: AllPass(CandidateOf(r, p, document, date, through))
    ensures !Has(Selected(r, document, date, through).findings, Fail) <==>
        exists p | p in MatchingPolicies(r, document) :: !Has(CandidateOf(r, p, document, date, through).findings, Fail)
  {
    hide IsIsoDate, MatchingPolicies, CandidateOf, Preferred, Has, AllPass, Selected;
    var chosen := Selected(r, document, date, through);
    SelectedIsLeast(r, document, date, through);
    forall p | p in MatchingPolicies(r, document)
      ensures AllPass(CandidateOf(r, p, document, date, through)) ==> AllPass(chosen)
      ensures !Has(CandidateOf(r, p, document, date, through).findings, Fail) ==> !Has(chosen.findings, Fail)
    {
      PreferredTiers(CandidateOf(r, p, document, date, through), chosen);
    }
  }

  // ---------- endorsements ----------

  /** The first level is weaker evidence than the second. */
  ghost predicate Weaker(a: EvidenceLevel, b: EvidenceLevel) {
    match a
    case NoEvidence => b != NoEvidence
    case Mentioned => b in {Scheduled, Attached, HumanVerified}
    case Scheduled => b in {Attached, HumanVerified}
    case Attached => b == HumanVerified
    case HumanVerified => false
  }

  /** The evidence carries the requirement's form code if it names one, and otherwise its name, which is not blank. */
  ghost predicate IsFor(e: EndorsementRequirement, evidence: Endorsement) {
    || (exists code :: e.formCode == Some(code) && evidence.formCode.Some? && evidence.formCode.value.value == code)
    || (e.formCode == None && exists name ::
          e.name == Some(name) && name != [] && evidence.name.Some? && evidence.name.value.value == name)
  }

  /** At place i the document lists the strongest evidence for the requirement, ties by id and then by place. */
  ghost predicate Strongest(e: EndorsementRequirement, document: Document, i: nat) {
    && i < |document.endorsements| && IsFor(e, document.endorsements[i])
    && forall j: nat | j < |document.endorsements| && IsFor(e, document.endorsements[j]) ::
         var own, other := document.endorsements[i], document.endorsements[j];
         || Weaker(other.evidenceLevel.value, own.evidenceLevel.value)
         || (other.evidenceLevel.value == own.evidenceLevel.value
             && (own.id < other.id || (own.id == other.id && i <= j)))
  }

  /** A person confirmed the level, and the form code and the name as far as there are any. */
  ghost predicate EvidenceReviewed(document: Document, evidence: Endorsement) {
    && Reviewed(document, evidence.evidenceLevel)
    && (evidence.formCode.Some? ==> Reviewed(document, evidence.formCode.value))
    && (evidence.name.Some? ==> Reviewed(document, evidence.name.value))
  }

  ghost predicate StrongEnough(e: EndorsementRequirement, evidence: Endorsement) {
    !Weaker(evidence.evidenceLevel.value, e.minimumEvidenceLevel)
  }

  ghost predicate EndorsementMet(e: EndorsementRequirement, document: Document) {
    exists i: nat :: Strongest(e, document, i)
      && EvidenceReviewed(document, document.endorsements[i]) && StrongEnough(e, document.endorsements[i])
  }

  ghost predicate EndorsementFails(e: EndorsementRequirement, document: Document) {
    document.reviewStatus == Confirmed
    && (|| !(exists evidence | evidence in document.endorsements :: IsFor(e, evidence))
        || exists i: nat :: Strongest(e, document, i)
             && EvidenceReviewed(document, document.endorsements[i]) && !StrongEnough(e, document.endorsements[i]))
  }

  lemma WeakerIsLowerRank(a: EvidenceLevel, b: EvidenceLevel)
    ensures Weaker(a, b) <==> EvidenceRank(a) < EvidenceRank(b)
    ensures a == b <==> EvidenceRank(a) == EvidenceRank(b)
  {
  }

  lemma IsForMatches(e: EndorsementRequirement, evidence: Endorsement)
    ensures IsFor(e, evidence) <==> EndorsementMatches(e, evidence)
  {
  }

  lemma StrongestIsLeast(e: EndorsementRequirement, document: Document, i: nat)
    ensures Strongest(e, document, i) <==>
      LeastKept(document.endorsements, (x: Endorsement) => EndorsementMatches(e, x), i, EndorsementBefore)
  {
    hide EndorsementMatches, IsFor, EvidenceRank, Weaker;
    forall x ensures IsFor(e, x) <==> EndorsementMatches(e, x) {
      IsForMatches(e, x);
    }
    forall x, y ensures Weaker(x, y) <==> EvidenceRank(x) < EvidenceRank(y) {
      WeakerIsLowerRank(x, y);
    }
    forall x, y ensures x == y <==> EvidenceRank(x) == EvidenceRank(y) {
      WeakerIsLowerRank(x, y);
    }
  }

  /** The first of the sorted matches is the strongest evidence that the document lists. */
  lemma BestIsStrongest(e: EndorsementRequirement, document: Document) returns (i: nat)
    requires Matches(e, document) != []
    ensures Strongest(e, document, i) && SortBy(Matches(e, document), EndorsementBefore)[0] == document.endorsements[i]
    ensures forall k: nat | Strongest(e, document, k) :: k == i
  {
    hide EndorsementMatches, Strongest, LeastAt, LeastKept, SortBy, Filter, EndorsementBefore, Kept;
    var es, keep := document.endorsements, (x: Endorsement) => EndorsementMatches(e, x);
    EndorsementOrder();
    var m := SortByFirst(Matches(e, document), EndorsementBefore);
    LeastIsInside(Matches(e, document), m);
    i := FilterSource(es, keep, m);
    FilterPlace(es, keep, i);
    LeastKeptIsLeast(es, keep, i, EndorsementBefore);
    StrongestIsLeast(e, document, i);
    forall k: nat | Strongest(e, document, k) ensures k == i {
      StrongestIsLeast(e, document, k);
      LeastKeptIsInside(es, keep, k);
      LeastKeptIsLeast(es, keep, k, EndorsementBefore);
      LeastAtIsOne(Matches(e, document), m, Kept(es, keep, k), EndorsementBefore);
      SamePlace(es, keep, i, k);
    }
  }

  lemma LeastIsInside(s: seq<Endorsement>, m: nat)
    requires LeastAt(s, m, EndorsementBefore)
    ensures m < |s|
  {
  }

  lemma LeastKeptIsInside(s: seq<Endorsement>, keep: Endorsement -> bool, k: nat)
    requires LeastKept(s, keep, k, EndorsementBefore)
    ensures k < |s| && keep(s[k])
  {
  }

  lemma SamePlace(s: seq<Endorsement>, keep: Endorsement -> bool, i: nat, k: nat)
    requires i < |s| && k < |s| && keep(s[i]) && keep(s[k]) && Kept(s, keep, i) == Kept(s, keep, k)
    ensures i == k
  {
    hide Kept;
    FilterPlace(s, keep, i);
    FilterPlace(s, keep, k);
    if i < k {
      KeptGrows(s, keep, i + 1, k);
    } else if k < i {
      KeptGrows(s, keep, k + 1, i);
    }
  }

  lemma MatchesAreFor(e: EndorsementRequirement, document: Document)
    ensures Matches(e, document) == [] <==> !exists evidence | evidence in document.endorsements :: IsFor(e, evidence)
  {
    hide EndorsementMatches, IsFor;
    forall x ensures IsFor(e, x) <==> EndorsementMatches(e, x) {
      IsForMatches(e, x);
    }
    if Matches(e, document) != [] {
      assert Matches(e, document)[0] in Matches(e, document);
    }
  }

  lemma ReviewedIsConfirmed(document: Document, evidence: Endorsement)
    ensures EvidenceReviewed(document, evidence) <==> EndorsementConfirmed(document, evidence)
    ensures EvidenceReviewed(document, evidence) ==> document.reviewStatus == Confirmed
  {
  }

  lemma EndorsementMeans(r: CoverageRequirement, e: EndorsementRequirement, document: Document)
    ensures var f := EndorsementFinding(r, e, document);
      && (f.status == NotApplicable <==> e.applicability == NotApplicableHere)
      && (f.status == Pass <==> e.applicability == Required && EndorsementMet(e, document))
      && (f.status == Fail <==> e.applicability == Required && EndorsementFails(e, document))
  {
    hide Matches, SortBy, EndorsementConfirmed, EvidenceReviewed, EvidenceRank, EndorsementMatches, IsFor, Strongest;
    hide Weaker;
    MatchesAreFor(e, document);
    if e.applicability == Required && Matches(e, document) != [] {
      var i := BestIsStrongest(e, document);
      StrongestIsFor(e, document, i);
      ReviewedIsConfirmed(document, document.endorsements[i]);
      WeakerIsLowerRank(document.endorsements[i].evidenceLevel.value, e.minimumEvidenceLevel);
    } else if e.applicability == Required {
      NoneStrongest(e, document);
    }
  }

  lemma NoneStrongest(e: EndorsementRequirement, document: Document)
    requires !exists evidence | evidence in document.endorsements :: IsFor(e, evidence)
    ensures forall i: nat :: !Strongest(e, document, i)
  {
    hide IsFor, Weaker;
  }

  lemma StrongestIsFor(e: EndorsementRequirement, document: Document, i: nat)
    requires Strongest(e, document, i)
    ensures i < |document.endorsements| && document.endorsements[i] in document.endorsements
    ensures IsFor(e, document.endorsements[i])
  {
    hide IsFor, Weaker;
  }

  /** Every code of an endorsement finding and what it cites. */
  lemma EndorsementCodesMean(r: CoverageRequirement, e: EndorsementRequirement, document: Document)
    requires e.applicability == Required
    ensures var f := EndorsementFinding(r, e, document);
      && f.requirementId == r.id
      && (f.code in {EndorsementEvidenceMissing, EndorsementReviewRequired} <==>
            !exists evidence | evidence in document.endorsements :: IsFor(e, evidence))
      && (forall i: nat | Strongest(e, document, i) ::
            && f.evidenceIds == [document.endorsements[i].id]
            && (f.code == EndorsementEvidenceUnconfirmed <==> !EvidenceReviewed(document, document.endorsements[i]))
            && (f.code == EndorsementEvidenceSatisfies <==>
                  EvidenceReviewed(document, document.endorsements[i]) && StrongEnough(e, document.endorsements[i])))
  {
    hide Matches, SortBy, EndorsementConfirmed, EvidenceReviewed, EvidenceRank, EndorsementMatches, IsFor, Strongest;
    hide Weaker;
    MatchesAreFor(e, document);
    if Matches(e, document) != [] {
      var i := BestIsStrongest(e, document);
      StrongestIsFor(e, document, i);
      ReviewedIsConfirmed(document, document.endorsements[i]);
      WeakerIsLowerRank(document.endorsements[i].evidenceLevel.value, e.minimumEvidenceLevel);
    } else {
      NoneStrongest(e, document);
    }
  }

  lemma EndorsementOrder()
    ensures WeakOrder(EndorsementBefore)
  {
  }

  // ---------- one coverage requirement ----------

  ghost predicate Endorsed(r: CoverageRequirement, document: Document) {
    forall e | e in r.endorsements && e.applicability == Required :: EndorsementMet(e, document)
  }

  ghost predicate RequirementMet(r: CoverageRequirement, document: Document, date: IsoDate) {
    && (exists p, w :: IsWindow(w, date, r.minimumDaysRemaining) && Meets(r, p, document, w))
    && Endorsed(r, document)
  }

  ghost predicate RequirementFails(r: CoverageRequirement, document: Document, date: IsoDate) {
    if MatchingPolicies(r, document) == [] then document.reviewStatus == Confirmed
    else
      || (forall p, w | p in MatchingPolicies(r, document)
          && IsWindow(w, date, r.minimumDaysRemaining) :: Deficient(r, p, document, w))
      || (exists e | e in r.endorsements && e.applicability == Required :: EndorsementFails(e, document))
  }

  lemma EndorsementFindingsMean(r: CoverageRequirement, document: Document)
    ensures var fs := EndorsementFindings(r, document);
      && (Has(fs, Fail) <==> exists e | e in r.endorsements
          && e.applicability == Required :: EndorsementFails(e, document))
      && (!Has(fs, Fail) && !Has(fs, Unknown) <==> Endorsed(r, document))
  {
    hide EndorsementFinding, EndorsementFindings, EndorsementMet, EndorsementFails;
    var fs := EndorsementFindings(r, document);
    forall i | 0 <= i < |fs|
      ensures var e := r.endorsements[i];
        && e in r.endorsements && (fs[i].status == NotApplicable <==> e.applicability == NotApplicableHere)
        && (fs[i].status == Pass <==> e.applicability == Required && EndorsementMet(e, document))
        && (fs[i].status == Fail <==> e.applicability == Required && EndorsementFails(e, document))
    {
      EndorsementMeans(r, r.endorsements[i], document);
    }
    if e :| e in r.endorsements && e.applicability == Required && !EndorsementMet(e, document) {
      var i :| 0 <= i < |fs| && r.endorsements[i] == e;
      assert fs[i].status == Fail || fs[i].status == Unknown;
    }
    if e :| e in r.endorsements && e.applicability == Required && EndorsementFails(e, document) {
      var i :| 0 <= i < |fs| && r.endorsements[i] == e;
      assert fs[i].status == Fail;
    }
  }

  lemma ThroughMeans(r: CoverageRequirement, date: IsoDate)
    ensures RequiredThrough(r, date) == None <==> EpochDay(date) + r.minimumDaysRemaining > LAST_DAY
    ensures RequiredThrough(r, date).Some? ==>
        forall w :: IsWindow(w, date, r.minimumDaysRemaining) <==> w == Window(date, RequiredThrough(r, date).value)
  {
    hide AddDays, IsIsoDate, EpochDay;
    AddDaysMeans(date, r.minimumDaysRemaining);
    EpochDayInRange(date);
    if RequiredThrough(r, date).Some? {
      var through: IsoDate := RequiredThrough(r, date).value;
      forall w: Window | IsWindow(w, date, r.minimumDaysRemaining) ensures w == Window(date, through) {
        OrdersAgree(w.through, through);
      }
    }
  }

  /** A requirement that cannot be evaluated: its last day lies beyond the calendar, and some policy has its type. */
  ghost predicate Unevaluable(r: CoverageRequirement, document: Document, date: IsoDate) {
    && r.applicability == Required && EpochDay(date) + r.minimumDaysRemaining > LAST_DAY
    && exists p | p in document.policies :: p.coverageType.value == r.coverageType
  }

  lemma MatchingMeans(r: CoverageRequirement, document: Document)
    ensures MatchingPolicies(r, document) == [] <==>
        !exists p | p in document.policies :: p.coverageType.value == r.coverageType
    ensures forall p :: p in MatchingPolicies(r, document) <==>
        p in document.policies && p.coverageType.value == r.coverageType
  {
    hide IsIsoDate;
    var matching := MatchingPolicies(r, document);
    if matching != [] {
      assert matching[0] in matching;
    }
  }

  lemma SelectedMeans(r: CoverageRequirement, document: Document, date: IsoDate, through: IsoDate)
    requires MatchingPolicies(r, document) != [] && RequiredThrough(r, date) == Some(through)
    ensures var fs := Selected(r, document, date, through).findings;
      && (!Has(fs, Fail) && !Has(fs, Unknown) <==>
          exists p, w :: IsWindow(w, date, r.minimumDaysRemaining) && Meets(r, p, document, w))
      && (Has(fs, Fail) <==> forall p, w | p in MatchingPolicies(r, document)
          && IsWindow(w, date, r.minimumDaysRemaining) :: Deficient(r, p, document, w))
      && (!Has(fs, Fail) && !Has(fs, Unknown) ==> Has(fs, Pass))
  {
    hide IsIsoDate, EpochDay, MatchingPolicies, PolicyFindings, Has, Selected, Deficient, IsWindow, RequiredThrough;
    var w := Window(date, through);
    ThroughMeans(r, date);
    MatchingMeans(r, document);
    SelectedTiers(r, document, date, through);
    SelectedIsLeast(r, document, date, through);
    forall p | p in MatchingPolicies(r, document)
      ensures var fs := PolicyFindings(r, p, document, date, through);
        && (!Has(fs, Fail) && !Has(fs, Unknown) <==> Meets(r, p, document, w))
        && (Has(fs, Fail) <==> Deficient(r, p, document, w))
        && (!Has(fs, Fail) && !Has(fs, Unknown) ==> Has(fs, Pass))
    {
      PolicyMeans(r, p, document, w);
      OneStatus(PolicyFindings(r, p, document, date, through));
    }
    forall p ensures Meets(r, p, document, w) ==> p in MatchingPolicies(r, document) {
    }
  }

  lemma OneStatus(fs: seq<Finding>)
    requires fs != [] && !Has(fs, NotApplicable)
    ensures Has(fs, Pass) || Has(fs, Fail) || Has(fs, Unknown)
  {
    assert fs[0].status == Pass || fs[0].status == Fail || fs[0].status == Unknown;
  }

  /** The findings of one requirement, in terms of the document alone. */
  lemma RequirementMeans(r: CoverageRequirement, document: Document, date: IsoDate)
    ensures CoverageFindings(r, document, date) == None <==> Unevaluable(r, document, date)
    ensures CoverageFindings(r, document, date).Some? ==>
      var fs := CoverageFindings(r, document, date).value;
      && (r.applicability == NotApplicableHere ==> !Has(fs, Pass) && !Has(fs, Fail) && !Has(fs, Unknown))
      && (r.applicability == Required ==>
            && (!Has(fs, Fail) && !Has(fs, Unknown) <==> RequirementMet(r, document, date))
            && (Has(fs, Fail) <==> RequirementFails(r, document, date))
            && (Has(fs, Pass) || Has(fs, Fail) || Has(fs, Unknown)))
  {
    hide IsIsoDate, EpochDay, MatchingPolicies, Has, Selected, Deficient, IsWindow, RequiredThrough, Meets, Endorsed;
    hide EndorsementFails, EndorsementFindings;
    MatchingMeans(r, document);
    ThroughMeans(r, date);
    if r.applicability == NotApplicableHere || MatchingPolicies(r, document) == [] {
      var fs := CoverageFindings(r, document, date).value;
      assert fs == [fs[0]];
      forall status ensures Has(fs, status) <==> fs[0].status == status {
        HasOne(fs[0], status);
      }
      forall p, w ensures Meets(r, p, document, w) ==> p in MatchingPolicies(r, document) {
        MeetsMatches(r, p, document, w);
      }
    } else if RequiredThrough(r, date).Some? {
      var through := RequiredThrough(r, date).value;
      var chosen, endorsed := Selected(r, document, date, through).findings, EndorsementFindings(r, document);
      SelectedMeans(r, document, date, through);
      EndorsementFindingsMean(r, document);
      forall status ensures Has(chosen + endorsed, status) <==> Has(chosen, status) || Has(endorsed, status) {
        HasJoined(chosen, endorsed, status);
      }
    }
  }

  lemma MeetsMatches(r: CoverageRequirement, p: Policy, document: Document, w: Window)
    ensures Meets(r, p, document, w) ==> p in MatchingPolicies(r, document)
  {
    hide IsIsoDate, EpochDay;
  }

  // ---------- the label ----------

  lemma {:induction false} AllFindingsMean(rs: seq<CoverageRequirement>, document: Document, date: IsoDate)
    ensures AllFindings(rs, document, date) == None <==>
        exists i | 0 <= i < |rs| :: CoverageFindings(rs[i], document, date) == None
    ensures AllFindings(rs, document, date).Some? ==> forall status ::
        Has(AllFindings(rs, document, date).value, status)
        <==> exists i | 0 <= i < |rs| :: Has(CoverageFindings(rs[i], document, date).value, status)
  {
    hide CoverageFindings, IsIsoDate, Has;
    if rs == [] {
      forall status ensures !Has([], status) {
        HasNone(status);
      }
    } else {
      var last := |rs| - 1;
      AllFindingsMean(rs[..last], document, date);
      assert forall i | 0 <= i < last :: rs[..last][i] == rs[i];
      var front, back := AllFindings(rs[..last], document, date), CoverageFindings(rs[last], document, date);
      if front.Some? && back.Some? {
        forall status ensures Has(front.value + back.value, status) <==>
            Has(front.value, status) || Has(back.value, status) {
          HasJoined(front.value, back.value, status);
        }
      }
    }
  }

  lemma HasNone(status: Status)
    ensures !Has([], status)
  {
  }

  ghost predicate AsksForCoverage(rs: seq<CoverageRequirement>) {
    exists r | r in rs :: r.applicability == Required
  }

  /** The first profile for the vendor type. */
  ghost predicate IsProfile(profiles: seq<Profile>, vendorTypeId: Id, k: int) {
    && 0 <= k < |profiles| && profiles[k].vendorTypeId == vendorTypeId
    && forall j | 0 <= j < k :: profiles[j].vendorTypeId != vendorTypeId
  }

  ghost predicate NoProfile(profiles: seq<Profile>, vendorTypeId: Id) {
    forall k | 0 <= k < |profiles| :: profiles[k].vendorTypeId != vendorTypeId
  }

  ghost predicate Throws(profiles: seq<Profile>, document: Document, vendorTypeId: Id, date: Text) {
    !IsIsoDate(date) || exists k, r | IsProfile(profiles, vendorTypeId, k) && r in profiles[k].requirements ::
      Unevaluable(r, document, date)
  }

  /** What each label says about the document and the requirements. */
  ghost predicate Labels(found: Label, rs: seq<CoverageRequirement>, document: Document, date: IsoDate) {
    && (found == DocumentCompliant <==>
          AsksForCoverage(rs)
          && forall r | r in rs && r.applicability == Required :: RequirementMet(r, document, date))
    && (found == DocumentNonCompliant <==>
          exists r | r in rs && r.applicability == Required :: RequirementFails(r, document, date))
    && (found == DocumentNotApplicable <==> !AsksForCoverage(rs))
  }

  lemma ProfileFound(profiles: seq<Profile>, vendorTypeId: Id)
    ensures FindProfile(profiles, vendorTypeId) == None <==> NoProfile(profiles, vendorTypeId)
    ensures forall k | IsProfile(profiles, vendorTypeId, k) :: FindProfile(profiles, vendorTypeId) == Some(profiles[k])
    ensures NoProfile(profiles, vendorTypeId) || exists k :: IsProfile(profiles, vendorTypeId, k)
  {
    hide IndexOf;
    var n := IndexOf(profiles, (p: Profile) => p.vendorTypeId == vendorTypeId);
    if n < |profiles| {
      assert IsProfile(profiles, vendorTypeId, n);
    }
    forall k | IsProfile(profiles, vendorTypeId, k) ensures k == n {
    }
  }

  /** What each label says about the document and the requirements of the vendor type's first profile, what is
      reported without one, and exactly when the evaluation throws. */
  lemma LabelMeans(profiles: seq<Profile>, document: Document, vendorTypeId: Id, date: Text)
    ensures Evaluate(profiles, document, vendorTypeId, date) == None <==> Throws(profiles, document, vendorTypeId, date)
    ensures IsIsoDate(date) && NoProfile(profiles, vendorTypeId) ==>
      Evaluate(profiles, document, vendorTypeId, date)
      == Some(Evaluation(DocumentReviewRequired, [Finding(vendorTypeId, Unknown, VendorTypeRulesNotFound, [], None)]))
    ensures !Throws(profiles, document, vendorTypeId, date) ==>
      forall k | IsProfile(profiles, vendorTypeId, k) ::
        Labels(Evaluate(profiles, document, vendorTypeId, date).value.documentLabel, profiles[k].requirements, document,
          date)
  {
    hide IsIsoDate, Has, CoverageFindings, AllFindings, RequirementMet, RequirementFails, Unevaluable, FindProfile;
    hide IsProfile, NoProfile;
    ProfileFound(profiles, vendorTypeId);
    if IsIsoDate(date) {
      if NoProfile(profiles, vendorTypeId) {
        forall status ensures Has([Finding(vendorTypeId, Unknown, VendorTypeRulesNotFound, [], None)], status) <==>
            status == Unknown {
          HasOne(Finding(vendorTypeId, Unknown, VendorTypeRulesNotFound, [], None), status);
        }
        forall k ensures !IsProfile(profiles, vendorTypeId, k) {
          NoneIsProfile(profiles, vendorTypeId, k);
        }
      } else {
        LabelOfProfile(FindProfile(profiles, vendorTypeId).value.requirements, document, date);
      }
    }
  }

  lemma NoneIsProfile(profiles: seq<Profile>, vendorTypeId: Id, k: int)
    requires NoProfile(profiles, vendorTypeId)
    ensures !IsProfile(profiles, vendorTypeId, k)
  {
  }

  lemma LabelOfProfile(rs: seq<CoverageRequirement>, document: Document, date: IsoDate)
    ensures AllFindings(rs, document, date) == None <==> exists r | r in rs :: Unevaluable(r, document, date)
    ensures AllFindings(rs, document, date).Some? ==>
      Labels(DeriveLabel(AllFindings(rs, document, date).value), rs, document, date)
  {
    hide IsIsoDate, Has, CoverageFindings, AllFindings, RequirementMet, RequirementFails, Unevaluable;
    AllFindingsMean(rs, document, date);
    forall r | r in rs
      ensures CoverageFindings(r, document, date) == None <==> Unevaluable(r, document, date)
      ensures CoverageFindings(r, document, date).Some? ==>
        var fs := CoverageFindings(r, document, date).value;
        && (r.applicability == NotApplicableHere ==> !Has(fs, Pass) && !Has(fs, Fail) && !Has(fs, Unknown))
        && (r.applicability == Required ==>
              && (!Has(fs, Fail) && !Has(fs, Unknown) <==> RequirementMet(r, document, date))
              && (Has(fs, Fail) <==> RequirementFails(r, document, date))
              && (Has(fs, Pass) || Has(fs, Fail) || Has(fs, Unknown)))
    {
      RequirementMeans(r, document, date);
    }
  }

  // ---------- documents nobody has reviewed ----------

  /** An unreviewed document gets no PASS and no FAIL at all. */
  lemma UnreviewedDecidesNothing(profiles: seq<Profile>, document: Document, vendorTypeId: Id, date: Text)
    requires document.reviewStatus == Unconfirmed && Evaluate(profiles, document, vendorTypeId, date).Some?
    ensures var fs := Evaluate(profiles, document, vendorTypeId, date).value.findings;
      forall f | f in fs :: f.status == Unknown || f.status == NotApplicable
  {
    hide IsIsoDate, AllFindings, FindProfile;
    var profile := FindProfile(profiles, vendorTypeId);
    if profile.Some? {
      UnreviewedProfile(profile.value.requirements, document, date);
    }
  }

  ghost predicate Undecisive(fs: seq<Finding>) {
    forall f | f in fs :: f.status == Unknown || f.status == NotApplicable
  }

  lemma {:induction false} UnreviewedProfile(rs: seq<CoverageRequirement>, document: Document, date: IsoDate)
    requires document.reviewStatus == Unconfirmed && AllFindings(rs, document, date).Some?
    ensures Undecisive(AllFindings(rs, document, date).value)
  {
    hide CoverageFindings, IsIsoDate;
    if rs != [] {
      var last := |rs| - 1;
      UnreviewedProfile(rs[..last], document, date);
      UnreviewedCoverage(rs[last], document, date);
    }
  }

  lemma UnreviewedCoverage(r: CoverageRequirement, document: Document, date: IsoDate)
    requires document.reviewStatus == Unconfirmed && CoverageFindings(r, document, date).Some?
    ensures Undecisive(CoverageFindings(r, document, date).value)
  {
    hide IsIsoDate, EpochDay, MatchingPolicies, Selected, RequiredThrough, EndorsementFinding, PolicyFindings;
    if r.applicability == Required && MatchingPolicies(r, document) != [] {
      var through := RequiredThrough(r, date).value;
      SelectedIsLeast(r, document, date, through);
      var p :| p in MatchingPolicies(r, document)
          && Selected(r, document, date, through) == CandidateOf(r, p, document, date, through);
      UnreviewedPolicy(r, p, document, date, through);
      forall i | 0 <= i < |r.endorsements| ensures EndorsementFindings(r, document)[i].status in {Unknown,
          NotApplicable} {
        UnreviewedEndorsement(r, r.endorsements[i], document);
      }
    }
  }

  lemma UnreviewedEndorsement(r: CoverageRequirement, e: EndorsementRequirement, document: Document)
    requires document.reviewStatus == Unconfirmed
    ensures EndorsementFinding(r, e, document).status in {Unknown, NotApplicable}
  {
    hide SortBy, Matches;
  }

  lemma UnreviewedPolicy(r: CoverageRequirement, p: Policy, document: Document, date: IsoDate, through: IsoDate)
    requires document.reviewStatus == Unconfirmed
    ensures Undecisive(PolicyFindings(r, p, document, date, through))
  {
    hide IsIsoDate, EpochDay, UmbrellaCandidates;
    forall i | 0 <= i < |r.minimumLimits| ensures LimitFindings(r, p, document, date, through)[i].status == Unknown {
      assert LimitFinding(r, r.minimumLimits[i], p, document, date, through).status == Unknown;
    }
  }
}
