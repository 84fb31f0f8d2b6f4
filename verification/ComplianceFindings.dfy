/** What every single finding keeps: its code fits its status, and it cites only what is in the document. */
module ComplianceFindings {
  import opened Primitives
  import opened Text
  import opened Sorting
  import opened Calendar
  import opened Compliance
  import opened UmbrellaCredit
  import opened ComplianceMeaning

  /** The one status a code is ever reported with. */
  function StatusOf(code: Code): (r: Status) {
    match code
    case CoverageNotApplicable => NotApplicable
    case EndorsementNotApplicable => NotApplicable
    case RequiredCoverageFound => Pass
    case RequiredPolicyFieldFound => Pass
    case PolicyPeriodSatisfies => Pass
    case LimitSatisfies => Pass
    case StackedLimitSatisfies => Pass
    case EndorsementEvidenceSatisfies => Pass
    case RequiredCoverageMissing => Fail
    case RequiredPolicyFieldMissing => Fail
    case PolicyPeriodMissing => Fail
    case PolicyPeriodDeficient => Fail
    case RequiredLimitMissing => Fail
    case LimitInadequate => Fail
    case StackedLimitInadequate => Fail
    case EndorsementEvidenceMissing => Fail
    case EndorsementEvidenceInadequate => Fail
    case _ => Unknown
  }

  ghost predicate NothingShown(r: CoverageRequirement, document: Document) {
    forall q | q in document.policies :: q.coverageType.value != r.coverageType
  }

  /** What is reported about the coverage itself: of a policy whether a person confirmed its type, and of a requirement
      without any policy whether it applies and whether the document was reviewed. */
  lemma CoverageCodesMean(r: CoverageRequirement, p: Policy, document: Document, date: IsoDate)
    ensures CoverageFinding(r, p, document) ==
      if Reviewed(document, p.coverageType) then Finding(r.id, Pass, RequiredCoverageFound, [p.id], None)
      else Finding(r.id, Unknown, CoverageTypeUnconfirmed, [p.id], None)
    ensures r.applicability == NotApplicableHere ==>
      CoverageFindings(r, document, date) == Some([Finding(r.id, NotApplicable, CoverageNotApplicable, [], None)])
    ensures r.applicability == Required && NothingShown(r, document) ==>
      CoverageFindings(r, document, date)
      == Some([if document.reviewStatus == Confirmed then Finding(r.id, Fail, RequiredCoverageMissing, [], None)
               else Finding(r.id, Unknown, CoverageReviewRequired, [], None)])
  {
    hide MatchingPolicies, Selected, RequiredThrough, EndorsementFindings, IsIsoDate;
    MatchingMeans(r, document);
  }

  ghost predicate InDocument(document: Document, id: Id) {
    (exists p | p in document.policies :: p.id == id) || (exists e | e in document.endorsements :: e.id == id)
  }

  ghost predicate WellFounded(document: Document, f: Finding) {
    StatusOf(f.code) == f.status && forall id | id in f.evidenceIds :: InDocument(document, id)
  }

  ghost predicate AllWellFounded(document: Document, fs: seq<Finding>) {
    forall i | 0 <= i < |fs| :: WellFounded(document, fs[i])
  }

  lemma UmbrellasInDocument(document: Document, limitType: LimitType, date: IsoDate, through: IsoDate)
    ensures forall u | u in UmbrellaCandidates(document, limitType, date, through) :: InDocument(document, u.id)
  {
    hide UmbrellaCandidates, IsIsoDate, EpochDay;
    CandidatesAre(limitType, document, Window(date, through));
  }

  lemma LimitWellFounded(r: CoverageRequirement, limit: LimitRequirement, p: Policy, document: Document,
      date: IsoDate, through: IsoDate)
    requires p in document.policies
    ensures WellFounded(document, LimitFinding(r, limit, p, document, date, through))
  {
    hide UmbrellaCandidates, IsIsoDate, EpochDay, IndexOf, UmbrellaLimitType;
    var us := UmbrellaCandidates(document, UmbrellaLimitType(limit), date, through);
    UmbrellasInDocument(document, UmbrellaLimitType(limit), date, through);
    assert InDocument(document, p.id);
    forall id | id in UmbrellaIds(us) ensures InDocument(document, id) {
      var i :| 0 <= i < |us| && UmbrellaIds(us)[i] == id;
      assert us[i] in us;
    }
    forall k | 0 <= k < |us| ensures InDocument(document, us[k].id) {
      assert us[k] in us;
    }
  }

  lemma PolicyWellFounded(r: CoverageRequirement, p: Policy, document: Document, date: IsoDate, through: IsoDate)
    requires p in document.policies
    ensures AllWellFounded(document, PolicyFindings(r, p, document, date, through))
  {
    hide IsIsoDate, EpochDay, LimitFinding;
    assert InDocument(document, p.id);
    forall i | 0 <= i < |r.minimumLimits| ensures WellFounded(document,
        LimitFindings(r, p, document, date, through)[i]) {
      LimitWellFounded(r, r.minimumLimits[i], p, document, date, through);
    }
  }

  lemma EndorsementWellFounded(r: CoverageRequirement, e: EndorsementRequirement, document: Document)
    ensures WellFounded(document, EndorsementFinding(r, e, document))
  {
    hide SortBy, EndorsementMatches, EndorsementConfirmed, EvidenceRank;
    var matches := Matches(e, document);
    var sorted := SortBy(matches, EndorsementBefore);
    if sorted != [] {
      assert sorted[0] in Elements(sorted) && Elements(sorted) == Elements(matches);
      assert sorted[0] in document.endorsements;
    }
  }

  lemma CoverageWellFounded(r: CoverageRequirement, document: Document, date: IsoDate)
    requires CoverageFindings(r, document, date).Some?
    ensures AllWellFounded(document, CoverageFindings(r, document, date).value)
  {
    hide IsIsoDate, EpochDay, MatchingPolicies, Selected, RequiredThrough, EndorsementFinding, PolicyFindings;
    hide WellFounded;
    if r.applicability == Required && MatchingPolicies(r, document) != [] {
      var through := RequiredThrough(r, date).value;
      SelectedIsLeast(r, document, date, through);
      var p :| p in MatchingPolicies(r, document)
          && Selected(r, document, date, through) == CandidateOf(r, p, document, date, through);
      MatchingMeans(r, document);
      PolicyWellFounded(r, p, document, date, through);
      forall i | 0 <= i < |r.endorsements| ensures WellFounded(document, EndorsementFindings(r, document)[i]) {
        EndorsementWellFounded(r, r.endorsements[i], document);
      }
    } else {
      OneFindingWellFounded(r, document, date);
    }
  }

  lemma OneFindingWellFounded(r: CoverageRequirement, document: Document, date: IsoDate)
    requires CoverageFindings(r, document, date).Some?
        && (r.applicability == NotApplicableHere || MatchingPolicies(r, document) == [])
    ensures AllWellFounded(document, CoverageFindings(r, document, date).value)
  {
    hide IsIsoDate, MatchingPolicies;
  }

  lemma {:induction false} RequirementsWellFounded(rs: seq<CoverageRequirement>, document: Document, date: IsoDate)
    requires AllFindings(rs, document, date).Some?
    ensures AllWellFounded(document, AllFindings(rs, document, date).value)
  {
    hide CoverageFindings, IsIsoDate, WellFounded;
    if rs != [] {
      var last := |rs| - 1;
      RequirementsWellFounded(rs[..last], document, date);
      CoverageWellFounded(rs[last], document, date);
    }
  }

  /** Every finding of an evaluation has the status its code stands for, and cites only policies and endorsements of
      the document. */
  lemma FindingsAreWellFounded(profiles: seq<Profile>, document: Document, vendorTypeId: Id, date: Text)
    requires Evaluate(profiles, document, vendorTypeId, date).Some?
    ensures AllWellFounded(document, Evaluate(profiles, document, vendorTypeId, date).value.findings)
  {
    hide IsIsoDate, AllFindings, FindProfile;
    var profile := FindProfile(profiles, vendorTypeId);
    if profile.Some? {
      RequirementsWellFounded(profile.value.requirements, document, date);
    }
  }
}
