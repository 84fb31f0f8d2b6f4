/** The evaluator that checks a reviewed certificate against one vendor type's requirements. */
module Compliance {
  import opened Text
  import opened Primitives
  import opened Sorting
  import opened Calendar

  // ---------- requirements and facts ----------

  /** An identifier, as its place in the order of `localeCompare`. */
  type Id = int

  datatype CoverageType =
    | CommercialGeneralLiability | AutomobileLiability | WorkersCompensation | EmployersLiability
    | UmbrellaExcessLiability | ProfessionalLiability | CyberLiability | PollutionLiability | Property | OtherCoverage

  datatype LimitType =
    | EachOccurrence | DamageToRentedPremises | MedicalExpense | PersonalAdvertisingInjury | GeneralAggregate
    | ProductsCompletedOperationsAggregate | CombinedSingleLimit | BodilyInjuryPerPerson | BodilyInjuryPerAccident
    | PropertyDamagePerAccident | EachAccident | DiseaseEachEmployee | DiseasePolicyLimit | EachClaim | Aggregate

  datatype EvidenceLevel = NoEvidence | Mentioned | Scheduled | Attached | HumanVerified

  function EvidenceRank(level: EvidenceLevel): (r: nat) {
    match level
    case NoEvidence => 0
    case Mentioned => 1
    case Scheduled => 2
    case Attached => 3
    case HumanVerified => 4
  }

  datatype Applicability = Required | NotApplicableHere

  datatype PolicyFieldName = InsurerName | PolicyNumber

  type MoneyMinor = n: int | 0 <= n <= MAX_SAFE_INTEGER

  datatype LimitRequirement = LimitRequirement(
    limitType: LimitType, minimumMinor: MoneyMinor, allowUmbrellaStacking: bool, umbrellaLimitType: Option<LimitType>)

  /** Form codes and names are kept as `normalizedIdentity` leaves them. */
  datatype EndorsementRequirement = EndorsementRequirement(
    id: Id, formCode: Option<Text>, name: Option<Text>, applicability: Applicability,
        minimumEvidenceLevel: EvidenceLevel)

  datatype CoverageRequirement = CoverageRequirement(
    id: Id, coverageType: CoverageType, applicability: Applicability, requiredPolicyFields: seq<PolicyFieldName>,
    minimumDaysRemaining: nat, minimumLimits: seq<LimitRequirement>, endorsements: seq<EndorsementRequirement>)

  datatype Profile = Profile(vendorTypeId: Id, requirements: seq<CoverageRequirement>)

  datatype Confirmation = Unconfirmed | Confirmed

  datatype Field<T> = Field(value: T, confirmation: Confirmation)

  datatype Policy = Policy(
    id: Id, coverageType: Field<CoverageType>, insurerName: Option<Field<Text>>, policyNumber: Option<Field<Text>>,
    effectiveDate: Option<Field<IsoDate>>, expirationDate: Option<Field<IsoDate>>, limits: map<LimitType,
        Field<MoneyMinor>>)

  datatype Endorsement = Endorsement(
    id: Id, formCode: Option<Field<Text>>, name: Option<Field<Text>>, evidenceLevel: Field<EvidenceLevel>)

  datatype Document = Document(reviewStatus: Confirmation, policies: seq<Policy>, endorsements: seq<Endorsement>)

  // ---------- findings ----------

  datatype Status = Pass | Fail | Unknown | NotApplicable

  datatype Code =
    | VendorTypeRulesNotFound | CoverageNotApplicable | RequiredCoverageMissing | CoverageReviewRequired
    | RequiredCoverageFound | CoverageTypeUnconfirmed
    | RequiredPolicyFieldMissing | PolicyFieldReviewRequired | PolicyFieldUnconfirmed | RequiredPolicyFieldFound
    | PolicyPeriodMissing | PolicyPeriodReviewRequired | PolicyPeriodUnconfirmed | PolicyPeriodSatisfies
    | PolicyPeriodDeficient
    | RequiredLimitMissing | LimitReviewRequired | LimitUnconfirmed | LimitSatisfies | LimitInadequate
    | UmbrellaEvidenceUnconfirmed | StackedLimitInadequate | StackedLimitOverflow | StackedLimitSatisfies
    | EndorsementNotApplicable | EndorsementEvidenceMissing | EndorsementReviewRequired
    | EndorsementEvidenceUnconfirmed | EndorsementEvidenceSatisfies | EndorsementEvidenceInadequate

  /** `credited` is the observed credited value of a limit finding that reports one. */
  datatype Finding = Finding(requirementId: Id, status: Status, code: Code, evidenceIds: seq<Id>, credited: Option<int>)

  datatype Label = DocumentCompliant | DocumentNonCompliant | DocumentReviewRequired | DocumentNotApplicable

  datatype Evaluation = Evaluation(documentLabel: Label, findings: seq<Finding>)

  predicate Has(findings: seq<Finding>, status: Status) {
    exists i | 0 <= i < |findings| :: findings[i].status == status
  }

  function DeriveLabel(findings: seq<Finding>): (r: Label) {
    if Has(findings, Fail) then DocumentNonCompliant
    else if Has(findings, Unknown) then DocumentReviewRequired
    else if Has(findings, Pass) then DocumentCompliant
    else DocumentNotApplicable
  }

  // ---------- one policy ----------

  predicate IsConfirmed<T>(document: Document, field: Option<Field<T>>) {
    document.reviewStatus == Confirmed && field.Some? && field.value.confirmation == Confirmed
  }

  /** Absent from a reviewed document counts against it; otherwise nothing is known. */
  function Absent(document: Document): (r: Status) {
    if document.reviewStatus == Confirmed then Fail else Unknown
  }

  function CoverageFinding(requirement: CoverageRequirement, policy: Policy, document: Document): (r: Finding) {
    if IsConfirmed(document, Some(policy.coverageType))
    then Finding(requirement.id, Pass, RequiredCoverageFound, [policy.id], None)
    else Finding(requirement.id, Unknown, CoverageTypeUnconfirmed, [policy.id], None)
  }

  function PolicyField(policy: Policy, name: PolicyFieldName): (r: Option<Field<Text>>) {
    if name == InsurerName then policy.insurerName else policy.policyNumber
  }

  function FieldFinding(requirement: CoverageRequirement, name: PolicyFieldName, policy: Policy,
      document: Document): (r: Finding)
  {
    var field := PolicyField(policy, name);
    if field == None then
      var status := Absent(document);
      Finding(requirement.id, status,
          if status == Fail then RequiredPolicyFieldMissing else PolicyFieldReviewRequired, [policy.id], None)
    else if !IsConfirmed(document, field)
        then Finding(requirement.id, Unknown, PolicyFieldUnconfirmed, [policy.id], None)
    else Finding(requirement.id, Pass, RequiredPolicyFieldFound, [policy.id], None)
  }

  function PeriodFinding(requirement: CoverageRequirement, policy: Policy, document: Document, date: IsoDate,
      through: IsoDate): (r: Finding)
  {
    if policy.effectiveDate == None || policy.expirationDate == None then
      var status := Absent(document);
      Finding(requirement.id, status, if status == Fail then PolicyPeriodMissing else PolicyPeriodReviewRequired,
          [policy.id], None)
    else if !IsConfirmed(document, policy.effectiveDate) || !IsConfirmed(document, policy.expirationDate) then
      Finding(requirement.id, Unknown, PolicyPeriodUnconfirmed, [policy.id], None)
    else
      var startsInTime := EpochDay(policy.effectiveDate.value.value) <= EpochDay(date);
      var endsInTime := EpochDay(policy.expirationDate.value.value) >= EpochDay(through);
      if startsInTime && endsInTime then Finding(requirement.id, Pass, PolicyPeriodSatisfies, [policy.id], None)
      else Finding(requirement.id, Fail, PolicyPeriodDeficient, [policy.id], None)
  }

  // ---------- umbrella limits ----------

  function DefaultUmbrellaLimitType(limitType: LimitType): (r: LimitType) {
    match limitType
    case GeneralAggregate => Aggregate
    case ProductsCompletedOperationsAggregate => Aggregate
    case Aggregate => Aggregate
    case _ => EachOccurrence
  }

  function UmbrellaLimitType(limit: LimitRequirement): (r: LimitType) {
    if limit.umbrellaLimitType.Some? then limit.umbrellaLimitType.value else DefaultUmbrellaLimitType(limit.limitType)
  }

  predicate IsPolicyActiveThrough(policy: Policy, document: Document, date: IsoDate, through: IsoDate) {
    && IsConfirmed(document, policy.effectiveDate) && IsConfirmed(document, policy.expirationDate)
    && EpochDay(policy.effectiveDate.value.value) <= EpochDay(date)
    && EpochDay(policy.expirationDate.value.value) >= EpochDay(through)
  }

  predicate Pending<T>(field: Option<Field<T>>) {
    field.Some? && field.value.confirmation == Unconfirmed
  }

  function LimitOf(policy: Policy, limitType: LimitType): (r: Option<Field<MoneyMinor>>) {
    if limitType in policy.limits then Some(policy.limits[limitType]) else None
  }

  datatype Umbrella = Umbrella(id: Id, amount: MoneyMinor, indeterminate: bool, usable: bool)

  function UmbrellaOf(policy: Policy, limitType: LimitType, document: Document, date: IsoDate,
      through: IsoDate): (r: Umbrella)
  {
    var indeterminate :=
      || document.reviewStatus != Confirmed || policy.coverageType.confirmation != Confirmed
      || Pending(LimitOf(policy, limitType)) || Pending(policy.effectiveDate) || Pending(policy.expirationDate);
    var usable :=
      && IsConfirmed(document, Some(policy.coverageType)) && IsConfirmed(document, LimitOf(policy, limitType))
      && IsPolicyActiveThrough(policy, document, date, through);
    var amount := if limitType in policy.limits then policy.limits[limitType].value else 0;
    Umbrella(policy.id, amount, indeterminate, usable)
  }

  predicate HasUmbrellaLimit(policy: Policy, limitType: LimitType) {
    policy.coverageType.value == UmbrellaExcessLiability && limitType in policy.limits
  }

  /** Greater amounts first, then by id. */
  predicate UmbrellaBefore(left: Umbrella, right: Umbrella) {
    left.amount > right.amount || (left.amount == right.amount && left.id < right.id)
  }

  function UmbrellaPolicies(document: Document, limitType: LimitType): (r: seq<Policy>)
    ensures forall p | p in r :: p in document.policies && HasUmbrellaLimit(p, limitType)
  {
    Filter(document.policies, (p: Policy) => HasUmbrellaLimit(p, limitType))
  }

  function UmbrellaCandidates(document: Document, limitType: LimitType, date: IsoDate,
      through: IsoDate): (r: seq<Umbrella>)
  {
    SortBy(Map((p: Policy) => UmbrellaOf(p, limitType, document, date, through),
        UmbrellaPolicies(document, limitType)), UmbrellaBefore)
  }

  function SafeMoneyAdd(left: MoneyMinor, right: MoneyMinor): (r: Option<MoneyMinor>) {
    if left + right <= MAX_SAFE_INTEGER then Some(left + right) else None
  }

  function UmbrellaIds(umbrellas: seq<Umbrella>): (r: seq<Id>) {
    Map((u: Umbrella) => u.id, umbrellas)
  }

  /** What stacking makes of a base limit below the minimum, given the sorted umbrella candidates. */
  function StackedFinding(requirement: CoverageRequirement, minimum: MoneyMinor, policy: Policy, base: MoneyMinor,
      umbrellas: seq<Umbrella>): (r: Finding)
  {
    var k := IndexOf(umbrellas, (u: Umbrella) => u.usable);
    if k == |umbrellas| then
      if exists u | u in umbrellas :: u.indeterminate
      then Finding(requirement.id, Unknown, UmbrellaEvidenceUnconfirmed, [policy.id] + UmbrellaIds(umbrellas), None)
      else Finding(requirement.id, Fail, StackedLimitInadequate, [policy.id], Some(base))
    else
      var evidence := [policy.id, umbrellas[k].id];
      match SafeMoneyAdd(base, umbrellas[k].amount)
      case None => Finding(requirement.id, Unknown, StackedLimitOverflow, evidence, None)
      case Some(total) =>
        if total >= minimum then Finding(requirement.id, Pass, StackedLimitSatisfies, evidence, Some(total))
        else Finding(requirement.id, Fail, StackedLimitInadequate, evidence, Some(total))
  }

  function LimitFinding(requirement: CoverageRequirement, limit: LimitRequirement, policy: Policy, document: Document,
      date: IsoDate, through: IsoDate): (r: Finding)
  {
    var field := LimitOf(policy, limit.limitType);
    if field == None then
      var status := Absent(document);
      Finding(requirement.id, status, if status == Fail then RequiredLimitMissing else LimitReviewRequired,
          [policy.id], None)
    else if !IsConfirmed(document, field) then Finding(requirement.id, Unknown, LimitUnconfirmed, [policy.id], None)
    else
      var base := field.value.value;
      if base >= limit.minimumMinor then Finding(requirement.id, Pass, LimitSatisfies, [policy.id], Some(base))
      else if !limit.allowUmbrellaStacking then Finding(requirement.id, Fail, LimitInadequate, [policy.id], Some(base))
      else StackedFinding(requirement, limit.minimumMinor, policy, base,
          UmbrellaCandidates(document, UmbrellaLimitType(limit), date, through))
  }

  // ---------- the policy as a whole ----------

  function FieldFindings(requirement: CoverageRequirement, policy: Policy, document: Document): (r: seq<Finding>)
    ensures |r| == |requirement.requiredPolicyFields|
    ensures forall i | 0 <= i < |r| ::
        r[i] == FieldFinding(requirement, requirement.requiredPolicyFields[i], policy, document)
  {
    Map((name: PolicyFieldName) => FieldFinding(requirement, name, policy, document), requirement.requiredPolicyFields)
  }

  function LimitFindings(requirement: CoverageRequirement, policy: Policy, document: Document, date: IsoDate,
      through: IsoDate): (r: seq<Finding>)
    ensures |r| == |requirement.minimumLimits|
    ensures forall i | 0 <= i < |r| ::
      r[i] == LimitFinding(requirement, requirement.minimumLimits[i], policy, document, date, through)
  {
    Map((limit: LimitRequirement) => LimitFinding(requirement, limit, policy, document, date, through),
        requirement.minimumLimits)
  }

  function PolicyFindings(requirement: CoverageRequirement, policy: Policy, document: Document, date: IsoDate,
      through: IsoDate): (r: seq<Finding>)
  {
    [CoverageFinding(requirement, policy, document)] + FieldFindings(requirement, policy, document)
    + [PeriodFinding(requirement, policy, document, date, through)]
        + LimitFindings(requirement, policy, document, date, through)
  }

  /** The last day a policy must cover, or None where computing it throws. */
  function RequiredThrough(requirement: CoverageRequirement, date: IsoDate): (r: Option<IsoDate>) {
    AddDays(date, requirement.minimumDaysRemaining)
  }

  /** Pushes the policy's findings one after another; None where the source throws. */
  method EvaluatePolicy(requirement: CoverageRequirement, policy: Policy, document: Document, date: IsoDate)
      returns (results: Option<seq<Finding>>)
    ensures match RequiredThrough(requirement, date)
            case None => results == None
            case Some(through) => results == Some(PolicyFindings(requirement, policy, document, date, through))
  {
    hide RequiredThrough, CoverageFinding, FieldFinding, PeriodFinding, LimitFinding, FieldFindings, LimitFindings;
    hide IsIsoDate;
    ghost var fields := FieldFindings(requirement, policy, document);
    ghost var head := [CoverageFinding(requirement, policy, document)];
    var findings := [CoverageFinding(requirement, policy, document)];
    var i := 0;
    while i < |requirement.requiredPolicyFields|
      invariant i <= |requirement.requiredPolicyFields| && findings == head + fields[..i]
    {
      findings := findings + [FieldFinding(requirement, requirement.requiredPolicyFields[i], policy, document)];
      i := i + 1;
    }
    assert fields[..i] == fields;
    var required := RequiredThrough(requirement, date);
    if required == None {
      return None;
    }
    var through := required.value;
    ghost var limits := LimitFindings(requirement, policy, document, date, through);
    head := head + fields + [PeriodFinding(requirement, policy, document, date, through)];
    findings := findings + [PeriodFinding(requirement, policy, document, date, through)];
    i := 0;
    while i < |requirement.minimumLimits|
      invariant i <= |requirement.minimumLimits| && findings == head + limits[..i]
    {
      findings := findings + [LimitFinding(requirement, requirement.minimumLimits[i], policy, document, date, through)];
      i := i + 1;
    }
    assert limits[..i] == limits;
    return Some(findings);
  }

  // ---------- endorsements ----------

  predicate EndorsementMatches(requirement: EndorsementRequirement, evidence: Endorsement) {
    if requirement.formCode.Some? then
      evidence.formCode.Some? && requirement.formCode.value == evidence.formCode.value.value
    else
      && requirement.name.Some? && evidence.name.Some?
      && requirement.name.value != [] && evidence.name.value.value == requirement.name.value
  }

  /** Stronger evidence first, then by id. */
  predicate EndorsementBefore(left: Endorsement, right: Endorsement) {
    || EvidenceRank(left.evidenceLevel.value) > EvidenceRank(right.evidenceLevel.value)
    || (left.evidenceLevel.value == right.evidenceLevel.value && left.id < right.id)
  }

  function Matches(requirement: EndorsementRequirement, document: Document): (r: seq<Endorsement>) {
    Filter(document.endorsements, (e: Endorsement) => EndorsementMatches(requirement, e))
  }

  predicate EndorsementConfirmed(document: Document, evidence: Endorsement) {
    && (evidence.formCode.Some? ==> IsConfirmed(document, evidence.formCode))
    && (evidence.name.Some? ==> IsConfirmed(document, evidence.name))
    && IsConfirmed(document, Some(evidence.evidenceLevel))
  }

  function EndorsementFinding(coverage: CoverageRequirement, requirement: EndorsementRequirement,
      document: Document): (r: Finding)
  {
    if requirement.applicability == NotApplicableHere
        then Finding(coverage.id, NotApplicable, EndorsementNotApplicable, [], None)
    else
      var matches := SortBy(Matches(requirement, document), EndorsementBefore);
      if matches == [] then
        var status := Absent(document);
        Finding(coverage.id, status, if status == Fail then EndorsementEvidenceMissing else EndorsementReviewRequired,
            [], None)
      else
        var best := matches[0];
        if !EndorsementConfirmed(document, best)
            then Finding(coverage.id, Unknown, EndorsementEvidenceUnconfirmed, [best.id], None)
        else if EvidenceRank(best.evidenceLevel.value) >= EvidenceRank(requirement.minimumEvidenceLevel)
        then Finding(coverage.id, Pass, EndorsementEvidenceSatisfies, [best.id], None)
        else Finding(coverage.id, Fail, EndorsementEvidenceInadequate, [best.id], None)
  }

  function EndorsementFindings(coverage: CoverageRequirement, document: Document): (r: seq<Finding>)
    ensures |r| == |coverage.endorsements|
    ensures forall i | 0 <= i < |r| :: r[i] == EndorsementFinding(coverage, coverage.endorsements[i], document)
  {
    Map((requirement: EndorsementRequirement) => EndorsementFinding(coverage, requirement, document),
        coverage.endorsements)
  }

  // ---------- choosing among the matching policies ----------

  datatype Candidate = Candidate(policyId: Id, findings: seq<Finding>)

  function Count(findings: seq<Finding>, status: Status): (n: nat) {
    if findings == [] then 0 else (if findings[0].status == status then 1 else 0) + Count(findings[1..], status)
  }

  /** Negative when left is to be preferred. */
  function CompareCandidates(left: Candidate, right: Candidate): (r: int) {
    var leftFail, leftUnknown := Count(left.findings, Fail), Count(left.findings, Unknown);
    var rightFail, rightUnknown := Count(right.findings, Fail), Count(right.findings, Unknown);
    var leftAllPass := leftFail == 0 && leftUnknown == 0;
    var rightAllPass := rightFail == 0 && rightUnknown == 0;
    if leftAllPass != rightAllPass then (if leftAllPass then -1 else 1)
    else
      var leftUnknownOnly := leftFail == 0 && leftUnknown > 0;
      var rightUnknownOnly := rightFail == 0 && rightUnknown > 0;
      if leftUnknownOnly != rightUnknownOnly then (if leftUnknownOnly then -1 else 1)
      else if leftFail != rightFail then leftFail - rightFail
      else if leftUnknown != rightUnknown then leftUnknown - rightUnknown
      else left.policyId - right.policyId
  }

  predicate Preferred(left: Candidate, right: Candidate) {
    CompareCandidates(left, right) < 0
  }

  predicate PolicyBefore(left: Policy, right: Policy) {
    left.id < right.id
  }

  function MatchingPolicies(requirement: CoverageRequirement, document: Document): (r: seq<Policy>) {
    Filter(document.policies, (p: Policy) => p.coverageType.value == requirement.coverageType)
  }

  function CandidateOf(requirement: CoverageRequirement, policy: Policy, document: Document, date: IsoDate,
      through: IsoDate): (r: Candidate)
  {
    Candidate(policy.id, PolicyFindings(requirement, policy, document, date, through))
  }

  function Evaluated(requirement: CoverageRequirement, document: Document, date: IsoDate,
      through: IsoDate): (r: seq<Candidate>)
    ensures var policies := SortBy(MatchingPolicies(requirement, document), PolicyBefore);
      |r| == |policies| && forall i | 0 <= i < |r| ::
          r[i] == CandidateOf(requirement, policies[i], document, date, through)
  {
    Map((p: Policy) => CandidateOf(requirement, p, document, date, through),
        SortBy(MatchingPolicies(requirement, document), PolicyBefore))
  }

  function Selected(requirement: CoverageRequirement, document: Document, date: IsoDate,
      through: IsoDate): (r: Candidate)
    requires MatchingPolicies(requirement, document) != []
  {
    SortBy(Evaluated(requirement, document, date, through), Preferred)[0]
  }

  function CoverageFindings(requirement: CoverageRequirement, document: Document,
      date: IsoDate): (r: Option<seq<Finding>>)
  {
    if requirement.applicability == NotApplicableHere then
      Some([Finding(requirement.id, NotApplicable, CoverageNotApplicable, [], None)])
    else if MatchingPolicies(requirement, document) == [] then
      var status := Absent(document);
      Some([Finding(requirement.id, status,
          if status == Fail then RequiredCoverageMissing else CoverageReviewRequired, [], None)])
    else
      match RequiredThrough(requirement, date)
      case None => None
      case Some(through) =>
        Some(Selected(requirement, document, date, through).findings + EndorsementFindings(requirement, document))
  }

  method EvaluateCoverageRequirement(requirement: CoverageRequirement, document: Document, date: IsoDate)
      returns (r: Option<seq<Finding>>)
    ensures r == CoverageFindings(requirement, document, date)
  {
    hide RequiredThrough, PolicyFindings, Filter, SortBy, EndorsementFindings, MatchingPolicies, Evaluated, Preferred;
    hide PolicyBefore, IsIsoDate;
    if requirement.applicability == NotApplicableHere {
      return Some([Finding(requirement.id, NotApplicable, CoverageNotApplicable, [], None)]);
    }
    var candidates := SortBy(MatchingPolicies(requirement, document), PolicyBefore);
    if |candidates| == 0 {
      var status := Absent(document);
      return Some([Finding(requirement.id, status,
          if status == Fail then RequiredCoverageMissing else CoverageReviewRequired, [], None)]);
    }
    var evaluations: seq<Candidate> := [];
    var i := 0;
    while i < |candidates|
      invariant i == |evaluations| <= |candidates| && (i > 0 ==> RequiredThrough(requirement, date).Some?)
      invariant forall j | 0 <= j < i ::
        evaluations[j] == CandidateOf(requirement, candidates[j], document, date,
            RequiredThrough(requirement, date).value)
    {
      var findings := EvaluatePolicy(requirement, candidates[i], document, date);
      if findings == None {
        return None;
      }
      evaluations := evaluations + [Candidate(candidates[i].id, findings.value)];
      i := i + 1;
    }
    assert evaluations == Evaluated(requirement, document, date, RequiredThrough(requirement, date).value);
    evaluations := SortBy(evaluations, Preferred);
    return Some(evaluations[0].findings + EndorsementFindings(requirement, document));
  }

  // ---------- the document ----------

  function FindProfile(profiles: seq<Profile>, vendorTypeId: Id): (r: Option<Profile>) {
    var k := IndexOf(profiles, (p: Profile) => p.vendorTypeId == vendorTypeId);
    if k < |profiles| then Some(profiles[k]) else None
  }

  function AllFindings(requirements: seq<CoverageRequirement>, document: Document,
      date: IsoDate): (r: Option<seq<Finding>>)
  {
    if requirements == [] then Some([])
    else
      var last := |requirements| - 1;
      match AllFindings(requirements[..last], document, date)
      case None => None
      case Some(before) =>
        match CoverageFindings(requirements[last], document, date)
        case None => None
        case Some(findings) => Some(before + findings)
  }

  function Evaluate(profiles: seq<Profile>, document: Document, vendorTypeId: Id, date: Text): (r: Option<Evaluation>) {
    if !IsIsoDate(date) then None
    else
      match FindProfile(profiles, vendorTypeId)
      case None =>
        var findings := [Finding(vendorTypeId, Unknown, VendorTypeRulesNotFound, [], None)];
        Some(Evaluation(DeriveLabel(findings), findings))
      case Some(profile) =>
        match AllFindings(profile.requirements, document, date)
        case None => None
        case Some(findings) => Some(Evaluation(DeriveLabel(findings), findings))
  }

  /** Evaluates one document for one vendor type on one day; None where the source throws. */
  method EvaluateCompliance(profiles: seq<Profile>, document: Document, vendorTypeId: Id, date: Text)
      returns (r: Option<Evaluation>)
    ensures r == Evaluate(profiles, document, vendorTypeId, date)
  {
    hide IsIsoDate, CoverageFindings, DeriveLabel;
    if !IsIsoDate(date) {
      return None;
    }
    var profile := FindProfile(profiles, vendorTypeId);
    var findings: seq<Finding> := [];
    if profile == None {
      findings := [Finding(vendorTypeId, Unknown, VendorTypeRulesNotFound, [], None)];
    } else {
      var requirements := profile.value.requirements;
      var i := 0;
      while i < |requirements|
        invariant i <= |requirements| && AllFindings(requirements[..i], document, date) == Some(findings)
      {
        var more := EvaluateCoverageRequirement(requirements[i], document, date);
        assert requirements[..i + 1][..i] == requirements[..i];
        if more == None {
          OneThrows(requirements, i + 1, document, date);
          return None;
        }
        findings := findings + more.value;
        i := i + 1;
      }
      assert requirements[..i] == requirements;
    }
    return Some(Evaluation(DeriveLabel(findings), findings));
  }

  lemma {:induction false} OneThrows(requirements: seq<CoverageRequirement>, i: nat, document: Document, date: IsoDate)
    requires i <= |requirements| && AllFindings(requirements[..i], document, date) == None
    ensures AllFindings(requirements, document, date) == None
    decreases |requirements| - i
  {
    if i < |requirements| {
      assert requirements[..i + 1][..i] == requirements[..i];
      OneThrows(requirements, i + 1, document, date);
    } else {
      assert requirements[..i] == requirements;
    }
  }
}
