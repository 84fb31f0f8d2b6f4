/** The evaluation does not depend on the order in which a document lists its policies and endorsements. */
module ComplianceOrder {
  import opened Primitives
  import opened Text
  import opened Sorting
  import opened Calendar
  import opened Compliance

  /** Among candidates with distinct ids the comparator is a strict total order. */
  lemma CandidatesOrdered(candidates: set<Candidate>)
    requires forall a, b | a in candidates && b in candidates && a != b :: a.policyId != b.policyId
    ensures Orders(candidates, Preferred)
  {
    hide Count;
  }

  ghost predicate DistinctBy<T>(s: seq<T>, key: T -> Id) {
    forall i, j | 0 <= i < j < |s| :: key(s[i]) != key(s[j])
  }

  /** The same things, with distinct ids, in any two orders. */
  ghost predicate SameThings<T>(s: seq<T>, t: seq<T>, key: T -> Id) {
    DistinctBy(s, key) && DistinctBy(t, key) && Elements(s) == Elements(t)
  }

  lemma {:induction false} FilterKeepsDistinct<T(!new)>(s: seq<T>, keep: T -> bool, key: T -> Id)
    requires DistinctBy(s, key)
    ensures DistinctBy(Filter(s, keep), key)
  {
    if s != [] {
      FilterKeepsDistinct(s[1..], keep, key);
      var rest := Filter(s[1..], keep);
      forall i | 0 <= i < |rest| ensures key(rest[i]) != key(s[0]) {
        assert rest[i] in rest && rest[i] in s[1..];
      }
    }
  }

  lemma FilterSame<T(!new)>(s: seq<T>, t: seq<T>, keep: T -> bool, key: T -> Id)
    requires SameThings(s, t, key)
    ensures SameThings(Filter(s, keep), Filter(t, keep), key)
  {
    FilterKeepsDistinct(s, keep, key);
    FilterKeepsDistinct(t, keep, key);
    forall x ensures x in Filter(s, keep) <==> x in Filter(t, keep) {
      assert x in s <==> x in Elements(s);
      assert x in t <==> x in Elements(t);
    }
  }

  lemma MapSame<T(!new), U(!new)>(s: seq<T>, t: seq<T>, f: T -> U, key: T -> Id, after: U -> Id)
    requires SameThings(s, t, key) && forall x :: after(f(x)) == key(x)
    ensures SameThings(Map(f, s), Map(f, t), after)
  {
    forall y ensures y in Map(f, s) ==> y in Map(f, t) {
      MapCarries(s, t, f, y);
    }
    forall y ensures y in Map(f, t) ==> y in Map(f, s) {
      MapCarries(t, s, f, y);
    }
  }

  lemma MapCarries<T, U>(s: seq<T>, t: seq<T>, f: T -> U, y: U)
    requires Elements(s) == Elements(t)
    ensures y in Map(f, s) ==> y in Map(f, t)
  {
    if y in Map(f, s) {
      var i :| 0 <= i < |s| && Map(f, s)[i] == y;
      assert s[i] in Elements(t);
      var j :| 0 <= j < |t| && t[j] == s[i];
      assert Map(f, t)[j] == y;
    }
  }

  /** Things with distinct ids, sorted by an order that ids break ties in, come out the same. */
  lemma SortSame<T>(s: seq<T>, t: seq<T>, before: (T, T) -> bool, key: T -> Id)
    requires SameThings(s, t, key) && Orders(Elements(s), before)
    ensures SortBy(s, before) == SortBy(t, before)
  {
    SortIgnoresArrangement(s, t, before);
  }

  lemma KeysTell<T>(s: seq<T>, key: T -> Id, a: T, b: T)
    requires DistinctBy(s, key) && a in s && b in s && key(a) == key(b)
    ensures a == b
  {
    var i, j :| 0 <= i < |s| && 0 <= j < |s| && s[i] == a && s[j] == b;
    assert key(s[i]) == key(s[j]);
  }

  // ---------- rearranged documents ----------

  const POLICY_ID := (p: Policy) => p.id
  const ENDORSEMENT_ID := (e: Endorsement) => e.id
  const UMBRELLA_ID := (u: Umbrella) => u.id

  ghost predicate Rearranges(d: Document, e: Document) {
    && d.reviewStatus == e.reviewStatus
    && SameThings(d.policies, e.policies, POLICY_ID) && SameThings(d.endorsements, e.endorsements, ENDORSEMENT_ID)
  }

  lemma SameMatchingPolicies(r: CoverageRequirement, d: Document, e: Document)
    requires Rearranges(d, e)
    ensures SortBy(MatchingPolicies(r, d), PolicyBefore) == SortBy(MatchingPolicies(r, e), PolicyBefore)
  {
    hide IsIsoDate;
    FilterSame(d.policies, e.policies, (p: Policy) => p.coverageType.value == r.coverageType, POLICY_ID);
    var s := MatchingPolicies(r, d);
    forall a, b | a in Elements(s) && b in Elements(s) && a.id == b.id ensures a == b {
      KeysTell(s, POLICY_ID, a, b);
    }
    SortSame(s, MatchingPolicies(r, e), PolicyBefore, POLICY_ID);
  }

  lemma EndorsementsOrdered(s: seq<Endorsement>)
    requires DistinctBy(s, ENDORSEMENT_ID)
    ensures Orders(Elements(s), EndorsementBefore)
  {
    forall a, b | a in Elements(s) && b in Elements(s) && a.id == b.id ensures a == b {
      KeysTell(s, ENDORSEMENT_ID, a, b);
    }
  }

  lemma UmbrellasOrdered(s: seq<Umbrella>)
    requires DistinctBy(s, UMBRELLA_ID)
    ensures Orders(Elements(s), UmbrellaBefore)
  {
    forall a, b | a in Elements(s) && b in Elements(s) && a.id == b.id ensures a == b {
      KeysTell(s, UMBRELLA_ID, a, b);
    }
  }

  lemma SameMatches(requirement: EndorsementRequirement, d: Document, e: Document)
    requires Rearranges(d, e)
    ensures SortBy(Matches(requirement, d), EndorsementBefore) == SortBy(Matches(requirement, e), EndorsementBefore)
  {
    hide EndorsementMatches, EndorsementBefore, Orders, SortBy;
    FilterSame(d.endorsements, e.endorsements, (x: Endorsement) => EndorsementMatches(requirement, x), ENDORSEMENT_ID);
    var s := Matches(requirement, d);
    EndorsementsOrdered(s);
    SortSame(s, Matches(requirement, e), EndorsementBefore, ENDORSEMENT_ID);
  }

  lemma SameUmbrellas(limitType: LimitType, d: Document, e: Document, date: IsoDate, through: IsoDate)
    requires Rearranges(d, e)
    ensures UmbrellaCandidates(d, limitType, date, through) == UmbrellaCandidates(e, limitType, date, through)
  {
    hide IsIsoDate, EpochDay, HasUmbrellaLimit, SortBy, UmbrellaBefore, Orders;
    FilterSame(d.policies, e.policies, (p: Policy) => HasUmbrellaLimit(p, limitType), POLICY_ID);
    var f := (p: Policy) => UmbrellaOf(p, limitType, d, date, through);
    var g := (p: Policy) => UmbrellaOf(p, limitType, e, date, through);
    MapSame(UmbrellaPolicies(d, limitType), UmbrellaPolicies(e, limitType), f, POLICY_ID, UMBRELLA_ID);
    var s, t := Map(f, UmbrellaPolicies(d, limitType)), Map(f, UmbrellaPolicies(e, limitType));
    assert t == Map(g, UmbrellaPolicies(e, limitType));
    UmbrellasOrdered(s);
    SortSame(s, t, UmbrellaBefore, UMBRELLA_ID);
  }

  lemma SamePolicyFindings(r: CoverageRequirement, p: Policy, d: Document, e: Document, date: IsoDate, through: IsoDate)
    requires Rearranges(d, e)
    ensures PolicyFindings(r, p, d, date, through) == PolicyFindings(r, p, e, date, through)
  {
    hide IsIsoDate, EpochDay, UmbrellaCandidates, Rearranges, StackedFinding;
    SameStatus(d, e);
    forall i | 0 <= i < |r.minimumLimits|
      ensures LimitFindings(r, p, d, date, through)[i] == LimitFindings(r, p, e, date, through)[i]
    {
      SameUmbrellas(UmbrellaLimitType(r.minimumLimits[i]), d, e, date, through);
    }
    assert LimitFindings(r, p, d, date, through) == LimitFindings(r, p, e, date, through);
    assert FieldFindings(r, p, d) == FieldFindings(r, p, e);
  }

  lemma SameStatus(d: Document, e: Document)
    requires Rearranges(d, e)
    ensures d.reviewStatus == e.reviewStatus
  {
  }

  lemma SameCoverageFindings(r: CoverageRequirement, d: Document, e: Document, date: IsoDate)
    requires Rearranges(d, e)
    ensures CoverageFindings(r, d, date) == CoverageFindings(r, e, date)
  {
    hide IsIsoDate, EpochDay, Rearranges, SortBy, MatchingPolicies, PolicyFindings, EndorsementFinding, RequiredThrough;
    SameStatus(d, e);
    SameMatchingPolicies(r, d, e);
    if r.applicability == Required && MatchingPolicies(r, d) != [] && RequiredThrough(r, date).Some? {
      var through := RequiredThrough(r, date).value;
      forall p ensures PolicyFindings(r, p, d, date, through) == PolicyFindings(r, p, e, date, through) {
        SamePolicyFindings(r, p, d, e, date, through);
      }
      assert Evaluated(r, d, date, through) == Evaluated(r, e, date, through);
      forall i | 0 <= i < |r.endorsements| ensures EndorsementFindings(r, d)[i] == EndorsementFindings(r, e)[i] {
        SameEndorsementFinding(r, r.endorsements[i], d, e);
      }
      assert EndorsementFindings(r, d) == EndorsementFindings(r, e);
    }
  }

  lemma SameEndorsementFinding(r: CoverageRequirement, requirement: EndorsementRequirement, d: Document, e: Document)
    requires Rearranges(d, e)
    ensures EndorsementFinding(r, requirement, d) == EndorsementFinding(r, requirement, e)
  {
    hide SortBy, Matches, Rearranges;
    SameStatus(d, e);
    SameMatches(requirement, d, e);
  }

  lemma {:induction false} SameAllFindings(rs: seq<CoverageRequirement>, d: Document, e: Document, date: IsoDate)
    requires Rearranges(d, e)
    ensures AllFindings(rs, d, date) == AllFindings(rs, e, date)
  {
    hide CoverageFindings, Rearranges, IsIsoDate;
    if rs != [] {
      SameAllFindings(rs[..|rs| - 1], d, e, date);
      SameCoverageFindings(rs[|rs| - 1], d, e, date);
    }
  }

  /** Reordering a document's policies or endorsements leaves the whole evaluation as it was. */
  lemma ArrangementDoesNotMatter(profiles: seq<Profile>, d: Document, e: Document, vendorTypeId: Id, date: Text)
    requires Rearranges(d, e)
    ensures Evaluate(profiles, d, vendorTypeId, date) == Evaluate(profiles, e, vendorTypeId, date)
  {
    hide Rearranges, AllFindings, IsIsoDate, FindProfile;
    if IsIsoDate(date) && FindProfile(profiles, vendorTypeId).Some? {
      SameAllFindings(FindProfile(profiles, vendorTypeId).value.requirements, d, e, date);
    }
  }
}
