/** What the numbers of a score measure, stated on the documents and without the scorer. */
module BenchmarkMeaning {
  import opened Primitives
  import opened Text
  import opened Sorting
  import opened Benchmark
  import opened BenchmarkScore

  // ---------- the keys that are counted ----------

  /** The facts under that key: the last one wins. */
  lemma {:induction false} ByKeyIsLast(facts: seq<Fact>, i: nat)
    requires i < |facts| && forall j | i < j < |facts| :: facts[j].key != facts[i].key
    ensures facts[i].key in ByKey(facts) && ByKey(facts)[facts[i].key] == facts[i]
  {
    var last := |facts| - 1;
    if i < last {
      assert forall j | i < j < last :: facts[..last][j].key != facts[..last][i].key;
      ByKeyIsLast(facts[..last], i);
      assert facts[last].key != facts[i].key;
    }
  }

  /** Keys that truth and prediction give the same value. */
  ghost function Hits(e: map<Text, Fact>, o: map<Text, Fact>): set<Text> {
    set k | k in e.Keys && k in o.Keys && e[k].value == o[k].value
  }

  /** Keys whose fact cites a page. */
  ghost function Cited(m: map<Text, Fact>): set<Text> {
    set k | k in m.Keys && |m[k].evidencePages| > 0
  }

  /** Hits for which the prediction cites a page that the truth cites as well. */
  ghost function CitedWell(e: map<Text, Fact>, o: map<Text, Fact>): set<Text> {
    set k | k in Hits(e, o) && exists page :: page in o[k].evidencePages && page in e[k].evidencePages
  }

  /** What the scorer asks of a key. */
  datatype Question = Hit | Covered | Correct | Attempted | Evident
    | HitOf(kind: Text) | InventedOf(kind: Text) | MissedOf(kind: Text)

  /** The counts of a kind. */
  ghost function Lookup(entries: KindCounts, kind: Text): (r: Counts) {
    if entries == [] then NO_COUNTS
    else if entries[0].0 == kind then entries[0].1
    else Lookup(entries[1..], kind)
  }

  lemma {:induction false} AddToKindLookup(entries: KindCounts, kind: Text, c: Counts, t: Text)
    ensures Lookup(AddToKind(entries, kind, c), t) ==
      if t == kind then AddCounts(Lookup(entries, t), c) else Lookup(entries, t)
  {
    if entries != [] {
      var r := AddToKind(entries, kind, c);
      if entries[0].0 == kind {
        assert r[1..] == entries[1..];
      } else {
        AddToKindLookup(entries[1..], kind, c, t);
        assert r[1..] == AddToKind(entries[1..], kind, c);
      }
    }
  }

  /** The kind of a key is that of its truth, and that of its prediction where there is no truth. */
  ghost predicate IsOfKind(e: map<Text, Fact>, o: map<Text, Fact>, k: Text, kind: Text) {
    (k in e && e[k].kind == kind) || (k !in e && k in o && o[k].kind == kind)
  }

  ghost function OfKind(e: map<Text, Fact>, o: map<Text, Fact>, xs: set<Text>, kind: Text): set<Text> {
    set k | k in xs && IsOfKind(e, o, k, kind)
  }

  ghost predicate Holds(q: Question, e: map<Text, Fact>, o: map<Text, Fact>, k: Text) {
    match q
    case Hit => IsHit(e, o, k)
    case Covered => IsHit(e, o, k) && Cites(o, k)
    case Correct => IsHit(e, o, k) && Cites(o, k) && SharesPage(o[k], e[k])
    case Attempted => Cites(o, k)
    case Evident => Cites(e, k)
    case HitOf(kind) => IsOfKind(e, o, k, kind) && IsHit(e, o, k)
    case InventedOf(kind) => IsOfKind(e, o, k, kind) && !IsHit(e, o, k) && k in o
    case MissedOf(kind) => IsOfKind(e, o, k, kind) && !IsHit(e, o, k) && k in e
  }

  ghost function Answer(q: Question, s: Scored): nat {
    match q
    case Hit => s.counts.truePositive
    case Covered => s.citations.coverage
    case Correct => s.citations.correct
    case Attempted => s.citations.attempted
    case Evident => s.citations.truthWithEvidence
    case HitOf(kind) => Lookup(s.byKind, kind).truePositive
    case InventedOf(kind) => Lookup(s.byKind, kind).falsePositive
    case MissedOf(kind) => Lookup(s.byKind, kind).falseNegative
  }

  lemma OneKeyAnswers(q: Question, s: Scored, e: map<Text, Fact>, o: map<Text, Fact>, k: Text)
    requires k in e || k in o
    ensures Answer(q, ScoreKey(s, e, o, k)) == Answer(q, s) + if Holds(q, e, o, k) then 1 else 0
  {
    hide Cites, SharesPage, AddToKind, Lookup, IsHit;
    if q.HitOf? || q.InventedOf? || q.MissedOf? {
      AddToKindLookup(s.byKind, KindOf(e, o, k), KeyCounts(e, o, k), q.kind);
    }
  }

  /** The answer to each question is the number of keys it holds of. */
  lemma {:induction false} AnswersAre(q: Question, e: map<Text, Fact>, o: map<Text, Fact>, keys: seq<Text>,
      xs: set<Text>)
    requires forall k | k in keys :: k in e || k in o
    requires Distinct(keys) && forall k :: k in xs <==> k in keys && Holds(q, e, o, k)
    ensures Answer(q, ScoreKeys(e, o, keys)) == |xs|
  {
    hide Holds, ScoreKey;
    if keys == [] {
      assert xs == {};
    } else {
      var k, front := keys[|keys| - 1], keys[..|keys| - 1];
      assert keys == front + [k] && k !in front;
      AnswersAre(q, e, o, front, xs - {k});
      OneKeyAnswers(q, ScoreKeys(e, o, front), e, o, k);
      assert k in xs ==> xs == xs - {k} + {k};
    }
  }

  ghost function KeysOf(q: Question, e: map<Text, Fact>, o: map<Text, Fact>): set<Text> {
    match q
    case Hit => Hits(e, o)
    case Covered => Hits(e, o) * Cited(o)
    case Correct => CitedWell(e, o)
    case Attempted => Cited(o)
    case Evident => Cited(e)
    case HitOf(kind) => OfKind(e, o, Hits(e, o), kind)
    case InventedOf(kind) => OfKind(e, o, o.Keys - Hits(e, o), kind)
    case MissedOf(kind) => OfKind(e, o, e.Keys - Hits(e, o), kind)
  }

  lemma KeysOfHold(q: Question, e: map<Text, Fact>, o: map<Text, Fact>)
    ensures forall k :: k in KeysOf(q, e, o) <==> (k in e || k in o) && Holds(q, e, o, k)
  {
    if q == Correct {
      hide IsHit, Cites, SharesPage, Hits;
      PagesMean(e, o);
    } else {
      hide SharesPage, CitedWell;
    }
  }

  lemma AnswersMean(expected: seq<Fact>, observed: seq<Fact>, q: Question)
    ensures var e, o := ByKey(expected), ByKey(observed);
      Answer(q, ScoredFacts(expected, observed)) == |KeysOf(q, e, o)|
  {
    hide ByKey, SortedKeys, ScoreKeys, KeysOf, Holds, Answer, Distinct;
    var e, o, keys := ByKey(expected), ByKey(observed), SortedKeys(expected, observed);
    KeysKnown(expected, observed);
    KeysOfHold(q, e, o);
    AnswersAre(q, e, o, keys, KeysOf(q, e, o));
  }

  /** Every count of a scored document is the number of keys it is about. */
  lemma CountsMean(expected: seq<Fact>, observed: seq<Fact>)
    ensures var s, e, o := ScoredFacts(expected, observed), ByKey(expected), ByKey(observed);
      && s.counts == Counts(|Hits(e, o)|, |o.Keys - Hits(e, o)|, |e.Keys - Hits(e, o)|)
      && s.citations == CitationCounts(|Hits(e, o) * Cited(o)|, |CitedWell(e, o)|, |Cited(o)|, |Cited(e)|)
  {
    hide ByKey, ScoredFacts, Conserves, Hits, Cited, CitedWell;
    var e, o, s := ByKey(expected), ByKey(observed), ScoredFacts(expected, observed);
    AnswersMean(expected, observed, Hit);
    AnswersMean(expected, observed, Covered);
    AnswersMean(expected, observed, Correct);
    AnswersMean(expected, observed, Attempted);
    AnswersMean(expected, observed, Evident);
    FactsConserve(expected, observed);
    HitsSplit(e, o, s);
  }

  /** The same counts kind by kind. */
  lemma KindCountsMean(expected: seq<Fact>, observed: seq<Fact>, kind: Text)
    ensures var e, o := ByKey(expected), ByKey(observed);
      Lookup(ScoredFacts(expected, observed).byKind, kind) ==
      Counts(|OfKind(e, o, Hits(e, o), kind)|, |OfKind(e, o, o.Keys - Hits(e, o), kind)|,
        |OfKind(e, o, e.Keys - Hits(e, o), kind)|)
  {
    hide ByKey, ScoredFacts, Hits, OfKind, Lookup;
    AnswersMean(expected, observed, HitOf(kind));
    AnswersMean(expected, observed, InventedOf(kind));
    AnswersMean(expected, observed, MissedOf(kind));
  }

  lemma PagesMean(e: map<Text, Fact>, o: map<Text, Fact>)
    ensures forall k :: k in CitedWell(e, o) <==>
      (k in e || k in o) && IsHit(e, o, k) && Cites(o, k) && SharesPage(o[k], e[k])
  {
    forall k | IsHit(e, o, k)
      ensures Cites(o, k) && SharesPage(o[k], e[k]) <==>
        exists page :: page in o[k].evidencePages && page in e[k].evidencePages
    {
      SharedPages(o[k], e[k]);
    }
  }

  lemma SharedPages(a: Fact, b: Fact)
    ensures SharesPage(a, b) <==> exists page :: page in a.evidencePages && page in b.evidencePages
    ensures SharesPage(a, b) ==> a.evidencePages != []
  {
    if page :| page in a.evidencePages && page in b.evidencePages {
      var i :| 0 <= i < |a.evidencePages| && a.evidencePages[i] == page;
    }
  }

  lemma HitsSplit(e: map<Text, Fact>, o: map<Text, Fact>, s: Scored)
    requires Conserves(s, |e.Keys|, |o.Keys|) && s.counts.truePositive == |Hits(e, o)|
    ensures s.counts.falsePositive == |o.Keys - Hits(e, o)| && s.counts.falseNegative == |e.Keys - Hits(e, o)|
  {
    hide KindTotal, DistinctKinds, Nest;
    var hits := Hits(e, o);
    assert hits + (e.Keys - hits) == e.Keys && hits + (o.Keys - hits) == o.Keys;
  }

  // ---------- rates ----------

  /** More than half a millionth and the small number that is added before rounding. */
  const BOUND: real := 0.0000006

  ghost predicate Near(x: real, y: real, bound: real) {
    -bound <= x - y <= bound
  }

  ghost predicate IsWhole(x: real) {
    x == x.Floor as real
  }

  /** Rounding gives a whole number of millionths, no farther away than the bound. */
  lemma RoundedIsNear(x: real)
    ensures Near(Rounded(x), x, BOUND) && IsWhole(Rounded(x) * 1000000.0)
  {
    var n := ((x + EPSILON) * 1000000.0 + 0.5).Floor;
    assert Rounded(x) * 1000000.0 == n as real;
  }

  /** The rate is the part of the whole, up to rounding: exactly 1 for the whole, and 0 if there is nothing to
      measure. */
  ghost predicate Measures(rate: real, part: nat, whole: nat) {
    && Near(rate * whole as real, part as real, BOUND * whole as real)
    && (whole == 0 ==> rate == 0.0) && (part == whole > 0 ==> rate == 1.0) && (part == 0 ==> rate == 0.0)
  }

  lemma DivideMeasures(part: nat, whole: nat)
    requires part <= whole
    ensures Measures(Divide(part as real, whole as real), part, whole)
  {
    hide Rounded;
    RoundedEnds();
    if whole > 0 {
      MeanIsNear(part as real, whole);
      QuotientEnds(part as real, whole as real);
    }
  }

  lemma QuotientEnds(a: real, b: real)
    requires b > 0.0
    ensures (a == b ==> a / b == 1.0) && (a == 0.0 ==> a / b == 0.0)
  {
  }

  lemma MeanIsNear(sum: real, n: nat)
    requires n > 0
    ensures Near(Divide(sum, n as real) * n as real, sum, BOUND * n as real)
  {
    hide Rounded;
    var q, whole := sum / n as real, n as real;
    assert q * whole == sum;
    RoundedIsNear(q);
    TimesWhole(Rounded(q), q, whole);
  }

  lemma TimesWhole(r: real, q: real, whole: real)
    requires Near(r, q, BOUND) && whole > 0.0
    ensures Near(r * whole, q * whole, BOUND * whole)
  {
    assert r * whole - q * whole == (r - q) * whole;
    assert (r - q) * whole <= BOUND * whole && -(BOUND * whole) <= (r - q) * whole;
  }

  /** The harmonic mean of two rates, up to rounding: it lies between them, and is 0 if both are. */
  ghost predicate Balances(f1: real, precision: real, recall: real) {
    && Near(f1 * (precision + recall), 2.0 * (precision * recall), BOUND * (precision + recall))
    && (precision + recall == 0.0 ==> f1 == 0.0)
    && (precision <= recall ==> precision - BOUND <= f1 <= recall + BOUND)
    && (recall <= precision ==> recall - BOUND <= f1 <= precision + BOUND)
  }

  lemma HarmonicBalances(p: real, r: real)
    requires IsRate(p) && IsRate(r)
    ensures Balances(HarmonicMean(p, r), p, r)
  {
    hide Rounded;
    if p + r == 0.0 {
      assert p == 0.0 && r == 0.0 && HarmonicMean(p, r) == 0.0;
      assert Balances(0.0, 0.0, 0.0);
    } else {
      var q := 2.0 * p * r / (p + r);
      HarmonicQuotient(p, r, q);
      RoundedBalances(p, r, p + r, p * r, q);
    }
  }

  lemma RoundedBalances(p: real, r: real, sum: real, product: real, q: real)
    requires sum == p + r && product == p * r && sum > 0.0 && q * sum == 2.0 * product
    requires (p <= r ==> p <= q <= r) && (r <= p ==> r <= q <= p)
    ensures Balances(Rounded(q), p, r)
  {
    hide Rounded;
    RoundedIsNear(q);
    TimesWhole(Rounded(q), q, sum);
    assert Near(Rounded(q) * sum, 2.0 * product, BOUND * sum);
  }

  lemma HarmonicQuotient(p: real, r: real, q: real)
    requires IsRate(p) && IsRate(r) && p + r > 0.0 && q == 2.0 * p * r / (p + r)
    ensures q * (p + r) == 2.0 * (p * r)
    ensures (p <= r ==> p <= q <= r) && (r <= p ==> r <= q <= p)
  {
    Regroup(p, r);
    QuotientTimes(2.0 * p * r, p + r);
    if p <= r {
      Between(p, r, q);
    } else {
      Between(r, p, q);
    }
  }

  lemma Regroup(p: real, r: real)
    ensures 2.0 * p * r == 2.0 * (p * r)
  {
  }

  lemma QuotientTimes(a: real, b: real)
    requires b != 0.0
    ensures a / b * b == a
  {
  }

  lemma Between(a: real, b: real, q: real)
    requires 0.0 <= a <= b && a + b > 0.0 && q * (a + b) == 2.0 * (a * b)
    ensures a <= q <= b
  {
    assert 2.0 * (a * b) - a * (a + b) == a * (b - a) && a * (b - a) >= 0.0;
    assert b * (a + b) - 2.0 * (a * b) == b * (b - a) && b * (b - a) >= 0.0;
    Cancelled(a, q, a + b);
    Cancelled(q, b, a + b);
  }

  lemma Cancelled(x: real, y: real, c: real)
    requires c > 0.0 && x * c <= y * c
    ensures x <= y
  {
    assert (x - y) * c == x * c - y * c;
    if x > y {
      Positive(x - y, c);
    }
  }

  lemma Positive(x: real, y: real)
    requires x > 0.0 && y > 0.0
    ensures x * y > 0.0
  {
  }

  /** The numbers of a metric, from its counts alone. */
  ghost predicate MetricMeans(m: Metric) {
    var c := m.counts;
    && Measures(m.precision, c.truePositive, c.truePositive + c.falsePositive)
    && Measures(m.recall, c.truePositive, c.truePositive + c.falseNegative)
    && Balances(m.f1, m.precision, m.recall)
  }

  ghost predicate CitationsMean(m: CitationMetric) {
    && Measures(m.precision, m.counts.correct, m.counts.attempted)
    && Measures(m.recall, m.counts.correct, m.counts.truthWithEvidence)
  }

  lemma MetricForMeans(c: Counts)
    ensures MetricFor(c).counts == c && MetricMeans(MetricFor(c))
  {
    hide Divide, HarmonicMean, Measures, Balances;
    var p := Divide(c.truePositive as real, (c.truePositive + c.falsePositive) as real);
    var r := Divide(c.truePositive as real, (c.truePositive + c.falseNegative) as real);
    DivideMeasures(c.truePositive, c.truePositive + c.falsePositive);
    DivideMeasures(c.truePositive, c.truePositive + c.falseNegative);
    DivideIsRate(c.truePositive as real, (c.truePositive + c.falsePositive) as real);
    DivideIsRate(c.truePositive as real, (c.truePositive + c.falseNegative) as real);
    HarmonicBalances(p, r);
  }

  lemma CitationMetricForMeans(c: CitationCounts)
    requires Nest(c)
    ensures CitationMetricFor(c).counts == c && CitationsMean(CitationMetricFor(c))
  {
    hide Divide, Measures;
    DivideMeasures(c.correct, c.attempted);
    DivideMeasures(c.correct, c.truthWithEvidence);
  }

  // ---------- one document ----------

  ghost predicate FactRates(c: Counts, right: nat, predicted: nat, truths: nat) {
    var m := MetricFor(c);
    && Measures(m.precision, right, predicted) && Measures(m.recall, right, truths)
    && Balances(m.f1, m.precision, m.recall)
  }

  ghost predicate CitationRates(c: CitationCounts, right: nat, attempted: nat, evident: nat) {
    var m := CitationMetricFor(c);
    Measures(m.precision, right, attempted) && Measures(m.recall, right, evident)
  }

  /** Precision is the share of the predicted keys that are right, recall the share of the truth keys that were found,
      and the same for citations against those attempted and those there are evidence for. */
  lemma DocumentMetricsMean(expected: seq<Fact>, observed: seq<Fact>)
    ensures var s, e, o := ScoredFacts(expected, observed), ByKey(expected), ByKey(observed);
      && FactRates(s.counts, |Hits(e, o)|, |o.Keys|, |e.Keys|)
      && CitationRates(s.citations, |CitedWell(e, o)|, |Cited(o)|, |Cited(e)|)
  {
    hide ByKey, ScoredFacts, FactRates, CitationRates, Hits, Cited, CitedWell, Conserves;
    var s, e, o := ScoredFacts(expected, observed), ByKey(expected), ByKey(observed);
    CountsMean(expected, observed);
    FactsConserve(expected, observed);
    TotalsOfConserved(s, |e.Keys|, |o.Keys|);
    FactRatesHold(s.counts, |Hits(e, o)|, |o.Keys|, |e.Keys|);
    CitationRatesHold(s.citations, |CitedWell(e, o)|, |Cited(o)|, |Cited(e)|);
  }

  lemma FactRatesHold(c: Counts, right: nat, predicted: nat, truths: nat)
    requires c.truePositive == right && right + c.falsePositive == predicted && right + c.falseNegative == truths
    ensures FactRates(c, right, predicted, truths)
  {
    hide MetricFor, Measures, Balances;
    MetricForMeans(c);
  }

  lemma CitationRatesHold(c: CitationCounts, right: nat, attempted: nat, evident: nat)
    requires Nest(c) && c.correct == right && c.attempted == attempted && c.truthWithEvidence == evident
    ensures CitationRates(c, right, attempted, evident)
  {
    hide CitationMetricFor, Measures;
    CitationMetricForMeans(c);
  }

  lemma TotalsOfConserved(s: Scored, truths: nat, predictions: nat)
    requires Conserves(s, truths, predictions)
    ensures s.counts.truePositive + s.counts.falseNegative == truths && Nest(s.citations)
    ensures s.counts.truePositive + s.counts.falsePositive == predictions
  {
    hide KindTotal, DistinctKinds, Nest;
  }

  // ---------- one case of a corpus ----------

  /** What the prediction file has for a case: nothing where it leaves the case out. */
  ghost predicate Predicts(p: Predictions, id: Text, facts: seq<Fact>, codes: seq<Text>, duration: Option<real>) {
    || (exists k | 0 <= k < |p.cases| ::
      p.cases[k].caseId == id && facts == p.cases[k].facts && codes == p.cases[k].warningCodes
      && duration == p.cases[k].duration)
    || (facts == [] && codes == [] && duration == None && forall k | 0 <= k < |p.cases| :: p.cases[k].caseId != id)
  }

  lemma PredictsIs(p: Predictions, id: Text, facts: seq<Fact>, codes: seq<Text>, duration: Option<real>)
    requires Predicts(p, id, facts, codes, duration) && Unique(Map((x: Prediction) => x.caseId, p.cases))
    ensures var found := PredictionFor(p, id);
      && facts == (if found.Some? then found.value.facts else [])
      && codes == (if found.Some? then found.value.warningCodes else [])
      && duration == DurationOf(found)
  {
    hide IndexOf;
    var ids := Map((x: Prediction) => x.caseId, p.cases);
    var found := IndexOf(p.cases, (x: Prediction) => x.caseId == id);
    forall k | 0 <= k < |p.cases| && p.cases[k].caseId == id ensures k == found {
      assert found <= k;
      assert ids[found] == id && ids[k] == id;
    }
  }

  ghost predicate Repeats<T>(values: seq<T>) {
    exists i, j | 0 <= i < j < |values| :: values[i] == values[j]
  }

  /** A case that cannot be scored: a page number or coverage type twice, a page before the first, a fact key twice, or
      a fact that cites a page the case does not have. */
  ghost predicate Faulty(c: Case) {
    || Repeats(c.pages) || (exists page | page in c.pages :: page < 1 || page > MAX_SAFE_INTEGER)
    || Repeats(c.coverageTypes)
    || (exists i, j | 0 <= i < j < |c.truth| :: c.truth[i].key == c.truth[j].key)
    || exists f, page | f in c.truth && page in f.evidencePages :: page !in c.pages
  }

  lemma FaultyIsInvalid(c: Case)
    ensures Faulty(c) <==> !CaseValid(c)
  {
    var keys := Map((f: Fact) => f.key, c.truth);
    if f, page :| f in c.truth && page in f.evidencePages && page !in c.pages {
      var i :| 0 <= i < |c.truth| && c.truth[i] == f;
      var k :| 0 <= k < |f.evidencePages| && f.evidencePages[k] == page;
      assert c.truth[i].evidencePages[k] !in c.pages;
    }
    if page :| page in c.pages && (page < 1 || page > MAX_SAFE_INTEGER) {
      var i :| 0 <= i < |c.pages| && c.pages[i] == page;
    }
    if i, j :| 0 <= i < j < |c.truth| && c.truth[i].key == c.truth[j].key {
      assert keys[i] == keys[j];
    }
    if i, j :| 0 <= i < j < |keys| && keys[i] == keys[j] {
      assert c.truth[i].key == c.truth[j].key;
    }
    if i, k :| 0 <= i < |c.truth| && 0 <= k < |c.truth[i].evidencePages| && c.truth[i].evidencePages[k] !in c.pages {
      assert c.truth[i] in c.truth && c.truth[i].evidencePages[k] in c.truth[i].evidencePages;
    }
    if i :| 0 <= i < |c.pages| && !(1 <= c.pages[i] <= MAX_SAFE_INTEGER) {
      assert c.pages[i] in c.pages;
    }
  }

  ghost predicate Lists(corpus: Corpus, id: Text) {
    exists c | c in corpus.cases :: c.id == id
  }

  /** A prediction file that cannot be scored against the corpus: made for another one, by a system without a name, for
      a case the corpus does not have, or twice for one case. */
  ghost predicate Mismatched(corpus: Corpus, p: Predictions, sha: Text) {
    || p.corpusId != corpus.corpusId || p.corpusSha256 != sha
    || Trim(p.system.id) == [] || Trim(p.system.name) == [] || Trim(p.system.version) == []
    || (exists x | x in p.cases :: !Lists(corpus, x.caseId))
    || exists i, j | 0 <= i < j < |p.cases| :: p.cases[i].caseId == p.cases[j].caseId
  }

  /** Exactly when a corpus is scored: it has a name and cases with distinct ids, none of them faulty, its hash is one,
      and the predictions are not mismatched. */
  lemma ScoredExactly(corpus: Corpus, p: Predictions, sha: Text)
    ensures Scoring(corpus, p, sha).Some? <==>
      && Trim(corpus.corpusId) != [] && corpus.cases != [] && !(exists c | c in corpus.cases :: Faulty(c))
      && !(exists i, j | 0 <= i < j < |corpus.cases| :: corpus.cases[i].id == corpus.cases[j].id)
      && |sha| == 64 && (forall c | c in sha :: 0x30 <= c <= 0x39 || 0x61 <= c <= 0x66)
      && !Mismatched(corpus, p, sha)
  {
    hide Faulty, CaseValid, Accumulate, Summarize, Mismatched, PredictionsValid, Trim;
    forall c ensures Faulty(c) <==> !CaseValid(c) {
      FaultyIsInvalid(c);
    }
    MismatchedIsInvalid(corpus, p, sha);
    DistinctIds(Map((t: Case) => t.id, corpus.cases), corpus.cases);
    if c :| c in corpus.cases && !CaseValid(c) {
      var i :| 0 <= i < |corpus.cases| && corpus.cases[i] == c;
    }
    HashIs(sha);
  }

  lemma HashIs(sha: Text)
    ensures IsSha256(sha) <==> |sha| == 64 && forall c | c in sha :: 0x30 <= c <= 0x39 || 0x61 <= c <= 0x66
  {
    forall c | c in sha && IsSha256(sha) ensures 0x30 <= c <= 0x39 || 0x61 <= c <= 0x66 {
      var i :| 0 <= i < |sha| && sha[i] == c;
    }
    forall i | 0 <= i < |sha| ensures sha[i] in sha {
    }
  }

  lemma DistinctIds(ids: seq<Text>, cases: seq<Case>)
    requires |ids| == |cases| && forall i | 0 <= i < |ids| :: ids[i] == cases[i].id
    ensures Unique(ids) <==> !(exists i, j | 0 <= i < j < |cases| :: cases[i].id == cases[j].id)
  {
  }

  lemma MismatchedIsInvalid(corpus: Corpus, p: Predictions, sha: Text)
    ensures PredictionsValid(corpus, p, sha) <==> IsSha256(sha) && !Mismatched(corpus, p, sha)
  {
    hide IsSha256, Trim, HasCase, Lists;
    var ids := Map((x: Prediction) => x.caseId, p.cases);
    assert Unique(ids) <==> !(exists i, j | 0 <= i < j < |p.cases| :: p.cases[i].caseId == p.cases[j].caseId);
    forall id ensures HasCase(corpus, id) <==> Lists(corpus, id) {
      ListsCase(corpus, id);
    }
    assert (forall x | x in p.cases :: Lists(corpus, x.caseId)) <==>
      forall i | 0 <= i < |p.cases| :: Lists(corpus, p.cases[i].caseId);
  }

  lemma ListsCase(corpus: Corpus, id: Text)
    ensures HasCase(corpus, id) <==> Lists(corpus, id)
  {
    if c :| c in corpus.cases && c.id == id {
      var k :| 0 <= k < |corpus.cases| && corpus.cases[k] == c;
    }
  }

  ghost predicate CaseMeans(c: CaseScore, id: Text, e: map<Text, Fact>, o: map<Text, Fact>, truth: set<Text>,
      codes: set<Text>)
  {
    && c.caseId == id
    && c.facts.counts == Counts(|Hits(e, o)|, |o.Keys - Hits(e, o)|, |e.Keys - Hits(e, o)|)
    && c.citations.counts == CitationCounts(|Hits(e, o) * Cited(o)|, |CitedWell(e, o)|, |Cited(o)|, |Cited(e)|)
    && c.warnings.counts == Counts(|truth * codes|, |codes - truth|, |truth - codes|)
    && (c.exactDocument <==> e.Keys == Hits(e, o) == o.Keys)
    && MetricMeans(c.facts) && MetricMeans(c.warnings) && CitationsMean(c.citations)
  }

  /** The score of a case is about the truth of that case and the prediction with its id. */
  lemma CasesMean(corpus: Corpus, p: Predictions, sha: Text, i: nat, facts: seq<Fact>, codes: seq<Text>,
      duration: Option<real>)
    requires Scoring(corpus, p, sha).Some? && i < |corpus.cases|
    requires Predicts(p, corpus.cases[i].id, facts, codes, duration)
    ensures i < |Scoring(corpus, p, sha).value.cases|
    ensures CaseMeans(Scoring(corpus, p, sha).value.cases[i], corpus.cases[i].id, ByKey(corpus.cases[i].truth),
      ByKey(facts), Elements(corpus.cases[i].warningCodes), Elements(codes))
  {
    hide CorpusValid, Predicts, NewCase, ScoredFacts, CodeCounts, CaseMeans, PredictionFor, Accumulate, ByKey;
    var testCase := corpus.cases[i];
    UniqueCases(corpus, p, sha);
    PredictsIs(p, testCase.id, facts, codes, duration);
    CaseAt(corpus.cases, p, i);
    NewCaseMeans(testCase, facts, codes);
  }

  lemma UniqueCases(corpus: Corpus, p: Predictions, sha: Text)
    requires PredictionsValid(corpus, p, sha)
    ensures Unique(Map((x: Prediction) => x.caseId, p.cases))
  {
  }

  lemma {:induction false} CaseAt(cases: seq<Case>, p: Predictions, i: nat)
    requires i < |cases|
    ensures var found := PredictionFor(p, cases[i].id);
      && i < |Accumulate(cases, p).cases| == |cases|
      && Accumulate(cases, p).cases[i] ==
        NewCase(cases[i].id, ScoredCase(cases[i], found), CaseWarnings(cases[i], found))
  {
    hide ScoredCase, CaseWarnings, PredictionFor, NewCase, AddCounts, AddCitations, MergeKinds, DurationOf;
    var last := |cases| - 1;
    CasesCounted(cases[..last], p);
    if i < last {
      CaseAt(cases[..last], p, i);
    }
  }

  lemma {:induction false} CasesCounted(cases: seq<Case>, p: Predictions)
    ensures |Accumulate(cases, p).cases| == |cases|
  {
    hide ScoredCase, CaseWarnings, PredictionFor, NewCase, AddCounts, AddCitations, MergeKinds, DurationOf;
    if cases != [] {
      CasesCounted(cases[..|cases| - 1], p);
    }
  }

  lemma NewCaseMeans(testCase: Case, facts: seq<Fact>, codes: seq<Text>)
    ensures CaseMeans(
      NewCase(testCase.id, ScoredFacts(testCase.truth, facts),
        CodeCounts(CodeSet(testCase.warningCodes), CodeSet(codes))),
      testCase.id, ByKey(testCase.truth), ByKey(facts), Elements(testCase.warningCodes), Elements(codes))
  {
    hide ScoredFacts, ByKey, Hits, Cited, CitedWell, MetricFor, CitationMetricFor, MetricMeans, CitationsMean, Elements;
    hide Nest, KindTotal, DistinctKinds;
    var scored := ScoredFacts(testCase.truth, facts);
    CountsMean(testCase.truth, facts);
    FactsConserve(testCase.truth, facts);
    ExactFacts(testCase.truth, facts);
    MetricForMeans(scored.counts);
    MetricForMeans(CodeCounts(CodeSet(testCase.warningCodes), CodeSet(codes)));
    CitationMetricForMeans(scored.citations);
    ExactAreHits(ByKey(testCase.truth), ByKey(facts));
  }

  lemma ExactAreHits(e: map<Text, Fact>, o: map<Text, Fact>)
    ensures e.Keys == Hits(e, o) == o.Keys <==> e.Keys == o.Keys && forall k | k in e :: e[k].value == o[k].value
  {
    if e.Keys == Hits(e, o) == o.Keys {
      forall k | k in e ensures e[k].value == o[k].value {
        assert k in Hits(e, o);
      }
    }
  }

  // ---------- the kinds of a corpus ----------

  lemma {:induction false} LookupAbsent(entries: KindCounts, t: Text)
    requires !HasKind(entries, t)
    ensures Lookup(entries, t) == NO_COUNTS
  {
    if entries != [] {
      assert entries[0].0 != t;
      assert forall i | 0 <= i < |entries| - 1 :: entries[1..][i].0 == entries[i + 1].0;
      LookupAbsent(entries[1..], t);
    }
  }

  lemma {:induction false} LookupAt(entries: KindCounts, i: nat)
    requires i < |entries| && DistinctKinds(entries)
    ensures Lookup(entries, entries[i].0) == entries[i].1
  {
    if i > 0 {
      assert entries[0].0 != entries[i].0;
      LookupAt(entries[1..], i - 1);
    }
  }

  /** The last entry decides about its own kind alone. */
  lemma LookupLast(entries: KindCounts, t: Text)
    requires entries != [] && DistinctKinds(entries)
    ensures var last := entries[|entries| - 1];
      if last.0 == t then Lookup(entries, t) == last.1 && Lookup(entries[..|entries| - 1], t) == NO_COUNTS
      else Lookup(entries, t) == Lookup(entries[..|entries| - 1], t)
  {
    hide Lookup;
    var front, last := entries[..|entries| - 1], entries[|entries| - 1];
    if last.0 == t {
      LookupAt(entries, |entries| - 1);
      assert !HasKind(front, t);
      LookupAbsent(front, t);
    } else {
      assert entries == front + [last];
      LookupLonger(front, last, t);
    }
  }

  lemma {:induction false} LookupLonger(entries: KindCounts, last: (Text, Counts), t: Text)
    requires last.0 != t
    ensures Lookup(entries + [last], t) == Lookup(entries, t)
  {
    if entries != [] {
      assert (entries + [last])[1..] == entries[1..] + [last];
      LookupLonger(entries[1..], last, t);
    }
  }

  lemma {:induction false} MergeKindsLookup(entries: KindCounts, more: KindCounts, t: Text)
    requires DistinctKinds(more)
    ensures Lookup(MergeKinds(entries, more), t) == AddCounts(Lookup(entries, t), Lookup(more, t))
  {
    hide AddToKind, Lookup;
    if more == [] {
      LookupNone(t);
    } else {
      var front, last := more[..|more| - 1], more[|more| - 1];
      MergeKindsLookup(entries, front, t);
      AddToKindLookup(MergeKinds(entries, front), last.0, last.1, t);
      LookupLast(more, t);
    }
  }

  lemma LookupNone(t: Text)
    ensures Lookup([], t) == NO_COUNTS
  {
  }

  /** The counts of a kind over the cases of a corpus. */
  ghost function KindSum(cases: seq<Case>, p: Predictions, kind: Text): Counts {
    if cases == [] then NO_COUNTS
    else
      var last := cases[|cases| - 1];
      AddCounts(KindSum(cases[..|cases| - 1], p, kind),
        Lookup(ScoredCase(last, PredictionFor(p, last.id)).byKind, kind))
  }

  lemma {:induction false} KindsAddUp(cases: seq<Case>, p: Predictions, kind: Text)
    ensures Lookup(Accumulate(cases, p).byKind, kind) == KindSum(cases, p, kind)
  {
    hide ScoredFacts, CaseWarnings, PredictionFor, NewCase, AddCounts, AddCitations, MergeKinds, DurationOf, Lookup;
    hide KindTotal, DistinctKinds, Nest;
    if cases == [] {
      LookupNone(kind);
    } else {
      var last := cases[|cases| - 1];
      var found := PredictionFor(p, last.id);
      KindsAddUp(cases[..|cases| - 1], p, kind);
      FactsConserve(last.truth, if found.Some? then found.value.facts else []);
      MergeKindsLookup(Accumulate(cases[..|cases| - 1], p).byKind, ScoredCase(last, found).byKind, kind);
    }
  }

  /** The fields of a score are its kinds, ascending, each with the counts of that kind over all cases. */
  lemma FieldsMean(corpus: Corpus, p: Predictions, sha: Text)
    requires Scoring(corpus, p, sha).Some?
    ensures var fields := Scoring(corpus, p, sha).value.fields;
      && (forall i | 0 <= i < |fields| ::
        fields[i].1.counts == KindSum(corpus.cases, p, fields[i].0) && MetricMeans(fields[i].1))
      && (forall i, j | 0 <= i < j < |fields| :: Before(fields[i].0, fields[j].0))
      && forall kind | KindSum(corpus.cases, p, kind) != NO_COUNTS ::
        exists i | 0 <= i < |fields| :: fields[i].0 == kind
  {
    hide CorpusValid, PredictionsValid, Accumulate, SortBy, MetricFor, MetricMeans, KindSum, Before, Lookup;
    var byKind := Accumulate(corpus.cases, p).byKind;
    KindsDistinct(corpus.cases, p);
    SortedKinds(byKind);
    KindsOrdered(byKind);
    SortBySorts(byKind, KindBefore);
    var sorted, fields := SortBy(byKind, KindBefore), FieldMetrics(byKind);
    forall i | 0 <= i < |fields|
      ensures fields[i].1.counts == KindSum(corpus.cases, p, fields[i].0) && MetricMeans(fields[i].1)
    {
      assert sorted[i] in byKind;
      var k :| 0 <= k < |byKind| && byKind[k] == sorted[i];
      LookupAt(byKind, k);
      KindsAddUp(corpus.cases, p, fields[i].0);
      MetricForMeans(sorted[i].1);
    }
    forall i, j | 0 <= i < j < |fields| ensures Before(fields[i].0, fields[j].0) {
      assert KindBefore(sorted[i], sorted[j]);
    }
    forall kind | KindSum(corpus.cases, p, kind) != NO_COUNTS
      ensures exists i | 0 <= i < |fields| :: fields[i].0 == kind
    {
      KindsAddUp(corpus.cases, p, kind);
      if !HasKind(byKind, kind) {
        LookupAbsent(byKind, kind);
      }
      var k :| 0 <= k < |byKind| && byKind[k].0 == kind;
      assert byKind[k] in sorted;
      var i :| 0 <= i < |sorted| && sorted[i] == byKind[k];
      assert fields[i].0 == kind;
    }
  }

  lemma KindsDistinct(cases: seq<Case>, p: Predictions)
    ensures DistinctKinds(Accumulate(cases, p).byKind)
  {
    hide Accumulate, DistinctKinds, KindTotal, Nest, AllCasesOk, NoneNegative;
    AccumulateSound(cases, p);
  }

  // ---------- durations ----------

  /** The prediction for the case reports that duration, where a negative one counts as none at all. */
  ghost predicate Reports(p: Predictions, id: Text, d: real) {
    exists k | 0 <= k < |p.cases| ::
      p.cases[k].caseId == id && p.cases[k].duration.Some?
      && (d == p.cases[k].duration.value >= 0.0 || (d == 0.0 > p.cases[k].duration.value))
  }

  ghost function Reporters(cases: seq<Case>, p: Predictions, d: real): set<int> {
    set i | 0 <= i < |cases| && Reports(p, cases[i].id, d)
  }

  /** A duration is there as often as predictions report it. */
  lemma {:induction false} DurationsMean(cases: seq<Case>, p: Predictions, d: real)
    requires Unique(Map((x: Prediction) => x.caseId, p.cases))
    ensures multiset(Accumulate(cases, p).durations)[d] == |Reporters(cases, p, d)|
  {
    hide ScoredCase, CaseWarnings, PredictionFor, AddCase, Reports, Unique, DurationOf;
    if cases == [] {
      assert Reporters(cases, p, d) == {};
    } else {
      var last := |cases| - 1;
      var found := PredictionFor(p, cases[last].id);
      DurationsMean(cases[..last], p, d);
      OneMoreDuration(Accumulate(cases[..last], p), cases[last].id, ScoredCase(cases[last], found),
        CaseWarnings(cases[last], found), DurationOf(found), d);
      ReportsIs(p, cases[last].id, d);
      var reports := if Reports(p, cases[last].id, d) then {last} else {};
      assert Reporters(cases, p, d) == Reporters(cases[..last], p, d) + reports;
    }
  }

  lemma OneMoreDuration(t: Totals, id: Text, scored: Scored, warnings: Counts, duration: Option<real>, d: real)
    ensures multiset(AddCase(t, id, scored, warnings, duration).durations)[d] == multiset(t.durations)[d]
      + if duration.Some? && d == (if duration.value < 0.0 then 0.0 else duration.value) then 1 else 0
  {
    hide NewCase, AddCounts, AddCitations, MergeKinds;
  }

  lemma ReportsIs(p: Predictions, id: Text, d: real)
    requires Unique(Map((x: Prediction) => x.caseId, p.cases))
    ensures var duration := DurationOf(PredictionFor(p, id));
      Reports(p, id, d) <==> duration.Some? && d == if duration.value < 0.0 then 0.0 else duration.value
  {
    hide IndexOf;
    var ids := Map((x: Prediction) => x.caseId, p.cases);
    var found := IndexOf(p.cases, (x: Prediction) => x.caseId == id);
    forall k | 0 <= k < |p.cases| && p.cases[k].caseId == id ensures k == found {
      assert found <= k;
      assert ids[found] == id && ids[k] == id;
    }
  }

  // ---------- percentiles ----------

  ghost predicate AtMost(x: real, d: real) {
    x <= d
  }

  ghost predicate Below(x: real, d: real) {
    x < d
  }

  /** Nearest rank: a reported duration that at least this share of the reported durations does not exceed, while fewer
      than this share are shorter. */
  ghost predicate IsNearestRank(durations: seq<real>, fraction: real, d: real) {
    && d in durations
    && CountIf(durations, x => AtMost(x, d)) as real >= |durations| as real * fraction
    && CountIf(durations, x => Below(x, d)) as real < |durations| as real * fraction
  }

  lemma PercentileIsNearestRank(durations: seq<real>, fraction: real) returns (d: real)
    requires durations != [] && 0.0 < fraction <= 1.0
    ensures IsNearestRank(durations, fraction, d) && Percentile(durations, fraction) == Rounded(d)
  {
    hide Rounded, PercentileIndex, SortBy, CountIf;
    var sorted := SortBy(durations, Shorter);
    var n, index := |sorted|, PercentileIndex(|sorted|, fraction);
    IndexIsRank(n, fraction);
    d := sorted[index];
    ShorterIsWeak();
    SortByWeakly(durations, Shorter);
    assert d in Elements(durations);
    SortCounts(durations, Shorter, x => AtMost(x, d));
    SortCounts(durations, Shorter, x => Below(x, d));
    RankCounts(sorted, index, x => AtMost(x, d), x => Below(x, d));
  }

  ghost predicate IsPercentile(durations: seq<real>, fraction: real, percentile: real) {
    if durations == [] then percentile == 0.0
    else exists d :: IsNearestRank(durations, fraction, d) && percentile == Rounded(d)
  }

  lemma PercentileIs(durations: seq<real>, fraction: real)
    requires 0.0 < fraction <= 1.0
    ensures IsPercentile(durations, fraction, Percentile(durations, fraction))
  {
    hide Rounded, PercentileIndex, SortBy, IsNearestRank;
    if durations != [] {
      var d := PercentileIsNearestRank(durations, fraction);
    }
  }

  /** The head of a score: what was scored, the sums over the cases, and the median and the 95th percentile of the
      reported durations. */
  lemma HeadMeans(corpus: Corpus, p: Predictions, sha: Text)
    requires Scoring(corpus, p, sha).Some?
    ensures var s, durations := Scoring(corpus, p, sha).value, Accumulate(corpus.cases, p).durations;
      && s.corpusId == corpus.corpusId && s.corpusSha256 == sha && s.system == p.system
      && s.documentCount == |corpus.cases| == |s.cases| && s.exactDocuments == |ExactCases(s.cases)|
      && s.facts.counts == FactSum(s.cases) && s.warnings.counts == WarningSum(s.cases)
      && s.citations.counts == CitationSum(s.cases)
      && MetricMeans(s.facts) && MetricMeans(s.warnings) && CitationsMean(s.citations)
      && s.reportedCases == |durations|
      && IsPercentile(durations, 1.0 / 2.0, s.median) && IsPercentile(durations, 19.0 / 20.0, s.p95)
  {
    hide CorpusValid, PredictionsValid, Accumulate, Percentile, IsPercentile, MetricFor, CitationMetricFor, FactSum;
    hide WarningSum, CitationSum, ExactSum, MetricMeans, CitationsMean, FieldMetrics, SumF1, Divide, Nest, AllCasesOk;
    hide ExactCases, KindTotal, DistinctKinds, NoneNegative;
    var t := Accumulate(corpus.cases, p);
    AccumulateSound(corpus.cases, p);
    MetricForMeans(t.counts);
    MetricForMeans(t.warnings);
    CitationMetricForMeans(t.citations);
    ExactSumIs(t.cases);
    PercentileIs(t.durations, 0.5);
    PercentileIs(t.durations, 0.95);
  }

  lemma IndexIsRank(n: nat, fraction: real)
    requires n > 0 && 0.0 < fraction <= 1.0
    ensures var index := PercentileIndex(n, fraction);
      index < n && index as real < n as real * fraction <= index as real + 1.0
  {
    var x := n as real * fraction;
    Positive(n as real, fraction);
    ShareIsWithin(n as real, fraction);
    assert (-x).Floor as real <= -x < (-x).Floor as real + 1.0;
  }

  lemma ShareIsWithin(n: real, fraction: real)
    requires n > 0.0 && fraction <= 1.0
    ensures n * fraction <= n
  {
  }

  lemma RankCounts(sorted: seq<real>, index: nat, atMost: real -> bool, below: real -> bool)
    requires index < |sorted| && WeaklySorted(sorted, Shorter)
    requires forall x :: atMost(x) == (x <= sorted[index]) && below(x) == (x < sorted[index])
    ensures CountIf(sorted, atMost) >= index + 1 && CountIf(sorted, below) <= index
  {
    hide CountIf;
    var low, high := sorted[..index + 1], sorted[index + 1..];
    var lower, higher := sorted[..index], sorted[index..];
    assert sorted == low + high && sorted == lower + higher;
    CountJoined(low, high, atMost);
    CountJoined(lower, higher, below);
    assert forall i | 0 <= i <= index :: !Shorter(sorted[index], sorted[i]) || i == index;
    assert forall i | index <= i < |sorted| :: !Shorter(sorted[i], sorted[index]) || i == index;
    CountAllOrNone(low, atMost);
    CountAllOrNone(higher, below);
  }

  // ---------- a whole score ----------

  /** What every score the validator accepts says: each metric measures its counts, the counts of the cases add up to
      the totals, and the shares and means are what they are named after. */
  lemma AcceptedScoresMean(s: Score)
    requires Accepts(s)
    ensures MetricMeans(s.facts) && MetricMeans(s.warnings) && CitationsMean(s.citations)
    ensures forall i | 0 <= i < |s.fields| :: MetricMeans(s.fields[i].1)
    ensures forall i | 0 <= i < |s.cases| ::
      MetricMeans(s.cases[i].facts) && MetricMeans(s.cases[i].warnings) && CitationsMean(s.cases[i].citations)
    ensures s.documentCount == |s.cases| && s.exactDocuments == |ExactCases(s.cases)|
    ensures Measures(s.exactDocumentRate, |ExactCases(s.cases)|, |s.cases|)
    ensures |s.fields| > 0 ==> Near(s.macroF1 * |s.fields| as real, SumF1(s.fields), BOUND * |s.fields| as real)
    ensures s.median <= s.p95 && s.reportedCases <= |s.cases|
  {
    hide MetricMeans, CitationsMean, MetricFor, CitationMetricFor, Measures, Divide, IsBlank, IsSha256, Named;
    hide FactSum, WarningSum, CitationSum, ExactSum, SumF1;
    ValidMetricMeans(s.facts);
    ValidMetricMeans(s.warnings);
    ValidCitationsMean(s.citations);
    forall i | 0 <= i < |s.fields| ensures MetricMeans(s.fields[i].1) {
      ValidMetricMeans(s.fields[i].1);
    }
    forall i | 0 <= i < |s.cases|
      ensures MetricMeans(s.cases[i].facts) && MetricMeans(s.cases[i].warnings) && CitationsMean(s.cases[i].citations)
    {
      ValidMetricMeans(s.cases[i].facts);
      ValidMetricMeans(s.cases[i].warnings);
      ValidCitationsMean(s.cases[i].citations);
    }
    ExactSumIs(s.cases);
    DivideMeasures(s.exactDocuments, s.documentCount);
    if |s.fields| > 0 {
      MeanIsNear(SumF1(s.fields), |s.fields|);
    }
  }

  /** The places of the exact cases. */
  ghost function ExactCases(cases: seq<CaseScore>): set<int> {
    set i | 0 <= i < |cases| && cases[i].exactDocument
  }

  lemma {:induction false} ExactSumIs(cases: seq<CaseScore>)
    ensures ExactSum(cases) == |ExactCases(cases)|
  {
    if cases == [] {
      assert ExactCases(cases) == {};
    } else {
      var last := |cases| - 1;
      ExactSumIs(cases[..last]);
      assert ExactCases(cases) == ExactCases(cases[..last]) + (if cases[last].exactDocument then {last} else {});
    }
  }

  lemma ValidMetricMeans(m: Metric)
    requires MetricValid(m)
    ensures MetricMeans(m)
  {
    hide MetricMeans, MetricFor;
    MetricForMeans(m.counts);
  }

  lemma ValidCitationsMean(m: CitationMetric)
    requires CitationMetricValid(m)
    ensures CitationsMean(m)
  {
    hide CitationsMean, CitationMetricFor;
    CitationMetricForMeans(m.counts);
  }
}
