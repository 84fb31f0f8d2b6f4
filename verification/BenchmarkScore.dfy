/** Scoring a whole corpus, and the validator every score must pass before it is compared. */
module BenchmarkScore {
  import opened Primitives
  import opened Text
  import opened Sorting
  import opened Benchmark

  // ---------- inputs ----------

  datatype Case = Case(id: Text, pages: seq<int>, coverageTypes: seq<Text>, truth: seq<Fact>, warningCodes: seq<Text>)
  datatype Corpus = Corpus(corpusId: Text, cases: seq<Case>)
  datatype System = System(id: Text, name: Text, version: Text)
  datatype Prediction = Prediction(caseId: Text, facts: seq<Fact>, warningCodes: seq<Text>, duration: Option<real>)
  datatype Predictions = Predictions(corpusId: Text, corpusSha256: Text, system: System, cases: seq<Prediction>)

  predicate Unique<T(==)>(values: seq<T>) {
    forall i, j | 0 <= i < j < |values| :: values[i] != values[j]
  }

  predicate IsBlank(s: Text) {
    Trim(s) == []
  }

  predicate IsSha256(s: Text) {
    |s| == 64 && forall i | 0 <= i < 64 :: IsDigit(s[i]) || 0x61 <= s[i] <= 0x66
  }

  predicate Named(system: System) {
    !IsBlank(system.id) && !IsBlank(system.name) && !IsBlank(system.version)
  }

  predicate CaseValid(c: Case) {
    && Unique(c.pages) && (forall i | 0 <= i < |c.pages| :: 1 <= c.pages[i] <= MAX_SAFE_INTEGER)
        && Unique(c.coverageTypes)
    && Unique(Map((f: Fact) => f.key, c.truth))
    && forall i, k | 0 <= i < |c.truth| && 0 <= k < |c.truth[i].evidencePages| :: c.truth[i].evidencePages[k] in c.pages
  }

  predicate CorpusValid(c: Corpus) {
    && !IsBlank(c.corpusId) && c.cases != [] && Unique(Map((t: Case) => t.id, c.cases))
    && forall i | 0 <= i < |c.cases| :: CaseValid(c.cases[i])
  }

  predicate PredictionsValid(c: Corpus, p: Predictions, sha: Text) {
    && IsSha256(sha) && p.corpusId == c.corpusId && p.corpusSha256 == sha && Named(p.system)
    && Unique(Map((x: Prediction) => x.caseId, p.cases))
    && forall i | 0 <= i < |p.cases| :: HasCase(c, p.cases[i].caseId)
  }

  predicate HasCase(c: Corpus, id: Text) {
    exists k | 0 <= k < |c.cases| :: c.cases[k].id == id
  }

  // ---------- the score ----------

  datatype CaseScore = CaseScore(caseId: Text, exactDocument: bool, facts: Metric, citations: CitationMetric,
      warnings: Metric)

  datatype Score = Score(
    corpusId: Text, corpusSha256: Text, system: System, facts: Metric, macroF1: real, fields: seq<(Text, Metric)>,
    citations: CitationMetric, warnings: Metric, exactDocuments: int, documentCount: int, exactDocumentRate: real,
    reportedCases: int, median: real, p95: real, cases: seq<CaseScore>)

  datatype Totals = Totals(
    counts: Counts, citations: CitationCounts, warnings: Counts, byKind: KindCounts, cases: seq<CaseScore>,
    durations: seq<real>, exact: nat)

  const NO_TOTALS: Totals := Totals(NO_COUNTS, NO_CITATIONS, NO_COUNTS, [], [], [], 0)

  function MergeKinds(entries: KindCounts, more: KindCounts): (r: KindCounts) {
    if more == [] then entries
    else AddToKind(MergeKinds(entries, more[..|more| - 1]), more[|more| - 1].0, more[|more| - 1].1)
  }

  function PredictionFor(p: Predictions, id: Text): (r: Option<Prediction>) {
    var k := IndexOf(p.cases, (x: Prediction) => x.caseId == id);
    if k < |p.cases| then Some(p.cases[k]) else None
  }

  function ScoredCase(testCase: Case, prediction: Option<Prediction>): (r: Scored) {
    ScoredFacts(testCase.truth, if prediction.Some? then prediction.value.facts else [])
  }

  function CaseWarnings(testCase: Case, prediction: Option<Prediction>): (r: Counts) {
    CodeCounts(CodeSet(testCase.warningCodes), CodeSet(if prediction.Some? then prediction.value.warningCodes else []))
  }

  function NewCase(id: Text, scored: Scored, warnings: Counts): (r: CaseScore) {
    CaseScore(id, scored.exact, MetricFor(scored.counts), CitationMetricFor(scored.citations), MetricFor(warnings))
  }

  function AddCase(t: Totals, id: Text, scored: Scored, warnings: Counts, duration: Option<real>): (r: Totals) {
    Totals(AddCounts(t.counts, scored.counts), AddCitations(t.citations, scored.citations),
           AddCounts(t.warnings, warnings),
           MergeKinds(t.byKind, scored.byKind),
           t.cases + [NewCase(id, scored, warnings)],
           if duration.Some? then t.durations + [if duration.value < 0.0 then 0.0 else duration.value] else t.durations,
           t.exact + (if scored.exact then 1 else 0))
  }

  function DurationOf(prediction: Option<Prediction>): (r: Option<real>) {
    if prediction.Some? then prediction.value.duration else None
  }

  function Accumulate(cases: seq<Case>, p: Predictions): (r: Totals) {
    if cases == [] then NO_TOTALS
    else
      var testCase := cases[|cases| - 1];
      var prediction := PredictionFor(p, testCase.id);
      AddCase(Accumulate(cases[..|cases| - 1], p), testCase.id, ScoredCase(testCase, prediction),
          CaseWarnings(testCase, prediction), DurationOf(prediction))
  }

  /** Kinds in an order of their own, here that of their code units. */
  predicate KindBefore(a: (Text, Counts), b: (Text, Counts)) {
    Before(a.0, b.0)
  }

  function FieldMetrics(byKind: KindCounts): (r: seq<(Text, Metric)>) {
    Map((entry: (Text, Counts)) => (entry.0, MetricFor(entry.1)), SortBy(byKind, KindBefore))
  }

  function SumF1(fields: seq<(Text, Metric)>): (r: real) {
    if fields == [] then 0.0 else SumF1(fields[..|fields| - 1]) + fields[|fields| - 1].1.f1
  }

  function Ceiling(x: real): (r: int) {
    -((-x).Floor)
  }

  predicate Shorter(a: real, b: real) {
    a < b
  }

  function PercentileIndex(n: nat, fraction: real): (r: nat) {
    if Ceiling(n as real * fraction) - 1 < 0 then 0 else Ceiling(n as real * fraction) - 1
  }

  function Percentile(durations: seq<real>, fraction: real): (r: real) {
    var sorted := SortBy(durations, Shorter);
    var index := PercentileIndex(|sorted|, fraction);
    if sorted == [] then 0.0 else Rounded(if index < |sorted| then sorted[index] else 0.0)
  }

  function Summarize(corpus: Corpus, p: Predictions, sha: Text, t: Totals): (r: Score) {
    var fields := FieldMetrics(t.byKind);
    Score(corpus.corpusId, sha, p.system, MetricFor(t.counts), Divide(SumF1(fields), |fields| as real), fields,
          CitationMetricFor(t.citations), MetricFor(t.warnings), t.exact, |corpus.cases|,
          Divide(t.exact as real, |corpus.cases| as real), |t.durations|, Percentile(t.durations, 0.5),
              Percentile(t.durations, 0.95), t.cases)
  }

  function Scoring(corpus: Corpus, p: Predictions, sha: Text): (r: Option<Score>) {
    if CorpusValid(corpus) && PredictionsValid(corpus, p, sha)
        then Some(Summarize(corpus, p, sha, Accumulate(corpus.cases, p))) else None
  }

  /** None where the source throws. */
  method ScoreBenchmark(corpus: Corpus, predictions: Predictions, expectedCorpusSha256: Text)
      returns (score: Option<Score>)
    ensures score == Scoring(corpus, predictions, expectedCorpusSha256)
  {
    hide CorpusValid, PredictionsValid, Summarize, AddCase, ScoredFacts, PredictionFor, CodeCounts;
    if !CorpusValid(corpus) || !PredictionsValid(corpus, predictions, expectedCorpusSha256) {
      return None;
    }
    var totals := NO_TOTALS;
    var i := 0;
    while i < |corpus.cases|
      invariant 0 <= i <= |corpus.cases| && totals == Accumulate(corpus.cases[..i], predictions)
    {
      var testCase := corpus.cases[i];
      assert corpus.cases[..i + 1][..i] == corpus.cases[..i];
      var prediction := PredictionFor(predictions, testCase.id);
      var scored := ScoreFacts(testCase.truth, if prediction.Some? then prediction.value.facts else []);
      var warnings := ScoreCodes(testCase.warningCodes, if prediction.Some? then prediction.value.warningCodes else []);
      totals := AddCase(totals, testCase.id, scored, warnings, DurationOf(prediction));
      i := i + 1;
    }
    assert corpus.cases[..i] == corpus.cases;
    return Some(Summarize(corpus, predictions, expectedCorpusSha256, totals));
  }

  // ---------- the validator ----------

  predicate IsRate(r: real) {
    0.0 <= r <= 1.0
  }

  predicate SafeCounts(c: Counts) {
    c.truePositive <= MAX_SAFE_INTEGER && c.falsePositive <= MAX_SAFE_INTEGER && c.falseNegative <= MAX_SAFE_INTEGER
  }

  predicate SafeCitations(c: CitationCounts) {
    && c.coverage <= MAX_SAFE_INTEGER && c.correct <= MAX_SAFE_INTEGER
    && c.attempted <= MAX_SAFE_INTEGER && c.truthWithEvidence <= MAX_SAFE_INTEGER
  }

  predicate MetricValid(m: Metric) {
    SafeCounts(m.counts) && IsRate(m.precision) && IsRate(m.recall) && IsRate(m.f1) && m == MetricFor(m.counts)
  }

  predicate CitationMetricValid(m: CitationMetric) {
    SafeCitations(m.counts) && IsRate(m.precision) && IsRate(m.recall) && Nest(m.counts)
        && m == CitationMetricFor(m.counts)
  }

  predicate CaseScoreValid(c: CaseScore) {
    !IsBlank(c.caseId) && MetricValid(c.facts) && MetricValid(c.warnings) && CitationMetricValid(c.citations)
  }

  function FactSum(cases: seq<CaseScore>): (r: Counts) {
    if cases == [] then NO_COUNTS else AddCounts(FactSum(cases[..|cases| - 1]), cases[|cases| - 1].facts.counts)
  }

  function WarningSum(cases: seq<CaseScore>): (r: Counts) {
    if cases == [] then NO_COUNTS else AddCounts(WarningSum(cases[..|cases| - 1]), cases[|cases| - 1].warnings.counts)
  }

  function CitationSum(cases: seq<CaseScore>): (r: CitationCounts) {
    if cases == [] then NO_CITATIONS
        else AddCitations(CitationSum(cases[..|cases| - 1]), cases[|cases| - 1].citations.counts)
  }

  function ExactSum(cases: seq<CaseScore>): (r: nat) {
    if cases == [] then 0 else ExactSum(cases[..|cases| - 1]) + (if cases[|cases| - 1].exactDocument then 1 else 0)
  }

  predicate FieldsValid(s: Score) {
    && (forall i | 0 <= i < |s.fields| :: !IsBlank(s.fields[i].0) && MetricValid(s.fields[i].1))
    && Unique(Map((f: (Text, Metric)) => f.0, s.fields))
    && s.macroF1 == Divide(SumF1(s.fields), |s.fields| as real)
  }

  predicate HeadValid(s: Score) {
    && !IsBlank(s.corpusId) && IsSha256(s.corpusSha256) && Named(s.system)
    && MetricValid(s.facts) && MetricValid(s.warnings) && CitationMetricValid(s.citations) && IsRate(s.macroF1)
    && 0 <= s.exactDocuments <= MAX_SAFE_INTEGER && 0 <= s.documentCount <= MAX_SAFE_INTEGER
    && s.documentCount >= 1 && s.exactDocuments <= s.documentCount
    && IsRate(s.exactDocumentRate) && s.exactDocumentRate == Divide(s.exactDocuments as real, s.documentCount as real)
    && 0 <= s.reportedCases <= MAX_SAFE_INTEGER && 0.0 <= s.median <= s.p95 && s.reportedCases <= s.documentCount
  }

  predicate CasesValid(s: Score) {
    && |s.cases| == s.documentCount && (forall i | 0 <= i < |s.cases| :: CaseScoreValid(s.cases[i]))
    && Unique(Map((c: CaseScore) => c.caseId, s.cases))
    && FactSum(s.cases) == s.facts.counts && WarningSum(s.cases) == s.warnings.counts
    && CitationSum(s.cases) == s.citations.counts && ExactSum(s.cases) == s.exactDocuments
  }

  predicate Accepts(s: Score) {
    HeadValid(s) && FieldsValid(s) && CasesValid(s)
  }

  /** Adds up the cases while checking each, and compares the sums with the totals; false where the source throws. */
  method ValidateBenchmarkScore(s: Score) returns (ok: bool)
    ensures ok == Accepts(s)
  {
    hide HeadValid, FieldsValid, CaseScoreValid;
    if !HeadValid(s) || !FieldsValid(s) || |s.cases| != s.documentCount {
      return false;
    }
    var facts, warnings, citations, exact := NO_COUNTS, NO_COUNTS, NO_CITATIONS, 0;
    var i := 0;
    while i < |s.cases|
      invariant 0 <= i <= |s.cases| && (forall j | 0 <= j < i :: CaseScoreValid(s.cases[j]))
      invariant facts == FactSum(s.cases[..i]) && warnings == WarningSum(s.cases[..i])
      invariant citations == CitationSum(s.cases[..i]) && exact == ExactSum(s.cases[..i])
    {
      var item := s.cases[i];
      if !CaseScoreValid(item) {
        return false;
      }
      assert s.cases[..i + 1][..i] == s.cases[..i];
      facts := AddCounts(facts, item.facts.counts);
      warnings := AddCounts(warnings, item.warnings.counts);
      citations := AddCitations(citations, item.citations.counts);
      if item.exactDocument {
        exact := exact + 1;
      }
      i := i + 1;
    }
    assert s.cases[..i] == s.cases;
    ok := Unique(Map((c: CaseScore) => c.caseId, s.cases)) && facts == s.facts.counts && warnings == s.warnings.counts
      && citations == s.citations.counts && exact == s.exactDocuments;
  }

  // ---------- rates ----------

  lemma RoundedIsMonotone(x: real, y: real)
    requires x <= y
    ensures Rounded(x) <= Rounded(y)
  {
    assert ((x + EPSILON) * 1000000.0 + 0.5).Floor <= ((y + EPSILON) * 1000000.0 + 0.5).Floor;
  }

  lemma RoundedEnds()
    ensures Rounded(0.0) == 0.0 && Rounded(1.0) == 1.0
  {
    assert (EPSILON * 1000000.0 + 0.5).Floor == 0;
    assert ((1.0 + EPSILON) * 1000000.0 + 0.5).Floor == 1000000;
  }

  lemma RoundedRate(x: real)
    requires 0.0 <= x <= 1.0
    ensures IsRate(Rounded(x))
  {
    RoundedEnds();
    RoundedIsMonotone(0.0, x);
    RoundedIsMonotone(x, 1.0);
  }

  lemma DivideIsRate(a: real, b: real)
    requires 0.0 <= a <= b
    ensures IsRate(Divide(a, b))
  {
    hide Rounded;
    if b > 0.0 {
      assert a / b * b == a;
      RoundedRate(a / b);
    }
  }

  lemma HarmonicIsRate(p: real, r: real)
    requires IsRate(p) && IsRate(r)
    ensures IsRate(HarmonicMean(p, r))
  {
    hide Rounded;
    if p + r != 0.0 {
      NotNegative(p, 1.0 - r);
      NotNegative(r, 1.0 - p);
      NotNegative(p, r);
      assert p + r - 2.0 * p * r == p * (1.0 - r) + r * (1.0 - p);
      assert 2.0 * p * r == 2.0 * (p * r);
      QuotientIsRate(2.0 * p * r, p + r);
      RoundedRate(2.0 * p * r / (p + r));
    }
  }

  lemma NotNegative(x: real, y: real)
    requires x >= 0.0 && y >= 0.0
    ensures x * y >= 0.0
  {
  }

  lemma QuotientIsRate(a: real, b: real)
    requires 0.0 <= a <= b && b > 0.0
    ensures 0.0 <= a / b <= 1.0
  {
  }

  /** A metric computed from safe counts is valid. */
  lemma MetricForIsValid(c: Counts)
    requires SafeCounts(c)
    ensures MetricValid(MetricFor(c))
  {
    hide Rounded, Divide, HarmonicMean;
    var m := MetricFor(c);
    DivideIsRate(c.truePositive as real, (c.truePositive + c.falsePositive) as real);
    DivideIsRate(c.truePositive as real, (c.truePositive + c.falseNegative) as real);
    HarmonicIsRate(m.precision, m.recall);
  }

  lemma CitationMetricForIsValid(c: CitationCounts)
    requires SafeCitations(c) && Nest(c)
    ensures CitationMetricValid(CitationMetricFor(c))
  {
    hide Divide;
    DivideIsRate(c.correct as real, c.attempted as real);
    DivideIsRate(c.correct as real, c.truthWithEvidence as real);
  }

  // ---------- percentiles ----------

  lemma ShorterIsWeak()
    ensures WeakOrder(Shorter)
  {
  }

  lemma IndexInside(n: nat)
    requires n > 0
    ensures PercentileIndex(n, 0.5) <= PercentileIndex(n, 0.95) < n
  {
    var x := n as real;
    assert (-(x * 0.95)).Floor <= (-(x * 0.5)).Floor;
    assert (-x).Floor <= (-(x * 0.95)).Floor;
    assert (-x).Floor == 0 - n;
  }

  /** The median is at most the 95th percentile, and neither is negative. */
  lemma PercentilesOrdered(durations: seq<real>)
    requires forall i | 0 <= i < |durations| :: durations[i] >= 0.0
    ensures 0.0 <= Percentile(durations, 0.5) <= Percentile(durations, 0.95)
  {
    hide Rounded, PercentileIndex, SortBy;
    var sorted := SortBy(durations, Shorter);
    if sorted != [] {
      ShorterIsWeak();
      SortByWeakly(durations, Shorter);
      IndexInside(|sorted|);
      var i, j := PercentileIndex(|sorted|, 0.5), PercentileIndex(|sorted|, 0.95);
      assert i == j || !Shorter(sorted[j], sorted[i]);
      assert sorted[i] in Elements(durations);
      RoundedEnds();
      RoundedIsMonotone(0.0, sorted[i]);
      RoundedIsMonotone(sorted[i], sorted[j]);
    }
  }

  // ---------- what accumulating keeps ----------

  ghost predicate KindsNamed(entries: KindCounts) {
    forall i | 0 <= i < |entries| :: !IsBlank(entries[i].0)
  }

  lemma {:induction false} AddToKindNamed(entries: KindCounts, kind: Text, c: Counts)
    requires KindsNamed(entries) && !IsBlank(kind)
    ensures KindsNamed(AddToKind(entries, kind, c))
  {
    hide IsBlank;
    if entries != [] && entries[0].0 != kind {
      AddToKindNamed(entries[1..], kind, c);
    }
  }

  lemma {:induction false} MergeKindsAdds(entries: KindCounts, more: KindCounts)
    requires DistinctKinds(entries)
    ensures DistinctKinds(MergeKinds(entries, more))
    ensures KindTotal(MergeKinds(entries, more)) == AddCounts(KindTotal(entries), KindTotal(more))
    ensures KindsNamed(entries) && KindsNamed(more) ==> KindsNamed(MergeKinds(entries, more))
  {
    hide AddToKind, DistinctKinds, HasKind, IsBlank;
    if more != [] {
      var front, last := more[..|more| - 1], more[|more| - 1];
      MergeKindsAdds(entries, front);
      AddToKindAdds(MergeKinds(entries, front), last.0, last.1);
      KindTotalLast(more);
      if KindsNamed(entries) && KindsNamed(more) {
        AddToKindNamed(MergeKinds(entries, front), last.0, last.1);
      }
    }
  }

  lemma {:induction false} KindTotalLast(entries: KindCounts)
    requires entries != []
    ensures KindTotal(entries) == AddCounts(KindTotal(entries[..|entries| - 1]), entries[|entries| - 1].1)
  {
    if |entries| > 1 {
      KindTotalLast(entries[1..]);
      assert entries[1..][..|entries| - 2] == entries[..|entries| - 1][1..];
    }
  }

  ghost predicate FactsNamed(facts: seq<Fact>) {
    forall i | 0 <= i < |facts| :: !IsBlank(facts[i].kind)
  }

  ghost predicate CaseOk(c: CaseScore) {
    && (exists counts :: c.facts == MetricFor(counts)) && (exists counts :: c.warnings == MetricFor(counts))
    && (exists counts :: Nest(counts) && c.citations == CitationMetricFor(counts))
  }

  /** What the totals keep after so many cases. */
  ghost predicate TotalsSound(t: Totals, n: nat) {
    && |t.cases| == n && t.exact <= n && |t.durations| <= n
    && AllCasesOk(t.cases)
    && FactSum(t.cases) == t.counts && WarningSum(t.cases) == t.warnings && CitationSum(t.cases) == t.citations
        && ExactSum(t.cases) == t.exact
    && KindTotal(t.byKind) == t.counts && DistinctKinds(t.byKind) && Nest(t.citations)
    && NoneNegative(t.durations)
  }

  ghost predicate AllCasesOk(cases: seq<CaseScore>) {
    forall i | 0 <= i < |cases| :: CaseOk(cases[i])
  }

  ghost predicate NoneNegative(durations: seq<real>) {
    forall i | 0 <= i < |durations| :: durations[i] >= 0.0
  }

  lemma AddCaseSound(t: Totals, n: nat, id: Text, scored: Scored, warnings: Counts, duration: Option<real>)
    requires TotalsSound(t, n) && Nest(scored.citations) && KindTotal(scored.byKind) == scored.counts
    ensures TotalsSound(AddCase(t, id, scored, warnings, duration), n + 1)
  {
    hide MetricFor, CitationMetricFor, KindTotal, DistinctKinds, MergeKinds, CaseOk, Nest;
    hide FactSum, WarningSum, CitationSum, ExactSum, AddCounts, AddCitations, NewCase, AllCasesOk, NoneNegative;
    var c := NewCase(id, scored, warnings);
    MergeKindsAdds(t.byKind, scored.byKind);
    NestAdds(t.citations, scored.citations);
    SumsAdd(t.cases, c);
    NewCaseOk(id, scored, warnings);
    AllCasesStayOk(t.cases, c);
    NoneStaysNegative(t, id, scored, warnings, duration);
  }

  lemma AllCasesStayOk(cases: seq<CaseScore>, c: CaseScore)
    requires AllCasesOk(cases) && CaseOk(c)
    ensures AllCasesOk(cases + [c])
  {
    hide CaseOk;
  }

  lemma NoneStaysNegative(t: Totals, id: Text, scored: Scored, warnings: Counts, duration: Option<real>)
    requires NoneNegative(t.durations)
    ensures NoneNegative(AddCase(t, id, scored, warnings, duration).durations)
  {
    hide AddCounts, AddCitations, NewCase, MergeKinds;
  }

  lemma NestAdds(a: CitationCounts, b: CitationCounts)
    requires Nest(a) && Nest(b)
    ensures Nest(AddCitations(a, b))
  {
  }

  lemma SumsAdd(cases: seq<CaseScore>, c: CaseScore)
    ensures var r := cases + [c];
      && FactSum(r) == AddCounts(FactSum(cases), c.facts.counts)
      && WarningSum(r) == AddCounts(WarningSum(cases), c.warnings.counts)
      && CitationSum(r) == AddCitations(CitationSum(cases), c.citations.counts)
      && ExactSum(r) == ExactSum(cases) + (if c.exactDocument then 1 else 0)
  {
    hide AddCounts, AddCitations;
    assert (cases + [c])[..|cases|] == cases;
  }

  lemma NewCaseOk(id: Text, scored: Scored, warnings: Counts)
    requires Nest(scored.citations)
    ensures var c := NewCase(id, scored, warnings);
      && CaseOk(c) && c.facts.counts == scored.counts && c.warnings.counts == warnings
      && c.citations.counts == scored.citations && c.exactDocument == scored.exact
  {
    hide MetricFor, CitationMetricFor, Nest;
    MetricKeepsCounts(scored.counts, warnings, scored.citations);
  }

  lemma MetricKeepsCounts(c: Counts, d: Counts, e: CitationCounts)
    ensures MetricFor(c).counts == c && MetricFor(d).counts == d && CitationMetricFor(e).counts == e
  {
  }

  lemma {:induction false} AccumulateSound(cases: seq<Case>, p: Predictions)
    ensures TotalsSound(Accumulate(cases, p), |cases|)
    ensures forall i | 0 <= i < |cases| :: Accumulate(cases, p).cases[i].caseId == cases[i].id
  {
    hide AddCase, ScoredCase, PredictionFor, TotalsSound, CaseWarnings, DurationOf;
    if cases == [] {
      NoTotalsSound();
    } else {
      var last := |cases| - 1;
      var testCase := cases[last];
      var prediction := PredictionFor(p, testCase.id);
      AccumulateSound(cases[..last], p);
      ScoredCaseSound(testCase, prediction);
      AddCaseSound(Accumulate(cases[..last], p), last, testCase.id, ScoredCase(testCase, prediction),
          CaseWarnings(testCase, prediction), DurationOf(prediction));
      AddCaseIds(Accumulate(cases[..last], p), last, testCase.id, ScoredCase(testCase, prediction),
          CaseWarnings(testCase, prediction), DurationOf(prediction));
    }
  }

  lemma ScoredCaseSound(testCase: Case, prediction: Option<Prediction>)
    ensures var s := ScoredCase(testCase, prediction); Nest(s.citations) && KindTotal(s.byKind) == s.counts
  {
    hide ScoredFacts;
    FactsConserve(testCase.truth, if prediction.Some? then prediction.value.facts else []);
  }

  lemma NoTotalsSound()
    ensures TotalsSound(NO_TOTALS, 0)
  {
  }

  lemma AddCaseIds(t: Totals, n: nat, id: Text, scored: Scored, warnings: Counts, duration: Option<real>)
    requires TotalsSound(t, n)
    ensures var r := AddCase(t, id, scored, warnings, duration);
      |t.cases| == n && |r.cases| == n + 1 && r.cases[n].caseId == id && r.cases[..n] == t.cases
  {
  }

  // ---------- kinds of facts have names ----------

  lemma {:induction false} ByKeyNamed(facts: seq<Fact>)
    requires FactsNamed(facts)
    ensures forall k | k in ByKey(facts) :: !IsBlank(ByKey(facts)[k].kind)
  {
    hide IsBlank;
    if facts != [] {
      ByKeyNamed(facts[..|facts| - 1]);
    }
  }

  lemma {:induction false} ScoreKeysNamed(e: map<Text, Fact>, o: map<Text, Fact>, keys: seq<Text>)
    requires forall k | k in keys :: k in e || k in o
    requires (forall k | k in e :: !IsBlank(e[k].kind)) && (forall k | k in o :: !IsBlank(o[k].kind))
    ensures KindsNamed(ScoreKeys(e, o, keys).byKind)
  {
    hide IsBlank, KeyCounts, KeyCitations, IsHit, AddToKind;
    if keys != [] {
      var k, front := keys[|keys| - 1], keys[..|keys| - 1];
      ScoreKeysNamed(e, o, front);
      AddToKindNamed(ScoreKeys(e, o, front).byKind, KindOf(e, o, k), KeyCounts(e, o, k));
    }
  }

  /** Every fact has a kind with a name, as flattening gives it. */
  ghost predicate InputsNamed(cases: seq<Case>, p: Predictions) {
    && (forall i | 0 <= i < |cases| :: FactsNamed(cases[i].truth))
    && (forall i | 0 <= i < |p.cases| :: FactsNamed(p.cases[i].facts))
  }

  lemma CaseNamed(testCase: Case, prediction: Option<Prediction>)
    requires FactsNamed(testCase.truth) && (prediction.Some? ==> FactsNamed(prediction.value.facts))
    ensures KindsNamed(ScoredCase(testCase, prediction).byKind)
  {
    hide ByKey, SortedKeys, ScoreKeys, IsBlank;
    var observed := if prediction.Some? then prediction.value.facts else [];
    assert FactsNamed([]);
    ByKeyNamed(testCase.truth);
    ByKeyNamed(observed);
    KeysKnown(testCase.truth, observed);
    ScoreKeysNamed(ByKey(testCase.truth), ByKey(observed), SortedKeys(testCase.truth, observed));
  }

  lemma {:induction false} AccumulateNamed(cases: seq<Case>, p: Predictions)
    requires InputsNamed(cases, p)
    ensures KindsNamed(Accumulate(cases, p).byKind)
  {
    hide ScoredCase, CaseWarnings, DurationOf, KindsNamed, FactsNamed, MergeKinds;
    if cases == [] {
      NoKindsNamed();
    } else {
      var last := |cases| - 1;
      var prediction := PredictionFor(p, cases[last].id);
      AccumulateNamed(cases[..last], p);
      AccumulateSound(cases[..last], p);
      CaseNamed(cases[last], prediction);
      MergeKindsAdds(Accumulate(cases[..last], p).byKind, ScoredCase(cases[last], prediction).byKind);
    }
  }

  lemma NoKindsNamed()
    ensures KindsNamed([])
  {
  }

  // ---------- fields ----------

  ghost predicate WithinCounts(c: Counts, total: Counts) {
    c.truePositive <= total.truePositive && c.falsePositive <= total.falsePositive
        && c.falseNegative <= total.falseNegative
  }

  lemma {:induction false} KindsWithinTotal(entries: KindCounts)
    ensures forall i | 0 <= i < |entries| :: WithinCounts(entries[i].1, KindTotal(entries))
  {
    if entries != [] {
      KindsWithinTotal(entries[1..]);
      forall i | 0 <= i < |entries| ensures WithinCounts(entries[i].1, KindTotal(entries)) {
        if i > 0 {
          assert WithinCounts(entries[1..][i - 1].1, KindTotal(entries[1..]));
        }
      }
    }
  }

  lemma KindsOrdered(entries: KindCounts)
    requires DistinctKinds(entries)
    ensures Orders(Elements(entries), KindBefore) && Distinct(entries)
  {
    hide Before;
    var names := set e | e in Elements(entries) :: e.0;
    TextOrder(names);
    forall a, b | a in Elements(entries) && b in Elements(entries) && a.0 == b.0 ensures a == b {
      var i, j :| 0 <= i < |entries| && 0 <= j < |entries| && entries[i] == a && entries[j] == b;
    }
    forall a | a in Elements(entries) ensures a.0 in names {
    }
  }

  /** Sorted, the kinds are still all there, each once. */
  lemma SortedKinds(entries: KindCounts)
    requires DistinctKinds(entries)
    ensures var sorted := SortBy(entries, KindBefore); DistinctKinds(sorted) && forall x :: x in sorted <==>
        x in entries
  {
    hide SortBy, Before;
    var sorted := SortBy(entries, KindBefore);
    KindsOrdered(entries);
    SortBySorts(entries, KindBefore);
    forall x ensures x in sorted <==> x in entries {
      assert x in Elements(sorted) <==> x in Elements(entries);
    }
    forall i, j | 0 <= i < j < |sorted| ensures sorted[i].0 != sorted[j].0 {
      assert KindBefore(sorted[i], sorted[j]);
      BeforeIrreflexive(sorted[i].0);
    }
  }

  lemma FieldsAreValid(byKind: KindCounts)
    requires DistinctKinds(byKind) && KindsNamed(byKind) && SafeCounts(KindTotal(byKind))
    ensures var fields := FieldMetrics(byKind);
      && (forall i | 0 <= i < |fields| :: !IsBlank(fields[i].0) && MetricValid(fields[i].1))
      && Unique(Map((f: (Text, Metric)) => f.0, fields))
  {
    hide SortBy, MetricFor, MetricValid, IsBlank;
    var sorted := SortBy(byKind, KindBefore);
    SortedKinds(byKind);
    KindsWithinTotal(byKind);
    var fields := FieldMetrics(byKind);
    forall i | 0 <= i < |fields| ensures !IsBlank(fields[i].0) && MetricValid(fields[i].1) {
      assert sorted[i] in byKind;
      var k :| 0 <= k < |byKind| && byKind[k] == sorted[i];
      assert WithinCounts(byKind[k].1, KindTotal(byKind));
      MetricForIsValid(byKind[k].1);
    }
  }

  lemma {:induction false} SumF1Bounded(fields: seq<(Text, Metric)>)
    requires forall i | 0 <= i < |fields| :: IsRate(fields[i].1.f1)
    ensures 0.0 <= SumF1(fields) <= |fields| as real
  {
    if fields != [] {
      SumF1Bounded(fields[..|fields| - 1]);
    }
  }

  // ---------- cases ----------

  lemma {:induction false} CasesWithinSums(cases: seq<CaseScore>)
    ensures forall i | 0 <= i < |cases| ::
      && WithinCounts(cases[i].facts.counts, FactSum(cases))
          && WithinCounts(cases[i].warnings.counts, WarningSum(cases))
      && cases[i].citations.counts.attempted <= CitationSum(cases).attempted
      && cases[i].citations.counts.truthWithEvidence <= CitationSum(cases).truthWithEvidence
  {
    if cases != [] {
      CasesWithinSums(cases[..|cases| - 1]);
      assert forall i | 0 <= i < |cases| - 1 :: cases[i] == cases[..|cases| - 1][i];
    }
  }

  lemma CaseIsValid(c: CaseScore, facts: Counts, warnings: Counts, citations: CitationCounts)
    requires CaseOk(c) && SafeCounts(facts) && SafeCounts(warnings) && SafeCitations(citations)
    requires WithinCounts(c.facts.counts, facts) && WithinCounts(c.warnings.counts, warnings)
    requires c.citations.counts.attempted <= citations.attempted
        && c.citations.counts.truthWithEvidence <= citations.truthWithEvidence
    ensures CaseScoreValid(c) <==> !IsBlank(c.caseId)
  {
    hide IsBlank, MetricFor, CitationMetricFor, MetricValid, CitationMetricValid;
    var f :| c.facts == MetricFor(f);
    var w :| c.warnings == MetricFor(w);
    var n :| Nest(n) && c.citations == CitationMetricFor(n);
    MetricKeepsCounts(f, w, n);
    MetricForIsValid(f);
    MetricForIsValid(w);
    CitationMetricForIsValid(n);
  }

  // ---------- every score is accepted ----------

  /** No count goes beyond what JavaScript counts exactly. */
  predicate Countable(t: Totals) {
    SafeCounts(t.counts) && SafeCounts(t.warnings) && SafeCitations(t.citations) && |t.cases| <= MAX_SAFE_INTEGER
  }

  lemma HeadIsValid(corpus: Corpus, p: Predictions, sha: Text, t: Totals)
    requires CorpusValid(corpus) && PredictionsValid(corpus, p, sha) && TotalsSound(t, |corpus.cases|)
        && Countable(t) && KindsNamed(t.byKind)
    ensures var s := Summarize(corpus, p, sha, t); HeadValid(s) && FieldsValid(s)
  {
    hide IsBlank, MetricFor, CitationMetricFor, MetricValid, CitationMetricValid, Divide, FieldMetrics, Percentile;
    hide SumF1, IsSha256, Named, CaseValid, Unique;
    var fields := FieldMetrics(t.byKind);
    MetricForIsValid(t.counts);
    MetricForIsValid(t.warnings);
    CitationMetricForIsValid(t.citations);
    DivideIsRate(t.exact as real, |corpus.cases| as real);
    PercentilesOrdered(t.durations);
    FieldsAreValid(t.byKind);
    forall i | 0 <= i < |fields| ensures IsRate(fields[i].1.f1) {
      ValidRates(fields[i].1);
    }
    SumF1Bounded(fields);
    DivideIsRate(SumF1(fields), |fields| as real);
  }

  lemma ValidRates(m: Metric)
    requires MetricValid(m)
    ensures IsRate(m.f1)
  {
  }

  lemma CasesAreValid(corpus: Corpus, p: Predictions, sha: Text, t: Totals)
    requires CorpusValid(corpus) && TotalsSound(t, |corpus.cases|) && Countable(t)
    requires forall i | 0 <= i < |corpus.cases| :: t.cases[i].caseId == corpus.cases[i].id
    ensures CasesValid(Summarize(corpus, p, sha, t)) <==>
        forall i | 0 <= i < |corpus.cases| :: !IsBlank(corpus.cases[i].id)
  {
    hide IsBlank, MetricFor, CitationMetricFor, CaseScoreValid, FieldMetrics, Percentile, SumF1, Divide, CaseOk;
    hide CaseValid;
    CasesWithinSums(t.cases);
    MetricKeepsCounts(t.counts, t.warnings, t.citations);
    forall i | 0 <= i < |t.cases| ensures CaseScoreValid(t.cases[i]) <==> !IsBlank(corpus.cases[i].id) {
      CaseIsValid(t.cases[i], t.counts, t.warnings, t.citations);
    }
    var ids := Map((c: CaseScore) => c.caseId, t.cases);
    assert ids == Map((c: Case) => c.id, corpus.cases);
  }

  /** The validator accepts every score the scorer produces, provided each case id is more than white space, and no
      other. */
  lemma ScoresAreAccepted(corpus: Corpus, p: Predictions, sha: Text)
    requires Scoring(corpus, p, sha).Some? && InputsNamed(corpus.cases, p) && Countable(Accumulate(corpus.cases, p))
    ensures Accepts(Scoring(corpus, p, sha).value) <==>
        forall i | 0 <= i < |corpus.cases| :: !IsBlank(corpus.cases[i].id)
  {
    hide IsBlank, CorpusValid, PredictionsValid, Accumulate, Summarize, TotalsSound, Countable, HeadValid;
    hide FieldsValid, CasesValid, KindsNamed;
    var t := Accumulate(corpus.cases, p);
    AccumulateSound(corpus.cases, p);
    AccumulateNamed(corpus.cases, p);
    HeadIsValid(corpus, p, sha, t);
    CasesAreValid(corpus, p, sha, t);
  }
}
