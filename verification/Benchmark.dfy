/** The benchmark scorer, from flattened facts to a score. */
module Benchmark {
  import opened Primitives
  import opened Text
  import opened Sorting

  // ---------- facts, counts, metrics ----------

  datatype Scalar = Str(text: Text) | Num(number: real)

  /** A fact after flattening: its key and value are already normalised, its pages sorted and positive. */
  datatype Fact = Fact(key: Text, kind: Text, value: Scalar, evidencePages: seq<nat>)

  datatype Counts = Counts(truePositive: nat, falsePositive: nat, falseNegative: nat)

  datatype CitationCounts = CitationCounts(coverage: nat, correct: nat, attempted: nat, truthWithEvidence: nat)

  datatype Metric = Metric(counts: Counts, precision: real, recall: real, f1: real)

  datatype CitationMetric = CitationMetric(counts: CitationCounts, precision: real, recall: real)

  /** Whether citation counts are possible together. */
  predicate Nest(c: CitationCounts) {
    c.correct <= c.coverage <= c.attempted && c.correct <= c.truthWithEvidence
  }

  const NO_COUNTS: Counts := Counts(0, 0, 0)
  const NO_CITATIONS: CitationCounts := CitationCounts(0, 0, 0, 0)

  function AddCounts(a: Counts, b: Counts): (r: Counts) {
    Counts(a.truePositive + b.truePositive, a.falsePositive + b.falsePositive, a.falseNegative + b.falseNegative)
  }

  function AddCitations(a: CitationCounts, b: CitationCounts): (r: CitationCounts) {
    CitationCounts(a.coverage + b.coverage, a.correct + b.correct, a.attempted + b.attempted,
        a.truthWithEvidence + b.truthWithEvidence)
  }

  /** `Number.EPSILON`, two to the power of minus 52. */
  const EPSILON: real := 1.0 / 4503599627370496.0

  /** `Math.round` rounds halves up. */
  function Rounded(value: real): (r: real) {
    ((value + EPSILON) * 1000000.0 + 0.5).Floor as real / 1000000.0
  }

  function Divide(numerator: real, denominator: real): (r: real) {
    if denominator == 0.0 then 0.0 else Rounded(numerator / denominator)
  }

  function HarmonicMean(precision: real, recall: real): (r: real) {
    if precision + recall == 0.0 then 0.0 else Rounded(2.0 * precision * recall / (precision + recall))
  }

  function MetricFor(c: Counts): (r: Metric) {
    var precision := Divide(c.truePositive as real, (c.truePositive + c.falsePositive) as real);
    var recall := Divide(c.truePositive as real, (c.truePositive + c.falseNegative) as real);
    Metric(c, precision, recall, HarmonicMean(precision, recall))
  }

  function CitationMetricFor(c: CitationCounts): (r: CitationMetric) {
    CitationMetric(c, Divide(c.correct as real, c.attempted as real),
        Divide(c.correct as real, c.truthWithEvidence as real))
  }

  // ---------- scoring facts ----------

  /** `new Map(facts.map(fact => [fact.key, fact]))` */
  function ByKey(facts: seq<Fact>): (r: map<Text, Fact>)
    ensures forall k :: k in r <==> exists i | 0 <= i < |facts| :: facts[i].key == k
  {
    if facts == [] then map[] else ByKey(facts[..|facts| - 1])[facts[|facts| - 1].key := facts[|facts| - 1]]
  }

  /** The keys of a set of texts in order, each once. */
  function Keys(facts: seq<Fact>, more: seq<Text>): (r: seq<Text>)
    ensures Distinct(more) ==> Distinct(r)
    ensures forall k :: k in r <==> k in more || k in ByKey(facts)
  {
    if facts == [] then more
    else
      var rest := Keys(facts[..|facts| - 1], more);
      if facts[|facts| - 1].key in rest then rest else rest + [facts[|facts| - 1].key]
  }

  function SortedKeys(expected: seq<Fact>, observed: seq<Fact>): (r: seq<Text>)
    ensures Elements(r) == Elements(Keys(observed, Keys(expected, []))) && |r| == |Keys(observed, Keys(expected, []))|
  {
    SortBy(Keys(observed, Keys(expected, [])), Before)
  }

  predicate IsHit(e: map<Text, Fact>, o: map<Text, Fact>, k: Text) {
    k in e && k in o && e[k].value == o[k].value
  }

  predicate Cites(m: map<Text, Fact>, k: Text) {
    k in m && m[k].evidencePages != []
  }

  predicate SharesPage(a: Fact, b: Fact) {
    exists i | 0 <= i < |a.evidencePages| :: a.evidencePages[i] in b.evidencePages
  }

  function KindOf(e: map<Text, Fact>, o: map<Text, Fact>, k: Text): (r: Text)
    requires k in e || k in o
  {
    if k in e then e[k].kind else o[k].kind
  }

  function KeyCounts(e: map<Text, Fact>, o: map<Text, Fact>, k: Text): (r: Counts) {
    if IsHit(e, o, k) then Counts(1, 0, 0) else Counts(0, if k in o then 1 else 0, if k in e then 1 else 0)
  }

  function KeyCitations(e: map<Text, Fact>, o: map<Text, Fact>, k: Text): (r: CitationCounts) {
    var covered := IsHit(e, o, k) && Cites(o, k);
    CitationCounts(
      if covered then 1 else 0,
      if covered && SharesPage(o[k], e[k]) then 1 else 0,
      if Cites(o, k) then 1 else 0,
      if Cites(e, k) then 1 else 0)
  }

  /** Counts per kind, as a JavaScript map keeps them: in order of first insertion. */
  type KindCounts = seq<(Text, Counts)>

  function AddToKind(entries: KindCounts, kind: Text, c: Counts): (r: KindCounts) {
    if entries == [] then [(kind, c)]
    else if entries[0].0 == kind then [(kind, AddCounts(entries[0].1, c))] + entries[1..]
    else [entries[0]] + AddToKind(entries[1..], kind, c)
  }

  datatype Scored = Scored(counts: Counts, byKind: KindCounts, citations: CitationCounts, exact: bool)

  function ScoreKey(s: Scored, e: map<Text, Fact>, o: map<Text, Fact>, k: Text): (r: Scored)
    requires k in e || k in o
  {
    Scored(AddCounts(s.counts, KeyCounts(e, o, k)), AddToKind(s.byKind, KindOf(e, o, k), KeyCounts(e, o, k)),
           AddCitations(s.citations, KeyCitations(e, o, k)), s.exact && IsHit(e, o, k))
  }

  /** The scored facts for these keys. */
  function ScoreKeys(e: map<Text, Fact>, o: map<Text, Fact>, keys: seq<Text>): (r: Scored)
    requires forall k | k in keys :: k in e || k in o
  {
    if keys == [] then Scored(NO_COUNTS, [], NO_CITATIONS, true)
    else
      var k := keys[|keys| - 1];
      ScoreKey(ScoreKeys(e, o, keys[..|keys| - 1]), e, o, k)
  }

  lemma KeysKnown(expected: seq<Fact>, observed: seq<Fact>)
    ensures forall k :: k in SortedKeys(expected, observed) <==> k in ByKey(expected) || k in ByKey(observed)
    ensures Distinct(SortedKeys(expected, observed))
  {
    hide ByKey, Keys, SortBy;
    var all := Keys(observed, Keys(expected, []));
    var sorted := SortedKeys(expected, observed);
    forall k ensures k in sorted <==> k in all {
      assert k in Elements(sorted) <==> k in Elements(all);
    }
    SortIsDistinct(all);
  }

  lemma TextOrder(xs: set<Text>)
    ensures Orders(xs, Before)
  {
    forall a: Text, b: Text, c: Text ensures !Before(a, a) && (Before(a, b) && Before(b, c) ==> Before(a, c))
        && (a != b ==> Before(a, b) || Before(b, a)) {
      BeforeIrreflexive(a);
      if Before(a, b) && Before(b, c) {
        BeforeTransitive(a, b, c);
      }
      if a != b {
        BeforeTotal(a, b);
      }
    }
  }

  lemma SortIsDistinct(keys: seq<Text>)
    requires Distinct(keys)
    ensures Distinct(SortBy(keys, Before))
  {
    hide SortBy, Before;
    TextOrder(Elements(keys));
    SortBySorts(keys, Before);
    var r := SortBy(keys, Before);
    forall i, j | 0 <= i < j < |r| ensures r[i] != r[j] {
      BeforeIrreflexive(r[i]);
      assert Before(r[i], r[j]);
    }
  }

  function ScoredFacts(expected: seq<Fact>, observed: seq<Fact>): (r: Scored) {
    KeysKnown(expected, observed);
    ScoreKeys(ByKey(expected), ByKey(observed), SortedKeys(expected, observed))
  }

  method ScoreFacts(expectedFacts: seq<Fact>, observedFacts: seq<Fact>) returns (scored: Scored)
    ensures scored == ScoredFacts(expectedFacts, observedFacts)
  {
    hide ByKey, SortedKeys, ScoreKeys, ScoreKey;
    var expected, observed := ByKey(expectedFacts), ByKey(observedFacts);
    var keys := SortedKeys(expectedFacts, observedFacts);
    KeysKnown(expectedFacts, observedFacts);
    scored := Scored(NO_COUNTS, [], NO_CITATIONS, true);
    var i := 0;
    ScoreNone(expected, observed);
    while i < |keys|
      invariant 0 <= i <= |keys|
      invariant forall k | k in keys :: k in expected || k in observed
      invariant scored == ScoreKeys(expected, observed, keys[..i])
    {
      ScoreOneMore(expected, observed, keys, i);
      scored := ScoreOne(scored, expected, observed, keys[i]);
      i := i + 1;
    }
    assert keys[..i] == keys;
  }

  lemma ScoreNone(e: map<Text, Fact>, o: map<Text, Fact>)
    ensures ScoreKeys(e, o, []) == Scored(NO_COUNTS, [], NO_CITATIONS, true)
  {
  }

  lemma ScoreOneMore(e: map<Text, Fact>, o: map<Text, Fact>, keys: seq<Text>, i: nat)
    requires i < |keys| && forall k | k in keys :: k in e || k in o
    ensures ScoreKeys(e, o, keys[..i + 1]) == ScoreKey(ScoreKeys(e, o, keys[..i]), e, o, keys[i])
  {
    hide ScoreKey;
    assert keys[..i + 1][..i] == keys[..i];
  }

  /** One round of the loop over the keys. */
  method ScoreOne(s: Scored, expected: map<Text, Fact>, observed: map<Text, Fact>, k: Text) returns (r: Scored)
    requires k in expected || k in observed
    ensures r == ScoreKey(s, expected, observed, k)
  {
    hide AddToKind, SharesPage, Cites;
    var counts, citations, exact := s.counts, s.citations, s.exact;
    if Cites(expected, k) {
      citations := citations.(truthWithEvidence := citations.truthWithEvidence + 1);
    }
    if Cites(observed, k) {
      citations := citations.(attempted := citations.attempted + 1);
    }
    if IsHit(expected, observed, k) {
      counts := counts.(truePositive := counts.truePositive + 1);
      if Cites(observed, k) {
        citations := citations.(coverage := citations.coverage + 1);
        if SharesPage(observed[k], expected[k]) {
          citations := citations.(correct := citations.correct + 1);
        }
      }
    } else {
      exact := false;
      if k in expected {
        counts := counts.(falseNegative := counts.falseNegative + 1);
      }
      if k in observed {
        counts := counts.(falsePositive := counts.falsePositive + 1);
      }
    }
    return Scored(counts, AddToKind(s.byKind, KindOf(expected, observed, k), KeyCounts(expected, observed, k)),
        citations, exact);
  }

  /** Warning codes are compared as sets of normalised codes. */
  function CodeCounts(expected: set<Text>, observed: set<Text>): (r: Counts) {
    Counts(|expected * observed|, |observed - expected|, |expected - observed|)
  }

  /** `new Set(codes)` */
  function CodeSet(codes: seq<Text>): (r: set<Text>)
    ensures r == Elements(codes)
  {
    set x | x in codes
  }

  method ScoreCodes(expectedCodes: seq<Text>, observedCodes: seq<Text>) returns (counts: Counts)
    ensures counts == CodeCounts(Elements(expectedCodes), Elements(observedCodes))
  {
    var truePositive, falseNegative := CountCodes(expectedCodes, observedCodes);
    var shared, falsePositive := CountCodes(observedCodes, expectedCodes);
    return Counts(truePositive, falsePositive, falseNegative);
  }

  /** Of the distinct codes, how many the others have and how many they lack. */
  method CountCodes(codes: seq<Text>, others: seq<Text>) returns (present: nat, missing: nat)
    ensures present == |Elements(codes) * Elements(others)| && missing == |Elements(codes) - Elements(others)|
  {
    hide Elements;
    present, missing := 0, 0;
    var seen: set<Text> := {};
    ghost var known := Elements(others);
    NoCodes();
    var i := 0;
    while i < |codes|
      invariant 0 <= i <= |codes| && seen == Elements(codes[..i])
      invariant present == |seen * known| && missing == |seen - known|
    {
      var code := codes[i];
      OneMoreCode(codes, others, i);
      if code !in seen {
        SplitOff(seen, known, code);
        if code in others {
          present := present + 1;
        } else {
          missing := missing + 1;
        }
        seen := seen + {code};
      }
      i := i + 1;
    }
    assert codes[..i] == codes;
  }

  lemma NoCodes()
    ensures Elements<Text>([]) == {}
  {
  }

  lemma OneMoreCode(codes: seq<Text>, others: seq<Text>, i: nat)
    requires i < |codes|
    ensures Elements(codes[..i + 1]) == Elements(codes[..i]) + {codes[i]}
    ensures codes[i] in Elements(others) <==> codes[i] in others
  {
    assert codes[..i + 1] == codes[..i] + [codes[i]];
  }

  lemma SplitOff(seen: set<Text>, others: set<Text>, code: Text)
    requires code !in seen
    ensures |(seen + {code}) * others| == |seen * others| + (if code in others then 1 else 0)
    ensures |(seen + {code}) - others| == |seen - others| + (if code in others then 0 else 1)
  {
    if code in others {
      assert (seen + {code}) * others == seen * others + {code} && (seen + {code}) - others == seen - others;
    } else {
      assert (seen + {code}) * others == seen * others && (seen + {code}) - others == seen - others + {code};
    }
  }

  // ---------- conservation ----------

  function KindTotal(entries: KindCounts): (r: Counts) {
    if entries == [] then NO_COUNTS else AddCounts(entries[0].1, KindTotal(entries[1..]))
  }

  ghost predicate DistinctKinds(entries: KindCounts) {
    forall i, j | 0 <= i < j < |entries| :: entries[i].0 != entries[j].0
  }

  ghost predicate HasKind(entries: KindCounts, kind: Text) {
    exists i | 0 <= i < |entries| :: entries[i].0 == kind
  }

  lemma {:induction false} AddToKindAdds(entries: KindCounts, kind: Text, c: Counts)
    requires DistinctKinds(entries)
    ensures var r := AddToKind(entries, kind, c);
      && KindTotal(r) == AddCounts(KindTotal(entries), c) && DistinctKinds(r)
      && forall t :: HasKind(r, t) <==> HasKind(entries, t) || t == kind
  {
    var r := AddToKind(entries, kind, c);
    if entries != [] {
      var first, rest := entries[0], entries[1..];
      assert entries == [first] + rest;
      forall t ensures HasKind(entries, t) <==> t == first.0 || HasKind(rest, t) {
        HasKindFirst(first, rest, t);
      }
      if first.0 == kind {
        assert r[1..] == rest;
        forall t ensures HasKind(r, t) <==> t == kind || HasKind(rest, t) {
          HasKindFirst(r[0], rest, t);
        }
      } else {
        AddToKindAdds(rest, kind, c);
        var longer := AddToKind(rest, kind, c);
        forall t ensures HasKind(r, t) <==> t == first.0 || HasKind(longer, t) {
          HasKindFirst(first, longer, t);
        }
        assert r[1..] == longer;
        assert !HasKind(rest, first.0);
      }
    } else {
      HasKindFirst((kind, c), [], kind);
    }
  }

  lemma HasKindFirst(first: (Text, Counts), rest: KindCounts, t: Text)
    ensures HasKind([first] + rest, t) <==> t == first.0 || HasKind(rest, t)
  {
    var all := [first] + rest;
    if t == first.0 {
      assert all[0].0 == t;
    }
    if i :| 0 <= i < |rest| && rest[i].0 == t {
      assert all[i + 1].0 == t;
    }
  }

  function CountIn(keys: seq<Text>, m: map<Text, Fact>): (n: nat) {
    if keys == [] then 0 else CountIn(keys[..|keys| - 1], m) + (if keys[|keys| - 1] in m then 1 else 0)
  }

  lemma {:induction false} CountInIsSize(keys: seq<Text>, m: map<Text, Fact>)
    requires Distinct(keys)
    ensures CountIn(keys, m) == |Elements(keys) * m.Keys|
  {
    if keys != [] {
      var k, front := keys[|keys| - 1], keys[..|keys| - 1];
      assert keys == front + [k];
      CountInIsSize(front, m);
      assert k !in front;
      OneMoreKey(front, k, m);
    }
  }

  lemma OneMoreKey(front: seq<Text>, k: Text, m: map<Text, Fact>)
    requires k !in front
    ensures |Elements(front + [k]) * m.Keys| == |Elements(front) * m.Keys| + (if k in m then 1 else 0)
  {
    var before, after := Elements(front) * m.Keys, Elements(front + [k]) * m.Keys;
    assert after == if k in m then before + {k} else before;
    assert k !in before;
  }

  /** What the counts of scored facts keep, with so many truth keys and so many predicted keys so far. */
  ghost predicate Conserves(s: Scored, truths: nat, predictions: nat) {
    && s.counts.truePositive + s.counts.falseNegative == truths
    && s.counts.truePositive + s.counts.falsePositive == predictions
    && KindTotal(s.byKind) == s.counts && DistinctKinds(s.byKind) && Nest(s.citations)
    && s.citations.coverage <= s.counts.truePositive
    && (s.exact <==> s.counts.falseNegative == 0 && s.counts.falsePositive == 0)
  }

  lemma ScoreKeyConserves(s: Scored, e: map<Text, Fact>, o: map<Text, Fact>, k: Text, truths: nat, predictions: nat)
    requires Conserves(s, truths, predictions) && (k in e || k in o)
    ensures Conserves(ScoreKey(s, e, o, k), truths + (if k in e then 1 else 0), predictions + (if k in o then 1 else 0))
  {
    hide AddToKind, KindTotal, DistinctKinds, HasKind, KeyCounts, KeyCitations, IsHit;
    AddToKindAdds(s.byKind, KindOf(e, o, k), KeyCounts(e, o, k));
    KeyConserves(e, o, k);
  }

  lemma {:induction false} ScoreKeysConserve(e: map<Text, Fact>, o: map<Text, Fact>, keys: seq<Text>)
    requires forall k | k in keys :: k in e || k in o
    ensures Conserves(ScoreKeys(e, o, keys), CountIn(keys, e), CountIn(keys, o))
  {
    hide ScoreKey;
    if keys != [] {
      hide Conserves;
      var k, front := keys[|keys| - 1], keys[..|keys| - 1];
      ScoreKeysConserve(e, o, front);
      ScoreKeyConserves(ScoreKeys(e, o, front), e, o, k, CountIn(front, e), CountIn(front, o));
    }
  }

  lemma {:induction false} ExactMeans(e: map<Text, Fact>, o: map<Text, Fact>, keys: seq<Text>)
    requires forall k | k in keys :: k in e || k in o
    ensures ScoreKeys(e, o, keys).exact <==> forall k | k in keys :: IsHit(e, o, k)
  {
    hide IsHit, AddToKind, KeyCounts, KeyCitations;
    if keys != [] {
      var k, front := keys[|keys| - 1], keys[..|keys| - 1];
      ExactMeans(e, o, front);
      assert keys == front + [k];
    }
  }

  lemma KeyConserves(e: map<Text, Fact>, o: map<Text, Fact>, k: Text)
    requires k in e || k in o
    ensures var c, d := KeyCounts(e, o, k), KeyCitations(e, o, k);
      && c.truePositive + c.falseNegative == (if k in e then 1 else 0)
      && c.truePositive + c.falsePositive == (if k in o then 1 else 0)
      && Nest(d) && d.coverage <= c.truePositive
      && (IsHit(e, o, k) <==> c.falseNegative == 0 && c.falsePositive == 0)
  {
    hide SharesPage;
    if IsHit(e, o, k) && Cites(o, k) && SharesPage(o[k], e[k]) {
      SharedPageIsCited(o[k], e[k]);
    }
  }

  lemma SharedPageIsCited(a: Fact, b: Fact)
    requires SharesPage(a, b)
    ensures b.evidencePages != []
  {
  }

  /** True positives and false negatives make up the distinct truth keys, true and false positives the distinct
      predicted ones; kinds sum to the totals; citations nest; exact means that nothing was missed or made up. */
  lemma FactsConserve(expected: seq<Fact>, observed: seq<Fact>)
    ensures Conserves(ScoredFacts(expected, observed), |ByKey(expected).Keys|, |ByKey(observed).Keys|)
  {
    hide ByKey, SortedKeys, ScoreKeys, CountIn, Conserves;
    var e, o, keys := ByKey(expected), ByKey(observed), SortedKeys(expected, observed);
    KeysKnown(expected, observed);
    ScoreKeysConserve(e, o, keys);
    CountAll(keys, e);
    CountAll(keys, o);
  }

  lemma CountAll(keys: seq<Text>, m: map<Text, Fact>)
    requires Distinct(keys) && forall k | k in m :: k in keys
    ensures CountIn(keys, m) == |m.Keys|
  {
    hide CountIn, Distinct;
    CountInIsSize(keys, m);
    assert Elements(keys) * m.Keys == m.Keys;
  }

  /** A document is exact when prediction and truth have the same keys with the same values. */
  lemma ExactFacts(expected: seq<Fact>, observed: seq<Fact>)
    ensures ScoredFacts(expected, observed).exact <==>
      ByKey(expected).Keys == ByKey(observed).Keys
          && forall k | k in ByKey(expected) :: ByKey(expected)[k].value == ByKey(observed)[k].value
  {
    hide ByKey, SortedKeys, ScoreKeys;
    var e, o, keys := ByKey(expected), ByKey(observed), SortedKeys(expected, observed);
    KeysKnown(expected, observed);
    ExactMeans(e, o, keys);
  }

  /** The same conservation for codes. */
  lemma CodesConserve(expected: set<Text>, observed: set<Text>)
    ensures var c := CodeCounts(expected, observed);
      c.truePositive + c.falseNegative == |expected| && c.truePositive + c.falsePositive == |observed|
  {
    assert expected * observed + (expected - observed) == expected;
    assert expected * observed + (observed - expected) == observed;
  }
}
