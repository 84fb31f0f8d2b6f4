/** Stable insertion sort by a "comes before" test, and the fact every caller relies on: among
    pairwise distinct elements that the test orders totally, the sorted sequence is unique. */
module Sorting {

  ghost function Elements<T>(s: seq<T>): set<T> {
    set x | x in s
  }

  ghost predicate Distinct<T>(s: seq<T>) {
    forall i, j | 0 <= i < j < |s| :: s[i] != s[j]
  }

  /** The test is a strict total order on the given elements. */
  ghost predicate Orders<T>(xs: set<T>, before: (T, T) -> bool) {
    && (forall a | a in xs :: !before(a, a))
    && (forall a, b, c | a in xs && b in xs && c in xs && before(a, b) && before(b, c) :: before(a, c))
    && (forall a, b | a in xs && b in xs && a != b :: before(a, b) || before(b, a))
  }

  ghost predicate SortedBy<T>(s: seq<T>, before: (T, T) -> bool) {
    forall i, j | 0 <= i < j < |s| :: before(s[i], s[j])
  }

  /** Inserts x ahead of the first element that does not come strictly before it. */
  function Insert<T>(x: T, s: seq<T>, before: (T, T) -> bool): (r: seq<T>)
    ensures |r| == |s| + 1 && Elements(r) == {x} + Elements(s)
  {
    if s == [] || !before(s[0], x) then [x] + s
    else
      var rest := Insert(x, s[1..], before);
      assert Elements([s[0]] + rest) == {s[0]} + Elements(rest);
      assert Elements(s) == {s[0]} + Elements(s[1..]) by { assert s == [s[0]] + s[1..]; }
      [s[0]] + rest
  }

  function SortBy<T>(s: seq<T>, before: (T, T) -> bool): (r: seq<T>)
    ensures |r| == |s| && Elements(r) == Elements(s)
  {
    if s == [] then []
    else
      assert s == [s[0]] + s[1..];
      Insert(s[0], SortBy(s[1..], before), before)
  }

  lemma {:induction false} InsertKeepsSorted<T>(x: T, s: seq<T>, before: (T, T) -> bool)
    requires Orders({x} + Elements(s), before) && SortedBy(s, before) && x !in s
    ensures SortedBy(Insert(x, s, before), before)
  {
    if s != [] && before(s[0], x) {
      InsertKeepsSorted(x, s[1..], before);
      var r := Insert(x, s[1..], before);
      forall k | 0 <= k < |r| ensures before(s[0], r[k]) {
        assert r[k] in Elements(r);
      }
    } else if s != [] {
      forall k | 0 <= k < |s| ensures before(x, s[k]) {
        assert s[k] in Elements(s) && s[0] in Elements(s);
      }
    }
  }

  lemma {:induction false} SortBySorts<T>(s: seq<T>, before: (T, T) -> bool)
    requires Distinct(s) && Orders(Elements(s), before)
    ensures SortedBy(SortBy(s, before), before)
  {
    if s != [] {
      assert Elements(s[1..]) <= Elements(s);
      SortBySorts(s[1..], before);
      var r := SortBy(s[1..], before);
      assert s[0] !in Elements(r);
      assert {s[0]} + Elements(r) <= Elements(s);
      InsertKeepsSorted(s[0], r, before);
    }
  }

  lemma {:induction false} SortedIsUnique<T>(s: seq<T>, t: seq<T>, before: (T, T) -> bool)
    requires Orders(Elements(s), before) && Elements(s) == Elements(t)
    requires SortedBy(s, before) && SortedBy(t, before)
    ensures s == t
  {
    if s == [] {
      NoElements(t);
    } else {
      assert s[0] in Elements(t);
      assert t[0] in Elements(s);
      assert s[0] == t[0];
      TailElements(s, before);
      TailElements(t, before);
      SortedIsUnique(s[1..], t[1..], before);
      assert s == [s[0]] + s[1..] && t == [t[0]] + t[1..];
    }
  }

  lemma NoElements<T>(s: seq<T>)
    ensures Elements(s) == {} ==> s == []
  {
    if s != [] {
      assert s[0] in Elements(s);
    }
  }

  lemma TailElements<T>(s: seq<T>, before: (T, T) -> bool)
    requires s != [] && Orders(Elements(s), before) && SortedBy(s, before)
    ensures Elements(s[1..]) == Elements(s) - {s[0]}
  {
    forall x | x in Elements(s) - {s[0]} ensures x in s[1..] {
      var k :| 0 <= k < |s| && s[k] == x;
      assert s[1..][k - 1] == x;
    }
    assert s[0] in Elements(s);
    forall k | 0 <= k < |s[1..]| ensures s[1..][k] != s[0] {
      assert before(s[0], s[k + 1]);
    }
  }

  /** Two arrangements of the same distinct, totally ordered elements sort to one sequence. */
  lemma SortIgnoresArrangement<T>(s: seq<T>, t: seq<T>, before: (T, T) -> bool)
    requires Distinct(s) && Distinct(t) && Elements(s) == Elements(t) && Orders(Elements(s), before)
    ensures SortBy(s, before) == SortBy(t, before)
  {
    SortBySorts(s, before);
    SortBySorts(t, before);
    SortedIsUnique(SortBy(s, before), SortBy(t, before), before);
  }

  function Map<A, B>(f: A -> B, s: seq<A>): (r: seq<B>)
    ensures |r| == |s| && forall i | 0 <= i < |s| :: r[i] == f(s[i])
  {
    seq(|s|, i requires 0 <= i < |s| => f(s[i]))
  }

  /** The tests agree through f. */
  ghost predicate Mirrors<A(!new), B>(f: A -> B, before: (A, A) -> bool, after: (B, B) -> bool) {
    forall a, b :: before(a, b) == after(f(a), f(b))
  }

  lemma MapCons<A, B>(f: A -> B, x: A, s: seq<A>)
    ensures Map(f, [x] + s) == [f(x)] + Map(f, s)
    ensures Map(f, [x] + s)[1..] == Map(f, s)
  {
    var r := Map(f, [x] + s);
    forall i | 0 < i < |r| ensures r[i] == f(s[i - 1]) {
    }
    assert r[1..] == Map(f, s);
  }

  lemma {:induction false} InsertMapCommute<A(!new), B>(x: A, s: seq<A>, f: A -> B,
      before: (A, A) -> bool, after: (B, B) -> bool)
    requires Mirrors(f, before, after)
    ensures Insert(f(x), Map(f, s), after) == Map(f, Insert(x, s, before))
  {
    if s == [] {
      MapCons(f, x, s);
    } else {
      assert before(s[0], x) == after(f(s[0]), f(x));
      MapCons(f, s[0], s[1..]);
      assert s == [s[0]] + s[1..];
      if before(s[0], x) {
        InsertMapCommute(x, s[1..], f, before, after);
        MapCons(f, s[0], Insert(x, s[1..], before));
      } else {
        MapCons(f, x, s);
      }
    }
  }

  /** Sorting then mapping is mapping then sorting when the order only looks through the map. */
  lemma {:induction false} SortMapCommute<A(!new), B>(s: seq<A>, f: A -> B,
      before: (A, A) -> bool, after: (B, B) -> bool)
    requires Mirrors(f, before, after)
    ensures SortBy(Map(f, s), after) == Map(f, SortBy(s, before))
  {
    if s != [] {
      SortMapCommute(s[1..], f, before, after);
      MapCons(f, s[0], s[1..]);
      assert s == [s[0]] + s[1..];
      InsertMapCommute(s[0], SortBy(s[1..], before), f, before, after);
    }
  }

  function Filter<T(!new)>(s: seq<T>, keep: T -> bool): (r: seq<T>)
    ensures forall x :: x in r <==> x in s && keep(x)
  {
    if s == [] then []
    else
      assert s == [s[0]] + s[1..];
      if keep(s[0]) then [s[0]] + Filter(s[1..], keep) else Filter(s[1..], keep)
  }

  /** The first element with a property, as `find` returns it. */
  function IndexOf<T>(s: seq<T>, wanted: T -> bool): (n: nat)
    ensures n <= |s| && (n < |s| ==> wanted(s[n])) && (forall i | 0 <= i < n :: !wanted(s[i]))
  {
    if s == [] || wanted(s[0]) then 0 else 1 + IndexOf(s[1..], wanted)
  }

  /** The test is a strict weak order: elements it cannot tell apart count as ties. */
  ghost predicate WeakOrder<T(!new)>(before: (T, T) -> bool) {
    && (forall a, b | before(a, b) :: !before(b, a))
    && (forall a, b, c | !before(a, b) && !before(b, c) :: !before(a, c))
  }

  ghost predicate WeaklySorted<T(!new)>(s: seq<T>, before: (T, T) -> bool) {
    forall i, j | 0 <= i < j < |s| :: !before(s[j], s[i])
  }

  lemma {:induction false} InsertKeepsWeaklySorted<T(!new)>(x: T, s: seq<T>, before: (T, T) -> bool)
    requires WeakOrder(before) && WeaklySorted(s, before)
    ensures WeaklySorted(Insert(x, s, before), before)
  {
    var r := Insert(x, s, before);
    if s != [] && before(s[0], x) {
      InsertKeepsWeaklySorted(x, s[1..], before);
      forall j | 0 < j < |r| ensures !before(r[j], s[0]) {
        assert r[j] == Insert(x, s[1..], before)[j - 1];
        assert r[j] in Elements(Insert(x, s[1..], before));
        if r[j] != x {
          var k :| 0 <= k < |s[1..]| && s[1..][k] == r[j];
          assert s[k + 1] == r[j];
        }
      }
    } else if s != [] {
      forall j | 0 <= j < |s| ensures !before(s[j], x) {
        assert j == 0 || !before(s[j], s[0]);
      }
    }
  }

  /** Nothing in the sorted sequence comes strictly before an earlier element. */
  lemma {:induction false} SortByWeakly<T(!new)>(s: seq<T>, before: (T, T) -> bool)
    requires WeakOrder(before)
    ensures WeaklySorted(SortBy(s, before), before)
  {
    if s != [] {
      SortByWeakly(s[1..], before);
      InsertKeepsWeaklySorted(s[0], SortBy(s[1..], before), before);
    }
  }

  /** The element at i is least, and the first such one. */
  ghost predicate LeastAt<T>(s: seq<T>, i: nat, before: (T, T) -> bool) {
    && i < |s| && (forall j | 0 <= j < |s| :: !before(s[j], s[i]))
    && (forall j | 0 <= j < i :: before(s[i], s[j]))
  }

  lemma LeastAtIsOne<T>(s: seq<T>, i: nat, k: nat, before: (T, T) -> bool)
    requires LeastAt(s, i, before) && LeastAt(s, k, before)
    ensures i == k
  {
    assert !before(s[k], s[i]) && !before(s[i], s[k]);
  }

  /** Sorting brings the first least element to the front. */
  lemma {:induction false} SortByFirst<T(!new)>(s: seq<T>, before: (T, T) -> bool) returns (i: nat)
    requires WeakOrder(before) && s != []
    ensures LeastAt(s, i, before) && SortBy(s, before)[0] == s[i]
  {
    if |s| == 1 {
      i := 0;
      assert SortBy(s[1..], before) == [];
    } else {
      var k := SortByFirst(s[1..], before);
      var m := s[1..][k];
      assert forall j | 1 <= j < |s| :: s[j] == s[1..][j - 1];
      i := if before(m, s[0]) then k + 1 else 0;
    }
  }

  // ---------- places in a filtered sequence ----------

  lemma {:induction false} FilterJoined<T(!new)>(s: seq<T>, t: seq<T>, keep: T -> bool)
    ensures Filter(s + t, keep) == Filter(s, keep) + Filter(t, keep)
  {
    if s == [] {
      assert s + t == t;
    } else {
      assert (s + t)[1..] == s[1..] + t;
      FilterJoined(s[1..], t, keep);
    }
  }

  /** Where the element at i, if kept, stands in the filtered sequence. */
  ghost function Kept<T(!new)>(s: seq<T>, keep: T -> bool, i: nat): nat
    requires i <= |s|
  {
    |Filter(s[..i], keep)|
  }

  lemma FilterPlace<T(!new)>(s: seq<T>, keep: T -> bool, i: nat)
    requires i < |s| && keep(s[i])
    ensures Kept(s, keep, i) < |Filter(s, keep)| && Filter(s, keep)[Kept(s, keep, i)] == s[i]
    ensures Kept(s, keep, i + 1) == Kept(s, keep, i) + 1
  {
    assert s == s[..i] + s[i..] && s[..i + 1] == s[..i] + [s[i]];
    FilterJoined(s[..i], s[i..], keep);
    FilterJoined(s[..i], [s[i]], keep);
    assert [s[i]][1..] == [];
  }

  lemma KeptGrows<T(!new)>(s: seq<T>, keep: T -> bool, i: nat, j: nat)
    requires i <= j <= |s|
    ensures Kept(s, keep, i) <= Kept(s, keep, j)
  {
    assert s[..j] == s[..i] + s[i..j];
    FilterJoined(s[..i], s[i..j], keep);
  }

  lemma {:induction false} FilterSource<T(!new)>(s: seq<T>, keep: T -> bool, m: nat) returns (i: nat)
    requires m < |Filter(s, keep)|
    ensures i < |s| && keep(s[i]) && Kept(s, keep, i) == m
  {
    var last := |s| - 1;
    assert s == s[..last] + [s[last]];
    FilterJoined(s[..last], [s[last]], keep);
    assert [s[last]][1..] == [];
    if m < |Filter(s[..last], keep)| {
      i := FilterSource(s[..last], keep, m);
      assert s[..last][..i] == s[..i];
    } else {
      i := last;
    }
  }

  /** Among the kept elements of s, the one at i is least, and the first such one. */
  ghost predicate LeastKept<T(!new)>(s: seq<T>, keep: T -> bool, i: nat, before: (T, T) -> bool) {
    && i < |s| && keep(s[i])
    && (forall j | 0 <= j < |s| && keep(s[j]) :: !before(s[j], s[i]) && (j < i ==> before(s[i], s[j])))
  }

  lemma LeastKeptIsLeast<T(!new)>(s: seq<T>, keep: T -> bool, i: nat, before: (T, T) -> bool)
    requires i < |s| && keep(s[i])
    ensures LeastKept(s, keep, i, before) <==> LeastAt(Filter(s, keep), Kept(s, keep, i), before)
  {
    hide Filter;
    var kept, m := Filter(s, keep), Kept(s, keep, i);
    FilterPlace(s, keep, i);
    if LeastKept(s, keep, i, before) {
      forall n: nat | n < |kept| ensures !before(kept[n], kept[m]) && (n < m ==> before(kept[m], kept[n])) {
        var j := FilterSource(s, keep, n);
        FilterPlace(s, keep, j);
        if i <= j {
          KeptGrows(s, keep, i, j);
        }
      }
    }
    if LeastAt(kept, m, before) {
      forall j: nat | j < |s| && keep(s[j]) ensures !before(s[j], s[i]) && (j < i ==> before(s[i], s[j])) {
        FilterPlace(s, keep, j);
        if j < i {
          KeptGrows(s, keep, j + 1, i);
        }
      }
    }
  }

  // ---------- counting ----------

  ghost function CountIf<T>(s: seq<T>, p: T -> bool): (n: nat)
    ensures n <= |s|
  {
    if s == [] then 0 else (if p(s[0]) then 1 else 0) + CountIf(s[1..], p)
  }

  lemma {:induction false} CountJoined<T>(s: seq<T>, t: seq<T>, p: T -> bool)
    ensures CountIf(s + t, p) == CountIf(s, p) + CountIf(t, p)
  {
    if s == [] {
      assert s + t == t;
    } else {
      assert (s + t)[1..] == s[1..] + t;
      CountJoined(s[1..], t, p);
    }
  }

  lemma {:induction false} InsertCounts<T>(x: T, s: seq<T>, before: (T, T) -> bool, p: T -> bool)
    ensures CountIf(Insert(x, s, before), p) == (if p(x) then 1 else 0) + CountIf(s, p)
  {
    if s == [] || !before(s[0], x) {
      assert ([x] + s)[1..] == s;
    } else {
      InsertCounts(x, s[1..], before, p);
      var rest := Insert(x, s[1..], before);
      assert ([s[0]] + rest)[1..] == rest;
    }
  }

  /** Sorting keeps how often each property holds. */
  lemma {:induction false} SortCounts<T>(s: seq<T>, before: (T, T) -> bool, p: T -> bool)
    ensures CountIf(SortBy(s, before), p) == CountIf(s, p)
  {
    if s != [] {
      SortCounts(s[1..], before, p);
      InsertCounts(s[0], SortBy(s[1..], before), before, p);
    }
  }

  lemma {:induction false} CountAllOrNone<T>(s: seq<T>, p: T -> bool)
    ensures (forall i | 0 <= i < |s| :: p(s[i])) ==> CountIf(s, p) == |s|
    ensures (forall i | 0 <= i < |s| :: !p(s[i])) ==> CountIf(s, p) == 0
  {
    if s != [] {
      CountAllOrNone(s[1..], p);
      assert forall i | 1 <= i < |s| :: s[i] == s[1..][i - 1];
    }
  }
}
