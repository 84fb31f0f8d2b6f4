/** The canonical JSON texts of the repository, and why they are one normal form. */
module CanonicalJson {
  import opened Text
  import opened Sorting
  import opened Primitives
  import opened JsonText

  // ---------- the printers ----------

  predicate KeyBefore(a: Member, b: Member) {
    Before(a.key, b.key)
  }

  /** A member whose value has been printed. */
  datatype Entry = Entry(key: Text, text: Text)

  predicate EntryBefore(a: Entry, b: Entry) {
    Before(a.key, b.key)
  }

  function EntryText(e: Entry): (r: Text) {
    Quote(e.key) + [COLON] + e.text
  }

  function TextFor(entries: seq<Entry>, key: Text): (r: Text) {
    if entries == [] then NULL_TEXT
    else if entries[0].key == key then entries[0].text
    else TextFor(entries[1..], key)
  }

  /** The members in key order: the keys alone are sorted, then each key's text is looked up. */
  function LookedUp(entries: seq<Entry>): (r: seq<Text>) {
    Map(key => EntryText(Entry(key, TextFor(entries, key))), SortBy(Map((e: Entry) => e.key, entries), Before))
  }

  /** The audit log's printer: the keys are sorted, and each key is looked up again. */
  function AuditPrint(v: Json): (r: Text) {
    match v
    case Arr(items) => [OPEN_BRACKET] + Join(AuditItems(items), [COMMA]) + [CLOSE_BRACKET]
    case Obj(ms) =>
      [OPEN_BRACE] + Join(LookedUp(AuditEntries(ms)), [COMMA]) + [CLOSE_BRACE]
    case _ => Scalar(v)
  }

  function AuditItems(items: seq<Json>): (r: seq<Text>) {
    if items == [] then [] else [AuditPrint(items[0])] + AuditItems(items[1..])
  }

  function AuditEntries(ms: seq<Member>): (r: seq<Entry>) {
    if ms == [] then [] else [Entry(ms[0].key, AuditPrint(ms[0].value))] + AuditEntries(ms[1..])
  }

  /** The benchmark corpus's printer: whole entries are sorted by key. */
  function BenchmarkPrint(v: Json): (r: Text) {
    match v
    case Arr(items) => [OPEN_BRACKET] + Join(BenchmarkItems(items), [COMMA]) + [CLOSE_BRACKET]
    case Obj(ms) =>
      [OPEN_BRACE] + Join(Map(EntryText, SortBy(BenchmarkEntries(ms), EntryBefore)), [COMMA]) + [CLOSE_BRACE]
    case _ => Scalar(v)
  }

  function BenchmarkItems(items: seq<Json>): (r: seq<Text>) {
    if items == [] then [] else [BenchmarkPrint(items[0])] + BenchmarkItems(items[1..])
  }

  function BenchmarkEntries(ms: seq<Member>): (r: seq<Entry>) {
    if ms == [] then [] else [Entry(ms[0].key, BenchmarkPrint(ms[0].value))] + BenchmarkEntries(ms[1..])
  }

  // ---------- the normal form ----------

  /** The value with the members of every object in key order. */
  function Normal(v: Json): (r: Json) {
    match v
    case Arr(items) => Arr(NormalItems(items))
    case Obj(ms) => Obj(SortBy(NormalMembers(ms), KeyBefore))
    case _ => v
  }

  function NormalItems(items: seq<Json>): (r: seq<Json>)
    ensures |r| == |items| && forall i | 0 <= i < |items| :: r[i] == Normal(items[i])
  {
    if items == [] then [] else [Normal(items[0])] + NormalItems(items[1..])
  }

  function NormalMembers(ms: seq<Member>): (r: seq<Member>)
    ensures |r| == |ms| && forall i | 0 <= i < |ms| :: r[i] == Member(ms[i].key, Normal(ms[i].value))
  {
    if ms == [] then [] else [Member(ms[0].key, Normal(ms[0].value))] + NormalMembers(ms[1..])
  }

  /** The canonical text: `JSON.stringify` of the normal form. */
  function Canonical(v: Json): (r: Text) {
    Encode(Normal(v))
  }

  function CanonicalEntries(ms: seq<Member>): (r: seq<Entry>)
    ensures |r| == |ms| && forall i | 0 <= i < |ms| :: r[i] == Entry(ms[i].key, Canonical(ms[i].value))
  {
    if ms == [] then [] else [Entry(ms[0].key, Canonical(ms[0].value))] + CanonicalEntries(ms[1..])
  }

  /** Objects are finite maps: the values agree except, at most, for the order of object members. */
  ghost predicate Same(v: Json, w: Json) {
    match (v, w)
    case (Arr(xs), Arr(ys)) => |xs| == |ys| && forall i | 0 <= i < |xs| :: Same(xs[i], ys[i])
    case (Obj(ms), Obj(ns)) => Covered(ms, ns) && Covering(ms, ns)
    case _ => v == w
  }

  /** Every member of ms has its like in ns. */
  ghost predicate Covered(ms: seq<Member>, ns: seq<Member>) {
    forall i | 0 <= i < |ms| :: exists j | 0 <= j < |ns| :: ms[i].key == ns[j].key && Same(ms[i].value, ns[j].value)
  }

  /** Every member of ns has its like in ms. */
  ghost predicate Covering(ms: seq<Member>, ns: seq<Member>) {
    forall j | 0 <= j < |ns| :: exists i | 0 <= i < |ms| :: ms[i].key == ns[j].key && Same(ms[i].value, ns[j].value)
  }

  lemma KeysOrdered(ms: seq<Member>)
    requires UniqueKeys(ms)
    ensures Distinct(ms) && Orders(Elements(ms), KeyBefore)
  {
    forall a, b | a in Elements(ms) && b in Elements(ms) && a != b ensures KeyBefore(a, b) || KeyBefore(b, a) {
      var i :| 0 <= i < |ms| && ms[i] == a;
      var j :| 0 <= j < |ms| && ms[j] == b;
      assert i < j || j < i;
      BeforeTotal(a.key, b.key);
    }
    forall a | a in Elements(ms) ensures !KeyBefore(a, a) {
      BeforeIrreflexive(a.key);
    }
    forall a, b, c | KeyBefore(a, b) && KeyBefore(b, c) ensures KeyBefore(a, c) {
      BeforeTransitive(a.key, b.key, c.key);
    }
  }

  lemma SortedKeysUnique(ms: seq<Member>)
    requires UniqueKeys(ms)
    ensures UniqueKeys(SortBy(ms, KeyBefore))
  {
    KeysOrdered(ms);
    SortBySorts(ms, KeyBefore);
    var r := SortBy(ms, KeyBefore);
    forall i, j | 0 <= i < j < |r| ensures r[i].key != r[j].key {
      BeforeIrreflexive(r[i].key);
    }
  }

  lemma {:induction false} NormalWellFormed(v: Json)
    requires WellFormed(v)
    ensures WellFormed(Normal(v))
  {
    match v {
      case Arr(items) =>
        forall i | 0 <= i < |items| ensures WellFormed(NormalItems(items)[i]) {
          NormalWellFormed(items[i]);
        }
      case Obj(ms) =>
        var ns := NormalMembers(ms);
        SortedKeysUnique(ns);
        var r := SortBy(ns, KeyBefore);
        forall i | 0 <= i < |r| ensures WellFormed(r[i].value) {
          assert r[i] in Elements(r);
          var j :| 0 <= j < |ns| && ns[j] == r[i];
          NormalWellFormed(ms[j].value);
        }
      case _ =>
    }
  }

  /** Two well-formed values have one normal form exactly when they differ only in member order. */
  lemma {:induction false} NormalDecidesSame(v: Json, w: Json)
    requires WellFormed(v) && WellFormed(w)
    ensures Same(v, w) <==> Normal(v) == Normal(w)
  {
    hide Covered, Covering, SortBy, UniqueKeys;
    match (v, w) {
      case (Arr(xs), Arr(ys)) =>
        if |xs| == |ys| {
          forall i | 0 <= i < |xs| ensures Same(xs[i], ys[i]) <==> NormalItems(xs)[i] == NormalItems(ys)[i] {
            NormalDecidesSame(xs[i], ys[i]);
          }
          assert NormalItems(xs) == NormalItems(ys) <==>
              forall i | 0 <= i < |xs| :: NormalItems(xs)[i] == NormalItems(ys)[i];
        }
      case (Obj(ms), Obj(ns)) =>
        forall i, j | 0 <= i < |ms| && 0 <= j < |ns|
          ensures Same(ms[i].value, ns[j].value) <==> Normal(ms[i].value) == Normal(ns[j].value)
        {
          NormalDecidesSame(ms[i].value, ns[j].value);
        }
        LeftIncluded(ms, ns);
        RightIncluded(ms, ns);
        SameObjects(ms, ns, Elements(NormalMembers(ms)), Elements(NormalMembers(ns)));
        NormalObjectsDecide(ms, ns);
      case _ =>
    }
  }

  /** The values of two objects compare as their normal forms do. */
  ghost predicate ValuesDecided(ms: seq<Member>, ns: seq<Member>) {
    forall i, j | 0 <= i < |ms| && 0 <= j < |ns| ::
      Same(ms[i].value, ns[j].value) <==> Normal(ms[i].value) == Normal(ns[j].value)
  }

  lemma LeftIncluded(ms: seq<Member>, ns: seq<Member>)
    requires ValuesDecided(ms, ns)
    ensures Covered(ms, ns) <==> Elements(NormalMembers(ms)) <= Elements(NormalMembers(ns))
  {
    var a, b := NormalMembers(ms), NormalMembers(ns);
    forall i | 0 <= i < |ms|
      ensures (exists j | 0 <= j < |ns| :: ms[i].key == ns[j].key && Same(ms[i].value, ns[j].value)) <==>
          a[i] in Elements(b)
    {
      forall j | 0 <= j < |ns| ensures ms[i].key == ns[j].key && Same(ms[i].value, ns[j].value) <==> b[j] == a[i] {
      }
    }
    assert Elements(a) <= Elements(b) <==> forall i | 0 <= i < |a| :: a[i] in Elements(b);
  }

  lemma RightIncluded(ms: seq<Member>, ns: seq<Member>)
    requires ValuesDecided(ms, ns)
    ensures Covering(ms, ns) <==> Elements(NormalMembers(ns)) <= Elements(NormalMembers(ms))
  {
    var a, b := NormalMembers(ms), NormalMembers(ns);
    forall j | 0 <= j < |ns|
      ensures (exists i | 0 <= i < |ms| :: ms[i].key == ns[j].key && Same(ms[i].value, ns[j].value)) <==>
          b[j] in Elements(a)
    {
      forall i | 0 <= i < |ms| ensures ms[i].key == ns[j].key && Same(ms[i].value, ns[j].value) <==> a[i] == b[j] {
      }
    }
    assert Elements(b) <= Elements(a) <==> forall j | 0 <= j < |b| :: b[j] in Elements(a);
  }

  /** Sorting by key forgets exactly the arrangement. */
  lemma SortedMembersDecide(a: seq<Member>, b: seq<Member>)
    requires UniqueKeys(a) && UniqueKeys(b)
    ensures SortBy(a, KeyBefore) == SortBy(b, KeyBefore) <==> Elements(a) == Elements(b)
  {
    if Elements(a) == Elements(b) {
      KeysOrdered(a);
      KeysOrdered(b);
      SortIgnoresArrangement(a, b, KeyBefore);
    } else {
      assert Elements(SortBy(a, KeyBefore)) != Elements(SortBy(b, KeyBefore));
    }
  }

  lemma NormalKeysUnique(ms: seq<Member>)
    requires UniqueKeys(ms)
    ensures UniqueKeys(NormalMembers(ms))
  {
  }

  lemma NormalObjectsDecide(ms: seq<Member>, ns: seq<Member>)
    requires UniqueKeys(ms) && UniqueKeys(ns)
    ensures Normal(Obj(ms)) == Normal(Obj(ns)) <==> Elements(NormalMembers(ms)) == Elements(NormalMembers(ns))
  {
    NormalKeysUnique(ms);
    NormalKeysUnique(ns);
    SortedMembersDecide(NormalMembers(ms), NormalMembers(ns));
  }

  lemma SameObjects(ms: seq<Member>, ns: seq<Member>, a: set<Member>, b: set<Member>)
    requires Covered(ms, ns) <==> a <= b
    requires Covering(ms, ns) <==> b <= a
    ensures Same(Obj(ms), Obj(ns)) <==> a == b
  {
    assert Same(Obj(ms), Obj(ns)) <==> Covered(ms, ns) && Covering(ms, ns);
  }

  lemma {:induction false} NormalIdempotent(v: Json)
    requires WellFormed(v)
    ensures Normal(Normal(v)) == Normal(v)
  {
    match v {
      case Arr(items) =>
        forall i | 0 <= i < |items| ensures Normal(NormalItems(items)[i]) == NormalItems(items)[i] {
          NormalIdempotent(items[i]);
        }
        assert NormalItems(NormalItems(items)) == NormalItems(items);
      case Obj(ms) =>
        var ns := NormalMembers(ms);
        var r := SortBy(ns, KeyBefore);
        forall i | 0 <= i < |r| ensures Normal(r[i].value) == r[i].value {
          assert r[i] in Elements(r);
          var j :| 0 <= j < |ns| && ns[j] == r[i];
          NormalIdempotent(ms[j].value);
        }
        assert NormalMembers(r) == r;
        KeysOrdered(ns);
        SortBySorts(ns, KeyBefore);
        SortedKeysUnique(ns);
        KeysOrdered(r);
        SortIgnoresArrangement(r, ns, KeyBefore);
      case _ =>
    }
  }

  lemma SameMemberwise(ms: seq<Member>, ns: seq<Member>)
    requires WellFormed(Obj(ms)) && WellFormed(Obj(ns)) && |ms| == |ns|
    requires forall i | 0 <= i < |ms| :: ms[i].key == ns[i].key && Same(ms[i].value, ns[i].value)
    ensures Same(Obj(ms), Obj(ns))
  {
    forall i | 0 <= i < |ms| ensures NormalMembers(ms)[i] == NormalMembers(ns)[i] {
      NormalDecidesSame(ms[i].value, ns[i].value);
    }
    assert NormalMembers(ms) == NormalMembers(ns);
    NormalDecidesSame(Obj(ms), Obj(ns));
  }

  // ---------- main results ----------

  /** A JSON reader gives back the value, up to member order. */
  lemma ReaderRecovers(v: Json)
    requires WellFormed(v)
    ensures Parse(Canonical(v)) == Some(Normal(v)) && Same(v, Normal(v)) && Canonical(Normal(v)) == Canonical(v)
  {
    NormalWellFormed(v);
    ParseEncode(Normal(v));
    NormalIdempotent(v);
    NormalDecidesSame(v, Normal(v));
  }

  /** The canonical text identifies a value exactly up to member order. */
  lemma CanonicalDecidesSame(v: Json, w: Json)
    requires WellFormed(v) && WellFormed(w)
    ensures Canonical(v) == Canonical(w) <==> Same(v, w)
  {
    ReaderRecovers(v);
    ReaderRecovers(w);
    NormalDecidesSame(v, w);
  }

  ghost predicate EntryKeysUnique(entries: seq<Entry>) {
    forall j, k | 0 <= j < k < |entries| :: entries[j].key != entries[k].key
  }

  lemma {:induction false} LookupFinds(entries: seq<Entry>, e: Entry)
    requires EntryKeysUnique(entries) && e in Elements(entries)
    ensures EntryText(Entry(e.key, TextFor(entries, e.key))) == EntryText(e)
  {
    if entries[0] != e {
      var i :| 0 <= i < |entries| && entries[i] == e;
      assert entries[1..][i - 1] == e;
      LookupFinds(entries[1..], e);
    }
  }

  /** Objects without repeated keys, at every depth. */
  predicate KeysUnique(v: Json) {
    match v
    case Arr(items) => forall i | 0 <= i < |items| :: KeysUnique(items[i])
    case Obj(ms) => UniqueKeys(ms) && forall i | 0 <= i < |ms| :: KeysUnique(ms[i].value)
    case _ => true
  }

  /** Sorting keys and looking up prints what sorting entries prints. */
  lemma LookedUpIsSorted(entries: seq<Entry>)
    requires EntryKeysUnique(entries)
    ensures LookedUp(entries) == Map(EntryText, SortBy(entries, EntryBefore))
  {
    var sorted := SortBy(entries, EntryBefore);
    var keyOf := (e: Entry) => e.key;
    SortMapCommute(entries, keyOf, EntryBefore, Before);
    forall i | 0 <= i < |sorted| ensures LookedUp(entries)[i] == EntryText(sorted[i]) {
      assert sorted[i] in Elements(sorted);
      LookupFinds(entries, sorted[i]);
    }
  }

  /** Printing the members and sorting the entries prints the members of the normal form. */
  lemma SortedEntriesAreNormal(ms: seq<Member>)
    ensures Map(EntryText, SortBy(CanonicalEntries(ms), EntryBefore))
        == EncodeMembers(SortBy(NormalMembers(ms), KeyBefore))
  {
    hide Normal, Encode;
    var ns := NormalMembers(ms);
    var printed := (m: Member) => Entry(m.key, Encode(m.value));
    assert Map(printed, ns) == CanonicalEntries(ms) by {
      forall i | 0 <= i < |ms| ensures printed(ns[i]) == CanonicalEntries(ms)[i] {
      }
    }
    SortMapCommute(ns, printed, KeyBefore, EntryBefore);
    var sorted := SortBy(ns, KeyBefore);
    forall i | 0 <= i < |sorted| ensures EntryText(printed(sorted[i])) == EncodeMembers(sorted)[i] {
    }
  }

  /** What the audit and evidence printers join for an object. */
  lemma LookedUpIsNormal(ms: seq<Member>)
    requires UniqueKeys(ms)
    ensures LookedUp(CanonicalEntries(ms)) == EncodeMembers(SortBy(NormalMembers(ms), KeyBefore))
  {
    hide LookedUp, Normal, Encode;
    assert EntryKeysUnique(CanonicalEntries(ms));
    LookedUpIsSorted(CanonicalEntries(ms));
    SortedEntriesAreNormal(ms);
  }

  /** The audit printer prints the canonical text. */
  lemma {:induction false} AuditPrintIsCanonical(v: Json)
    requires KeysUnique(v)
    ensures AuditPrint(v) == Canonical(v)
    decreases v, 0
  {
    hide LookedUp, SortBy, Join, EncodeMembers, EncodeItems, Scalar;
    match v {
      case Arr(items) =>
        AuditItemsCanonical(items);
      case Obj(ms) =>
        AuditEntriesCanonical(ms);
        LookedUpIsNormal(ms);
      case _ =>
    }
  }

  lemma {:induction false} AuditItemsCanonical(items: seq<Json>)
    requires forall i | 0 <= i < |items| :: KeysUnique(items[i])
    ensures AuditItems(items) == EncodeItems(NormalItems(items))
    decreases items, 1
  {
    if items != [] {
      AuditPrintIsCanonical(items[0]);
      AuditItemsCanonical(items[1..]);
    }
  }

  lemma {:induction false} AuditEntriesCanonical(ms: seq<Member>)
    requires forall i | 0 <= i < |ms| :: KeysUnique(ms[i].value)
    ensures AuditEntries(ms) == CanonicalEntries(ms)
    decreases ms, 1
  {
    if ms != [] {
      AuditPrintIsCanonical(ms[0].value);
      AuditEntriesCanonical(ms[1..]);
    }
  }

  /** The benchmark printer prints the canonical text. */
  lemma {:induction false} BenchmarkPrintIsCanonical(v: Json)
    ensures BenchmarkPrint(v) == Canonical(v)
    decreases v, 0
  {
    hide EntryText, SortBy, Join, EncodeMembers, EncodeItems, Scalar;
    match v {
      case Arr(items) =>
        BenchmarkItemsCanonical(items);
      case Obj(ms) =>
        BenchmarkEntriesCanonical(ms);
        SortedEntriesAreNormal(ms);
      case _ =>
    }
  }

  lemma {:induction false} BenchmarkItemsCanonical(items: seq<Json>)
    ensures BenchmarkItems(items) == EncodeItems(NormalItems(items))
    decreases items, 1
  {
    if items != [] {
      BenchmarkPrintIsCanonical(items[0]);
      BenchmarkItemsCanonical(items[1..]);
    }
  }

  lemma {:induction false} BenchmarkEntriesCanonical(ms: seq<Member>)
    ensures BenchmarkEntries(ms) == CanonicalEntries(ms)
    decreases ms, 1
  {
    if ms != [] {
      BenchmarkPrintIsCanonical(ms[0].value);
      BenchmarkEntriesCanonical(ms[1..]);
    }
  }
}
