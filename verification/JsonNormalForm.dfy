/** What singles out the canonical JSON text: ascending keys, the shortest spelling, and no half of a surrogate pair. */
module JsonNormalForm {
  import opened Primitives
  import opened Text
  import opened Sorting
  import opened JsonText
  import opened CanonicalJson

  // ---------- keys ascend ----------

  /** At the first place where the texts differ, a ends or has the smaller code unit. */
  ghost predicate Precedes(a: Text, b: Text) {
    exists n: nat :: DiffersAt(a, b, n)
  }

  ghost predicate DiffersAt(a: Text, b: Text, n: nat) {
    n <= |a| && n < |b| && a[..n] == b[..n] && (n == |a| || a[n] < b[n])
  }

  lemma {:induction false} BeforePrecedes(a: Text, b: Text)
    requires Before(a, b)
    ensures Precedes(a, b)
  {
    if a == [] || a[0] < b[0] {
      assert DiffersAt(a, b, 0);
    } else {
      BeforePrecedes(a[1..], b[1..]);
      var n: nat :| DiffersAt(a[1..], b[1..], n);
      assert a[..n + 1] == [a[0]] + a[1..][..n] && b[..n + 1] == [b[0]] + b[1..][..n];
      assert DiffersAt(a, b, n + 1);
    }
  }

  /** Members of every object, at every depth, stand in ascending order of their keys. */
  ghost predicate KeysAscend(v: Json) {
    match v
    case Arr(items) => forall i | 0 <= i < |items| :: KeysAscend(items[i])
    case Obj(ms) =>
      (forall i, j | 0 <= i < j < |ms| :: Precedes(ms[i].key, ms[j].key))
      && forall i | 0 <= i < |ms| :: KeysAscend(ms[i].value)
    case _ => true
  }

  lemma {:induction false} NormalAscends(v: Json)
    requires WellFormed(v)
    ensures KeysAscend(Normal(v))
  {
    hide Before, Precedes, SortBy;
    match v {
      case Arr(items) =>
        forall i | 0 <= i < |items| ensures KeysAscend(NormalItems(items)[i]) {
          NormalAscends(items[i]);
        }
      case Obj(ms) =>
        var ns := NormalMembers(ms);
        KeysOrdered(ns);
        SortBySorts(ns, KeyBefore);
        var r := SortBy(ns, KeyBefore);
        forall i, j | 0 <= i < j < |r| ensures Precedes(r[i].key, r[j].key) {
          assert KeyBefore(r[i], r[j]);
          BeforePrecedes(r[i].key, r[j].key);
        }
        forall i | 0 <= i < |r| ensures KeysAscend(r[i].value) {
          assert r[i] in Elements(r);
          var j :| 0 <= j < |ns| && ns[j] == r[i];
          NormalAscends(ms[j].value);
        }
      case _ =>
    }
  }

  /** Read back, the canonical text has its keys in ascending order at every depth. */
  lemma CanonicalKeysAscend(v: Json)
    requires WellFormed(v)
    ensures Parse(Canonical(v)).Some? && KeysAscend(Parse(Canonical(v)).value)
  {
    hide Parse, Canonical, Same, WellFormed;
    ReaderRecovers(v);
    NormalAscends(v);
  }

  // ---------- how short a spelling can be ----------

  /** How many units it takes to spell one unit of a string. */
  ghost function UnitCost(c: CodeUnit): (n: nat) {
    if c in {0x08, 0x09, 0x0A, 0x0C, 0x0D, 0x22, 0x5C} then 2 else if c < 0x20 then 6 else 1
  }

  ghost function TextCost(s: Text): nat {
    if s == [] then 0 else UnitCost(s[0]) + TextCost(s[1..])
  }

  ghost function Cost(v: Json): nat {
    match v
    case Null => 4
    case NonFinite => 4
    case Bool(b) => if b then 4 else 5
    case Num(n) => |Integer(n)|
    case Str(s) => TextCost(s) + 2
    case Arr(items) => if items == [] then 2 else ItemsCost(items) + 1
    case Obj(ms) => if ms == [] then 2 else MembersCost(ms) + 1
  }

  /** Every item brings a comma or the closing bracket. */
  ghost function ItemsCost(items: seq<Json>): nat {
    if items == [] then 0 else Cost(items[0]) + 1 + ItemsCost(items[1..])
  }

  ghost function MemberCost(m: Member): nat {
    TextCost(m.key) + 4 + Cost(m.value)
  }

  ghost function MembersCost(ms: seq<Member>): nat {
    if ms == [] then 0 else MemberCost(ms[0]) + MembersCost(ms[1..])
  }

  // ---------- the reader needs at least that much ----------

  lemma {:induction false} UnitsNeed(s: Text)
    ensures ReadUnits(s).Got? ==> TextCost(ReadUnits(s).value) + 1 + |ReadUnits(s).rest| <= |s|
  {
    if s != [] && s[0] >= 0x20 && s[0] != QUOTE {
      if s[0] != BACKSLASH {
        UnitsNeed(s[1..]);
        PrependNeeds(s[0], ReadUnits(s[1..]));
      } else if |s| >= 2 && Unescape(s[1]).Some? {
        UnitsNeed(s[2..]);
        EscapeNeeds(s[1]);
        PrependNeeds(Unescape(s[1]).value, ReadUnits(s[2..]));
      } else if ReadUnits(s).Got? {
        UnitsNeed(s[6..]);
        PrependNeeds(ReadUnits(s).value[0], ReadUnits(s[6..]));
      }
    }
  }

  lemma EscapeNeeds(c: CodeUnit)
    requires Unescape(c).Some?
    ensures UnitCost(Unescape(c).value) <= 2
  {
  }

  lemma PrependNeeds(c: CodeUnit, r: Read<Text>)
    ensures UnitCost(c) <= 6 && (r.Got? ==> TextCost(Prepend(c, r).value) == UnitCost(c) + TextCost(r.value))
  {
    if r.Got? {
      assert ([c] + r.value)[1..] == r.value;
    }
  }

  lemma {:induction false} DigitsAreShortest(s: Text)
    requires s != [] && AllDigits(s) && (|s| > 1 ==> s[0] != ZERO)
    ensures Decimal(DecimalValue(s)) == s
  {
    var last := |s| - 1;
    if last > 0 {
      DigitsAreShortest(s[..last]);
      DigitsPositive(s[..last]);
      assert s == s[..last] + [s[last]];
    } else {
      assert DecimalValue(s[..0]) == 0;
      assert s == [s[0]];
    }
  }

  lemma {:induction false} DigitsPositive(s: Text)
    requires s != [] && AllDigits(s) && s[0] != ZERO
    ensures DecimalValue(s) > 0
  {
    if |s| > 1 {
      DigitsPositive(s[..|s| - 1]);
    }
  }

  lemma IntegerNeeds(s: Text)
    ensures ReadInteger(s).Got? ==> Cost(ReadInteger(s).value) + |ReadInteger(s).rest| <= |s|
  {
    hide Decimal;
    if ReadInteger(s).Got? {
      var t := if s[0] == HYPHEN then s[1..] else s;
      DigitsAreShortest(t[..DigitSpan(t)]);
    }
  }

  lemma {:induction false} ValueNeeds(s: Text)
    ensures ReadValue(s).Got? ==> Cost(ReadValue(s).value) + |ReadValue(s).rest| <= |s|
    decreases |s|, 0
  {
    hide ReadInteger, ReadUnits, ReadItems, ReadMembers, LastWins;
    var t := SkipBlank(s);
    if t != [] {
      UnitsNeed(t[1..]);
      IntegerNeeds(t);
      var u := SkipBlank(t[1..]);
      if t[0] == OPEN_BRACKET {
        ItemsNeed(u);
      } else if t[0] == OPEN_BRACE {
        MembersNeed(u);
        if ReadMembers(u).Got? {
          LastWinsCost(ReadMembers(u).value);
        }
      }
    }
  }

  lemma {:induction false} ItemsNeed(s: Text)
    ensures ReadItems(s).Got? ==>
      ReadItems(s).value != [] && ItemsCost(ReadItems(s).value) + |ReadItems(s).rest| <= |s|
    decreases |s|, 1
  {
    hide ReadValue, Cost;
    ValueNeeds(s);
    if ReadItems(s).Got? {
      var v, t := ReadValue(s).value, SkipBlank(ReadValue(s).rest);
      if t[0] == COMMA {
        ItemsNeed(t[1..]);
        var vs := ReadItems(t[1..]).value;
        assert ([v] + vs)[1..] == vs;
      }
    }
  }

  lemma MemberNeeds(s: Text)
    ensures ReadMember(s).Got? ==> MemberCost(ReadMember(s).value) + |ReadMember(s).rest| <= |s| + 1
    decreases |s|, 1
  {
    hide ReadValue, ReadUnits, Cost, TextCost;
    if ReadMember(s).Got? {
      var q := SkipBlank(s);
      UnitsNeed(q[1..]);
      var c := SkipBlank(ReadUnits(q[1..]).rest);
      ValueNeeds(c[1..]);
    }
  }

  lemma {:induction false} MembersNeed(s: Text)
    ensures ReadMembers(s).Got? ==>
      ReadMembers(s).value != [] && MembersCost(ReadMembers(s).value) + |ReadMembers(s).rest| <= |s|
    decreases |s|, 2
  {
    hide ReadMember, MemberCost;
    MemberNeeds(s);
    if ReadMembers(s).Got? {
      var m, t := ReadMember(s).value, SkipBlank(ReadMember(s).rest);
      if t[0] == COMMA {
        MembersNeed(t[1..]);
        var ms := ReadMembers(t[1..]).value;
        assert ([m] + ms)[1..] == ms;
      }
    }
  }

  /** Members without a repeated key cost less than those with it. */
  lemma {:induction false} LastWinsCost(ms: seq<Member>)
    ensures MembersCost(LastWins(ms)) <= MembersCost(ms) && (ms != [] ==> LastWins(ms) != [])
  {
    hide MemberCost, ValueOf, Without;
    if ms != [] {
      var later, key := LastWins(ms[1..]), ms[0].key;
      LastWinsCost(ms[1..]);
      match ValueOf(later, key) {
        case None =>
          assert ([ms[0]] + later)[1..] == later;
        case Some(v) =>
          WithoutCost(later, key);
          assert ([Member(key, v)] + Without(later, key))[1..] == Without(later, key);
      }
    }
  }

  lemma {:induction false} WithoutCost(ms: seq<Member>, key: Text)
    ensures MembersCost(Without(ms, key)) <= MembersCost(ms)
    ensures ValueOf(ms, key).Some? ==>
      MembersCost(Without(ms, key)) + MemberCost(Member(key, ValueOf(ms, key).value)) <= MembersCost(ms)
  {
    hide MemberCost;
    if ms != [] {
      WithoutCost(ms[1..], key);
      assert ([ms[0]] + Without(ms[1..], key))[1..] == Without(ms[1..], key);
    }
  }

  // ---------- the printer needs no more ----------

  /** Well-formed UTF-16: every half of a surrogate pair has its other half beside it. */
  ghost predicate Paired(s: Text) {
    && (forall i | 0 <= i < |s| && IsHighSurrogate(s[i]) :: i + 1 < |s| && IsLowSurrogate(s[i + 1]))
    && (forall i | 0 <= i < |s| && IsLowSurrogate(s[i]) :: 0 < i && IsHighSurrogate(s[i - 1]))
  }

  /** All texts in the value, keys included, are well-formed UTF-16. */
  ghost predicate AllPaired(v: Json) {
    match v
    case Str(s) => Paired(s)
    case Arr(items) => forall i | 0 <= i < |items| :: AllPaired(items[i])
    case Obj(ms) => forall i | 0 <= i < |ms| :: Paired(ms[i].key) && AllPaired(ms[i].value)
    case _ => true
  }

  lemma {:induction false} QuoteCost(s: Text)
    requires Paired(s)
    ensures |QuoteUnits(s)| == TextCost(s)
  {
    if s != [] {
      if IsHighSurrogate(s[0]) {
        assert s[1..][1..] == s[2..];
        PairedTail(s, 2);
        QuoteCost(s[2..]);
      } else {
        PairedTail(s, 1);
        QuoteCost(s[1..]);
      }
    }
  }

  lemma PairedTail(s: Text, n: nat)
    requires Paired(s) && 0 < n <= |s| && !IsHighSurrogate(s[n - 1])
    ensures Paired(s[n..])
  {
    var t := s[n..];
    forall i | 0 <= i < |t| && IsHighSurrogate(t[i]) ensures i + 1 < |t| && IsLowSurrogate(t[i + 1]) {
      assert s[n + i] == t[i];
    }
    forall i | 0 <= i < |t| && IsLowSurrogate(t[i]) ensures 0 < i && IsHighSurrogate(t[i - 1]) {
      assert s[n + i] == t[i];
    }
  }

  lemma {:induction false} EncodeCost(v: Json)
    requires AllPaired(v)
    ensures |Encode(v)| == Cost(v)
    decreases v, 0
  {
    match v {
      case Str(s) => QuoteCost(s);
      case Arr(items) => EncodeItemsCost(items);
      case Obj(ms) => EncodeMembersCost(ms);
      case _ =>
    }
  }

  lemma {:induction false} EncodeItemsCost(items: seq<Json>)
    requires forall i | 0 <= i < |items| :: AllPaired(items[i])
    ensures |Join(EncodeItems(items), [COMMA])| + (if items == [] then 0 else 1) == ItemsCost(items)
    decreases items, 1
  {
    hide Encode, Cost, AllPaired;
    if items != [] {
      EncodeCost(items[0]);
      EncodeItemsCost(items[1..]);
      assert EncodeItems(items)[1..] == EncodeItems(items[1..]);
    }
  }

  lemma {:induction false} EncodeMembersCost(ms: seq<Member>)
    requires forall i | 0 <= i < |ms| :: Paired(ms[i].key) && AllPaired(ms[i].value)
    ensures |Join(EncodeMembers(ms), [COMMA])| + (if ms == [] then 0 else 1) == MembersCost(ms)
    decreases ms, 1
  {
    hide Encode, Cost, AllPaired, Paired, QuoteUnits, TextCost;
    if ms != [] {
      QuoteCost(ms[0].key);
      EncodeCost(ms[0].value);
      assert |MemberText(ms[0])| + 1 == MemberCost(ms[0]);
      hide MemberText, MemberCost;
      EncodeMembersCost(ms[1..]);
      assert EncodeMembers(ms)[1..] == EncodeMembers(ms[1..]);
    }
  }

  // ---------- normal forms cost what their values cost ----------

  lemma {:induction false} InsertCost(m: Member, ms: seq<Member>)
    ensures MembersCost(Insert(m, ms, KeyBefore)) == MemberCost(m) + MembersCost(ms)
  {
    hide MemberCost;
    if ms == [] || !KeyBefore(ms[0], m) {
      assert ([m] + ms)[1..] == ms;
    } else {
      InsertCost(m, ms[1..]);
      var rest := Insert(m, ms[1..], KeyBefore);
      assert ([ms[0]] + rest)[1..] == rest;
    }
  }

  lemma {:induction false} SortCost(ms: seq<Member>)
    ensures MembersCost(SortBy(ms, KeyBefore)) == MembersCost(ms)
  {
    hide MemberCost, Insert;
    if ms != [] {
      SortCost(ms[1..]);
      InsertCost(ms[0], SortBy(ms[1..], KeyBefore));
    }
  }

  lemma {:induction false} NormalCost(v: Json)
    ensures Cost(Normal(v)) == Cost(v)
    decreases v, 0
  {
    hide SortBy;
    match v {
      case Arr(items) => NormalItemsCost(items);
      case Obj(ms) =>
        NormalMembersCost(ms);
        SortCost(NormalMembers(ms));
      case _ =>
    }
  }

  lemma {:induction false} NormalItemsCost(items: seq<Json>)
    ensures ItemsCost(NormalItems(items)) == ItemsCost(items)
    decreases items, 1
  {
    hide Cost, Normal;
    if items != [] {
      NormalCost(items[0]);
      NormalItemsCost(items[1..]);
    }
  }

  lemma {:induction false} NormalMembersCost(ms: seq<Member>)
    ensures MembersCost(NormalMembers(ms)) == MembersCost(ms)
    decreases ms, 1
  {
    hide Cost, Normal;
    if ms != [] {
      NormalCost(ms[0].value);
      NormalMembersCost(ms[1..]);
    }
  }

  lemma {:induction false} NormalPaired(v: Json)
    requires AllPaired(v)
    ensures AllPaired(Normal(v))
  {
    hide SortBy, Paired;
    match v {
      case Arr(items) =>
        forall i | 0 <= i < |items| ensures AllPaired(NormalItems(items)[i]) {
          NormalPaired(items[i]);
        }
      case Obj(ms) =>
        var ns := NormalMembers(ms);
        var r := SortBy(ns, KeyBefore);
        forall i | 0 <= i < |r| ensures Paired(r[i].key) && AllPaired(r[i].value) {
          assert r[i] in Elements(r);
          var j :| 0 <= j < |ns| && ns[j] == r[i];
          NormalPaired(ms[j].value);
        }
      case _ =>
    }
  }

  /** No text that reads as the value, with its members in any order, is shorter than the canonical one. */
  lemma CanonicalIsShortest(v: Json, t: Text)
    requires WellFormed(v) && AllPaired(v) && Parse(t).Some? && Same(v, Parse(t).value)
    ensures |Canonical(v)| <= |t|
  {
    hide ReadValue, Normal, Encode, Same, WellFormed, AllPaired, Cost;
    var w := Parse(t).value;
    ParseWellFormed(t);
    NormalDecidesSame(v, w);
    NormalPaired(v);
    EncodeCost(Normal(w));
    NormalCost(w);
    ValueNeeds(t);
  }

  // ---------- what is left open by length ----------

  lemma PairedJoined(a: Text, b: Text)
    requires Paired(a) && Paired(b)
    ensures Paired(a + b)
  {
    var s := a + b;
    forall i | 0 <= i < |s| && IsHighSurrogate(s[i]) ensures i + 1 < |s| && IsLowSurrogate(s[i + 1]) {
      if i >= |a| {
        assert IsHighSurrogate(b[i - |a|]);
      } else {
        assert IsHighSurrogate(a[i]);
      }
    }
    forall i | 0 <= i < |s| && IsLowSurrogate(s[i]) ensures 0 < i && IsHighSurrogate(s[i - 1]) {
      if i >= |a| {
        assert IsLowSurrogate(b[i - |a|]);
      } else {
        assert IsLowSurrogate(a[i]);
      }
    }
  }

  lemma QuoteUnitPaired(c: CodeUnit)
    ensures Paired(QuoteUnit(c))
  {
    hide Paired;
    if |QuoteUnit(c)| == 1 {
      PlainPaired(c);
    } else {
      AsciiPaired(QuoteUnit(c));
    }
  }

  lemma PlainPaired(c: CodeUnit)
    requires !IsHighSurrogate(c) && !IsLowSurrogate(c)
    ensures Paired([c])
  {
  }

  lemma {:induction false} QuotePaired(s: Text)
    ensures Paired(QuoteUnits(s))
  {
    hide QuoteUnit, Paired;
    if s == [] {
      NothingPaired();
    } else if |s| >= 2 && IsHighSurrogate(s[0]) && IsLowSurrogate(s[1]) {
      PairIsPaired(s[..2]);
      QuotePaired(s[2..]);
      PairedJoined(s[..2], QuoteUnits(s[2..]));
    } else {
      QuoteUnitPaired(s[0]);
      QuotePaired(s[1..]);
      PairedJoined(QuoteUnit(s[0]), QuoteUnits(s[1..]));
    }
  }

  lemma NothingPaired()
    ensures Paired([])
  {
  }

  lemma PairIsPaired(s: Text)
    requires |s| == 2 && IsHighSurrogate(s[0]) && IsLowSurrogate(s[1])
    ensures Paired(s)
  {
  }

  lemma AsciiPaired(s: Text)
    requires forall i | 0 <= i < |s| :: s[i] < 0x80
    ensures Paired(s)
  {
  }

  lemma {:induction false} JoinPaired(parts: seq<Text>)
    requires forall i | 0 <= i < |parts| :: Paired(parts[i])
    ensures Paired(Join(parts, [COMMA]))
  {
    hide Paired;
    if parts == [] {
      NothingPaired();
    } else if |parts| > 1 {
      JoinPaired(parts[1..]);
      AsciiPaired([COMMA]);
      PairedJoined(parts[0], [COMMA]);
      PairedJoined(parts[0] + [COMMA], Join(parts[1..], [COMMA]));
    }
  }

  lemma EnclosedPaired(open: CodeUnit, s: Text, close: CodeUnit)
    requires Paired(s) && open < 0x80 && close < 0x80
    ensures Paired([open] + s + [close])
  {
    hide Paired;
    AsciiPaired([open]);
    AsciiPaired([close]);
    PairedJoined([open], s);
    PairedJoined([open] + s, [close]);
  }

  /** Whatever the value, the text is well-formed UTF-16, so it has an encoding in UTF-8 that can be hashed. */
  lemma {:induction false} EncodePaired(v: Json)
    ensures Paired(Encode(v))
    decreases v, 0
  {
    hide Paired, Join, QuoteUnits, EncodeItems, EncodeMembers, Integer;
    match v {
      case Str(s) =>
        QuotePaired(s);
        EnclosedPaired(QUOTE, QuoteUnits(s), QUOTE);
      case Num(n) =>
        IntegerPaired(n);
      case Arr(items) =>
        forall i | 0 <= i < |items| ensures Paired(EncodeItems(items)[i]) {
          EncodePaired(items[i]);
        }
        JoinPaired(EncodeItems(items));
        EnclosedPaired(OPEN_BRACKET, Join(EncodeItems(items), [COMMA]), CLOSE_BRACKET);
      case Obj(ms) =>
        forall i | 0 <= i < |ms| ensures Paired(EncodeMembers(ms)[i]) {
          EncodePaired(ms[i].value);
          MemberPaired(ms[i]);
        }
        JoinPaired(EncodeMembers(ms));
        EnclosedPaired(OPEN_BRACE, Join(EncodeMembers(ms), [COMMA]), CLOSE_BRACE);
      case _ =>
        AsciiPaired(Encode(v));
    }
  }

  lemma IntegerPaired(n: int)
    ensures Paired(Integer(n))
  {
    hide Paired;
    AsciiPaired(Integer(n));
  }

  lemma MemberPaired(m: Member)
    requires Paired(Encode(m.value))
    ensures Paired(MemberText(m))
  {
    hide Paired, Encode, QuoteUnits;
    QuotePaired(m.key);
    EnclosedPaired(QUOTE, QuoteUnits(m.key), QUOTE);
    AsciiPaired([COLON]);
    PairedJoined(Quote(m.key), [COLON]);
    PairedJoined(Quote(m.key) + [COLON], Encode(m.value));
  }

  /** A unit that needs six is spelt with lower-case digits. */
  lemma EscapesAreLowerCase(c: CodeUnit)
    ensures |QuoteUnit(c)| == 6 ==> forall i | 0 <= i < 6 :: !IsUpper(QuoteUnit(c)[i])
    ensures |QuoteUnit(c)| == 6 <==> (c < 0x20 && UnitCost(c) == 6) || 0xD800 <= c <= 0xDFFF
  {
  }

  // ---------- repeated keys ----------

  lemma {:induction false} ValueWithout(ms: seq<Member>, key: Text, other: Text)
    ensures ValueOf(Without(ms, key), other) == if other == key then None else ValueOf(ms, other)
  {
    if ms != [] {
      ValueWithout(ms[1..], key, other);
      assert ([ms[0]] + Without(ms[1..], key))[1..] == Without(ms[1..], key);
    }
  }

  /** The reader keeps of a repeated key the last value, and no other. */
  lemma {:induction false} LastWinsMeans(ms: seq<Member>, i: nat)
    requires i < |ms| && forall j | i < j < |ms| :: ms[j].key != ms[i].key
    ensures ValueOf(LastWins(ms), ms[i].key) == Some(ms[i].value)
  {
    hide ValueOf, Without;
    var later, key := LastWins(ms[1..]), ms[0].key;
    if i == 0 {
      NoneLater(ms[1..], key);
      ValueOfFirst(ms[0], later, key);
    } else {
      assert ms[1..][i - 1] == ms[i];
      LastWinsMeans(ms[1..], i - 1);
      if ValueOf(later, key) == None {
        ValueOfFirst(ms[0], later, ms[i].key);
      } else {
        ValueWithout(later, key, ms[i].key);
        ValueOfFirst(Member(key, ValueOf(later, key).value), Without(later, key), ms[i].key);
      }
    }
  }

  lemma ValueOfFirst(m: Member, rest: seq<Member>, key: Text)
    ensures ValueOf([m] + rest, key) == if m.key == key then Some(m.value) else ValueOf(rest, key)
  {
    assert ([m] + rest)[1..] == rest;
  }

  lemma {:induction false} NoneLater(ms: seq<Member>, key: Text)
    requires forall j | 0 <= j < |ms| :: ms[j].key != key
    ensures ValueOf(LastWins(ms), key) == None
  {
    hide ValueOf, Without;
    if ms == [] {
      NothingThere(key);
    } else {
      var later, first := LastWins(ms[1..]), ms[0].key;
      assert forall j | 0 <= j < |ms| - 1 :: ms[1..][j] == ms[j + 1];
      NoneLater(ms[1..], key);
      ValueOfFirst(ms[0], later, key);
      if ValueOf(later, first).Some? {
        ValueWithout(later, first, key);
        ValueOfFirst(Member(first, ValueOf(later, first).value), Without(later, first), key);
      }
    }
  }

  lemma NothingThere(key: Text)
    ensures ValueOf([], key) == None
  {
  }
}
