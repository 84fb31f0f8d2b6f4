/** JSON values, their text, and a reader for that text (RFC 8259). */
module JsonText {
  import opened Primitives
  import opened Text
  import opened Sorting

  /** A value of the JSON data model, with integers for numbers, or `NonFinite`: NaN or an infinity, which
      `JSON.stringify` prints as null. */
  datatype Json =
    | Null
    | Bool(b: bool)
    | Num(n: int)
    | NonFinite
    | Str(s: Text)
    | Arr(items: seq<Json>)
    | Obj(members: seq<Member>)

  datatype Member = Member(key: Text, value: Json)

  const NULL_TEXT: Text := [0x6E, 0x75, 0x6C, 0x6C]
  const TRUE_TEXT: Text := [0x74, 0x72, 0x75, 0x65]
  const FALSE_TEXT: Text := [0x66, 0x61, 0x6C, 0x73, 0x65]

  predicate UniqueKeys(ms: seq<Member>) {
    forall i, j | 0 <= i < j < |ms| :: ms[i].key != ms[j].key
  }

  /** A value of the JSON data model: safe integers, and objects without repeated keys. */
  predicate WellFormed(v: Json) {
    match v
    case Num(n) => -MAX_SAFE_INTEGER <= n <= MAX_SAFE_INTEGER
    case NonFinite => false
    case Arr(items) => forall i | 0 <= i < |items| :: WellFormed(items[i])
    case Obj(ms) => UniqueKeys(ms) && forall i | 0 <= i < |ms| :: WellFormed(ms[i].value)
    case _ => true
  }

  // ---------- printing ----------

  predicate IsHighSurrogate(c: CodeUnit) {
    0xD800 <= c <= 0xDBFF
  }

  predicate IsLowSurrogate(c: CodeUnit) {
    0xDC00 <= c <= 0xDFFF
  }

  function HexDigit(d: nat): (c: CodeUnit)
    requires d < 16
  {
    if d < 10 then ZERO + d else 0x61 + (d - 10)
  }

  function UnicodeEscape(c: CodeUnit): (r: Text) {
    [BACKSLASH, 0x75, HexDigit(c / 16 / 16 / 16), HexDigit(c / 16 / 16 % 16), HexDigit(c / 16 % 16), HexDigit(c % 16)]
  }

  /** The letter after the backslash in a two-character escape. */
  function ShortEscape(c: CodeUnit): (r: CodeUnit) {
    if c == 0x08 then 0x62
    else if c == TAB then 0x74
    else if c == NEWLINE then 0x6E
    else if c == 0x0C then 0x66
    else if c == RETURN then 0x72
    else c
  }

  predicate HasShortEscape(c: CodeUnit) {
    c == 0x08 || c == TAB || c == NEWLINE || c == 0x0C || c == RETURN || c == QUOTE || c == BACKSLASH
  }

  /** One unit of a string that is not half of a surrogate pair. */
  function QuoteUnit(c: CodeUnit): (r: Text) {
    if HasShortEscape(c) then [BACKSLASH, ShortEscape(c)]
    else if c < 0x20 || IsHighSurrogate(c) || IsLowSurrogate(c) then UnicodeEscape(c)
    else [c]
  }

  function QuoteUnits(s: Text): (r: Text) {
    if s == [] then []
    else if |s| >= 2 && IsHighSurrogate(s[0]) && IsLowSurrogate(s[1]) then s[..2] + QuoteUnits(s[2..])
    else QuoteUnit(s[0]) + QuoteUnits(s[1..])
  }

  function Quote(s: Text): (r: Text) {
    [QUOTE] + QuoteUnits(s) + [QUOTE]
  }

  function Integer(n: int): (r: Text) {
    if n < 0 then [HYPHEN] + Decimal(-n) else Decimal(n)
  }

  /** `JSON.stringify` of a scalar. */
  function Scalar(v: Json): (r: Text)
    requires !v.Arr? && !v.Obj?
  {
    match v
    case Bool(b) => if b then TRUE_TEXT else FALSE_TEXT
    case Num(n) => Integer(n)
    case Str(s) => Quote(s)
    case _ => NULL_TEXT
  }

  /** `JSON.stringify`: members in the order the object holds them. */
  function Encode(v: Json): (r: Text) {
    match v
    case Arr(items) => [OPEN_BRACKET] + Join(EncodeItems(items), [COMMA]) + [CLOSE_BRACKET]
    case Obj(ms) => [OPEN_BRACE] + Join(EncodeMembers(ms), [COMMA]) + [CLOSE_BRACE]
    case _ => Scalar(v)
  }

  function EncodeItems(items: seq<Json>): (r: seq<Text>)
    ensures |r| == |items|
    ensures forall i | 0 <= i < |items| :: r[i] == Encode(items[i])
  {
    if items == [] then [] else [Encode(items[0])] + EncodeItems(items[1..])
  }

  function MemberText(m: Member): (r: Text) {
    Quote(m.key) + [COLON] + Encode(m.value)
  }

  function EncodeMembers(ms: seq<Member>): (r: seq<Text>)
    ensures |r| == |ms|
    ensures forall i | 0 <= i < |ms| :: r[i] == MemberText(ms[i])
  {
    if ms == [] then [] else [MemberText(ms[0])] + EncodeMembers(ms[1..])
  }

  // ---------- reading ----------

  datatype Read<T> = Fail | Got(value: T, rest: Text)

  function SkipBlank(s: Text): (r: Text)
    ensures |r| <= |s|
  {
    if s != [] && (s[0] == SPACE || s[0] == TAB || s[0] == NEWLINE || s[0] == RETURN) then SkipBlank(s[1..])
    else s
  }

  function HexValue(c: CodeUnit): (r: Option<nat>)
    ensures r.Some? ==> r.value < 16
  {
    if IsDigit(c) then Some(c - ZERO)
    else if 0x61 <= c <= 0x66 then Some(c - 0x61 + 10)
    else if 0x41 <= c <= 0x46 then Some(c - 0x41 + 10)
    else None
  }

  function Unescape(c: CodeUnit): (r: Option<CodeUnit>) {
    if c == 0x62 then Some(0x08)
    else if c == 0x74 then Some(TAB)
    else if c == 0x6E then Some(NEWLINE)
    else if c == 0x66 then Some(0x0C)
    else if c == 0x72 then Some(RETURN)
    else if c == QUOTE || c == BACKSLASH || c == SLASH then Some(c)
    else None
  }

  /** The rest of a string literal whose opening quotation mark has been read. */
  function ReadUnits(s: Text): (r: Read<Text>)
    ensures r.Got? ==> |r.rest| < |s|
  {
    if s == [] || s[0] < 0x20 then Fail
    else if s[0] == QUOTE then Got([], s[1..])
    else if s[0] != BACKSLASH then Prepend(s[0], ReadUnits(s[1..]))
    else if |s| >= 2 && Unescape(s[1]).Some? then Prepend(Unescape(s[1]).value, ReadUnits(s[2..]))
    else if |s| >= 6 && s[1] == 0x75 && HexValue(s[2]).Some? && HexValue(s[3]).Some?
         && HexValue(s[4]).Some? && HexValue(s[5]).Some? then
      Prepend(0x1000 * HexValue(s[2]).value + 0x100 * HexValue(s[3]).value
              + 16 * HexValue(s[4]).value + HexValue(s[5]).value, ReadUnits(s[6..]))
    else Fail
  }

  function Prepend(c: CodeUnit, r: Read<Text>): Read<Text> {
    match r
    case Fail => Fail
    case Got(t, rest) => Got([c] + t, rest)
  }

  /** An integer literal. A fraction or exponent, or a magnitude above 2^53-1, is outside the model. */
  function ReadInteger(s: Text): (r: Read<Json>)
    ensures r.Got? ==> |r.rest| < |s|
  {
    var negative := s != [] && s[0] == HYPHEN;
    var t := if negative then s[1..] else s;
    var n := DigitSpan(t);
    if n == 0 || (n > 1 && t[0] == ZERO) then Fail
    else if n < |t| && (t[n] == DOT || t[n] == 0x65 || t[n] == 0x45) then Fail
    else
      var magnitude: int := DecimalValue(t[..n]);
      if magnitude > MAX_SAFE_INTEGER then Fail
      else Got(Num(if negative then -magnitude else magnitude), t[n..])
  }

  function ReadValue(s: Text): (r: Read<Json>)
    ensures r.Got? ==> |r.rest| < |s|
    decreases |s|, 0
  {
    var t := SkipBlank(s);
    if t == [] then Fail
    else if t[0] == QUOTE then
      (match ReadUnits(t[1..])
       case Fail => Fail
       case Got(x, rest) => Got(Str(x), rest))
    else if t[0] == OPEN_BRACKET then
      var u := SkipBlank(t[1..]);
      if u != [] && u[0] == CLOSE_BRACKET then Got(Arr([]), u[1..])
      else (match ReadItems(u)
            case Fail => Fail
            case Got(items, rest) => Got(Arr(items), rest))
    else if t[0] == OPEN_BRACE then
      var u := SkipBlank(t[1..]);
      if u != [] && u[0] == CLOSE_BRACE then Got(Obj([]), u[1..])
      else (match ReadMembers(u)
            case Fail => Fail
            case Got(ms, rest) => Got(Obj(LastWins(ms)), rest))
    else if NULL_TEXT <= t then Got(Null, t[4..])
    else if TRUE_TEXT <= t then Got(Bool(true), t[4..])
    else if FALSE_TEXT <= t then Got(Bool(false), t[5..])
    else ReadInteger(t)
  }

  function ReadItems(s: Text): (r: Read<seq<Json>>)
    ensures r.Got? ==> |r.rest| < |s|
    decreases |s|, 1
  {
    match ReadValue(s)
    case Fail => Fail
    case Got(v, rest) =>
      var t := SkipBlank(rest);
      if t == [] then Fail
      else if t[0] == CLOSE_BRACKET then Got([v], t[1..])
      else if t[0] != COMMA then Fail
      else match ReadItems(t[1..])
           case Fail => Fail
           case Got(vs, end) => Got([v] + vs, end)
  }

  /** One `"key": value` pair. */
  function ReadMember(s: Text): (r: Read<Member>)
    ensures r.Got? ==> |r.rest| < |s|
    decreases |s|, 1
  {
    var q := SkipBlank(s);
    if q == [] || q[0] != QUOTE then Fail
    else match ReadUnits(q[1..])
         case Fail => Fail
         case Got(key, afterKey) =>
           var c := SkipBlank(afterKey);
           if c == [] || c[0] != COLON then Fail
           else match ReadValue(c[1..])
                case Fail => Fail
                case Got(v, rest) => Got(Member(key, v), rest)
  }

  function ReadMembers(s: Text): (r: Read<seq<Member>>)
    ensures r.Got? ==> |r.rest| < |s|
    decreases |s|, 2
  {
    match ReadMember(s)
    case Fail => Fail
    case Got(m, rest) =>
      var t := SkipBlank(rest);
      if t == [] then Fail
      else if t[0] == CLOSE_BRACE then Got([m], t[1..])
      else if t[0] != COMMA then Fail
      else match ReadMembers(t[1..])
           case Fail => Fail
           case Got(ms, end) => Got([m] + ms, end)
  }

  function ValueOf(ms: seq<Member>, key: Text): (r: Option<Json>)
    ensures r.None? <==> forall i | 0 <= i < |ms| :: ms[i].key != key
    ensures r.Some? ==> exists i | 0 <= i < |ms| :: ms[i] == Member(key, r.value)
  {
    if ms == [] then None
    else if ms[0].key == key then Some(ms[0].value)
    else
      assert forall i | 0 <= i < |ms[1..]| :: ms[1..][i] == ms[i + 1];
      ValueOf(ms[1..], key)
  }

  function Without(ms: seq<Member>, key: Text): seq<Member> {
    if ms == [] then []
    else if ms[0].key == key then Without(ms[1..], key)
    else [ms[0]] + Without(ms[1..], key)
  }

  /** A repeated key keeps its first place and its last value, as `JSON.parse` builds objects. */
  function LastWins(ms: seq<Member>): seq<Member> {
    if ms == [] then []
    else
      var later := LastWins(ms[1..]);
      match ValueOf(later, ms[0].key)
      case None => [ms[0]] + later
      case Some(v) => [Member(ms[0].key, v)] + Without(later, ms[0].key)
  }

  /** `JSON.parse`. */
  function Parse(s: Text): (r: Option<Json>) {
    match ReadValue(s)
    case Fail => None
    case Got(v, rest) => if SkipBlank(rest) == [] then Some(v) else None
  }

  // ---------- the reader recovers what was printed ----------

  /** What may follow a value inside a document. */
  predicate Delimited(rest: Text) {
    rest == [] || rest[0] == COMMA || rest[0] == CLOSE_BRACKET || rest[0] == CLOSE_BRACE
  }

  lemma HexRoundTrip(d: nat)
    requires d < 16
    ensures HexValue(HexDigit(d)) == Some(d)
  {
  }

  lemma ReadPlainUnit(c: CodeUnit, tail: Text)
    requires c >= 0x20 && c != QUOTE && c != BACKSLASH
    ensures ReadUnits([c] + tail) == Prepend(c, ReadUnits(tail))
  {
    assert ([c] + tail)[1..] == tail;
  }

  lemma ReadShortEscape(c: CodeUnit, tail: Text)
    requires HasShortEscape(c)
    ensures ReadUnits([BACKSLASH, ShortEscape(c)] + tail) == Prepend(c, ReadUnits(tail))
  {
    assert ([BACKSLASH, ShortEscape(c)] + tail)[2..] == tail;
    assert Unescape(ShortEscape(c)) == Some(c);
  }

  lemma ReadUnicodeEscape(c: CodeUnit, tail: Text)
    ensures ReadUnits(UnicodeEscape(c) + tail) == Prepend(c, ReadUnits(tail))
  {
    var s := UnicodeEscape(c) + tail;
    HexRoundTrip(c / 16 / 16 / 16);
    HexRoundTrip(c / 16 / 16 % 16);
    HexRoundTrip(c / 16 % 16);
    HexRoundTrip(c % 16);
    assert s[0] == BACKSLASH && s[1] == 0x75;
    assert s[2] == UnicodeEscape(c)[2] && s[3] == UnicodeEscape(c)[3];
    assert s[4] == UnicodeEscape(c)[4] && s[5] == UnicodeEscape(c)[5];
    assert s[6..] == tail;
    assert Unescape(s[1]).None?;
  }

  lemma ReadQuotedUnit(c: CodeUnit, tail: Text)
    ensures ReadUnits(QuoteUnit(c) + tail) == Prepend(c, ReadUnits(tail))
  {
    if HasShortEscape(c) {
      ReadShortEscape(c, tail);
    } else if c < 0x20 || IsHighSurrogate(c) || IsLowSurrogate(c) {
      ReadUnicodeEscape(c, tail);
    } else {
      ReadPlainUnit(c, tail);
    }
  }

  lemma ReadSurrogatePair(high: CodeUnit, low: CodeUnit, tail: Text)
    requires IsHighSurrogate(high) && IsLowSurrogate(low)
    ensures ReadUnits([high, low] + tail) == Prepend(high, Prepend(low, ReadUnits(tail)))
  {
    assert [high, low] + tail == [high] + ([low] + tail);
    ReadPlainUnit(high, [low] + tail);
    ReadPlainUnit(low, tail);
  }

  /** Concatenation is associative; the sequence form the list proofs below rewrite with. */
  lemma Regroup(a: Text, b: Text, c: Text)
    ensures a + b + c == a + (b + c)
  {
  }

  lemma {:induction false} ReadQuoted(s: Text, rest: Text)
    ensures ReadUnits(QuoteUnits(s) + ([QUOTE] + rest)) == Got(s, rest)
  {
    hide QuoteUnit;
    var end := [QUOTE] + rest;
    if s == [] {
      assert QuoteUnits(s) + end == end && end[1..] == rest;
    } else {
      if |s| >= 2 && IsHighSurrogate(s[0]) && IsLowSurrogate(s[1]) {
        ReadQuoted(s[2..], rest);
        Regroup(s[..2], QuoteUnits(s[2..]), end);
        assert s[..2] == [s[0], s[1]];
        ReadSurrogatePair(s[0], s[1], QuoteUnits(s[2..]) + end);
        assert s == [s[0]] + ([s[1]] + s[2..]);
      } else {
        ReadQuoted(s[1..], rest);
        Regroup(QuoteUnit(s[0]), QuoteUnits(s[1..]), end);
        ReadQuotedUnit(s[0], QuoteUnits(s[1..]) + end);
        assert s == [s[0]] + s[1..];
      }
    }
  }

  lemma ReadMagnitude(n: nat, rest: Text)
    requires Delimited(rest)
    ensures var t := Decimal(n) + rest; var k := DigitSpan(t);
            && k == |Decimal(n)| && t[..k] == Decimal(n) && t[k..] == rest && DecimalValue(t[..k]) == n
            && t[0] == Decimal(n)[0] && (k < |t| ==> t[k] == rest[0])
  {
    DecimalRoundTrip(n);
    DigitSpanOf(Decimal(n), rest);
  }

  lemma ReadPrintedInteger(n: int, rest: Text)
    requires -MAX_SAFE_INTEGER <= n <= MAX_SAFE_INTEGER && Delimited(rest)
    ensures ReadInteger(Integer(n) + rest) == Got(Num(n), rest)
  {
    hide Decimal, DigitSpan, DecimalValue;
    ReadMagnitude(if n < 0 then -n else n, rest);
    if n < 0 {
      Regroup([HYPHEN], Decimal(-n), rest);
      assert ([HYPHEN] + (Decimal(-n) + rest))[1..] == Decimal(-n) + rest;
    }
  }

  lemma IntegerStart(n: int)
    ensures Integer(n) != [] && (Integer(n)[0] == HYPHEN || IsDigit(Integer(n)[0]))
  {
  }

  /** The first unit of a printed value decides how the reader continues. */
  lemma FirstUnit(v: Json)
    ensures Encode(v) != []
    ensures Encode(v)[0] !in {SPACE, TAB, NEWLINE, RETURN, CLOSE_BRACKET, CLOSE_BRACE}
  {
    if v.Num? {
      IntegerStart(v.n);
    }
  }

  lemma ReadWord(rest: Text)
    ensures ReadValue(NULL_TEXT + rest) == Got(Null, rest)
    ensures ReadValue(TRUE_TEXT + rest) == Got(Bool(true), rest)
    ensures ReadValue(FALSE_TEXT + rest) == Got(Bool(false), rest)
  {
    hide ReadInteger, ReadUnits, ReadItems, ReadMembers;
    assert (NULL_TEXT + rest)[4..] == rest && NULL_TEXT <= NULL_TEXT + rest;
    assert (TRUE_TEXT + rest)[4..] == rest && TRUE_TEXT <= TRUE_TEXT + rest;
    assert (FALSE_TEXT + rest)[5..] == rest && FALSE_TEXT <= FALSE_TEXT + rest;
  }

  lemma ReadNumber(n: int, rest: Text)
    requires -MAX_SAFE_INTEGER <= n <= MAX_SAFE_INTEGER && Delimited(rest)
    ensures ReadValue(Integer(n) + rest) == Got(Num(n), rest)
  {
    hide ReadInteger, Integer, ReadUnits, ReadItems, ReadMembers, Delimited;
    ReadPrintedInteger(n, rest);
    IntegerStart(n);
    var s := Integer(n) + rest;
    assert s[0] == Integer(n)[0];
    assert SkipBlank(s) == s;
  }

  lemma ReadString(x: Text, rest: Text)
    ensures ReadValue(Quote(x) + rest) == Got(Str(x), rest)
  {
    hide QuoteUnits, ReadUnits, ReadItems, ReadMembers;
    ReadQuoted(x, rest);
    Regroup([QUOTE] + QuoteUnits(x), [QUOTE], rest);
    Regroup([QUOTE], QuoteUnits(x), [QUOTE] + rest);
    assert ([QUOTE] + (QuoteUnits(x) + ([QUOTE] + rest)))[1..] == QuoteUnits(x) + ([QUOTE] + rest);
  }

  lemma ReadScalar(v: Json, rest: Text)
    requires WellFormed(v) && !v.Arr? && !v.Obj? && Delimited(rest)
    ensures ReadValue(Scalar(v) + rest) == Got(v, rest)
  {
    hide ReadValue, Quote, Integer, Delimited;
    match v {
      case Num(n) => ReadNumber(n, rest);
      case Str(x) => ReadString(x, rest);
      case _ => ReadWord(rest);
    }
  }

  lemma ReadArray(items: seq<Json>, body: Text, rest: Text)
    requires body != [] && SkipBlank(body) == body && body[0] != CLOSE_BRACKET
    requires ReadItems(body) == Got(items, rest)
    ensures ReadValue([OPEN_BRACKET] + body) == Got(Arr(items), rest)
  {
    hide ReadMembers, ReadItems, ReadInteger, ReadUnits, LastWins;
    assert ([OPEN_BRACKET] + body)[1..] == body;
  }

  lemma ReadObject(ms: seq<Member>, body: Text, rest: Text)
    requires body != [] && SkipBlank(body) == body && body[0] != CLOSE_BRACE
    requires ReadMembers(body) == Got(ms, rest) && UniqueKeys(ms)
    ensures ReadValue([OPEN_BRACE] + body) == Got(Obj(ms), rest)
  {
    hide ReadMembers, ReadItems, ReadInteger, ReadUnits, LastWins;
    assert ([OPEN_BRACE] + body)[1..] == body;
    UniqueKeysKept(ms);
  }

  lemma ReadEmpty(rest: Text)
    ensures ReadValue([OPEN_BRACKET] + ([CLOSE_BRACKET] + rest)) == Got(Arr([]), rest)
    ensures ReadValue([OPEN_BRACE] + ([CLOSE_BRACE] + rest)) == Got(Obj([]), rest)
  {
    assert ([OPEN_BRACKET] + ([CLOSE_BRACKET] + rest))[1..] == [CLOSE_BRACKET] + rest;
    assert ([OPEN_BRACE] + ([CLOSE_BRACE] + rest))[1..] == [CLOSE_BRACE] + rest;
    assert ([CLOSE_BRACKET] + rest)[1..] == rest && ([CLOSE_BRACE] + rest)[1..] == rest;
  }

  lemma JoinStart(parts: seq<Text>, rest: Text)
    requires parts != [] && parts[0] != []
    ensures Join(parts, [COMMA]) + rest != [] && (Join(parts, [COMMA]) + rest)[0] == parts[0][0]
  {
  }

  lemma JoinStep(parts: seq<Text>, rest: Text)
    requires |parts| >= 2
    ensures Join(parts, [COMMA]) + rest == parts[0] + ([COMMA] + (Join(parts[1..], [COMMA]) + rest))
  {
    Regroup(parts[0] + [COMMA], Join(parts[1..], [COMMA]), rest);
    Regroup(parts[0], [COMMA], Join(parts[1..], [COMMA]) + rest);
  }

  lemma ReadItemsLast(s: Text, v: Json, rest: Text)
    requires ReadValue(s) == Got(v, [CLOSE_BRACKET] + rest)
    ensures ReadItems(s) == Got([v], rest)
  {
    assert ([CLOSE_BRACKET] + rest)[1..] == rest;
  }

  lemma ReadItemsMore(s: Text, v: Json, more: Text, vs: seq<Json>, rest: Text)
    requires ReadValue(s) == Got(v, [COMMA] + more) && ReadItems(more) == Got(vs, rest)
    ensures ReadItems(s) == Got([v] + vs, rest)
  {
    assert ([COMMA] + more)[1..] == more;
  }

  lemma {:induction false} ReadPrinted(v: Json, rest: Text)
    requires WellFormed(v) && Delimited(rest)
    ensures ReadValue(Encode(v) + rest) == Got(v, rest)
    decreases v, 0
  {
    if v.Arr? {
      var body := Join(EncodeItems(v.items), [COMMA]);
      Regroup([OPEN_BRACKET] + body, [CLOSE_BRACKET], rest);
      Regroup([OPEN_BRACKET], body, [CLOSE_BRACKET] + rest);
      if v.items == [] {
        ReadEmpty(rest);
      } else {
        ReadPrintedItems(v.items, rest);
        FirstUnit(v.items[0]);
        JoinStart(EncodeItems(v.items), [CLOSE_BRACKET] + rest);
        ReadArray(v.items, body + ([CLOSE_BRACKET] + rest), rest);
      }
    } else if v.Obj? {
      var body := Join(EncodeMembers(v.members), [COMMA]);
      Regroup([OPEN_BRACE] + body, [CLOSE_BRACE], rest);
      Regroup([OPEN_BRACE], body, [CLOSE_BRACE] + rest);
      if v.members == [] {
        ReadEmpty(rest);
      } else {
        ReadPrintedMembers(v.members, rest);
        JoinStart(EncodeMembers(v.members), [CLOSE_BRACE] + rest);
        ReadObject(v.members, body + ([CLOSE_BRACE] + rest), rest);
      }
    } else {
      ReadScalar(v, rest);
    }
  }

  lemma {:induction false} ReadPrintedItems(items: seq<Json>, rest: Text)
    requires items != [] && forall i | 0 <= i < |items| :: WellFormed(items[i])
    ensures ReadItems(Join(EncodeItems(items), [COMMA]) + ([CLOSE_BRACKET] + rest)) == Got(items, rest)
    decreases items, 1
  {
    hide ReadItems, ReadValue, Encode;
    var end := [CLOSE_BRACKET] + rest;
    var s := Join(EncodeItems(items), [COMMA]) + end;
    if |items| == 1 {
      ReadPrinted(items[0], end);
      ReadItemsLast(s, items[0], rest);
      assert items == [items[0]];
    } else {
      JoinStep(EncodeItems(items), end);
      assert EncodeItems(items)[1..] == EncodeItems(items[1..]);
      var more := Join(EncodeItems(items[1..]), [COMMA]) + end;
      ReadPrinted(items[0], [COMMA] + more);
      ReadPrintedItems(items[1..], rest);
      ReadItemsMore(s, items[0], more, items[1..], rest);
      assert items == [items[0]] + items[1..];
    }
  }

  lemma MemberTextIs(m: Member, after: Text)
    ensures MemberText(m) + after == [QUOTE] + (QuoteUnits(m.key) + ([QUOTE] + ([COLON] + (Encode(m.value) + after))))
  {
    hide QuoteUnits, Encode;
    var tail := [COLON] + (Encode(m.value) + after);
    Regroup(Quote(m.key) + [COLON], Encode(m.value), after);
    Regroup(Quote(m.key), [COLON], Encode(m.value) + after);
    Regroup([QUOTE] + QuoteUnits(m.key), [QUOTE], tail);
    Regroup([QUOTE], QuoteUnits(m.key), [QUOTE] + tail);
  }

  lemma ReadPrintedMember(m: Member, after: Text)
    requires ReadValue(Encode(m.value) + after) == Got(m.value, after)
    ensures ReadMember(MemberText(m) + after) == Got(m, after)
  {
    hide QuoteUnits, Encode, ReadUnits, ReadValue, MemberText;
    var tail := [COLON] + (Encode(m.value) + after);
    MemberTextIs(m, after);
    ReadQuoted(m.key, tail);
    var s := [QUOTE] + (QuoteUnits(m.key) + ([QUOTE] + tail));
    assert s[1..] == QuoteUnits(m.key) + ([QUOTE] + tail);
    assert tail[1..] == Encode(m.value) + after;
  }

  lemma ReadMembersLast(s: Text, m: Member, rest: Text)
    requires ReadMember(s) == Got(m, [CLOSE_BRACE] + rest)
    ensures ReadMembers(s) == Got([m], rest)
  {
    hide ReadMember;
    assert ([CLOSE_BRACE] + rest)[1..] == rest;
  }

  lemma ReadMembersMore(s: Text, m: Member, more: Text, ms: seq<Member>, rest: Text)
    requires ReadMember(s) == Got(m, [COMMA] + more) && ReadMembers(more) == Got(ms, rest)
    ensures ReadMembers(s) == Got([m] + ms, rest)
  {
    hide ReadMember;
    assert ([COMMA] + more)[1..] == more;
  }

  lemma {:induction false} ReadPrintedMembers(ms: seq<Member>, rest: Text)
    requires ms != [] && forall i | 0 <= i < |ms| :: WellFormed(ms[i].value)
    ensures ReadMembers(Join(EncodeMembers(ms), [COMMA]) + ([CLOSE_BRACE] + rest)) == Got(ms, rest)
    decreases ms, 1
  {
    hide ReadMembers, ReadMember, ReadValue, Encode, MemberText;
    var end := [CLOSE_BRACE] + rest;
    if |ms| == 1 {
      ReadPrinted(ms[0].value, end);
      ReadPrintedMember(ms[0], end);
      ReadMembersLast(Join(EncodeMembers(ms), [COMMA]) + end, ms[0], rest);
      assert ms == [ms[0]];
    } else {
      JoinStep(EncodeMembers(ms), end);
      assert EncodeMembers(ms)[1..] == EncodeMembers(ms[1..]);
      var more := Join(EncodeMembers(ms[1..]), [COMMA]) + end;
      ReadPrinted(ms[0].value, [COMMA] + more);
      ReadPrintedMembers(ms[1..], rest);
      ReadPrintedMember(ms[0], [COMMA] + more);
      ReadMembersMore(Join(EncodeMembers(ms), [COMMA]) + end, ms[0], more, ms[1..], rest);
      assert ms == [ms[0]] + ms[1..];
    }
  }

  lemma {:induction false} UniqueKeysKept(ms: seq<Member>)
    requires UniqueKeys(ms)
    ensures LastWins(ms) == ms
  {
    if ms != [] {
      UniqueKeysKept(ms[1..]);
      assert forall i | 0 <= i < |ms[1..]| :: ms[1..][i] == ms[i + 1];
      assert ms == [ms[0]] + ms[1..];
    }
  }

  /** Reading back what `JSON.stringify` printed gives the value. */
  lemma ParseEncode(v: Json)
    requires WellFormed(v)
    ensures Parse(Encode(v)) == Some(v)
  {
    ReadPrinted(v, []);
    assert Encode(v) + [] == Encode(v);
  }

  lemma NoBlankAhead(v: Json)
    ensures SkipBlank(Encode(v)) == Encode(v)
  {
    FirstUnit(v);
  }

  /** Among printed values, only null (or a number that is not finite) starts with the letter n. */
  lemma OnlyNullStartsSo(v: Json)
    requires !v.Null? && !v.NonFinite?
    ensures Encode(v) != [] && Encode(v)[0] != NULL_TEXT[0]
  {
    if v.Num? {
      IntegerStart(v.n);
    }
  }

  // ---------- what the reader returns is well-formed ----------

  lemma {:induction false} WithoutKeys(ms: seq<Member>, key: Text)
    requires UniqueKeys(ms)
    ensures UniqueKeys(Without(ms, key))
    ensures forall i | 0 <= i < |Without(ms, key)| :: Without(ms, key)[i] in ms && Without(ms, key)[i].key != key
  {
    if ms != [] {
      WithoutKeys(ms[1..], key);
      assert ms == [ms[0]] + ms[1..];
      forall i | 0 <= i < |Without(ms[1..], key)| ensures Without(ms[1..], key)[i].key != ms[0].key {
        var j :| 0 <= j < |ms[1..]| && ms[1..][j] == Without(ms[1..], key)[i];
        assert ms[j + 1].key != ms[0].key;
      }
    }
  }

  lemma {:induction false} LastWinsUnique(ms: seq<Member>)
    requires forall i | 0 <= i < |ms| :: WellFormed(ms[i].value)
    ensures UniqueKeys(LastWins(ms)) && forall i | 0 <= i < |LastWins(ms)| :: WellFormed(LastWins(ms)[i].value)
  {
    hide WellFormed, Without;
    if ms != [] {
      var later := LastWins(ms[1..]);
      LastWinsUnique(ms[1..]);
      WithoutKeys(later, ms[0].key);
      assert LastWins(ms)[0].key == ms[0].key;
      assert ValueOf(later, ms[0].key).Some? ==> LastWins(ms)[1..] == Without(later, ms[0].key);
    }
  }

  lemma {:induction false} ReadWellFormed(s: Text)
    ensures ReadValue(s).Got? ==> WellFormed(ReadValue(s).value)
    decreases |s|, 0
  {
    var t := SkipBlank(s);
    if t != [] && t[0] == OPEN_BRACKET {
      var u := SkipBlank(t[1..]);
      ReadItemsWellFormed(u);
    } else if t != [] && t[0] == OPEN_BRACE {
      var u := SkipBlank(t[1..]);
      ReadMembersWellFormed(u);
      if ReadMembers(u).Got? {
        LastWinsUnique(ReadMembers(u).value);
      }
    }
  }

  lemma {:induction false} ReadItemsWellFormed(s: Text)
    ensures ReadItems(s).Got? ==> forall i | 0 <= i < |ReadItems(s).value| :: WellFormed(ReadItems(s).value[i])
    decreases |s|, 1
  {
    ReadWellFormed(s);
    if ReadValue(s).Got? {
      var t := SkipBlank(ReadValue(s).rest);
      if t != [] && t[0] == COMMA {
        ReadItemsWellFormed(t[1..]);
      }
    }
  }

  lemma {:induction false} ReadMemberWellFormed(s: Text)
    ensures ReadMember(s).Got? ==> WellFormed(ReadMember(s).value.value)
    decreases |s|, 1
  {
    var q := SkipBlank(s);
    if q != [] && q[0] == QUOTE && ReadUnits(q[1..]).Got? {
      var c := SkipBlank(ReadUnits(q[1..]).rest);
      if c != [] && c[0] == COLON {
        ReadWellFormed(c[1..]);
      }
    }
  }

  lemma {:induction false} ReadMembersWellFormed(s: Text)
    ensures ReadMembers(s).Got? ==> forall i | 0 <= i < |ReadMembers(s).value| ::
        WellFormed(ReadMembers(s).value[i].value)
    decreases |s|, 2
  {
    ReadMemberWellFormed(s);
    if ReadMember(s).Got? {
      var t := SkipBlank(ReadMember(s).rest);
      if t != [] && t[0] == COMMA {
        ReadMembersWellFormed(t[1..]);
      }
    }
  }

  lemma ParseWellFormed(s: Text)
    ensures Parse(s).Some? ==> WellFormed(Parse(s).value)
  {
    ReadWellFormed(s);
  }
}
