/** What the tokenizer makes of a text, stated on how its items are spelt and without the tokenizer. */
module SqlSpelling {
  import opened Text
  import opened SqlTokenizer

  // ---------- items ----------

  /** The items a text is made of; only the last can be one that is not closed. */
  datatype Item =
    | Gap(c: CodeUnit)
    | LineNote(text: Text)
    | BlockNote(text: Text, closed: bool)
    | Literal(text: Text, closed: bool)
    | Name(open: CodeUnit, text: Text, closed: bool)
    | Plain(text: Text)
    | Numeral(text: Text)
    | Operator(text: Text)
    | Other(c: CodeUnit)

  const OPERATORS: set<Text> := {
    [0x3E, 0x3D], [0x3C, 0x3D], [0x3C, 0x3E], [0x21, 0x3D], [0x3D, 0x3D], [0x7C, 0x7C], [0x2D, 0x3E]
  }

  predicate StartsWord(c: CodeUnit) {
    0x41 <= c <= 0x5A || 0x61 <= c <= 0x7A || c == 0x5F
  }

  predicate InWord(c: CodeUnit) {
    StartsWord(c) || 0x30 <= c <= 0x39 || c == 0x24
  }

  predicate InNumber(c: CodeUnit) {
    0x30 <= c <= 0x39 || c in {0x2E, 0x65, 0x45, 0x2B, 0x2D}
  }

  predicate StartsQuoted(c: CodeUnit) {
    c == 0x27 || c == 0x22 || c == 0x60 || c == 0x5B
  }

  predicate HasEnd(text: Text) {
    exists i | 1 <= i < |text| :: text[i - 1] == 0x2A && text[i] == 0x2F
  }

  predicate IsItem(i: Item) {
    match i
    case Gap(c) => IsSpace(c)
    case LineNote(text) => 0x0A !in text
    case BlockNote(text, _) => !HasEnd(text)
    case Literal(_, _) => true
    case Name(open, _, _) => open == 0x22 || open == 0x60 || open == 0x5B
    case Plain(text) => text != [] && StartsWord(text[0]) && forall k | 1 <= k < |text| :: InWord(text[k])
    case Numeral(text) => text != [] && 0x30 <= text[0] <= 0x39 && forall k | 1 <= k < |text| :: InNumber(text[k])
    case Operator(text) => text in OPERATORS
    case Other(c) => !IsSpace(c) && !StartsQuoted(c) && !StartsWord(c) && !(0x30 <= c <= 0x39)
  }

  /** Each closing unit inside is written twice. */
  ghost function Doubled(text: Text, closing: CodeUnit): Text {
    if text == [] then []
    else (if text[0] == closing then [closing, closing] else [text[0]]) + Doubled(text[1..], closing)
  }

  ghost function Enclosed(open: CodeUnit, text: Text, closing: CodeUnit, closed: bool): Text {
    [open] + (Doubled(text, closing) + Ending(closing, closed))
  }

  ghost function Ending(closing: CodeUnit, closed: bool): Text {
    if closed then [closing] else []
  }

  ghost function ClosingOf(open: CodeUnit): CodeUnit {
    if open == 0x5B then 0x5D else open
  }

  ghost function Spelling(i: Item): Text {
    match i
    case Gap(c) => [c]
    case LineNote(text) => [0x2D, 0x2D] + text
    case BlockNote(text, closed) => [0x2F, 0x2A] + (text + if closed then [0x2A, 0x2F] else [])
    case Literal(text, closed) => Enclosed(0x27, text, 0x27, closed)
    case Name(open, text, closed) => Enclosed(open, text, ClosingOf(open), closed)
    case Plain(text) => text
    case Numeral(text) => text
    case Operator(text) => text
    case Other(c) => [c]
  }

  /** What follows does not belong to the item. */
  ghost predicate Fits(i: Item, rest: Text) {
    match i
    case Gap(_) => true
    case LineNote(_) => rest == [] || rest[0] == 0x0A
    case BlockNote(_, closed) => closed || rest == []
    case Literal(_, closed) => rest == [] || (closed && rest[0] != 0x27)
    case Name(open, _, closed) => rest == [] || (closed && rest[0] != ClosingOf(open))
    case Plain(_) => rest == [] || !InWord(rest[0])
    case Numeral(_) => rest == [] || !InNumber(rest[0])
    case Operator(_) => true
    case Other(c) =>
      rest == [] || !([c, rest[0]] in OPERATORS || [c, rest[0]] == [0x2D, 0x2D] || [c, rest[0]] == [0x2F, 0x2A])
  }

  ghost function InLowerCase(s: Text): Text {
    seq(|s|, k requires 0 <= k < |s| => if 0x41 <= s[k] <= 0x5A then s[k] + 0x20 else s[k])
  }

  /** White space and comments give no token, a literal gives its text after `string:`, and anything else its text in
      lower case, a name without its quotes. */
  ghost function TokensOf(i: Item): seq<Text> {
    match i
    case Gap(_) => []
    case LineNote(_) => []
    case BlockNote(_, _) => []
    case Literal(text, _) => [[0x73, 0x74, 0x72, 0x69, 0x6E, 0x67, 0x3A] + text]
    case Name(_, text, _) => [InLowerCase(text)]
    case Plain(text) => [InLowerCase(text)]
    case Numeral(text) => [InLowerCase(text)]
    case Operator(text) => [text]
    case Other(c) => [[c]]
  }

  ghost function SpellingOfAll(items: seq<Item>): Text {
    if items == [] then [] else Spelling(items[0]) + SpellingOfAll(items[1..])
  }

  ghost function TokensOfAll(items: seq<Item>): seq<Text> {
    if items == [] then [] else TokensOf(items[0]) + TokensOfAll(items[1..])
  }

  /** The items stand side by side without running into each other. */
  ghost predicate Legible(items: seq<Item>) {
    items == [] || (IsItem(items[0]) && Fits(items[0], SpellingOfAll(items[1..])) && Legible(items[1..]))
  }

  // ---------- one item ----------

  ghost predicate ReadAs(i: Item, rest: Text) {
    var s := Spelling(i) + rest;
    s != [] && ChunkLength(s) == |Spelling(i)| && ChunkTokens(s) == TokensOf(i)
  }

  lemma LowerIs(s: Text)
    ensures Lower(s) == InLowerCase(s)
  {
  }

  lemma UnitsAre(c: CodeUnit)
    ensures IsWordUnit(c) == InWord(c) && IsNumberUnit(c) == InNumber(c) && IsNotNewline(c) == (c != 0x0A)
    ensures (IsLetter(c) || c == UNDERSCORE) == StartsWord(c) && Closing(c) == ClosingOf(c)
  {
  }

  lemma OperatorsAre(c: CodeUnit, d: CodeUnit)
    ensures IsPair(c, d) <==> [c, d] in OPERATORS
  {
  }

  lemma SpaceIsNothingElse(c: CodeUnit)
    requires IsSpace(c)
    ensures !StartsQuoted(c) && !InWord(c) && c != 0x2D && c != 0x2F
  {
  }

  lemma {:induction false} ScanReads(text: Text, closing: CodeUnit, closed: bool, rest: Text)
    requires rest == [] || (closed && rest[0] != closing)
    ensures Scan(Doubled(text, closing) + (Ending(closing, closed) + rest), closing)
      == Quoted(|Doubled(text, closing)| + |Ending(closing, closed)|, text, closed)
  {
    hide Scan, Doubled;
    var end := Ending(closing, closed) + rest;
    var s := Doubled(text, closing) + end;
    NothingDoubled(closing);
    if text == [] {
      assert s == end;
      if closed {
        ScanOne(rest, closing);
      } else {
        ScanEmpty(s, closing);
      }
    } else {
      var c, inner := text[0], Doubled(text[1..], closing);
      ScanReads(text[1..], closing, closed, rest);
      assert text == [c] + text[1..];
      DoubledStep(c, text[1..], closing);
      if c == closing {
        assert s == [closing, closing] + (inner + end);
        ScanDoubled(closing, inner + end);
      } else {
        assert s == [c] + (inner + end);
        ScanPlain(c, inner + end, closing);
      }
    }
  }

  lemma NothingDoubled(closing: CodeUnit)
    ensures Doubled([], closing) == []
  {
  }

  lemma DoubledStep(c: CodeUnit, t: Text, closing: CodeUnit)
    ensures Doubled([c] + t, closing) == (if c == closing then [closing, closing] else [c]) + Doubled(t, closing)
  {
    assert ([c] + t)[1..] == t;
  }

  lemma QuotedReadAs(open: CodeUnit, text: Text, closing: CodeUnit, closed: bool, rest: Text)
    requires rest == [] || (closed && rest[0] != closing)
    ensures var s := Enclosed(open, text, closing, closed) + rest;
      s[0] == open && Scan(s[1..], closing) == Quoted(|Enclosed(open, text, closing, closed)| - 1, text, closed)
  {
    hide Scan;
    var s := Enclosed(open, text, closing, closed) + rest;
    ScanReads(text, closing, closed, rest);
    assert s[1..] == Doubled(text, closing) + (Ending(closing, closed) + rest);
  }

  lemma SpanReads(u: Text, rest: Text, p: CodeUnit -> bool)
    requires (forall k | 0 <= k < |u| :: p(u[k])) && (rest == [] || !p(rest[0]))
    ensures Span(u + rest, p) == |u|
  {
    SpanPast(u, rest, p);
  }

  lemma EndInRest(c: CodeUnit, t: Text)
    ensures HasEnd([c] + t) <==> HasEnd(t) || (t != [] && c == 0x2A && t[0] == 0x2F)
  {
    var s := [c] + t;
    assert forall i | 1 <= i < |t| :: s[i] == t[i - 1] && s[i + 1] == t[i];
    if i :| 1 <= i < |t| && t[i - 1] == 0x2A && t[i] == 0x2F {
      assert s[i + 1 - 1] == 0x2A && s[i + 1] == 0x2F;
    }
    if t != [] && c == 0x2A && t[0] == 0x2F {
      assert s[1 - 1] == 0x2A && s[1] == 0x2F;
    }
  }

  lemma {:induction false} CommentReads(text: Text, closed: bool, rest: Text)
    requires !HasEnd(text) && (closed || rest == [])
    ensures CommentLength(text + (if closed then [0x2A, 0x2F] else []) + rest) == |text| + (if closed then 2 else 0)
  {
    hide HasEnd;
    var end: Text := if closed then [0x2A, 0x2F] else [];
    var s := text + end + rest;
    if text == [] {
      assert s == end + rest;
    } else {
      assert s[1..] == text[1..] + end + rest;
      assert s[0] == text[0] && (|text| > 1 ==> s[1] == text[1]);
      EndInRest(text[0], text[1..]);
      assert text == [text[0]] + text[1..];
      assert |text| == 1 && |s| > 1 ==> s[1] == 0x2A;
      CommentReads(text[1..], closed, rest);
    }
  }

  lemma LineReadAs(text: Text, rest: Text)
    requires IsItem(LineNote(text)) && Fits(LineNote(text), rest)
    ensures ReadAs(LineNote(text), rest)
  {
    hide Span, CommentLength, Scan, IsSpace;
    var s := [0x2D, 0x2D] + text + rest;
    DashIsNoSpace();
    assert KindOf(s) == LineComment;
    assert s[2..] == text + rest;
    SpanReads(text, rest, IsNotNewline);
  }

  lemma BlockReadAs(text: Text, closed: bool, rest: Text)
    requires IsItem(BlockNote(text, closed)) && Fits(BlockNote(text, closed), rest)
    ensures ReadAs(BlockNote(text, closed), rest)
  {
    hide Span, CommentLength, Scan, IsSpace, HasEnd;
    var end: Text := if closed then [0x2A, 0x2F] else [];
    var s := [0x2F, 0x2A] + (text + end) + rest;
    DashIsNoSpace();
    assert KindOf(s) == BlockComment;
    assert s[2..] == text + end + rest;
    CommentReads(text, closed, rest);
  }

  lemma DashIsNoSpace()
    ensures !IsSpace(0x2D) && !IsSpace(0x2F) && !IsSpace(0x27) && !IsSpace(0x22) && !IsSpace(0x60) && !IsSpace(0x5B)
  {
  }

  lemma QuotedItemReadAs(i: Item, rest: Text)
    requires IsItem(i) && Fits(i, rest) && (i.Literal? || i.Name?)
    ensures ReadAs(i, rest)
  {
    hide Scan, IsSpace, Lower, Enclosed;
    DashIsNoSpace();
    LowerIs(i.text);
    if i.Literal? {
      QuotedReadAs(0x27, i.text, 0x27, i.closed, rest);
    } else {
      QuotedReadAs(i.open, i.text, ClosingOf(i.open), i.closed, rest);
    }
  }

  lemma WordReadAs(i: Item, rest: Text)
    requires IsItem(i) && Fits(i, rest) && (i.Plain? || i.Numeral?)
    ensures ReadAs(i, rest)
  {
    hide Span, Lower, KindOf, InWord, InNumber, StartsWord, Scan, CommentLength;
    var s, tail := i.text + rest, i.text[1..];
    assert s[0] == i.text[0] && s[1..] == tail + rest && s[..|i.text|] == i.text;
    assert forall k | 0 <= k < |tail| :: tail[k] == i.text[k + 1];
    WordKind(s);
    if i.Plain? {
      WordSpan(tail, rest);
    } else {
      NumberSpan(tail, rest);
    }
    LowerIs(i.text);
  }

  lemma WordKind(s: Text)
    requires s != []
    ensures StartsWord(s[0]) ==> KindOf(s) == Word
    ensures 0x30 <= s[0] <= 0x39 ==> KindOf(s) == Number
  {
    hide IsSpace, IsPair, IsLetter, StartsWord;
    if StartsWord(s[0]) || 0x30 <= s[0] <= 0x39 {
      WordUnitIsNoOther(s[0]);
    }
  }

  lemma WordSpan(tail: Text, rest: Text)
    requires (forall k | 0 <= k < |tail| :: InWord(tail[k])) && (rest == [] || !InWord(rest[0]))
    ensures Span(tail + rest, IsWordUnit) == |tail|
  {
    hide IsWordUnit, InWord;
    forall c: CodeUnit ensures IsWordUnit(c) == InWord(c) {
      UnitsAre(c);
    }
    SpanReads(tail, rest, IsWordUnit);
  }

  lemma NumberSpan(tail: Text, rest: Text)
    requires (forall k | 0 <= k < |tail| :: InNumber(tail[k])) && (rest == [] || !InNumber(rest[0]))
    ensures Span(tail + rest, IsNumberUnit) == |tail|
  {
    hide IsNumberUnit, InNumber;
    forall c: CodeUnit ensures IsNumberUnit(c) == InNumber(c) {
      UnitsAre(c);
    }
    SpanReads(tail, rest, IsNumberUnit);
  }

  lemma WordUnitIsNoOther(c: CodeUnit)
    requires StartsWord(c) || 0x30 <= c <= 0x39
    ensures !IsSpace(c) && (IsLetter(c) || c == UNDERSCORE <==> StartsWord(c)) && !StartsQuoted(c)
    ensures c != HYPHEN && c != SLASH && c != APOSTROPHE && c != QUOTE && c != BACKTICK && c != OPEN_BRACKET
    ensures (0x30 <= c <= 0x39 <==> IsDigit(c)) && (IsDigit(c) ==> !StartsWord(c))
  {
  }

  lemma OtherReadAs(i: Item, rest: Text)
    requires IsItem(i) && Fits(i, rest) && (i.Operator? || i.Other?)
    ensures ReadAs(i, rest)
  {
    hide IsSpace, Lower;
    var s := Spelling(i) + rest;
    if i.Operator? {
      OperatorStarts(i.text);
      OperatorsAre(s[0], s[1]);
      assert s[..2] == i.text;
      LowerIs(i.text);
    } else {
      if rest != [] {
        assert s[1] == rest[0] && [i.c, rest[0]][0] == i.c && [i.c, rest[0]][1] == rest[0];
        OperatorsAre(i.c, rest[0]);
      }
      assert s[..1] == [i.c];
      LowerIs([i.c]);
      OtherKind(s);
      assert InLowerCase([i.c]) == [i.c];
    }
  }

  lemma OtherKind(s: Text)
    requires s != [] && IsItem(Other(s[0]))
    requires |s| == 1 || !(IsPair(s[0], s[1]) || [s[0], s[1]] == [0x2D, 0x2D] || [s[0], s[1]] == [0x2F, 0x2A])
    ensures KindOf(s) == Single
  {
    hide IsSpace, IsPair;
    assert |s| > 1 ==> ([s[0], s[1]] == [0x2D, 0x2D] <==> s[0] == 0x2D && s[1] == 0x2D);
    assert |s| > 1 ==> ([s[0], s[1]] == [0x2F, 0x2A] <==> s[0] == 0x2F && s[1] == 0x2A);
  }

  lemma OperatorStarts(text: Text)
    requires text in OPERATORS
    ensures |text| == 2 && [text[0], text[1]] == text && InLowerCase(text) == text
    ensures !IsSpace(text[0]) && !StartsQuoted(text[0]) && !InWord(text[0]) && text[0] != SLASH
    ensures text[0] == HYPHEN ==> text[1] != HYPHEN
  {
  }

  lemma ItemReadAs(i: Item, rest: Text)
    requires IsItem(i) && Fits(i, rest)
    ensures ReadAs(i, rest)
  {
    hide IsItem, Fits, ReadAs;
    match i {
      case Gap(c) => GapReadAs(c, rest);
      case LineNote(text) => LineReadAs(text, rest);
      case BlockNote(text, closed) => BlockReadAs(text, closed, rest);
      case Literal(_, _) => QuotedItemReadAs(i, rest);
      case Name(_, _, _) => QuotedItemReadAs(i, rest);
      case Plain(_) => WordReadAs(i, rest);
      case Numeral(_) => WordReadAs(i, rest);
      case Operator(_) => OtherReadAs(i, rest);
      case Other(_) => OtherReadAs(i, rest);
    }
  }

  lemma GapReadAs(c: CodeUnit, rest: Text)
    requires IsItem(Gap(c))
    ensures ReadAs(Gap(c), rest)
  {
  }

  /** The tokens of a text are those of its items. */
  lemma {:induction false} TokensAreOfItems(items: seq<Item>)
    requires Legible(items)
    ensures Tokens(SpellingOfAll(items)) == TokensOfAll(items)
  {
    hide IsItem, Fits, Spelling, TokensOf, ChunkLength, ChunkTokens;
    if items != [] {
      var rest := SpellingOfAll(items[1..]);
      ItemReadAs(items[0], rest);
      TokensAreOfItems(items[1..]);
      assert (Spelling(items[0]) + rest)[|Spelling(items[0])|..] == rest;
    }
  }

  // ---------- every text is made of items ----------

  ghost function Inside(r: Quoted, closing: CodeUnit): Text {
    Doubled(r.value, closing) + Ending(closing, r.closed)
  }

  lemma InsideGrows(c: CodeUnit, r: Quoted, length: nat, closing: CodeUnit)
    ensures Inside(Quoted(length, [c] + r.value, r.closed), closing)
      == (if c == closing then [closing, closing] else [c]) + Inside(r, closing)
  {
    hide Doubled;
    DoubledStep(c, r.value, closing);
  }

  lemma {:induction false} ScanSpells(s: Text, closing: CodeUnit) returns (rest: Text)
    ensures s == Inside(Scan(s, closing), closing) + rest
    ensures rest == [] || (Scan(s, closing).closed && rest[0] != closing)
  {
    hide Scan, Inside;
    if s == [] {
      ScanEmpty(s, closing);
      InsideEnds(closing);
      rest := [];
    } else if s[0] == closing && |s| >= 2 && s[1] == closing {
      var r := Scan(s[2..], closing);
      rest := ScanSpells(s[2..], closing);
      assert s == [closing, closing] + s[2..];
      ScanDoubled(closing, s[2..]);
      InsideGrows(closing, r, r.length + 2, closing);
    } else if s[0] == closing {
      rest := s[1..];
      assert s == [closing] + rest;
      ScanOne(rest, closing);
      InsideEnds(closing);
    } else {
      var r := Scan(s[1..], closing);
      rest := ScanSpells(s[1..], closing);
      assert s == [s[0]] + s[1..];
      ScanPlain(s[0], s[1..], closing);
      InsideGrows(s[0], r, r.length + 1, closing);
    }
  }

  lemma InsideEnds(closing: CodeUnit)
    ensures Inside(Quoted(0, [], false), closing) == [] && Inside(Quoted(1, [], true), closing) == [closing]
  {
  }

  lemma QuotedItem(s: Text, open: CodeUnit, closing: CodeUnit) returns (rest: Text)
    requires s != [] && s[0] == open
    ensures var r := Scan(s[1..], closing);
      && s == Enclosed(open, r.value, closing, r.closed) + rest
      && (rest == [] || (r.closed && rest[0] != closing))
  {
    hide Scan, Doubled;
    rest := ScanSpells(s[1..], closing);
    assert s == [open] + s[1..];
  }

  lemma EndNeedsTwo()
    ensures !HasEnd([])
  {
  }

  lemma {:induction false} CommentSpells(s: Text) returns (text: Text, closed: bool, rest: Text)
    ensures s == text + (if closed then [0x2A, 0x2F] else []) + rest && !HasEnd(text) && (closed || rest == [])
  {
    EndNeedsTwo();
    hide HasEnd;
    if s == [] {
      text, closed, rest := [], false, [];
    } else if |s| >= 2 && s[0] == 0x2A && s[1] == 0x2F {
      text, closed, rest := [], true, s[2..];
    } else {
      var shorter;
      shorter, closed, rest := CommentSpells(s[1..]);
      text := [s[0]] + shorter;
      assert s == [s[0]] + s[1..];
      EndInRest(s[0], shorter);
    }
  }

  lemma SpannedItem(s: Text, p: CodeUnit -> bool) returns (text: Text, rest: Text)
    requires s != []
    ensures s == text + rest && text != [] && text[0] == s[0] && (forall k | 1 <= k < |text| :: p(text[k]))
    ensures rest == [] || !p(rest[0])
  {
    var n := 1 + Span(s[1..], p);
    text, rest := s[..n], s[n..];
    forall k | 1 <= k < |text| ensures p(text[k]) {
      assert s[1..][k - 1] == text[k];
    }
  }

  /** The item a text starts with. */
  lemma FirstItem(s: Text) returns (i: Item, rest: Text)
    requires s != []
    ensures IsItem(i) && Fits(i, rest) && s == Spelling(i) + rest && |rest| < |s|
  {
    hide IsSpace, HasEnd, Scan, Span, Enclosed;
    var c := s[0];
    rest := s[1..];
    assert s == [c] + rest;
    if IsSpace(c) {
      i := Gap(c);
    } else if |s| >= 2 && c == 0x2D && s[1] == 0x2D {
      i, rest := LineItem(s);
    } else if |s| >= 2 && c == 0x2F && s[1] == 0x2A {
      var text, closed;
      text, closed, rest := CommentSpells(s[2..]);
      i := BlockNote(text, closed);
      assert s == [0x2F, 0x2A] + s[2..];
    } else if StartsQuoted(c) {
      i, rest := QuotedFirst(s);
    } else if StartsWord(c) {
      var text;
      text, rest := SpannedItem(s, InWord);
      i := Plain(text);
    } else if 0x30 <= c <= 0x39 {
      var text;
      text, rest := SpannedItem(s, InNumber);
      i := Numeral(text);
    } else if |s| >= 2 && [c, s[1]] in OPERATORS {
      i, rest := Operator([c, s[1]]), s[2..];
      assert s == [c, s[1]] + s[2..];
    } else {
      i := Other(c);
    }
  }

  lemma LineItem(s: Text) returns (i: Item, rest: Text)
    requires |s| >= 2 && s[0] == 0x2D && s[1] == 0x2D
    ensures i.LineNote? && IsItem(i) && Fits(i, rest) && s == Spelling(i) + rest && |rest| < |s|
  {
    hide Span;
    var text;
    text, rest := SpannedItem(s[1..], c => c != 0x0A);
    i := LineNote(text[1..]);
    assert s == [0x2D, 0x2D] + text[1..] + rest;
  }

  lemma QuotedFirst(s: Text) returns (i: Item, rest: Text)
    requires s != [] && StartsQuoted(s[0])
    ensures IsItem(i) && Fits(i, rest) && s == Spelling(i) + rest && |rest| < |s|
  {
    hide Scan;
    rest := QuotedItem(s, s[0], ClosingOf(s[0]));
    var r := Scan(s[1..], ClosingOf(s[0]));
    i := if s[0] == 0x27 then Literal(r.value, r.closed) else Name(s[0], r.value, r.closed);
  }

  /** Every text is spelt by items side by side, so the lemma above says what its tokens are. */
  lemma {:induction false} EveryTextIsSpelt(s: Text) returns (items: seq<Item>)
    ensures Legible(items) && SpellingOfAll(items) == s && Tokens(s) == TokensOfAll(items)
    decreases |s|
  {
    hide IsItem, Fits, Spelling, Tokens, TokensOfAll;
    if s == [] {
      items := [];
    } else {
      var i, rest := FirstItem(s);
      var more := EveryTextIsSpelt(rest);
      items := [i] + more;
      assert items[1..] == more;
    }
    TokensAreOfItems(items);
  }
}
