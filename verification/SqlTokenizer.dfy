/** The tokenizer that the migration runner compares schemas with. */
module SqlTokenizer {
  import opened Text

  const ASTERISK: CodeUnit := 0x2A
  const DOLLAR: CodeUnit := 0x24
  const BANG: CodeUnit := 0x21
  const LESS: CodeUnit := 0x3C
  const GREATER: CodeUnit := 0x3E
  const BAR: CodeUnit := 0x7C
  const BACKTICK: CodeUnit := 0x60
  const STRING_PREFIX: Text := [0x73, 0x74, 0x72, 0x69, 0x6E, 0x67, 0x3A]

  predicate IsLetter(c: CodeUnit) {
    IsUpper(c) || IsLower(c)
  }

  predicate IsWordUnit(c: CodeUnit) {
    IsLetter(c) || IsDigit(c) || c == UNDERSCORE || c == DOLLAR
  }

  predicate IsNumberUnit(c: CodeUnit) {
    IsDigit(c) || c == DOT || c == PLUS || c == HYPHEN || c == 0x65 || c == 0x45
  }

  predicate IsNotNewline(c: CodeUnit) {
    c != NEWLINE
  }

  predicate IsPair(c: CodeUnit, d: CodeUnit) {
    || (d == EQUALS && (c == GREATER || c == LESS || c == BANG || c == EQUALS))
    || (c == LESS && d == GREATER) || (c == BAR && d == BAR) || (c == HYPHEN && d == GREATER)
  }

  /** What the two units at the cursor announce. */
  datatype Kind = Blank | LineComment | BlockComment | StringLiteral | QuotedName | Word | Number | Pair | Single

  function KindOf(s: Text): (r: Kind)
    requires s != []
  {
    var c := s[0];
    if IsSpace(c) then Blank
    else if c == HYPHEN && |s| >= 2 && s[1] == HYPHEN then LineComment
    else if c == SLASH && |s| >= 2 && s[1] == ASTERISK then BlockComment
    else if c == APOSTROPHE then StringLiteral
    else if c == QUOTE || c == BACKTICK || c == OPEN_BRACKET then QuotedName
    else if IsLetter(c) || c == UNDERSCORE then Word
    else if IsDigit(c) then Number
    else if |s| >= 2 && IsPair(c, s[1]) then Pair
    else Single
  }

  function Closing(open: CodeUnit): (r: CodeUnit) {
    if open == OPEN_BRACKET then CLOSE_BRACKET else open
  }

  /** How many leading units satisfy p. */
  function Span(s: Text, p: CodeUnit -> bool): (n: nat)
    ensures n <= |s| && (forall i | 0 <= i < n :: p(s[i])) && (n < |s| ==> !p(s[n]))
  {
    if s == [] || !p(s[0]) then 0 else 1 + Span(s[1..], p)
  }

  /** The inside of a quoted item, after its opening unit: a doubled closing unit stands for one. */
  datatype Quoted = Quoted(length: nat, value: Text, closed: bool)

  function Scan(s: Text, closing: CodeUnit): (r: Quoted)
    ensures r.length <= |s| && (!r.closed ==> r.length == |s|) && (r.closed ==> r.length > 0)
  {
    if s == [] then Quoted(0, [], false)
    else if s[0] == closing && |s| >= 2 && s[1] == closing then
      var r := Scan(s[2..], closing);
      Quoted(r.length + 2, [closing] + r.value, r.closed)
    else if s[0] == closing then Quoted(1, [], true)
    else
      var r := Scan(s[1..], closing);
      Quoted(r.length + 1, [s[0]] + r.value, r.closed)
  }

  /** Units up to and including the next end-of-comment mark, or all of them. */
  function CommentLength(s: Text): (n: nat)
    ensures n <= |s|
  {
    if s == [] then 0
    else if |s| >= 2 && s[0] == ASTERISK && s[1] == SLASH then 2
    else 1 + CommentLength(s[1..])
  }

  /** How far one round of the tokenizer's loop moves the cursor. */
  function ChunkLength(s: Text): (n: nat)
    requires s != []
    ensures 0 < n <= |s|
  {
    match KindOf(s)
    case Blank => 1
    case LineComment => 2 + Span(s[2..], IsNotNewline)
    case BlockComment => 2 + CommentLength(s[2..])
    case StringLiteral => 1 + Scan(s[1..], APOSTROPHE).length
    case QuotedName => 1 + Scan(s[1..], Closing(s[0])).length
    case Word => 1 + Span(s[1..], IsWordUnit)
    case Number => 1 + Span(s[1..], IsNumberUnit)
    case Pair => 2
    case Single => 1
  }

  /** The tokens that round pushes: none or one. */
  function ChunkTokens(s: Text): (r: seq<Text>)
    requires s != []
    ensures |r| <= 1
  {
    match KindOf(s)
    case Blank => []
    case LineComment => []
    case BlockComment => []
    case StringLiteral => [STRING_PREFIX + Scan(s[1..], APOSTROPHE).value]
    case QuotedName => [Lower(Scan(s[1..], Closing(s[0])).value)]
    case _ => [Lower(s[..ChunkLength(s)])]
  }

  function Tokens(s: Text): (r: seq<Text>) {
    if s == [] then [] else ChunkTokens(s) + Tokens(s[ChunkLength(s)..])
  }

  // ---------- the tokenizer ----------

  method TokenizeSql(sql: Text) returns (tokens: seq<Text>)
    ensures tokens == Tokens(sql)
  {
    hide ChunkLength, ChunkTokens;
    tokens := [];
    var cursor := 0;
    while cursor < |sql|
      invariant cursor <= |sql| && tokens + Tokens(sql[cursor..]) == Tokens(sql)
    {
      var next, pushed := Round(sql, cursor);
      assert sql[cursor..][ChunkLength(sql[cursor..])..] == sql[next..];
      assert tokens + (pushed + Tokens(sql[next..])) == (tokens + pushed) + Tokens(sql[next..]);
      tokens := tokens + pushed;
      cursor := next;
    }
  }

  /** One round of the loop: where the cursor goes, and what is pushed on the way. */
  method Round(sql: Text, start: nat) returns (cursor: nat, pushed: seq<Text>)
    requires start < |sql|
    ensures cursor == start + ChunkLength(sql[start..]) && pushed == ChunkTokens(sql[start..])
  {
    hide Scan, Span, CommentLength, Lower, IsSpace, IsPair, IsLetter, IsDigit, Closing;
    ghost var rest := sql[start..];
    assert rest[1..] == sql[start + 1..];
    assert |rest| >= 2 ==> rest[1] == sql[start + 1] && rest[2..] == sql[start + 2..];
    var character := sql[start];
    if IsSpace(character) {
      return start + 1, [];
    }
    if character == HYPHEN && start + 1 < |sql| && sql[start + 1] == HYPHEN {
      cursor := SkipWhile(sql, start + 2, IsNotNewline);
      return cursor, [];
    }
    if character == SLASH && start + 1 < |sql| && sql[start + 1] == ASTERISK {
      cursor := EndOfComment(sql, start + 2);
      return cursor, [];
    }
    if character == APOSTROPHE {
      var value;
      cursor, value := ReadQuoted(sql, start + 1, APOSTROPHE);
      return cursor, [STRING_PREFIX + value];
    }
    if character == QUOTE || character == BACKTICK || character == OPEN_BRACKET {
      var value;
      cursor, value := ReadQuoted(sql, start + 1, Closing(character));
      return cursor, [Lower(value)];
    }
    cursor, pushed := UnquotedRound(sql, start);
  }

  /** The rounds that push what they read: words, numbers and operators. */
  method UnquotedRound(sql: Text, start: nat) returns (cursor: nat, pushed: seq<Text>)
    requires start < |sql| && KindOf(sql[start..]) in {Word, Number, Pair, Single}
    ensures cursor == start + ChunkLength(sql[start..]) && pushed == ChunkTokens(sql[start..])
  {
    hide Scan, Span, CommentLength, Lower, IsSpace, IsPair, IsLetter, IsDigit, Closing;
    ghost var rest := sql[start..];
    assert rest[1..] == sql[start + 1..];
    var character := sql[start];
    if IsLetter(character) || character == UNDERSCORE {
      cursor := SkipWhile(sql, start + 1, IsWordUnit);
    } else if IsDigit(character) {
      cursor := SkipWhile(sql, start + 1, IsNumberUnit);
    } else if start + 1 < |sql| && IsPair(character, sql[start + 1]) {
      PairHasNoCase(rest[..2]);
      assert sql[start..start + 2] == rest[..2];
      return start + 2, [sql[start..start + 2]];
    } else {
      SingleLower(rest);
      return start + 1, [[ToLower(character)]];
    }
    assert sql[start..cursor] == rest[..cursor - start];
    return cursor, [Lower(sql[start..cursor])];
  }

  lemma PairHasNoCase(s: Text)
    requires |s| == 2 && IsPair(s[0], s[1])
    ensures Lower(s) == s
  {
  }

  lemma SingleLower(s: Text)
    requires s != []
    ensures Lower(s[..1]) == [ToLower(s[0])]
  {
  }

  method SkipWhile(sql: Text, from: nat, p: CodeUnit -> bool) returns (cursor: nat)
    requires from <= |sql|
    ensures cursor == from + Span(sql[from..], p)
  {
    cursor := from;
    while cursor < |sql| && p(sql[cursor])
      invariant from <= cursor <= |sql| && from + Span(sql[from..], p) == cursor + Span(sql[cursor..], p)
    {
      assert sql[cursor..][1..] == sql[cursor + 1..];
      cursor := cursor + 1;
    }
  }

  /** `indexOf` of the end mark, and past it. */
  method EndOfComment(sql: Text, from: nat) returns (cursor: nat)
    requires from <= |sql|
    ensures cursor == from + CommentLength(sql[from..])
  {
    cursor := from;
    while cursor < |sql|
      invariant from <= cursor <= |sql| && from + CommentLength(sql[from..]) == cursor + CommentLength(sql[cursor..])
    {
      if cursor + 1 < |sql| && sql[cursor] == ASTERISK && sql[cursor + 1] == SLASH {
        return cursor + 2;
      }
      assert sql[cursor..][1..] == sql[cursor + 1..];
      cursor := cursor + 1;
    }
  }

  method ReadQuoted(sql: Text, from: nat, closing: CodeUnit) returns (cursor: nat, value: Text)
    requires from <= |sql|
    ensures cursor == from + Scan(sql[from..], closing).length && value == Scan(sql[from..], closing).value
  {
    hide Scan, After;
    cursor, value := from, [];
    AfterNothing(sql[from..], closing);
    while cursor < |sql|
      invariant from <= cursor <= |sql|
      invariant Scan(sql[from..], closing) == After(cursor - from, value, sql[cursor..], closing)
    {
      ghost var rest := sql[cursor..];
      if sql[cursor] == closing && cursor + 1 < |sql| && sql[cursor + 1] == closing {
        assert rest == [closing, closing] + sql[cursor + 2..];
        AfterDoubled(cursor - from, value, sql[cursor + 2..], closing);
        value := value + [closing];
        cursor := cursor + 2;
      } else if sql[cursor] == closing {
        assert rest == [closing] + sql[cursor + 1..];
        AfterEnd(cursor - from, value, sql[cursor + 1..], closing);
        return cursor + 1, value;
      } else {
        assert rest == [sql[cursor]] + sql[cursor + 1..];
        AfterPlain(cursor - from, value, sql[cursor], sql[cursor + 1..], closing);
        value := value + [sql[cursor]];
        cursor := cursor + 1;
      }
    }
    assert sql[cursor..] == [];
    AfterAll(cursor - from, value, closing);
  }

  ghost function After(length: nat, value: Text, rest: Text, closing: CodeUnit): Quoted {
    var r := Scan(rest, closing);
    Quoted(length + r.length, value + r.value, r.closed)
  }

  lemma AfterNothing(s: Text, closing: CodeUnit)
    ensures After(0, [], s, closing) == Scan(s, closing)
  {
  }

  lemma AfterAll(length: nat, value: Text, closing: CodeUnit)
    ensures After(length, value, [], closing) == Quoted(length, value, false)
  {
  }

  lemma AfterPlain(length: nat, value: Text, c: CodeUnit, s: Text, closing: CodeUnit)
    requires c != closing
    ensures After(length, value, [c] + s, closing) == After(length + 1, value + [c], s, closing)
  {
    ScanPlain(c, s, closing);
    assert value + ([c] + Scan(s, closing).value) == value + [c] + Scan(s, closing).value;
  }

  lemma AfterDoubled(length: nat, value: Text, s: Text, closing: CodeUnit)
    ensures After(length, value, [closing, closing] + s, closing) == After(length + 2, value + [closing], s, closing)
  {
    ScanDoubled(closing, s);
    assert value + ([closing] + Scan(s, closing).value) == value + [closing] + Scan(s, closing).value;
  }

  lemma AfterEnd(length: nat, value: Text, s: Text, closing: CodeUnit)
    requires s == [] || s[0] != closing
    ensures After(length, value, [closing] + s, closing) == Quoted(length + 1, value, true)
  {
    ScanOne(s, closing);
  }

  // ---------- what a chunk depends on ----------

  predicate AlikeUnit(c: CodeUnit, d: CodeUnit) {
    ToLower(c) == ToLower(d)
  }

  /** Equal but for letter case. */
  predicate Alike(s: Text, t: Text) {
    |s| == |t| && forall i | 0 <= i < |s| :: AlikeUnit(s[i], t[i])
  }

  predicate SpaceFirst(s: Text) {
    s != [] && IsSpace(s[0])
  }

  /** The same text goes on after a chunk, as far as the next unit tells, in either case. */
  predicate Continues(v: Text, w: Text) {
    (v == [] && w == []) || (v != [] && w != [] && AlikeUnit(v[0], w[0]))
  }

  /** A string literal or quoted name at the start that the end of the text cuts short. */
  predicate Unterminated(s: Text)
    requires s != []
  {
    match KindOf(s)
    case StringLiteral => !Scan(s[1..], APOSTROPHE).closed
    case QuotedName => !Scan(s[1..], Closing(s[0])).closed
    case _ => false
  }

  predicate CaseBlind(p: CodeUnit -> bool) {
    forall c, d | AlikeUnit(c, d) :: p(c) == p(d)
  }

  lemma {:induction false} SpanSame(u: Text, v: Text, u': Text, v': Text, p: CodeUnit -> bool)
    requires CaseBlind(p) && Alike(u, u') && Span(u + v, p) == |u|
    requires Continues(v, v') || (SpaceFirst(v') && !p(v'[0]))
    ensures Span(u' + v', p) == |u|
  {
    if u == [] {
      assert u + v == v && u' + v' == v';
    } else {
      assert (u + v)[0] == u[0] && (u' + v')[0] == u'[0] && AlikeUnit(u[0], u'[0]);
      assert (u + v)[1..] == u[1..] + v && (u' + v')[1..] == u'[1..] + v';
      SpanSame(u[1..], v, u'[1..], v', p);
    }
  }

  lemma {:induction false} SpanPast(u: Text, v: Text, p: CodeUnit -> bool)
    requires forall i | 0 <= i < |u| :: p(u[i])
    ensures Span(u + v, p) == |u| + Span(v, p)
  {
    if u == [] {
      assert u + v == v;
    } else {
      assert (u + v)[1..] == u[1..] + v;
      SpanPast(u[1..], v, p);
    }
  }

  lemma {:induction false} ScanSame(u: Text, v: Text, u': Text, v': Text, closing: CodeUnit)
    requires !IsLetter(closing) && !IsSpace(closing) && Alike(u, u') && Scan(u + v, closing).length == |u|
    requires Continues(v, v') || (SpaceFirst(v') && Scan(u + v, closing).closed)
    ensures Scan(u' + v', closing).length == |u| && Scan(u' + v', closing).closed == Scan(u + v, closing).closed
    ensures Alike(Scan(u + v, closing).value, Scan(u' + v', closing).value)
    ensures u == u' ==> Scan(u + v, closing).value == Scan(u' + v', closing).value
  {
    hide Scan, IsSpace, IsLetter;
    var s, s' := u + v, u' + v';
    if u == [] {
      assert s == v && s' == v';
      ScanEmpty(s, closing);
      ScanEmpty(s', closing);
    } else {
      assert AlikeUnit(u[0], u'[0]);
      LetterCaseOnly(u[0], u'[0], closing);
      if u[0] != closing {
        assert s == [u[0]] + (u[1..] + v) && s' == [u'[0]] + (u'[1..] + v');
        ScanPlain(u[0], u[1..] + v, closing);
        ScanPlain(u'[0], u'[1..] + v', closing);
        ScanSame(u[1..], v, u'[1..], v', closing);
      } else if |u| >= 2 && u[1] == closing {
        LetterCaseOnly(u[1], u'[1], closing);
        assert s == [closing, closing] + (u[2..] + v) && s' == [closing, closing] + (u'[2..] + v');
        ScanDoubled(closing, u[2..] + v);
        ScanDoubled(closing, u'[2..] + v');
        ScanSame(u[2..], v, u'[2..], v', closing);
      } else {
        ScanCloses(u, v, closing);
        if v != [] && v' != [] && AlikeUnit(v[0], v'[0]) {
          LetterCaseOnly(v[0], v'[0], closing);
        }
        assert s' == [closing] + v';
        ScanOne(v', closing);
      }
    }
  }

  lemma LetterCaseOnly(c: CodeUnit, d: CodeUnit, closing: CodeUnit)
    requires AlikeUnit(c, d) && !IsLetter(closing)
    ensures c == closing <==> d == closing
  {
  }

  lemma ScanEmpty(s: Text, closing: CodeUnit)
    ensures Scan(s, closing).length == 0 <==> s == []
    ensures s == [] ==> Scan(s, closing) == Quoted(0, [], false)
  {
  }

  lemma ScanPlain(c: CodeUnit, s: Text, closing: CodeUnit)
    requires c != closing
    ensures var r := Scan(s, closing); Scan([c] + s, closing) == Quoted(r.length + 1, [c] + r.value, r.closed)
  {
    assert ([c] + s)[1..] == s;
  }

  lemma ScanDoubled(closing: CodeUnit, s: Text)
    ensures var r := Scan(s, closing);
      Scan([closing, closing] + s, closing) == Quoted(r.length + 2, [closing] + r.value, r.closed)
  {
    assert ([closing, closing] + s)[2..] == s;
  }

  lemma ScanOne(s: Text, closing: CodeUnit)
    requires s == [] || s[0] != closing
    ensures Scan([closing] + s, closing) == Quoted(1, [], true)
  {
    assert s != [] ==> ([closing] + s)[1] == s[0];
  }

  lemma ScanCloses(u: Text, v: Text, closing: CodeUnit)
    requires u != [] && u[0] == closing && (|u| >= 2 ==> u[1] != closing) && Scan(u + v, closing).length == |u|
    ensures |u| == 1 && (v == [] || v[0] != closing) && Scan(u + v, closing) == Quoted(1, [], true)
  {
    assert (u + v)[0] == closing;
    assert (u + v)[1..] == u[1..] + v;
  }

  predicate CommentCloses(s: Text) {
    |s| >= 2 && ((s[0] == ASTERISK && s[1] == SLASH) || CommentCloses(s[1..]))
  }

  /** A block comment at the start that the end of the text cuts short. */
  predicate OpenComment(s: Text)
    requires s != []
  {
    KindOf(s) == BlockComment && !CommentCloses(s[2..])
  }

  lemma {:induction false} CommentSame(u: Text, v: Text, u': Text, v': Text)
    requires Alike(u, u') && CommentLength(u + v) == |u|
    requires Continues(v, v') || CommentCloses(u + v)
    ensures CommentLength(u' + v') == |u|
  {
    var s, s' := u + v, u' + v';
    if u == [] {
      assert s == v && s' == v';
    } else {
      assert s[0] == u[0] && s'[0] == u'[0] && AlikeUnit(u[0], u'[0]);
      if |u| == 1 {
        assert s[1..] == v && s'[1..] == v';
      } else {
        assert s[1] == u[1] && s'[1] == u'[1] && AlikeUnit(u[1], u'[1]);
        assert s[1..] == u[1..] + v && s'[1..] == u'[1..] + v';
        if !(u[0] == ASTERISK && u[1] == SLASH) {
          CommentSame(u[1..], v, u'[1..], v');
        }
      }
    }
  }

  /** What ends a comment is found within it, or the comment runs to the end. */
  lemma {:induction false} CommentEnds(s: Text)
    ensures CommentCloses(s) || CommentLength(s) == |s|
  {
    if s != [] {
      CommentEnds(s[1..]);
    }
  }

  lemma {:induction false} OpenCommentGoesOn(s: Text, w: Text)
    requires !CommentCloses(s) && (forall i | 0 <= i < |w| :: IsSpace(w[i]))
    ensures CommentLength(s + w) == |s| + |w|
  {
    if s == [] {
      assert s + w == w;
      if w != [] {
        assert w[1..] == [] + w[1..];
        OpenCommentGoesOn([], w[1..]);
      }
    } else {
      assert (s + w)[1..] == s[1..] + w;
      OpenCommentGoesOn(s[1..], w);
    }
  }

  // ---------- one round on nearly the same text ----------

  lemma KindSame(u: Text, v: Text, u': Text, v': Text)
    requires u != [] && Alike(u, u') && |u| == ChunkLength(u + v)
    requires Continues(v, v') || SpaceFirst(v')
    ensures KindOf(u' + v') == KindOf(u + v)
  {
    hide Scan, Span, CommentLength;
    var s, s' := u + v, u' + v';
    assert s[0] == u[0] && s'[0] == u'[0] && AlikeUnit(u[0], u'[0]);
    if |u| >= 2 {
      assert s[1] == u[1] && s'[1] == u'[1] && AlikeUnit(u[1], u'[1]);
    } else {
      assert |s| >= 2 ==> s[1] == v[0];
      assert |s'| >= 2 ==> s'[1] == v'[0];
    }
  }

  lemma AlikeLower(s: Text, t: Text)
    requires Alike(s, t)
    ensures Lower(s) == Lower(t)
  {
    forall i | 0 <= i < |s| ensures Lower(s)[i] == Lower(t)[i] {
      assert AlikeUnit(s[i], t[i]);
    }
  }

  /** Two units tell the kind; one tells a literal. */
  lemma KindByStart(u: Text, v: Text, v': Text)
    requires u != [] && (|u| >= 2 || KindOf(u + v) == StringLiteral || KindOf(u + v) == QuotedName)
    ensures KindOf(u + v') == KindOf(u + v)
  {
    assert (u + v)[0] == u[0] && (u + v')[0] == u[0];
    assert |u| >= 2 ==> (u + v)[1] == u[1] && (u + v')[1] == u[1];
  }

  lemma OpeningUnit(s: Text)
    requires s != [] && KindOf(s) == QuotedName
    ensures !IsLetter(s[0]) && !IsLetter(Closing(s[0])) && !IsSpace(Closing(s[0]))
  {
  }

  lemma PredicatesCaseBlind()
    ensures CaseBlind(IsNotNewline) && CaseBlind(IsWordUnit) && CaseBlind(IsNumberUnit)
    ensures !IsSpace(APOSTROPHE)
  {
  }

  lemma StopsAtSpace(c: CodeUnit)
    requires IsSpace(c)
    ensures !IsWordUnit(c) && !IsNumberUnit(c) && c != APOSTROPHE
  {
  }

  predicate Goes(u: Text, v: Text, v': Text)
    requires u != []
  {
    Continues(v, v') || (SpaceFirst(v') && !Unterminated(u + v) && KindOf(u + v) != LineComment
                         && !OpenComment(u + v))
  }

  lemma CommentRoundSame(u: Text, v: Text, u': Text, v': Text)
    requires u != [] && Alike(u, u') && |u| == ChunkLength(u + v) && Goes(u, v, v')
    requires KindOf(u + v) == KindOf(u' + v') && KindOf(u + v) in {LineComment, BlockComment}
    ensures ChunkLength(u' + v') == |u|
  {
    hide Scan, Span, CommentLength, CommentCloses, KindOf, CaseBlind, IsSpace, AlikeUnit;
    var s, s' := u + v, u' + v';
    PredicatesCaseBlind();
    assert s[2..] == u[2..] + v && s'[2..] == u'[2..] + v';
    if KindOf(s) == LineComment {
      SpanSame(u[2..], v, u'[2..], v', IsNotNewline);
    } else {
      CommentSame(u[2..], v, u'[2..], v');
    }
  }

  lemma LiteralRoundSame(u: Text, v: Text, u': Text, v': Text)
    requires u != [] && Alike(u, u') && |u| == ChunkLength(u + v) && Goes(u, v, v')
    requires KindOf(u + v) == KindOf(u' + v') && KindOf(u + v) in {StringLiteral, QuotedName}
    requires KindOf(u + v) == StringLiteral ==> u == u'
    ensures ChunkLength(u' + v') == |u| && ChunkTokens(u' + v') == ChunkTokens(u + v)
    ensures Unterminated(u' + v') == Unterminated(u + v)
  {
    hide Scan, Span, CommentLength, Lower, CommentCloses, KindOf, IsSpace;
    var s, s' := u + v, u' + v';
    PredicatesCaseBlind();
    assert s[0] == u[0] && s'[0] == u'[0] && AlikeUnit(u[0], u'[0]);
    assert s[1..] == u[1..] + v && s'[1..] == u'[1..] + v';
    if KindOf(s) == StringLiteral {
      ScanSame(u[1..], v, u'[1..], v', APOSTROPHE);
    } else {
      OpeningUnit(s);
      ScanSame(u[1..], v, u'[1..], v', Closing(u[0]));
      AlikeLower(Scan(s[1..], Closing(u[0])).value, Scan(s'[1..], Closing(u[0])).value);
    }
  }

  lemma WordRoundSame(u: Text, v: Text, u': Text, v': Text)
    requires u != [] && Alike(u, u') && |u| == ChunkLength(u + v) && Goes(u, v, v')
    requires KindOf(u + v) == KindOf(u' + v') && KindOf(u + v) in {Word, Number}
    ensures ChunkLength(u' + v') == |u|
  {
    hide Scan, Span, CommentLength, CommentCloses, KindOf, CaseBlind, IsSpace, AlikeUnit;
    var s, s' := u + v, u' + v';
    PredicatesCaseBlind();
    if SpaceFirst(v') {
      StopsAtSpace(v'[0]);
    }
    assert s[1..] == u[1..] + v && s'[1..] == u'[1..] + v';
    SpanSame(u[1..], v, u'[1..], v', if KindOf(s) == Word then IsWordUnit else IsNumberUnit);
  }

  /** What the first round takes and pushes does not depend on letter case, nor on what comes after. */
  lemma RoundSame(u: Text, v: Text, u': Text, v': Text)
    requires u != [] && Alike(u, u') && |u| == ChunkLength(u + v) && Goes(u, v, v')
    requires KindOf(u + v) == StringLiteral ==> u == u'
    ensures ChunkLength(u' + v') == |u| && ChunkTokens(u' + v') == ChunkTokens(u + v)
    ensures Unterminated(u' + v') == Unterminated(u + v)
  {
    hide Scan, Span, CommentLength, Lower, CommentCloses, KindOf, IsSpace, AlikeUnit;
    var s, s' := u + v, u' + v';
    KindSame(u, v, u', v');
    AlikeLower(u, u');
    assert s[..|u|] == u && s'[..|u|] == u';
    match KindOf(s)
    case LineComment => CommentRoundSame(u, v, u', v');
    case BlockComment => CommentRoundSame(u, v, u', v');
    case StringLiteral => LiteralRoundSame(u, v, u', v');
    case QuotedName => LiteralRoundSame(u, v, u', v');
    case Word => WordRoundSame(u, v, u', v');
    case Number => WordRoundSame(u, v, u', v');
    case _ =>
  }

  // ---------- letter case ----------

  /** b is a with some letters outside its single-quoted literals in the other case. */
  predicate Recased(a: Text, b: Text) {
    if a == [] then b == []
    else
      var k := ChunkLength(a);
      && k <= |b| && Alike(a[..k], b[..k]) && (KindOf(a) == StringLiteral ==> a[..k] == b[..k])
      && Recased(a[k..], b[k..])
  }

  lemma {:induction false} RecasedContinues(a: Text, b: Text)
    requires Recased(a, b)
    ensures Continues(a, b)
  {
    if a != [] {
      var k := ChunkLength(a);
      assert a[0] == a[..k][0] && b[0] == b[..k][0];
    }
  }

  /** Changing letter case outside single-quoted literals leaves the token list as it was. */
  lemma {:induction false} CaseDoesNotMatter(a: Text, b: Text)
    requires Recased(a, b)
    ensures Tokens(a) == Tokens(b)
  {
    if a != [] {
      hide ChunkTokens, KindOf, Unterminated;
      var k := ChunkLength(a);
      RecasedContinues(a[k..], b[k..]);
      assert a == a[..k] + a[k..] && b == b[..k] + b[k..];
      RoundSame(a[..k], a[k..], b[..k], b[k..]);
      CaseDoesNotMatter(a[k..], b[k..]);
    }
  }

  // ---------- white space ----------

  predicate AllSpace(w: Text) {
    forall i | 0 <= i < |w| :: IsSpace(w[i])
  }

  /** p is where some round of the tokenizer starts or the last one ends. */
  predicate Boundary(s: Text, p: nat) {
    p == 0 || (s != [] && ChunkLength(s) <= p && Boundary(s[ChunkLength(s)..], p - ChunkLength(s)))
  }

  /** The text ends inside a string literal or a quoted name. */
  predicate EndsOpen(s: Text) {
    s != [] && (if ChunkLength(s) == |s| then Unterminated(s) else EndsOpen(s[ChunkLength(s)..]))
  }

  lemma {:induction false} BoundaryInside(s: Text, p: nat)
    requires Boundary(s, p)
    ensures p <= |s|
  {
    if p > 0 {
      BoundaryInside(s[ChunkLength(s)..], p - ChunkLength(s));
    }
  }

  lemma {:induction false} BlankPrefix(w: Text, s: Text)
    requires AllSpace(w)
    ensures Tokens(w + s) == Tokens(s)
  {
    if w == [] {
      assert w + s == s;
    } else {
      assert (w + s)[0] == w[0] && (w + s)[1..] == w[1..] + s;
      BlankPrefix(w[1..], s);
    }
  }

  function Insert(s: Text, p: nat, w: Text): Text
    requires p <= |s|
  {
    s[..p] + w + s[p..]
  }

  lemma LineCommentAbsorbs(u: Text, w: Text, v: Text)
    requires u != [] && |u| == ChunkLength(u + v) && KindOf(u + v) == LineComment && AllSpace(w)
    ensures Tokens(u + w + v) == Tokens(u + v)
  {
    hide Span, IsSpace, KindOf, ChunkLength;
    LineCommentGrows(u, w, v);
    var m := Span(w + v, IsNotNewline);
    assert (u + v)[|u|..] == v && (u + w + v)[|u| + m..] == w[m..] + v;
    BlankPrefix(w[m..], v);
    CommentHasNoTokens(u + v);
    CommentHasNoTokens(u + w + v);
  }

  lemma CommentHasNoTokens(s: Text)
    requires s != [] && KindOf(s) == LineComment
    ensures Tokens(s) == Tokens(s[ChunkLength(s)..])
  {
    hide Scan, Span, CommentLength, Lower, KindOf, ChunkLength;
  }

  lemma LineChunk(s: Text)
    requires s != [] && KindOf(s) == LineComment
    ensures |s| >= 2 && ChunkLength(s) == 2 + Span(s[2..], IsNotNewline)
  {
    hide Span, Scan, CommentLength;
  }

  lemma LineCommentGrows(u: Text, w: Text, v: Text)
    requires u != [] && |u| == ChunkLength(u + v) && KindOf(u + v) == LineComment && AllSpace(w)
    ensures Span(w + v, IsNotNewline) <= |w| && KindOf(u + w + v) == LineComment
    ensures ChunkLength(u + w + v) == |u| + Span(w + v, IsNotNewline)
  {
    hide Span, IsSpace, KindOf, ChunkLength, AllSpace;
    assert u + w + v == u + (w + v);
    LineChunk(u + v);
    KindByStart(u, v, w + v);
    LineChunk(u + (w + v));
    SpanInside(u, v);
    assert (u + (w + v))[2..] == u[2..] + (w + v);
    SpanPast(u[2..], w + v, IsNotNewline);
    SpanStopsIn(w, v);
  }

  lemma SpanInside(u: Text, v: Text)
    requires |u| >= 2 && Span((u + v)[2..], IsNotNewline) == |u| - 2
    ensures (forall i | 0 <= i < |u[2..]| :: IsNotNewline(u[2..][i])) && Span(v, IsNotNewline) == 0
  {
    hide Span;
    var s := u[2..] + v;
    assert (u + v)[2..] == s;
    forall i | 0 <= i < |u[2..]| ensures IsNotNewline(u[2..][i]) {
      assert s[i] == u[2..][i];
    }
    SpanPast(u[2..], v, IsNotNewline);
  }

  lemma SpanStopsIn(w: Text, v: Text)
    requires Span(v, IsNotNewline) == 0
    ensures Span(w + v, IsNotNewline) <= |w|
  {
    assert v != [] ==> (w + v)[|w|] == v[0];
  }

  lemma OpenCommentAbsorbs(u: Text, w: Text)
    requires u != [] && OpenComment(u) && AllSpace(w)
    ensures Tokens(u + w) == [] && Tokens(u) == [] && ChunkLength(u) == |u|
  {
    hide Scan, Span, CommentLength, CommentCloses, Lower;
    assert (u + w)[0] == u[0] && (u + w)[1] == u[1] && (u + w)[2..] == u[2..] + w;
    OpenCommentGoesOn(u[2..], w);
    CommentEnds(u[2..]);
  }

  /** White space added inside a literal that nothing closes becomes part of it. */
  lemma OpenLiteralGrows(u: Text, w: Text)
    requires u != [] && Unterminated(u) && ChunkLength(u) == |u| && AllSpace(w) && w != []
    ensures Tokens(u + w) != Tokens(u)
  {
    hide Span, CommentLength, Lower, Scan, KindOf, IsSpace;
    var closing := if KindOf(u) == StringLiteral then APOSTROPHE else Closing(u[0]);
    assert (u + w)[0] == u[0] && (u + w)[1..] == u[1..] + w && u + [] == u;
    KindByStart(u, [], w);
    PredicatesCaseBlind();
    if KindOf(u) == QuotedName {
      OpeningUnit(u);
    }
    OpenScanGrows(u[1..], w, closing);
    assert u[|u|..] == [] && (u + w)[|u + w|..] == [];
    LowerLength(Scan(u[1..], closing).value);
    LowerLength(Scan(u[1..] + w, closing).value);
    assert |Tokens(u)[0]| < |Tokens(u + w)[0]|;
  }

  lemma LowerLength(s: Text)
    ensures |Lower(s)| == |s|
  {
  }

  lemma {:induction false} OpenScanGrows(s: Text, w: Text, closing: CodeUnit)
    requires !Scan(s, closing).closed && AllSpace(w) && !IsSpace(closing)
    ensures !Scan(s + w, closing).closed && |Scan(s + w, closing).value| == |Scan(s, closing).value| + |w|
  {
    hide Scan, IsSpace;
    if s == [] {
      ScanEmpty(s, closing);
      if w == [] {
        assert s + w == [];
      } else {
        assert s + w == [w[0]] + w[1..] && [] + w[1..] == w[1..];
        ScanPlain(w[0], w[1..], closing);
        OpenScanGrows([], w[1..], closing);
      }
    } else if s[0] == closing {
      OpenStartsDoubled(s, closing);
      assert s == [closing, closing] + s[2..] && s + w == [closing, closing] + (s[2..] + w);
      ScanDoubled(closing, s[2..]);
      ScanDoubled(closing, s[2..] + w);
      OpenScanGrows(s[2..], w, closing);
    } else {
      assert s == [s[0]] + s[1..] && s + w == [s[0]] + (s[1..] + w);
      ScanPlain(s[0], s[1..], closing);
      ScanPlain(s[0], s[1..] + w, closing);
      OpenScanGrows(s[1..], w, closing);
    }
  }

  lemma OpenStartsDoubled(s: Text, closing: CodeUnit)
    requires s != [] && s[0] == closing && !Scan(s, closing).closed
    ensures |s| >= 2 && s[1] == closing
  {
  }

  /** White space inserted where a chunk ends changes the tokens only at the end of a text cut short in a literal. */
  lemma {:induction false} SpaceDoesNotMatter(s: Text, p: nat, w: Text)
    requires Boundary(s, p) && p <= |s| && AllSpace(w) && w != []
    ensures Tokens(Insert(s, p, w)) == Tokens(s) <==> !(p == |s| && EndsOpen(s))
  {
    hide ChunkTokens, KindOf, Unterminated, ChunkLength, CommentCloses;
    if p == 0 {
      assert Insert(s, p, w) == w + s;
      BlankPrefix(w, s);
    } else {
      var k := ChunkLength(s);
      var u, v := s[..k], s[k..];
      BoundaryInside(v, p - k);
      assert s == u + v;
      if p == k {
        InsertAfterFirst(s, w);
      } else {
        var v' := Insert(v, p - k, w);
        assert Insert(s, p, w) == u + v' && v'[0] == v[0];
        RoundSame(u, v, u, v');
        assert (u + v')[k..] == v';
        SpaceDoesNotMatter(v, p - k, w);
        Cancel(ChunkTokens(s), Tokens(v), Tokens(v'));
      }
    }
  }

  lemma Cancel(a: seq<Text>, b: seq<Text>, c: seq<Text>)
    ensures a + b == a + c <==> b == c
  {
    if a + b == a + c {
      assert (a + b)[|a|..] == b && (a + c)[|a|..] == c;
    }
  }

  lemma InsertAfterFirst(s: Text, w: Text)
    requires s != [] && AllSpace(w) && w != []
    ensures Tokens(Insert(s, ChunkLength(s), w)) == Tokens(s) <==> !(ChunkLength(s) == |s| && Unterminated(s))
  {
    hide ChunkTokens, CommentCloses, KindOf, ChunkLength, Unterminated, Tokens, AllSpace;
    var k := ChunkLength(s);
    var u, v := s[..k], s[k..];
    assert s == u + v;
    if Unterminated(s) {
      UnterminatedIsLast(s);
      assert u == s && v == [] && Insert(s, k, w) == s + w;
      OpenLiteralGrows(s, w);
    } else if KindOf(s) == LineComment {
      LineCommentAbsorbs(u, w, v);
    } else if OpenComment(s) {
      OpenCommentAbsorbs(s, w);
      assert u == s && v == [] && Insert(s, k, w) == s + w;
    } else {
      InsertAfterClosed(u, w, v);
      assert u + w + v == u + (w + v);
    }
  }

  lemma InsertAfterClosed(u: Text, w: Text, v: Text)
    requires u != [] && ChunkLength(u + v) == |u| && AllSpace(w) && w != []
    requires !Unterminated(u + v) && KindOf(u + v) != LineComment && !OpenComment(u + v)
    ensures Tokens(u + (w + v)) == Tokens(u + v)
  {
    hide ChunkTokens, CommentCloses, KindOf, ChunkLength, Unterminated, IsSpace;
    assert (w + v)[0] == w[0] && SpaceFirst(w + v);
    RoundSame(u, v, u, w + v);
    assert (u + (w + v))[|u|..] == w + v && (u + v)[|u|..] == v;
    BlankPrefix(w, v);
  }

  lemma UnterminatedIsLast(s: Text)
    requires s != [] && Unterminated(s)
    ensures ChunkLength(s) == |s|
  {
  }
}
