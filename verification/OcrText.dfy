/** OCR text: normalising it, wrapping pages in their envelope, and reading page-aware lines back. */
module OcrText {
  import opened Primitives
  import opened Text

  // ---------- lines ----------

  function Split(s: Text): (r: seq<Text>)
    ensures r != []
  {
    if s == [] then [[]]
    else
      var rest := Split(s[1..]);
      if s[0] == NEWLINE then [[]] + rest else [[s[0]] + rest[0]] + rest[1..]
  }

  function NonEmpty(lines: seq<Text>): (r: seq<Text>) {
    if lines == [] then [] else (if lines[0] == [] then [] else [lines[0]]) + NonEmpty(lines[1..])
  }

  function LinesOf(s: Text): (r: seq<Text>) {
    NonEmpty(Split(s))
  }

  // ---------- normalising ----------

  function RemoveNuls(s: Text): (r: Text) {
    if s == [] then [] else (if s[0] == 0 then [] else [s[0]]) + RemoveNuls(s[1..])
  }

  function PlainUnit(c: CodeUnit): (r: CodeUnit) {
    if c == 0xA0 || c == 0x2007 || c == 0x202F then SPACE
    else if 0x2010 <= c <= 0x2014 then HYPHEN
    else c
  }

  function PlainUnits(s: Text): (r: Text)
    ensures |r| == |s| && forall i | 0 <= i < |r| :: r[i] == PlainUnit(s[i])
  {
    if s == [] then [] else [PlainUnit(s[0])] + PlainUnits(s[1..])
  }

  function Clean(s: Text): (r: Text) {
    PlainUnits(NormalizeNewlines(RemoveNuls(s)))
  }

  predicate IsBlank(c: CodeUnit) {
    c == TAB || c == SPACE
  }

  /** Every run of tabs and spaces becomes one space. */
  function Collapse(s: Text): (r: Text) {
    if s == [] then []
    else if IsBlank(s[0]) then (if |s| >= 2 && IsBlank(s[1]) then Collapse(s[1..]) else [SPACE] + Collapse(s[1..]))
    else [s[0]] + Collapse(s[1..])
  }

  function Tidy(line: Text): (r: Text) {
    Trim(Collapse(line))
  }

  function TidyAll(lines: seq<Text>): (r: seq<Text>)
    ensures |r| == |lines|
  {
    if lines == [] then [] else [Tidy(lines[0])] + TidyAll(lines[1..])
  }

  /** Three or more newlines in a row become two. */
  function Squeeze(s: Text): (r: Text) {
    if s == [] then []
    else if |s| >= 3 && s[0] == NEWLINE && s[1] == NEWLINE && s[2] == NEWLINE then Squeeze(s[1..])
    else [s[0]] + Squeeze(s[1..])
  }

  function NormalizeOcrText(text: Text): (r: Text) {
    Trim(Squeeze(Join(TidyAll(Split(Clean(text))), [NEWLINE])))
  }

  // ---------- splitting and joining ----------

  lemma {:induction false} SplitJoined(a: Text, b: Text)
    ensures Split(a + [NEWLINE] + b) == Split(a) + Split(b)
  {
    var s := a + [NEWLINE] + b;
    if a == [] {
      assert s[1..] == b;
    } else {
      assert s[1..] == a[1..] + [NEWLINE] + b;
      SplitJoined(a[1..], b);
    }
  }

  lemma {:induction false} SplitOne(line: Text)
    requires NEWLINE !in line
    ensures Split(line) == [line]
  {
    if line != [] {
      SplitOne(line[1..]);
      assert line == [line[0]] + line[1..];
    }
  }

  ghost predicate NoNewlines(lines: seq<Text>) {
    forall i | 0 <= i < |lines| :: NEWLINE !in lines[i]
  }

  lemma {:induction false} SplitOfJoin(lines: seq<Text>)
    requires lines != [] && NoNewlines(lines)
    ensures Split(Join(lines, [NEWLINE])) == lines
  {
    SplitOne(lines[0]);
    if |lines| > 1 {
      SplitJoined(lines[0], Join(lines[1..], [NEWLINE]));
      SplitOfJoin(lines[1..]);
    }
  }

  lemma {:induction false} JoinOfSplit(s: Text)
    ensures Join(Split(s), [NEWLINE]) == s && NoNewlines(Split(s))
  {
    if s != [] {
      JoinOfSplit(s[1..]);
      assert s == [s[0]] + s[1..];
      var rest := Split(s[1..]);
      if s[0] != NEWLINE {
        assert ([[s[0]] + rest[0]] + rest[1..])[1..] == rest[1..];
      }
    }
  }

  lemma {:induction false} NonEmptyJoined(a: seq<Text>, b: seq<Text>)
    ensures NonEmpty(a + b) == NonEmpty(a) + NonEmpty(b)
  {
    if a == [] {
      assert a + b == b;
    } else {
      assert (a + b)[1..] == a[1..] + b;
      NonEmptyJoined(a[1..], b);
    }
  }

  lemma {:induction false} TidyAllJoined(a: seq<Text>, b: seq<Text>)
    ensures TidyAll(a + b) == TidyAll(a) + TidyAll(b)
  {
    hide Tidy;
    if a == [] {
      assert a + b == b;
    } else {
      assert (a + b)[1..] == a[1..] + b;
      TidyAllJoined(a[1..], b);
    }
  }

  /** The semantic lines of a text: tidied, and the empty ones left out. */
  function TidyLines(text: Text): (r: seq<Text>) {
    NonEmpty(TidyAll(Split(Clean(text))))
  }

  // ---------- a line that is tidy ----------

  ghost predicate Collapsed(s: Text) {
    && (forall i | 0 <= i < |s| :: s[i] != TAB)
    && (forall i | 0 < i < |s| :: !(s[i - 1] == SPACE && s[i] == SPACE))
  }

  lemma {:induction false} CollapseCollapses(s: Text)
    ensures Collapsed(Collapse(s)) && (NEWLINE !in s ==> NEWLINE !in Collapse(s))
    ensures Collapse(s) != [] && Collapse(s)[0] == SPACE ==> s != [] && IsBlank(s[0])
  {
    if s != [] {
      CollapseCollapses(s[1..]);
    }
  }

  lemma {:induction false} CollapsedStays(s: Text)
    requires Collapsed(s)
    ensures Collapse(s) == s
  {
    if s != [] {
      assert |s| >= 2 ==> !(s[1 - 1] == SPACE && s[1] == SPACE);
      CollapsedStays(s[1..]);
      assert s == [s[0]] + s[1..];
    }
  }

  ghost predicate EdgesVisible(s: Text) {
    s == [] || (!IsSpace(s[0]) && !IsSpace(s[|s| - 1]))
  }

  lemma TrimStays(s: Text)
    requires EdgesVisible(s)
    ensures Trim(s) == s
  {
  }

  lemma TrimIsPart(s: Text) returns (i: nat)
    ensures i + |Trim(s)| <= |s| && Trim(s) == s[i..i + |Trim(s)|]
    ensures EdgesVisible(Trim(s))
  {
    hide TrimStart, TrimEnd, IsSpace;
    var t := TrimStart(s);
    var u := TrimEnd(t);
    i := |s| - |t|;
    assert t == s[i..] && u == t[..|u|];
    assert s[i..][..|u|] == s[i..i + |u|];
  }

  /** A tidied line is collapsed, has visible edges and no newline, and tidying it again changes nothing. */
  lemma TidyIsTidy(line: Text)
    requires NEWLINE !in line
    ensures var t := Tidy(line); Tidy(t) == t && EdgesVisible(t) && NEWLINE !in t
  {
    hide Trim, Collapse;
    var t := Tidy(line);
    CollapseCollapses(line);
    var i := TrimIsPart(Collapse(line));
    assert Collapsed(t);
    CollapsedStays(t);
    TrimStays(t);
  }

  // ---------- the normal form ----------

  /** No NUL, no carriage return, no no-break space and no typographic dash. */
  predicate IsCleanUnit(c: CodeUnit) {
    c !in {0x00, 0x0D, 0xA0, 0x2007, 0x202F, 0x2010, 0x2011, 0x2012, 0x2013, 0x2014}
  }

  ghost predicate AllClean(s: Text) {
    forall i | 0 <= i < |s| :: IsCleanUnit(s[i])
  }

  ghost predicate AllTidy(lines: seq<Text>) {
    forall i | 0 <= i < |lines| :: Tidy(lines[i]) == lines[i] && EdgesVisible(lines[i])
  }

  ghost predicate LinesTidy(s: Text) {
    AllTidy(Split(s))
  }

  ghost predicate NoTripleNewline(s: Text) {
    forall i | 2 <= i < |s| :: !(s[i - 2] == NEWLINE && s[i - 1] == NEWLINE && s[i] == NEWLINE)
  }

  /** Clean units, tidy lines, never two empty lines together, and visible edges. */
  ghost predicate IsNormal(s: Text) {
    AllClean(s) && LinesTidy(s) && NoTripleNewline(s) && EdgesVisible(s)
  }

  lemma {:induction false} CleanCleans(s: Text)
    ensures AllClean(Clean(s))
  {
    forall i | 0 <= i < |Clean(s)| ensures IsCleanUnit(Clean(s)[i]) {
      NulsGone(s);
      ReturnsGone(RemoveNuls(s));
    }
  }

  lemma {:induction false} NulsGone(s: Text)
    ensures 0 !in RemoveNuls(s)
  {
    if s != [] {
      NulsGone(s[1..]);
    }
  }

  lemma {:induction false} ReturnsGone(s: Text)
    requires 0 !in s
    ensures RETURN !in NormalizeNewlines(s) && 0 !in NormalizeNewlines(s)
    decreases |s|
  {
    if s != [] {
      ReturnsGone(if s[0] == RETURN && |s| >= 2 && s[1] == NEWLINE then s[2..] else s[1..]);
    }
  }

  lemma {:induction false} CleanStays(s: Text)
    requires AllClean(s)
    ensures Clean(s) == s
  {
    if s != [] {
      assert IsCleanUnit(s[0]);
      CleanStays(s[1..]);
      assert s == [s[0]] + s[1..];
      assert RemoveNuls(s)[1..] == RemoveNuls(s[1..]);
      assert NormalizeNewlines(RemoveNuls(s))[1..] == NormalizeNewlines(RemoveNuls(s[1..]));
    }
  }

  lemma {:induction false} TidyAllStays(lines: seq<Text>)
    requires forall i | 0 <= i < |lines| :: Tidy(lines[i]) == lines[i]
    ensures TidyAll(lines) == lines
  {
    hide Tidy;
    if lines != [] {
      TidyAllStays(lines[1..]);
      assert lines == [lines[0]] + lines[1..];
    }
  }

  lemma {:induction false} SqueezeStays(s: Text)
    requires NoTripleNewline(s)
    ensures Squeeze(s) == s
  {
    if s != [] {
      assert |s| >= 3 ==> !(s[2 - 2] == NEWLINE && s[2 - 1] == NEWLINE && s[2] == NEWLINE);
      assert NoTripleNewline(s[1..]) by {
        forall i | 2 <= i < |s[1..]| ensures !(s[1..][i - 2] == NEWLINE && s[1..][i - 1] == NEWLINE
            && s[1..][i] == NEWLINE) {
          assert !(s[i + 1 - 2] == NEWLINE && s[i + 1 - 1] == NEWLINE && s[i + 1] == NEWLINE);
        }
      }
      SqueezeStays(s[1..]);
      assert s == [s[0]] + s[1..];
    }
  }

  lemma NormalStays(s: Text)
    requires IsNormal(s)
    ensures NormalizeOcrText(s) == s
  {
    hide Clean, Trim, Tidy, IsCleanUnit;
    CleanStays(s);
    TidyAllStays(Split(s));
    JoinOfSplit(s);
    SqueezeStays(s);
    TrimStays(s);
  }

  // ---------- normalising gives the normal form ----------

  ghost predicate UnitsFrom(t: Text, s: Text) {
    forall c | c in t :: c in s || c == SPACE || c == NEWLINE
  }

  lemma {:induction false} CollapseUnits(s: Text)
    ensures UnitsFrom(Collapse(s), s)
  {
    if s != [] {
      CollapseUnits(s[1..]);
    }
  }

  lemma TidyUnits(s: Text)
    ensures UnitsFrom(Tidy(s), s)
  {
    hide Trim, Collapse;
    CollapseUnits(s);
    var i := TrimIsPart(Collapse(s));
  }

  lemma {:induction false} TidyAllUnits(s: Text)
    ensures UnitsFrom(Join(TidyAll(Split(s)), [NEWLINE]), s)
    ensures NoNewlines(TidyAll(Split(s)))
    ensures AllTidy(TidyAll(Split(s)))
  {
    hide Tidy;
    JoinOfSplit(s);
    TidyLinesUnits(Split(s));
  }

  lemma {:induction false} TidyLinesUnits(lines: seq<Text>)
    requires NoNewlines(lines)
    ensures UnitsFrom(Join(TidyAll(lines), [NEWLINE]), Join(lines, [NEWLINE]))
    ensures NoNewlines(TidyAll(lines))
    ensures AllTidy(TidyAll(lines))
  {
    hide Tidy, EdgesVisible;
    if lines != [] {
      TidyUnits(lines[0]);
      TidyIsTidy(lines[0]);
      TidyLinesUnits(lines[1..]);
    }
  }

  lemma {:induction false} SqueezeUnits(s: Text)
    ensures forall c | c in Squeeze(s) :: c in s
  {
    if s != [] {
      SqueezeUnits(s[1..]);
    }
  }

  /** Squeezing keeps the first line and the non-empty lines, and drops empty ones only. */
  lemma {:induction false} SqueezeLines(s: Text)
    ensures Split(Squeeze(s))[0] == Split(s)[0]
    ensures NonEmpty(Split(Squeeze(s))[1..]) == NonEmpty(Split(s)[1..])
  {
    hide Split, Squeeze;
    SplitStep(s);
    SqueezeStep(s);
    if s != [] {
      SqueezeLines(s[1..]);
      SplitStep(s[1..]);
      var lines, squeezed := Split(s[1..]), Split(Squeeze(s[1..]));
      assert squeezed == [squeezed[0]] + squeezed[1..] && lines == [lines[0]] + lines[1..];
      SqueezeOne(s[0], Squeeze(s[1..]));
    }
  }

  lemma {:induction false} SqueezeTidy(s: Text)
    requires AllTidy(Split(s)[1..])
    ensures AllTidy(Split(Squeeze(s))[1..])
  {
    hide Split, Squeeze, Tidy, EdgesVisible, NonEmpty;
    SplitStep(s);
    SqueezeStep(s);
    if s != [] {
      var lines, squeezed := Split(s[1..]), Split(Squeeze(s[1..]));
      assert lines == [lines[0]] + lines[1..] && squeezed == [squeezed[0]] + squeezed[1..];
      assert AllTidy(lines[1..]);
      SqueezeTidy(s[1..]);
      SqueezeLines(s[1..]);
      SqueezeOne(s[0], Squeeze(s[1..]));
    }
  }

  lemma SplitStep(s: Text)
    ensures s == [] ==> Split(s) == [[]]
    ensures s != [] && s[0] == NEWLINE ==> Split(s) == [[]] + Split(s[1..]) && Split(s)[1..] == Split(s[1..])
    ensures s != [] && s[0] != NEWLINE ==> Split(s) == [[s[0]] + Split(s[1..])[0]] + Split(s[1..])[1..]
    ensures s != [] && s[0] != NEWLINE ==> Split(s)[1..] == Split(s[1..])[1..]
  {
  }

  lemma SqueezeStep(s: Text)
    ensures s == [] ==> Squeeze(s) == []
    ensures s != [] ==> Squeeze(s) == [s[0]] + Squeeze(s[1..])
                        || (s[0] == NEWLINE && |s| >= 3 && s[1] == NEWLINE && Squeeze(s) == Squeeze(s[1..]))
  {
  }

  lemma SqueezeOne(c: CodeUnit, t: Text)
    ensures Split([c] + t) == if c == NEWLINE then [[]] + Split(t) else [[c] + Split(t)[0]] + Split(t)[1..]
    ensures Split([c] + t)[1..] == if c == NEWLINE then Split(t) else Split(t)[1..]
  {
    assert ([c] + t)[1..] == t;
  }

  lemma {:induction false} SqueezeNoTriple(s: Text)
    ensures NoTripleNewline(Squeeze(s))
    ensures s != [] ==> Squeeze(s) != [] && Squeeze(s)[0] == s[0]
    ensures |Squeeze(s)| >= 2 && Squeeze(s)[0] == NEWLINE && Squeeze(s)[1] == NEWLINE ==> |s| >= 2 && s[1] == NEWLINE
  {
    if s != [] {
      SqueezeNoTriple(s[1..]);
    }
  }

  // ---------- trimming whole lines away ----------

  lemma {:induction false} TrimStartLines(s: Text)
    requires LinesTidy(s)
    ensures LinesTidy(TrimStart(s)) && LinesOf(TrimStart(s)) == LinesOf(s)
  {
    hide Tidy, Split, EdgesVisible, IsSpace;
    if s != [] && IsSpace(s[0]) {
      SplitStep(s);
      SpaceFirstIsNewline(s);
      assert forall i | 0 <= i < |Split(s[1..])| :: Split(s)[i + 1] == Split(s[1..])[i];
      TrimStartLines(s[1..]);
    }
  }

  lemma SpaceFirstIsNewline(s: Text)
    requires LinesTidy(s) && s != [] && IsSpace(s[0])
    ensures s[0] == NEWLINE
  {
    hide Tidy, Split, IsSpace;
    SplitStep(s);
    assert EdgesVisible(Split(s)[0]);
  }

  lemma {:induction false} LastLineEnds(a: Text, c: CodeUnit)
    requires c != NEWLINE
    ensures var lines := Split(a + [c]); var last := lines[|lines| - 1]; last != [] && last[|last| - 1] == c
  {
    hide Split;
    var s := a + [c];
    SplitStep(s);
    SplitStep([]);
    if a == [] {
      assert s[1..] == [];
    } else {
      assert s[1..] == a[1..] + [c];
      LastLineEnds(a[1..], c);
    }
  }

  lemma {:induction false} TrimEndLines(s: Text)
    requires LinesTidy(s)
    ensures LinesTidy(TrimEnd(s)) && LinesOf(TrimEnd(s)) == LinesOf(s)
  {
    hide Tidy, Split, EdgesVisible, IsSpace;
    if s != [] && IsSpace(s[|s| - 1]) {
      var a, c := s[..|s| - 1], s[|s| - 1];
      assert s == a + [c];
      SpaceLastIsNewline(a, c);
      SplitJoined(a, []);
      SplitStep([]);
      assert s == a + [NEWLINE] + [] && Split(s) == Split(a) + [[]];
      assert forall i | 0 <= i < |Split(a)| :: Split(s)[i] == Split(a)[i];
      NonEmptyJoined(Split(a), [[]]);
      TrimEndLines(a);
    }
  }

  lemma SpaceLastIsNewline(a: Text, c: CodeUnit)
    requires LinesTidy(a + [c]) && IsSpace(c)
    ensures c == NEWLINE
  {
    hide Tidy, Split, IsSpace;
    var lines := Split(a + [c]);
    assert EdgesVisible(lines[|lines| - 1]);
    if c != NEWLINE {
      LastLineEnds(a, c);
    }
  }

  /** Normalising gives the normal form, and its lines are the tidied lines of the text. */
  lemma NormalizeMeans(text: Text)
    ensures IsNormal(NormalizeOcrText(text)) && LinesOf(NormalizeOcrText(text)) == TidyLines(text)
  {
    hide Tidy, Split, Trim, TrimStart, TrimEnd, Clean, IsCleanUnit, Squeeze, NonEmpty, EdgesVisible, TidyAll;
    var lines := TidyAll(Split(Clean(text)));
    var joined := Join(lines, [NEWLINE]);
    var squeezed := Squeeze(joined);
    TidyAllUnits(Clean(text));
    SplitOfJoin(lines);
    SqueezeNoTriple(joined);
    SqueezedLines(joined);
    TrimmedText(squeezed);
    CleanCleans(text);
    SqueezeUnits(joined);
    var i := TrimIsPart(squeezed);
    UnitsClean(NormalizeOcrText(text), Clean(text));
  }

  lemma UnitsClean(t: Text, s: Text)
    requires UnitsFrom(t, s) && AllClean(s)
    ensures AllClean(t)
  {
    forall i | 0 <= i < |t| ensures IsCleanUnit(t[i]) {
      assert t[i] in t;
    }
  }

  lemma SqueezedLines(s: Text)
    requires LinesTidy(s)
    ensures LinesTidy(Squeeze(s)) && LinesOf(Squeeze(s)) == LinesOf(s)
  {
    hide Tidy, Split, Squeeze;
    SqueezeLines(s);
    SqueezeTidy(s);
    var before, after := Split(s), Split(Squeeze(s));
    assert before == [before[0]] + before[1..] && after == [after[0]] + after[1..];
    assert AllTidy(before[1..]);
    assert forall i | 1 <= i < |after| :: after[i] == after[1..][i - 1];
  }

  lemma TrimmedText(s: Text)
    requires LinesTidy(s)
    ensures LinesTidy(Trim(s)) && LinesOf(Trim(s)) == LinesOf(s)
  {
    hide LinesTidy, LinesOf, TrimStart, TrimEnd;
    TrimStartLines(s);
    TrimEndLines(TrimStart(s));
  }

  /** The normal texts are exactly those normalising leaves alone; so normalising twice is normalising once. */
  lemma NormalizeIdempotent(text: Text)
    ensures NormalizeOcrText(text) == text <==> IsNormal(text)
    ensures NormalizeOcrText(NormalizeOcrText(text)) == NormalizeOcrText(text)
  {
    hide IsNormal, NormalizeOcrText;
    NormalizeMeans(text);
    NormalStays(NormalizeOcrText(text));
    if IsNormal(text) {
      NormalStays(text);
    }
  }

  // ---------- page-aware lines ----------

  const MARK: Text := [HYPHEN, HYPHEN, HYPHEN]
  const PAGE_WORD: Text := [0x50, 0x61, 0x67, 0x65]
  const PAGE_WORD_LOWER: Text := [0x70, 0x61, 0x67, 0x65]

  /** The digits in a line that looks like a page marker. */
  function MarkerDigits(line: Text): (r: Option<Text>)
    ensures r.Some? ==> r.value != [] && AllDigits(r.value) && line != []
  {
    if |line| < 3 || line[..3] != MARK then None
    else
      var word := TrimStart(line[3..]);
      if |word| < 4 || Lower(word[..4]) != PAGE_WORD_LOWER then None
      else
        var number := TrimStart(word[4..]);
        var n := DigitSpan(number);
        if |number| == |word| - 4 || n == 0 || TrimStart(number[n..]) != MARK then None else Some(number[..n])
  }

  datatype PageLine = PageLine(text: Text, page: nat)

  function NextPage(page: nat, digits: Text): (r: nat)
    requires AllDigits(digits)
  {
    if 0 < DecimalValue(digits) <= MAX_SAFE_INTEGER then DecimalValue(digits) else page
  }

  /** The lines from here on, when the page so far is this one. */
  function Tag(lines: seq<Text>, page: nat): (r: seq<PageLine>) {
    if lines == [] then []
    else
      match MarkerDigits(lines[0])
      case Some(digits) => Tag(lines[1..], NextPage(page, digits))
      case None => (if lines[0] == [] then [] else [PageLine(lines[0], page)]) + Tag(lines[1..], page)
  }

  function PageLines(normalizedText: Text): (r: seq<PageLine>) {
    if normalizedText == [] then [] else Tag(Split(normalizedText), 1)
  }

  method PageAwareLines(normalizedText: Text) returns (result: seq<PageLine>)
    ensures result == PageLines(normalizedText)
  {
    hide MarkerDigits, Split, DecimalValue;
    if normalizedText == [] {
      return [];
    }
    result := [];
    var page: nat := 1;
    var lines := Split(normalizedText);
    var i := 0;
    while i < |lines|
      invariant 0 <= i <= |lines| && result + Tag(lines[i..], page) == Tag(lines, 1)
    {
      assert lines[i..][1..] == lines[i + 1..];
      var marker := MarkerDigits(lines[i]);
      if marker.Some? {
        var candidate := DecimalValue(marker.value);
        if 0 < candidate <= MAX_SAFE_INTEGER {
          page := candidate;
        }
      } else if lines[i] != [] {
        result := result + [PageLine(lines[i], page)];
      }
      i := i + 1;
    }
  }

  // ---------- the envelope ----------

  datatype Page = Page(number: nat, text: Text)

  function Marker(page: nat): (r: Text) {
    MARK + [SPACE] + PAGE_WORD + [SPACE] + Decimal(page) + [SPACE] + MARK
  }

  function Envelope(pages: seq<Page>): (r: Text) {
    if pages == [] then []
    else
      var first := Marker(pages[0].number) + [NEWLINE] + pages[0].text;
      if |pages| == 1 then first else first + [NEWLINE, NEWLINE] + Envelope(pages[1..])
  }

  function TagAll(lines: seq<Text>, page: nat): (r: seq<PageLine>)
    ensures |r| == |lines| && forall i | 0 <= i < |r| :: r[i] == PageLine(lines[i], page)
  {
    if lines == [] then [] else [PageLine(lines[0], page)] + TagAll(lines[1..], page)
  }

  /** The non-empty normalised lines of each page, tagged with it. */
  function PagesLines(pages: seq<Page>): (r: seq<PageLine>) {
    if pages == [] then []
    else TagAll(LinesOf(NormalizeOcrText(pages[0].text)), pages[0].number) + PagesLines(pages[1..])
  }

  /** Some normalised line of a page looks like a marker itself. */
  ghost predicate HasMarkerLine(pages: seq<Page>) {
    exists i, k | 0 <= i < |pages| && 0 <= k < |LinesOf(NormalizeOcrText(pages[i].text))| ::
      MarkerDigits(LinesOf(NormalizeOcrText(pages[i].text))[k]).Some?
  }

  lemma {:induction false} NulsJoined(a: Text, b: Text)
    ensures RemoveNuls(a + b) == RemoveNuls(a) + RemoveNuls(b)
  {
    if a == [] {
      assert a + b == b;
    } else {
      assert (a + b)[1..] == a[1..] + b;
      NulsJoined(a[1..], b);
    }
  }

  lemma PlainUnitsJoined(a: Text, b: Text)
    ensures PlainUnits(a + b) == PlainUnits(a) + PlainUnits(b)
  {
  }

  lemma BlankLineAdds(s: Text)
    ensures NonEmpty(TidyAll(Split(s + [NEWLINE]))) == NonEmpty(TidyAll(Split(s)))
  {
    SplitJoined(s, []);
    assert s + [NEWLINE] + [] == s + [NEWLINE];
    TidyAllJoined(Split(s), [[]]);
    NonEmptyJoined(TidyAll(Split(s)), TidyAll([[]]));
    assert Tidy([]) == [];
  }

  /** A newline between two texts separates their lines, even after a carriage return. */
  lemma TidyLinesJoined(a: Text, b: Text)
    ensures TidyLines(a + [NEWLINE] + b) == TidyLines(a) + TidyLines(b)
  {
    hide RemoveNuls, NormalizeNewlines, PlainUnits, Split, TidyAll, NonEmpty;
    var x, y := RemoveNuls(a), RemoveNuls(b);
    NulsJoined(a + [NEWLINE], b);
    NulsJoined(a, [NEWLINE]);
    NewlineStays();
    var z := if x != [] && x[|x| - 1] == RETURN then x[..|x| - 1] else x;
    var u, v := PlainUnits(NormalizeNewlines(z)), PlainUnits(NormalizeNewlines(y));
    NewlineThen(z, y, x != z);
    PlainUnitsJoined(NormalizeNewlines(z) + [NEWLINE], NormalizeNewlines(y));
    PlainUnitsJoined(NormalizeNewlines(z), [NEWLINE]);
    assert x != z ==> x == z + [RETURN];
    assert Clean(a + [NEWLINE] + b) == u + [NEWLINE] + v;
    if x != z {
      ReturnThen(z);
      BlankLineAdds(u);
    }
    SplitJoined(u, v);
    TidyAllJoined(Split(u), Split(v));
    NonEmptyJoined(TidyAll(Split(u)), TidyAll(Split(v)));
  }

  lemma NewlineStays()
    ensures RemoveNuls([NEWLINE]) == [NEWLINE] && PlainUnits([NEWLINE]) == [NEWLINE]
  {
  }

  lemma ReturnThen(z: Text)
    ensures NormalizeNewlines(z + [RETURN]) == NormalizeNewlines(z) + [NEWLINE]
  {
    NewlinesJoined(z, [RETURN]);
  }

  lemma NewlineThen(z: Text, y: Text, carriage: bool)
    requires !carriage ==> z == [] || z[|z| - 1] != RETURN
    ensures NormalizeNewlines((if carriage then z + [RETURN] else z) + [NEWLINE] + y) == NormalizeNewlines(z)
        + [NEWLINE] + NormalizeNewlines(y)
  {
    hide NormalizeNewlines;
    if carriage {
      var rest := [RETURN, NEWLINE] + y;
      assert z + [RETURN] + [NEWLINE] + y == z + rest;
      NewlinesJoined(z, rest);
    } else {
      var rest := [NEWLINE] + y;
      assert z + [NEWLINE] + y == z + rest;
      NewlinesJoined(z, rest);
    }
    LineBreakFirst(y);
  }

  lemma LineBreakFirst(y: Text)
    ensures NormalizeNewlines([NEWLINE] + y) == [NEWLINE] + NormalizeNewlines(y)
    ensures NormalizeNewlines([RETURN, NEWLINE] + y) == [NEWLINE] + NormalizeNewlines(y)
  {
    assert ([NEWLINE] + y)[1..] == y && ([RETURN, NEWLINE] + y)[2..] == y;
  }

  lemma MarkerUnits(page: nat)
    ensures var m := Marker(page); AllClean(m) && Collapsed(m) && EdgesVisible(m) && NEWLINE !in m
  {
    hide Decimal;
    var m, d := Marker(page), Decimal(page);
    assert |m| == |d| + 13 && m[..9] == MARK + [SPACE] + PAGE_WORD + [SPACE] && m[9..9 + |d|] == d
        && m[9 + |d|..] == [SPACE] + MARK;
    forall i | 0 <= i < |m| ensures IsCleanUnit(m[i]) && m[i] != TAB && m[i] != NEWLINE
      && (m[i] == SPACE ==> i == 3 || i == 8 || i == 9 + |d|)
    {
      if i < 9 {
        assert m[i] == m[..9][i];
      } else if i < 9 + |d| {
        assert m[i] == d[i - 9];
      } else {
        assert m[i] == m[9 + |d|..][i - 9 - |d|];
      }
    }
  }

  lemma MarkerIsTidy(page: nat)
    ensures TidyLines(Marker(page)) == [Marker(page)]
  {
    hide Marker, AllClean, Collapsed, TidyLines, MarkerDigits;
    MarkerUnits(page);
    MarkerIsRead(page);
    OneTidyLine(Marker(page));
  }

  lemma OneTidyLine(m: Text)
    requires m != [] && AllClean(m) && Collapsed(m) && EdgesVisible(m) && NEWLINE !in m
    ensures TidyLines(m) == [m]
  {
    hide Clean, Trim, Collapse, Split, AllClean, Collapsed, EdgesVisible;
    CleanStays(m);
    SplitOne(m);
    CollapsedStays(m);
    TrimStays(m);
    var one: seq<Text> := [m];
    assert one[1..] == [] && TidyAll(one) == one && NonEmpty(one) == one;
  }

  lemma MarkerIsRead(page: nat)
    ensures MarkerDigits(Marker(page)) == Some(Decimal(page))
  {
    hide Decimal, DigitSpan, TrimStart, MarkerDigits, Lower, Marker, AllDigits;
    var d := Decimal(page);
    var tail := d + [SPACE] + MARK;
    var word := PAGE_WORD + ([SPACE] + tail);
    MarkerStart(page, word);
    SpaceTrimmed([SPACE], word);
    WordStart(word, tail);
    NumberIsRead(d);
    SpaceTrimmed([SPACE], tail);
    MarkerParts(Marker(page), word, tail, |d|);
  }

  lemma MarkerStart(page: nat, word: Text)
    requires word == PAGE_WORD + ([SPACE] + (Decimal(page) + [SPACE] + MARK))
    ensures var m := Marker(page); |m| >= 3 && m[..3] == MARK && m[3..] == [SPACE] + word
  {
    hide Decimal;
    assert Marker(page) == MARK + ([SPACE] + word);
  }

  lemma WordStart(word: Text, tail: Text)
    requires word == PAGE_WORD + ([SPACE] + tail)
    ensures |word| == |tail| + 5 && Lower(word[..4]) == PAGE_WORD_LOWER && word[4..] == [SPACE] + tail
        && word[0] == PAGE_WORD[0]
  {
    hide Lower;
    assert word[..4] == PAGE_WORD;
    PageWordLower();
  }

  lemma MarkerParts(line: Text, word: Text, number: Text, n: nat)
    requires |line| >= 3 && line[..3] == MARK && TrimStart(line[3..]) == word && |word| >= 4
    requires Lower(word[..4]) == PAGE_WORD_LOWER && TrimStart(word[4..]) == number && |number| < |word| - 4
    requires 0 < n <= |number| && DigitSpan(number) == n && TrimStart(number[n..]) == MARK
    ensures MarkerDigits(line) == Some(number[..n])
  {
    hide TrimStart, DigitSpan, Lower;
  }

  lemma PageWordLower()
    ensures Lower(PAGE_WORD) == PAGE_WORD_LOWER
  {
  }

  lemma NumberIsRead(d: Text)
    requires d != [] && AllDigits(d)
    ensures var tail := d + [SPACE] + MARK;
        DigitSpan(tail) == |d| && tail[..|d|] == d && TrimStart(tail[|d|..]) == MARK && !IsSpace(tail[0])
  {
    hide DigitSpan, TrimStart;
    DigitSpanOf(d, [SPACE] + MARK);
    assert d + [SPACE] + MARK == d + ([SPACE] + MARK);
    SpaceTrimmed([SPACE], MARK);
  }

  lemma SpaceTrimmed(space: Text, rest: Text)
    requires space == [SPACE] && rest != [] && !IsSpace(rest[0])
    ensures TrimStart(space + rest) == rest
  {
    assert (space + rest)[1..] == rest;
  }

  /** Tagging a page's own lines, when it has them: the lines that look like markers are lost. */
  lemma {:induction false} TagPage(lines: seq<Text>, rest: seq<Text>, page: nat)
    requires forall i | 0 <= i < |lines| :: lines[i] != [] && MarkerDigits(lines[i]) == None
    ensures Tag(lines + rest, page) == TagAll(lines, page) + Tag(rest, page)
  {
    hide MarkerDigits;
    if lines == [] {
      assert lines + rest == rest;
    } else {
      assert (lines + rest)[1..] == lines[1..] + rest;
      TagPage(lines[1..], rest, page);
    }
  }

  lemma {:induction false} TagSkipsEmpty(lines: seq<Text>, page: nat)
    ensures Tag(NonEmpty(lines), page) == Tag(lines, page)
  {
    hide MarkerDigits, DecimalValue;
    if lines != [] {
      var digits := MarkerDigits(lines[0]);
      TagSkipsEmpty(lines[1..], if digits.Some? then NextPage(page, digits.value) else page);
      if lines[0] != [] {
        assert NonEmpty(lines)[0] == lines[0] && NonEmpty(lines)[1..] == NonEmpty(lines[1..]);
      } else {
        assert NonEmpty(lines) == NonEmpty(lines[1..]) && digits == None;
      }
    }
  }

  /** The lines of the whole envelope: each marker, then its page's lines. */
  function EnvelopeLines(pages: seq<Page>): (r: seq<Text>) {
    if pages == [] then [] else
        [Marker(pages[0].number)] + LinesOf(NormalizeOcrText(pages[0].text)) + EnvelopeLines(pages[1..])
  }

  lemma {:induction false} EnvelopeSplits(pages: seq<Page>)
    ensures TidyLines(Envelope(pages)) == EnvelopeLines(pages)
  {
    hide TidyLines, Marker, LinesOf, NormalizeOcrText;
    NothingTidy();
    if pages != [] {
      var m, text := Marker(pages[0].number), pages[0].text;
      TidyLinesJoined(m, text);
      MarkerIsTidy(pages[0].number);
      NormalizeMeans(text);
      if |pages| == 1 {
        assert EnvelopeLines(pages[1..]) == [];
      } else {
        EnvelopeSplits(pages[1..]);
        BlankLineSplits(m + [NEWLINE] + text, Envelope(pages[1..]));
      }
    }
  }

  lemma BlankLineSplits(first: Text, rest: Text)
    ensures TidyLines(first + [NEWLINE, NEWLINE] + rest) == TidyLines(first) + TidyLines(rest)
  {
    hide TidyLines;
    NothingTidy();
    TidyLinesJoined(first + [NEWLINE], rest);
    TidyLinesJoined(first, []);
    assert first + [NEWLINE] + [] == first + [NEWLINE];
    assert first + [NEWLINE, NEWLINE] + rest == first + [NEWLINE] + [NEWLINE] + rest;
  }

  lemma NothingTidy()
    ensures TidyLines([]) == []
  {
    assert Clean([]) == [] && Split([]) == [[]] && Tidy([]) == [];
    assert TidyAll([[]]) == [[]];
  }

  lemma {:induction false} NonEmptyLines(lines: seq<Text>)
    ensures forall i | 0 <= i < |NonEmpty(lines)| :: NonEmpty(lines)[i] != []
  {
    if lines != [] {
      NonEmptyLines(lines[1..]);
    }
  }

  lemma {:induction false} EnvelopeTags(pages: seq<Page>, page: nat)
    requires !HasMarkerLine(pages) && forall i | 0 <= i < |pages| :: 1 <= pages[i].number <= MAX_SAFE_INTEGER
    ensures Tag(EnvelopeLines(pages), page) == PagesLines(pages)
  {
    hide MarkerDigits, NormalizeOcrText, Marker, Decimal, DecimalValue, Split, NonEmpty;
    if pages != [] {
      var lines := LinesOf(NormalizeOcrText(pages[0].text));
      NonEmptyLines(Split(NormalizeOcrText(pages[0].text)));
      assert forall k | 0 <= k < |lines| :: MarkerDigits(lines[k]) == None;
      MarkerIsRead(pages[0].number);
      DecimalRoundTrip(pages[0].number);
      var rest := EnvelopeLines(pages[1..]);
      assert EnvelopeLines(pages) == [Marker(pages[0].number)] + (lines + rest);
      TagPage(lines, rest, pages[0].number);
      EnvelopeTags(pages[1..], pages[0].number);
    }
  }

  // ---------- counting ----------

  lemma {:induction false} TagCounts(lines: seq<Text>, rest: seq<Text>, page: nat, other: nat)
    ensures |Tag(lines + rest, page)| <= |lines| + |Tag(rest, other)|
    ensures (exists i | 0 <= i < |lines| :: MarkerDigits(lines[i]).Some?) ==>
        |Tag(lines + rest, page)| < |lines| + |Tag(rest, other)|
  {
    hide MarkerDigits;
    if lines == [] {
      assert lines + rest == rest;
      TagLength(rest, page, other);
    } else {
      assert (lines + rest)[1..] == lines[1..] + rest;
      var digits := MarkerDigits(lines[0]);
      TagCounts(lines[1..], rest, if digits.Some? then NextPage(page, digits.value) else page, other);
      if i :| 0 <= i < |lines| && MarkerDigits(lines[i]).Some? {
        assert i == 0 || lines[1..][i - 1] == lines[i];
      }
    }
  }

  lemma {:induction false} TagLength(lines: seq<Text>, page: nat, other: nat)
    ensures |Tag(lines, page)| == |Tag(lines, other)|
  {
    hide MarkerDigits;
    if lines != [] {
      var digits := MarkerDigits(lines[0]);
      if digits.Some? {
        TagLength(lines[1..], NextPage(page, digits.value), NextPage(other, digits.value));
      } else {
        TagLength(lines[1..], page, other);
      }
    }
  }

  lemma {:induction false} EnvelopeCounts(pages: seq<Page>, page: nat)
    ensures |Tag(EnvelopeLines(pages), page)| <= |PagesLines(pages)|
    ensures HasMarkerLine(pages) ==> |Tag(EnvelopeLines(pages), page)| < |PagesLines(pages)|
  {
    hide MarkerDigits, NormalizeOcrText, Marker, Decimal, DecimalValue, LinesOf;
    if pages != [] {
      var lines := LinesOf(NormalizeOcrText(pages[0].text));
      var rest := EnvelopeLines(pages[1..]);
      MarkerIsRead(pages[0].number);
      assert EnvelopeLines(pages) == [Marker(pages[0].number)] + (lines + rest);
      TagCounts(lines, rest, NextPage(page, Decimal(pages[0].number)), page);
      EnvelopeCounts(pages[1..], page);
      if HasMarkerLine(pages) {
        MarkerLineSomewhere(pages);
      }
    }
  }

  lemma MarkerLineSomewhere(pages: seq<Page>)
    requires HasMarkerLine(pages)
    ensures HasMarkerLine(pages[1..]) || exists k | 0 <= k < |LinesOf(NormalizeOcrText(pages[0].text))| ::
        MarkerDigits(LinesOf(NormalizeOcrText(pages[0].text))[k]).Some?
  {
    hide MarkerDigits, NormalizeOcrText, LinesOf;
    var i, k :| 0 <= i < |pages| && 0 <= k < |LinesOf(NormalizeOcrText(pages[i].text))|
      && MarkerDigits(LinesOf(NormalizeOcrText(pages[i].text))[k]).Some?;
    assert i > 0 ==> pages[1..][i - 1] == pages[i];
  }

  /** Reading the normalised envelope back gives every page's non-empty normalised lines, tagged with the
      page, exactly when none of those lines looks like a marker itself. */
  lemma EnvelopeRoundTrip(pages: seq<Page>)
    requires forall i | 0 <= i < |pages| :: 1 <= pages[i].number <= MAX_SAFE_INTEGER
    ensures PageLines(NormalizeOcrText(Envelope(pages))) == PagesLines(pages) <==> !HasMarkerLine(pages)
  {
    hide NormalizeOcrText, Tag, Split, NonEmpty, Envelope, EnvelopeLines, PagesLines, HasMarkerLine;
    var text := NormalizeOcrText(Envelope(pages));
    NormalizeMeans(Envelope(pages));
    EnvelopeSplits(pages);
    TagSkipsEmpty(Split(text), 1);
    NothingTagged();
    if HasMarkerLine(pages) {
      EnvelopeCounts(pages, 1);
    } else {
      EnvelopeTags(pages, 1);
    }
  }

  lemma NothingTagged()
    ensures Tag(Split([]), 1) == []
  {
    assert Tag([[]], 1) == [] + Tag([], 1);
  }
}
