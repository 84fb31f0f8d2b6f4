/** What normalising OCR text keeps and what it evens out, and what a page marker looks like. */
module OcrSpelling {
  import opened Primitives
  import opened Text
  import opened OcrText

  // ---------- the ink stays ----------

  /** The visible units in order, dashes of every width written as hyphens. */
  ghost function Ink(s: Text): Text {
    if s == [] then [] else InkOf(s[0]) + Ink(s[1..])
  }

  ghost function InkOf(c: CodeUnit): Text {
    if c == 0 || IsSpace(c) then []
    else if c in {0x2010, 0x2011, 0x2012, 0x2013, 0x2014} then [0x2D]
    else [c]
  }

  lemma {:induction false} InkJoined(a: Text, b: Text)
    ensures Ink(a + b) == Ink(a) + Ink(b)
  {
    hide InkOf;
    if a == [] {
      assert a + b == b;
    } else {
      assert (a + b)[1..] == a[1..] + b;
      InkJoined(a[1..], b);
    }
  }

  lemma InkFirst(c: CodeUnit, t: Text)
    ensures Ink([c] + t) == InkOf(c) + Ink(t)
  {
    assert ([c] + t)[1..] == t;
  }

  lemma InkOfBlanks()
    ensures InkOf(0) == [] && InkOf(NEWLINE) == [] && InkOf(RETURN) == [] && InkOf(SPACE) == [] && InkOf(TAB) == []
    ensures forall c: CodeUnit | IsSpace(c) :: InkOf(c) == []
    ensures forall c: CodeUnit :: InkOf(PlainUnit(c)) == InkOf(c)
  {
  }

  lemma {:induction false} NulsHaveNoInk(s: Text)
    ensures Ink(RemoveNuls(s)) == Ink(s)
  {
    hide InkOf;
    InkOfBlanks();
    if s != [] {
      NulsHaveNoInk(s[1..]);
      assert [] + RemoveNuls(s[1..]) == RemoveNuls(s[1..]);
      InkFirst(s[0], RemoveNuls(s[1..]));
    }
  }

  lemma {:induction false} NewlinesHaveNoInk(s: Text)
    ensures Ink(NormalizeNewlines(s)) == Ink(s)
    decreases |s|
  {
    hide InkOf, Ink;
    InkOfBlanks();
    if s != [] {
      var t := s[1..];
      assert s == [s[0]] + t;
      InkFirst(s[0], t);
      NewlinesHaveNoInk(t);
      InkFirst(s[0], NormalizeNewlines(t));
      if s[0] == RETURN && t != [] && t[0] == NEWLINE {
        assert t == [NEWLINE] + s[2..];
        NewlineStep(RETURN, t);
      } else {
        NewlineStep(s[0], t);
        InkFirst(NEWLINE, NormalizeNewlines(t));
      }
    }
  }

  lemma {:induction false} PlainUnitsKeepInk(s: Text)
    ensures Ink(PlainUnits(s)) == Ink(s)
  {
    hide InkOf;
    InkOfBlanks();
    if s != [] {
      PlainUnitsKeepInk(s[1..]);
      InkFirst(PlainUnit(s[0]), PlainUnits(s[1..]));
    }
  }

  lemma {:induction false} CollapseKeepsInk(s: Text)
    ensures Ink(Collapse(s)) == Ink(s)
  {
    hide InkOf;
    InkOfBlanks();
    if s != [] {
      CollapseKeepsInk(s[1..]);
      InkFirst(s[0], Collapse(s[1..]));
      InkFirst(SPACE, Collapse(s[1..]));
    }
  }

  lemma {:induction false} TrimStartKeepsInk(s: Text)
    ensures Ink(TrimStart(s)) == Ink(s)
  {
    hide InkOf, IsSpace;
    InkOfBlanks();
    if s != [] && IsSpace(s[0]) {
      TrimStartKeepsInk(s[1..]);
    }
  }

  lemma {:induction false} TrimEndKeepsInk(s: Text)
    ensures Ink(TrimEnd(s)) == Ink(s)
  {
    hide InkOf, IsSpace, Ink;
    InkOfBlanks();
    if s != [] && IsSpace(s[|s| - 1]) {
      var front, last := s[..|s| - 1], s[|s| - 1];
      TrimEndKeepsInk(front);
      assert s == front + [last];
      InkJoined(front, [last]);
      InkFirst(last, []);
      NoInk();
      assert [last] + [] == [last];
    }
  }

  lemma NoInk()
    ensures Ink([]) == []
  {
  }

  lemma TrimKeepsInk(s: Text)
    ensures Ink(Trim(s)) == Ink(s)
  {
    hide Ink, TrimStart, TrimEnd;
    TrimStartKeepsInk(s);
    TrimEndKeepsInk(TrimStart(s));
  }

  lemma {:induction false} TidyAllKeepsInk(lines: seq<Text>)
    ensures Ink(Join(TidyAll(lines), [NEWLINE])) == Ink(Join(lines, [NEWLINE]))
  {
    hide Ink, Trim, Collapse;
    if lines != [] {
      var tidied := TidyAll(lines[1..]);
      CollapseKeepsInk(lines[0]);
      TrimKeepsInk(Collapse(lines[0]));
      TidyAllKeepsInk(lines[1..]);
      assert TidyAll(lines)[1..] == tidied;
      JoinedInk(lines[0], Join(lines[1..], [NEWLINE]));
      JoinedInk(Tidy(lines[0]), Join(tidied, [NEWLINE]));
    }
  }

  lemma JoinedInk(a: Text, b: Text)
    ensures Ink(a + [NEWLINE] + b) == Ink(a) + Ink(b)
  {
    hide Ink, InkOf;
    InkOfBlanks();
    InkJoined(a + [NEWLINE], b);
    InkJoined(a, [NEWLINE]);
    InkFirst(NEWLINE, []);
    NoInk();
    assert [NEWLINE] + [] == [NEWLINE];
  }

  lemma {:induction false} SqueezeKeepsInk(s: Text)
    ensures Ink(Squeeze(s)) == Ink(s)
  {
    hide InkOf, Squeeze;
    InkOfBlanks();
    SqueezeStep(s);
    if s != [] {
      SqueezeKeepsInk(s[1..]);
      InkFirst(s[0], Squeeze(s[1..]));
    }
  }

  /** Normalising adds, drops and moves nothing that can be seen; all it changes is white space, NULs and the width of
      dashes. */
  lemma NormalizeKeepsInk(text: Text)
    ensures Ink(NormalizeOcrText(text)) == Ink(text)
  {
    hide Ink, RemoveNuls, NormalizeNewlines, PlainUnits, Split, Squeeze, Trim, TidyAll, Join;
    NulsHaveNoInk(text);
    NewlinesHaveNoInk(RemoveNuls(text));
    PlainUnitsKeepInk(NormalizeNewlines(RemoveNuls(text)));
    var clean := Clean(text);
    JoinOfSplit(clean);
    TidyAllKeepsInk(Split(clean));
    var joined := Join(TidyAll(Split(clean)), [NEWLINE]);
    SqueezeKeepsInk(joined);
    TrimKeepsInk(Squeeze(joined));
  }

  // ---------- spellings that do not matter ----------

  /** The same text, its no-break spaces written as spaces and its dashes as hyphens. */
  ghost predicate Plainer(s: Text, t: Text) {
    |s| == |t| && forall i | 0 <= i < |s| ::
      t[i] == if s[i] in {0xA0, 0x2007, 0x202F} then 0x20
        else if s[i] in {0x2010, 0x2011, 0x2012, 0x2013, 0x2014} then 0x2D
        else s[i]
  }

  lemma {:induction false} PlainNuls(s: Text)
    ensures RemoveNuls(PlainUnits(s)) == PlainUnits(RemoveNuls(s))
  {
    if s != [] {
      PlainNuls(s[1..]);
    }
  }

  lemma {:induction false} PlainNewlines(s: Text)
    ensures NormalizeNewlines(PlainUnits(s)) == PlainUnits(NormalizeNewlines(s))
    decreases |s|
  {
    hide PlainUnit, PlainUnits;
    if s != [] {
      var c, t := s[0], s[1..];
      PlainKeepsBreaks(c);
      PlainNewlines(t);
      assert s == [c] + t && PlainUnits(s) == [PlainUnit(c)] + PlainUnits(t);
      if t != [] {
        PlainKeepsBreaks(t[0]);
      }
      NewlineStep(c, t);
      NewlineStep(PlainUnit(c), PlainUnits(t));
      PlainUnitsJoined([c], NormalizeNewlines(t));
      PlainUnitsJoined([NEWLINE], NormalizeNewlines(t));
      PlainKeepsBreaks(NEWLINE);
      assert PlainUnits([c]) == [PlainUnit(c)] && PlainUnits([NEWLINE]) == [NEWLINE];
    }
  }

  lemma PlainKeepsBreaks(c: CodeUnit)
    ensures PlainUnit(c) == NEWLINE <==> c == NEWLINE
    ensures PlainUnit(c) == RETURN <==> c == RETURN
    ensures PlainUnit(PlainUnit(c)) == PlainUnit(c)
  {
  }

  /** No-break spaces count as spaces, and dashes of every width as hyphens. */
  lemma SpacesAndDashes(s: Text, t: Text)
    requires Plainer(s, t)
    ensures NormalizeOcrText(s) == NormalizeOcrText(t)
  {
    hide RemoveNuls, NormalizeNewlines, Split, Squeeze, Trim, TidyAll, Join;
    assert t == PlainUnits(s);
    PlainNuls(s);
    PlainNewlines(RemoveNuls(s));
    var clean := NormalizeNewlines(RemoveNuls(s));
    assert PlainUnits(PlainUnits(clean)) == PlainUnits(clean);
  }

  lemma NulsDoNotMatter(a: Text, b: Text)
    ensures NormalizeOcrText(a + [0x00] + b) == NormalizeOcrText(a + b)
  {
    hide NormalizeNewlines, PlainUnits, Split, Squeeze, Trim, TidyAll, Join;
    NulsJoined(a + [0x00], b);
    NulsJoined(a, [0x00]);
    NulsJoined(a, b);
    assert RemoveNuls([0x00]) == [];
    assert RemoveNuls(a) + [] == RemoveNuls(a);
  }

  /** A text without NULs, where the way a line ends is told from one unit and the next. */
  ghost predicate NoNuls(s: Text) {
    0x00 !in s
  }

  lemma {:induction false} NulsStay(s: Text)
    requires NoNuls(s)
    ensures RemoveNuls(s) == s
  {
    if s != [] {
      NulsStay(s[1..]);
      assert s == [s[0]] + s[1..];
    }
  }

  /** A line may end in a line feed, a carriage return, or both. */
  lemma LineEndsDoNotMatter(a: Text, b: Text)
    requires NoNuls(a) && NoNuls(b) && (a == [] || a[|a| - 1] != 0x0D) && (b == [] || b[0] != 0x0A)
    ensures NormalizeOcrText(a + [0x0D, 0x0A] + b) == NormalizeOcrText(a + [0x0A] + b)
    ensures NormalizeOcrText(a + [0x0D] + b) == NormalizeOcrText(a + [0x0A] + b)
  {
    hide NormalizeNewlines, PlainUnits, Split, Squeeze, Trim, TidyAll, Join, RemoveNuls;
    NulsStay(a + [0x0D, 0x0A] + b);
    NulsStay(a + [0x0D] + b);
    NulsStay(a + [0x0A] + b);
    LineEndIs(a, b, [0x0D, 0x0A]);
    LineEndIs(a, b, [0x0D]);
    LineEndIs(a, b, [0x0A]);
  }

  lemma LineEndIs(a: Text, b: Text, end: Text)
    requires (a == [] || a[|a| - 1] != 0x0D) && (b == [] || b[0] != 0x0A)
    requires end == [0x0D, 0x0A] || end == [0x0D] || end == [0x0A]
    ensures NormalizeNewlines(a + end + b) == NormalizeNewlines(a) + [0x0A] + NormalizeNewlines(b)
  {
    hide NormalizeNewlines;
    NewlinesJoined(a, end);
    NewlinesJoined(a + end, b);
    LineEndAlone();
  }

  lemma LineEndAlone()
    ensures NormalizeNewlines([0x0D, 0x0A]) == [0x0A] && NormalizeNewlines([0x0D]) == [0x0A]
    ensures NormalizeNewlines([0x0A]) == [0x0A]
  {
    assert [0x0D, 0x0A][2..] == [] && [0x0D][1..] == [] && [0x0A][1..] == [];
  }

  // ---------- runs of blanks ----------

  ghost predicate AllBlank(s: Text) {
    forall i | 0 <= i < |s| :: s[i] == 0x20 || s[i] == 0x09
  }

  ghost function CollapseAll(lines: seq<Text>): (r: seq<Text>)
    ensures |r| == |lines| && forall i | 0 <= i < |r| :: r[i] == Collapse(lines[i])
  {
    seq(|lines|, i requires 0 <= i < |lines| => Collapse(lines[i]))
  }

  lemma CollapseStep(c: CodeUnit, t: Text)
    ensures Collapse([c] + t) ==
      if !IsBlank(c) then [c] + Collapse(t)
      else if t != [] && IsBlank(t[0]) then Collapse(t)
      else [SPACE] + Collapse(t)
    ensures Collapse([]) == []
  {
    assert ([c] + t)[1..] == t;
  }

  /** Collapsing a text is collapsing its lines. */
  lemma {:induction false} SplitCollapsed(s: Text)
    ensures Split(Collapse(s)) == CollapseAll(Split(s))
  {
    hide Collapse, Split, CollapseAll, IsBlank;
    SplitStep(s);
    CollapseStep(0, []);
    CollapseAllStep([], []);
    if s != [] {
      var c, t := s[0], s[1..];
      assert s == [c] + t;
      SplitCollapsed(t);
      var lines := Split(t);
      CollapseStep(c, t);
      NewlineIsNoBlank();
      SqueezeOne(c, Collapse(t));
      if c == NEWLINE {
        CollapseAllStep([], lines);
      } else {
        SqueezeOne(SPACE, Collapse(t));
        SplitStartsAlike(t);
        CollapseStep(c, lines[0]);
        assert lines == [lines[0]] + lines[1..];
        CollapseAllStep(lines[0], lines[1..]);
        CollapseAllStep([c] + lines[0], lines[1..]);
      }
    }
  }

  lemma NewlineIsNoBlank()
    ensures !IsBlank(NEWLINE)
  {
  }

  lemma CollapseAllStep(line: Text, more: seq<Text>)
    ensures CollapseAll([line] + more) == [Collapse(line)] + CollapseAll(more) && CollapseAll([]) == []
    ensures CollapseAll([line] + more)[1..] == CollapseAll(more)
  {
    hide Collapse;
  }

  lemma SplitStartsAlike(t: Text)
    ensures (Split(t)[0] != [] && IsBlank(Split(t)[0][0])) <==> (t != [] && IsBlank(t[0]))
  {
  }

  lemma {:induction false} TidyCollapsed(lines: seq<Text>)
    ensures TidyAll(CollapseAll(lines)) == TidyAll(lines)
  {
    hide Collapse, Trim;
    if lines != [] {
      assert CollapseAll(lines)[1..] == CollapseAll(lines[1..]);
      TidyCollapsed(lines[1..]);
      CollapseCollapses(lines[0]);
      CollapsedStays(Collapse(lines[0]));
    }
  }

  lemma {:induction false} CollapseJoined(a: Text, b: Text)
    requires b == [] || !IsBlank(b[0])
    ensures Collapse(a + b) == Collapse(a) + Collapse(b)
  {
    hide Collapse;
    if a == [] {
      assert a + b == b;
      CollapseStep(0, []);
    } else {
      var c, t := a[0], a[1..];
      assert a == [c] + t && a + b == [c] + (t + b);
      CollapseJoined(t, b);
      CollapseStep(c, t);
      CollapseStep(c, t + b);
    }
  }

  lemma {:induction false} RunCollapses(u: Text, b: Text)
    requires u != [] && AllBlank(u)
    ensures Collapse(u + b) == Collapse([SPACE] + b)
  {
    hide Collapse;
    CollapseStep(u[0], u[1..] + b);
    CollapseStep(SPACE, b);
    assert u + b == [u[0]] + (u[1..] + b);
    if |u| == 1 {
      assert u[1..] + b == b;
    } else {
      assert u[1..][0] == u[1];
      assert AllBlank(u[1..]);
      RunCollapses(u[1..], b);
    }
  }

  lemma {:induction false} RunInside(a: Text, u: Text, b: Text)
    requires u != [] && AllBlank(u)
    ensures Collapse(a + (u + b)) == Collapse(a + ([SPACE] + b))
  {
    hide Collapse;
    if a == [] {
      assert a + (u + b) == u + b && a + ([SPACE] + b) == [SPACE] + b;
      RunCollapses(u, b);
    } else {
      var c, t := a[0], a[1..];
      assert a + (u + b) == [c] + (t + (u + b)) && a + ([SPACE] + b) == [c] + (t + ([SPACE] + b));
      RunInside(t, u, b);
      CollapseStep(c, t + (u + b));
      CollapseStep(c, t + ([SPACE] + b));
      assert u[0] == SPACE || u[0] == TAB;
    }
  }

  lemma BlanksAreClean(u: Text)
    requires AllBlank(u)
    ensures Clean(u) == u && NoNuls(u) && 0x0D !in u && 0x0A !in u
  {
    hide Clean;
    forall i | 0 <= i < |u| ensures IsCleanUnit(u[i]) {
      assert u[i] == 0x20 || u[i] == 0x09;
    }
    CleanStays(u);
  }

  lemma CleanJoined(a: Text, u: Text, b: Text)
    requires u != [] && AllBlank(u)
    ensures Clean(a + u + b) == Clean(a) + (u + Clean(b))
  {
    hide RemoveNuls, NormalizeNewlines, PlainUnits;
    BlanksAreClean(u);
    NulsStay(u);
    NulsJoined(a + u, b);
    NulsJoined(a, u);
    var x, y := RemoveNuls(a), RemoveNuls(b);
    assert u[0] in u && u[|u| - 1] in u;
    NewlinesJoined(x + u, y);
    NewlinesJoined(x, u);
    PlainUnitsJoined(NormalizeNewlines(x) + NormalizeNewlines(u), NormalizeNewlines(y));
    PlainUnitsJoined(NormalizeNewlines(x), NormalizeNewlines(u));
    Regrouped(Clean(a), u, Clean(b));
  }

  /** A run of spaces and tabs counts as one space. */
  lemma BlanksDoNotMatter(a: Text, u: Text, b: Text)
    requires u != [] && AllBlank(u)
    ensures NormalizeOcrText(a + u + b) == NormalizeOcrText(a + [0x20] + b)
  {
    hide Clean, Split, Squeeze, Trim, TidyAll, Join, Collapse;
    CleanJoined(a, u, b);
    CleanJoined(a, [0x20], b);
    RunInside(Clean(a), u, Clean(b));
    var s, t := Clean(a + u + b), Clean(a + [0x20] + b);
    SplitCollapsed(s);
    SplitCollapsed(t);
    TidyCollapsed(Split(s));
    TidyCollapsed(Split(t));
  }

  // ---------- page markers ----------

  ghost predicate AllSpace(s: Text) {
    forall i | 0 <= i < |s| :: IsSpace(s[i])
  }

  /** Three hyphens, perhaps white space, "page" in any letter case, white space, digits, perhaps white space, three
      hyphens. */
  ghost predicate IsMarker(line: Text, before: Text, word: Text, between: Text, digits: Text, after: Text) {
    && line == [0x2D, 0x2D, 0x2D] + (before + (word + (between + (digits + (after + [0x2D, 0x2D, 0x2D])))))
    && AllSpace(before) && AllSpace(between) && between != [] && AllSpace(after)
    && |word| == 4 && word[0] in {0x50, 0x70} && word[1] in {0x41, 0x61} && word[2] in {0x47, 0x67}
    && word[3] in {0x45, 0x65}
    && digits != [] && forall i | 0 <= i < |digits| :: 0x30 <= digits[i] <= 0x39
  }

  lemma TrimStartSplits(s: Text) returns (space: Text)
    ensures s == space + TrimStart(s) && AllSpace(space)
  {
    hide IsSpace;
    TrimmedIsSpace(s);
    space := s[..|s| - |TrimStart(s)|];
  }

  lemma {:induction false} TrimStartOf(space: Text, rest: Text)
    requires AllSpace(space) && rest != [] && !IsSpace(rest[0])
    ensures TrimStart(space + rest) == rest
  {
    hide IsSpace;
    if space == [] {
      assert space + rest == rest;
    } else {
      assert (space + rest)[1..] == space[1..] + rest;
      TrimStartOf(space[1..], rest);
    }
  }

  lemma PageWordIs(word: Text)
    requires |word| == 4
    ensures Lower(word) == PAGE_WORD_LOWER <==>
      && word[0] in {0x50, 0x70} && word[1] in {0x41, 0x61} && word[2] in {0x47, 0x67} && word[3] in {0x45, 0x65}
  {
    var low := Lower(word);
    assert low == [low[0], low[1], low[2], low[3]];
  }

  lemma NoSpaceAhead(c: CodeUnit)
    requires 0x30 <= c <= 0x39 || c in {0x2D, 0x50, 0x70}
    ensures !IsSpace(c)
  {
  }

  lemma DigitsAre(s: Text)
    ensures AllDigits(s) <==> forall i | 0 <= i < |s| :: 0x30 <= s[i] <= 0x39
  {
  }

  /** A line that is spelt as a marker is read as one, with the digits it has. */
  lemma MarkersAreRead(line: Text, before: Text, word: Text, between: Text, digits: Text, after: Text)
    requires IsMarker(line, before, word, between, digits, after)
    ensures MarkerDigits(line) == Some(digits)
  {
    hide TrimStart, IsSpace, DigitSpan, Lower, MarkerDigits;
    var tail := digits + (after + MARK);
    var start := word + (between + tail);
    assert MARK == [0x2D, 0x2D, 0x2D] && line[..3] == MARK && line[3..] == before + start;
    NoSpaceAhead(word[0]);
    NoSpaceAhead(digits[0]);
    NoSpaceAhead(0x2D);
    TrimStartOf(before, start);
    assert start[..4] == word && start[4..] == between + tail;
    PageWordIs(word);
    TrimStartOf(between, tail);
    DigitsAre(digits);
    StopsDigits(after);
    DigitSpanOf(digits, after + MARK);
    assert tail[..|digits|] == digits && tail[|digits|..] == after + MARK;
    TrimStartOf(after, MARK);
    MarkerParts(line, start, tail, |digits|);
  }

  lemma StopsDigits(after: Text)
    requires AllSpace(after)
    ensures (after + MARK) != [] && !IsDigit((after + MARK)[0])
  {
    if after != [] {
      assert IsSpace(after[0]);
    }
  }

  lemma MarkerSteps(line: Text)
    requires MarkerDigits(line).Some?
    ensures |line| >= 3 && line[..3] == MARK && |TrimStart(line[3..])| >= 4
    ensures var start := TrimStart(line[3..]);
      var number := TrimStart(start[4..]);
      var n := DigitSpan(number);
      && Lower(start[..4]) == PAGE_WORD_LOWER && |number| < |start| - 4
      && 0 < n <= |number| && TrimStart(number[n..]) == MARK && MarkerDigits(line) == Some(number[..n])
  {
    hide TrimStart, DigitSpan, Lower, IsSpace, AllDigits;
  }

  lemma NumberIsSpelt(number: Text, n: nat) returns (digits: Text, after: Text)
    requires 0 < n <= |number| && n == DigitSpan(number) && TrimStart(number[n..]) == MARK
    ensures digits == number[..n] && AllDigits(digits) && AllSpace(after) && number == digits + (after + MARK)
  {
    hide TrimStart, IsSpace, AllSpace, AllDigits, DigitSpan;
    digits := number[..n];
    after := TrimStartSplits(number[n..]);
    assert number == digits + number[n..];
  }

  lemma WordIsSpelt(start: Text, number: Text) returns (between: Text)
    requires |start| >= 4 && number == TrimStart(start[4..]) && |number| < |start| - 4
    ensures start == start[..4] + (between + number) && AllSpace(between) && between != []
  {
    hide TrimStart, IsSpace, AllSpace;
    between := TrimStartSplits(start[4..]);
    assert start == start[..4] + start[4..];
  }

  lemma LineIsSpelt(line: Text, start: Text) returns (before: Text)
    requires |line| >= 3 && line[..3] == MARK && start == TrimStart(line[3..])
    ensures line == MARK + (before + start) && AllSpace(before)
  {
    hide TrimStart, IsSpace, AllSpace;
    before := TrimStartSplits(line[3..]);
    assert line == line[..3] + line[3..];
  }

  /** A line that is read as a marker is spelt as one. */
  lemma ReadMarkersAreSpelt(line: Text)
      returns (before: Text, word: Text, between: Text, digits: Text, after: Text)
    requires MarkerDigits(line).Some?
    ensures IsMarker(line, before, word, between, digits, after) && MarkerDigits(line) == Some(digits)
  {
    hide TrimStart, IsSpace, DigitSpan, Lower, AllSpace, AllDigits, MarkerDigits, IsMarker;
    MarkerSteps(line);
    var start := TrimStart(line[3..]);
    var number := TrimStart(start[4..]);
    before := LineIsSpelt(line, start);
    word := start[..4];
    between := WordIsSpelt(start, number);
    digits, after := NumberIsSpelt(number, DigitSpan(number));
    PartsMakeMarker(line, before, start, word, between, number, digits, after);
  }

  lemma PartsMakeMarker(line: Text, before: Text, start: Text, word: Text, between: Text, number: Text, digits: Text,
      after: Text)
    requires line == MARK + (before + start) && start == word + (between + number) && number == digits + (after + MARK)
    requires AllSpace(before) && AllSpace(between) && between != [] && AllSpace(after) && digits != []
    requires |word| == 4 && Lower(word) == PAGE_WORD_LOWER && AllDigits(digits)
    ensures IsMarker(line, before, word, between, digits, after)
  {
    hide AllSpace, AllDigits, Lower;
    PageWordIs(word);
    DigitsAre(digits);
  }

  /** Exactly the lines spelt as markers are page markers, and their digits are the digits spelt. */
  lemma MarkersMean(line: Text, digits: Text)
    ensures MarkerDigits(line) == Some(digits) <==>
      exists before, word, between, after :: IsMarker(line, before, word, between, digits, after)
  {
    hide MarkerDigits, IsMarker;
    if MarkerDigits(line) == Some(digits) {
      var before, word, between, read, after := ReadMarkersAreSpelt(line);
      assert IsMarker(line, before, word, between, digits, after);
    }
    if before, word, between, after :| IsMarker(line, before, word, between, digits, after) {
      MarkersAreRead(line, before, word, between, digits, after);
    }
  }

  /** The envelope's marker for a page is spelt "--- Page n ---". */
  lemma EnvelopeMarkers(page: nat)
    ensures IsMarker(Marker(page), [0x20], [0x50, 0x61, 0x67, 0x65], [0x20], Decimal(page), [0x20])
  {
    hide Decimal, AllDigits;
    DigitsAre(Decimal(page));
    var d := Decimal(page);
    assert Marker(page) == MARK + ([SPACE] + (PAGE_WORD + ([SPACE] + (d + ([SPACE] + MARK)))));
  }
}
