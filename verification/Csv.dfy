/** The CSV writer of the exports and the CSV reader of the usability study (compare section 2 of RFC 4180). */
module Csv {
  import opened Primitives
  import opened Text

  datatype Scalar = Str(text: Text) | Int(number: int) | Bool(flag: bool) | Absent

  // ---------- the writer ----------

  function FirstVisible(s: Text): (r: Option<CodeUnit>) {
    var t := TrimStart(s);
    if t == [] then None else Some(t[0])
  }

  predicate IsFormulaSign(c: CodeUnit) {
    c == EQUALS || c == PLUS || c == HYPHEN || c == AT
  }

  function NeutralizeCsvInjection(value: Text): (r: Text) {
    if value != [] && value[0] == APOSTROPHE then value
    else
      var startsWithControl := value != [] && (value[0] == TAB || value[0] == RETURN || value[0] == NEWLINE);
      var first := FirstVisible(value);
      if startsWithControl || (first.Some? && IsFormulaSign(first.value)) then [APOSTROPHE] + value else value
  }

  const TRUE: Text := [0x74, 0x72, 0x75, 0x65]
  const FALSE: Text := [0x66, 0x61, 0x6C, 0x73, 0x65]

  function Shown(value: Scalar): (r: Text) {
    match value
    case Str(text) => text
    case Int(n) => if n < 0 then [HYPHEN] + Decimal(-n) else Decimal(n)
    case Bool(b) => if b then TRUE else FALSE
    case Absent => []
  }

  predicate IsSpecial(c: CodeUnit) {
    c == QUOTE || c == COMMA || c == RETURN || c == NEWLINE
  }

  predicate IsPlain(s: Text) {
    forall i | 0 <= i < |s| :: !IsSpecial(s[i])
  }

  /** Every quote doubled. */
  function Doubled(s: Text): (r: Text) {
    if s == [] then [] else (if s[0] == QUOTE then [QUOTE, QUOTE] else [s[0]]) + Doubled(s[1..])
  }

  function EscapeCsvCell(value: Scalar): (r: Text) {
    var serialized := NeutralizeCsvInjection(Shown(value));
    if IsPlain(serialized) then serialized else [QUOTE] + Doubled(serialized) + [QUOTE]
  }

  function EscapeRow(row: seq<Scalar>): (r: seq<Text>)
    ensures |r| == |row| && forall i | 0 <= i < |r| :: r[i] == EscapeCsvCell(row[i])
  {
    seq(|row|, i requires 0 <= i < |row| => EscapeCsvCell(row[i]))
  }

  function Lines(rows: seq<seq<Scalar>>): (r: seq<Text>)
    ensures |r| == |rows| && forall i | 0 <= i < |r| :: r[i] == Join(EscapeRow(rows[i]), [COMMA])
  {
    seq(|rows|, i requires 0 <= i < |rows| => Join(EscapeRow(rows[i]), [COMMA]))
  }

  function SerializeCsv(rows: seq<seq<Scalar>>): (r: Text) {
    Join(Lines(rows), [RETURN, NEWLINE])
  }

  // ---------- neutralising ----------

  /** The first unit that is not white space. */
  ghost predicate IsFirstVisible(s: Text, i: int) {
    0 <= i < |s| && !IsSpace(s[i]) && forall j | 0 <= j < i :: IsSpace(s[j])
  }

  /** Nothing in front that a spreadsheet takes for a formula: an apostrophe keeps it from looking, and otherwise the
      text starts with no tab, line feed or carriage return, and its first visible unit is none of `=`, `+`, `-`,
      `@`. */
  ghost predicate IsHarmless(s: Text) {
    s == [] || s[0] == 0x27
    || (s[0] !in {0x09, 0x0A, 0x0D} && forall i | IsFirstVisible(s, i) :: s[i] !in {0x3D, 0x2B, 0x2D, 0x40})
  }

  lemma FirstVisibleIs(s: Text)
    ensures FirstVisible(s).Some? ==> exists i | IsFirstVisible(s, i) :: FirstVisible(s) == Some(s[i])
    ensures forall i | IsFirstVisible(s, i) :: FirstVisible(s) == Some(s[i])
  {
    var n := |s| - |TrimStart(s)|;
    TrimmedIsSpace(s);
    if TrimStart(s) != [] {
      assert s[n..][0] == s[n];
      assert IsFirstVisible(s, n);
    }
    forall i | IsFirstVisible(s, i) ensures FirstVisible(s) == Some(s[i]) {
      assert n <= i;
      assert i == n;
    }
  }

  /** The result is harmless, harmless text is left alone, so a second pass changes nothing. */
  lemma NeutralizeMeans(value: Text)
    ensures IsHarmless(NeutralizeCsvInjection(value))
    ensures NeutralizeCsvInjection(value) == value <==> IsHarmless(value)
    ensures NeutralizeCsvInjection(NeutralizeCsvInjection(value)) == NeutralizeCsvInjection(value)
    ensures NeutralizeCsvInjection(value) == value || NeutralizeCsvInjection(value) == [APOSTROPHE] + value
  {
    hide TrimStart, FirstVisible, IsSpace;
    FirstVisibleIs(value);
    assert |[APOSTROPHE] + value| == |value| + 1;
  }

  // ---------- how a table is written ----------

  /** A cell is written as it is, and in quotes exactly where it holds a quote, a comma or a line break. */
  lemma CellsAreQuotedWhenNeeded(value: Scalar)
    ensures var shown, cell := NeutralizeCsvInjection(Shown(value)), EscapeCsvCell(value);
      && ((forall c | c in shown :: c !in {0x22, 0x2C, 0x0D, 0x0A}) ==> cell == shown)
      && ((exists c :: c in shown && c in {0x22, 0x2C, 0x0D, 0x0A}) ==>
        |cell| >= |shown| + 2 && cell[0] == 0x22 && cell[|cell| - 1] == 0x22)
  {
    hide NeutralizeCsvInjection, Shown;
    var shown := NeutralizeCsvInjection(Shown(value));
    DoubledIsLonger(shown);
    if IsPlain(shown) {
      assert forall c | c in shown :: !IsSpecial(c);
    } else {
      var i :| 0 <= i < |shown| && IsSpecial(shown[i]);
      assert shown[i] in shown && shown[i] in {0x22, 0x2C, 0x0D, 0x0A};
    }
  }

  lemma {:induction false} DoubledIsLonger(s: Text)
    ensures |Doubled(s)| >= |s|
  {
    if s != [] {
      DoubledIsLonger(s[1..]);
    }
  }

  /** Rows stand on lines that end in a carriage return and a line feed, and cells are set apart by commas. */
  lemma TablesGrow(rows: seq<seq<Scalar>>, row: seq<Scalar>, cell: Scalar)
    ensures SerializeCsv([]) == [] && SerializeCsv([[cell]]) == EscapeCsvCell(cell)
    ensures rows != [] ==> SerializeCsv(rows + [row]) == SerializeCsv(rows) + [0x0D, 0x0A] + SerializeCsv([row])
    ensures row != [] ==> SerializeCsv([row + [cell]]) == SerializeCsv([row]) + [0x2C] + EscapeCsvCell(cell)
  {
    hide EscapeCsvCell, Join;
    JoinFew(Lines([]), [RETURN, NEWLINE]);
    JoinFew(Lines([row]), [RETURN, NEWLINE]);
    JoinFew(Lines([[cell]]), [RETURN, NEWLINE]);
    JoinFew(Lines([row + [cell]]), [RETURN, NEWLINE]);
    JoinFew(EscapeRow([cell]), [COMMA]);
    assert Lines(rows + [row]) == Lines(rows) + [Join(EscapeRow(row), [COMMA])];
    assert EscapeRow(row + [cell]) == EscapeRow(row) + [EscapeCsvCell(cell)];
    if rows != [] {
      JoinGrows(Lines(rows), Join(EscapeRow(row), [COMMA]), [RETURN, NEWLINE]);
    }
    if row != [] {
      JoinGrows(EscapeRow(row), EscapeCsvCell(cell), [COMMA]);
    }
  }

  lemma JoinFew(parts: seq<Text>, separator: Text)
    ensures parts == [] ==> Join(parts, separator) == []
    ensures |parts| == 1 ==> Join(parts, separator) == parts[0]
  {
  }

  lemma {:induction false} JoinGrows(parts: seq<Text>, last: Text, separator: Text)
    requires parts != []
    ensures Join(parts + [last], separator) == Join(parts, separator) + separator + last
  {
    var all := parts + [last];
    if |parts| > 1 {
      JoinGrows(parts[1..], last, separator);
      assert all[1..] == parts[1..] + [last];
      Regrouped(parts[0] + separator, Join(parts[1..], separator) + separator, last);
      Regrouped(parts[0] + separator, Join(parts[1..], separator), separator);
    } else {
      assert all[1..] == [last];
    }
  }

  // ---------- the reader ----------

  function WithoutMark(s: Text): (r: Text) {
    if s != [] && s[0] == BYTE_ORDER_MARK then s[1..] else s
  }

  predicate HasContent(row: seq<Text>) {
    exists i | 0 <= i < |row| :: row[i] != []
  }

  datatype Reading = Reading(rows: seq<seq<Text>>, row: seq<Text>, cell: Text, quoted: bool)

  function EndRow(r: Reading): (s: seq<seq<Text>>) {
    var row := r.row + [r.cell];
    if HasContent(row) then r.rows + [row] else r.rows
  }

  /** What reading the rest of the text from this state gives; None where the source throws. */
  function ReadOn(s: Text, r: Reading): (rows: Option<seq<seq<Text>>>)
    decreases |s|
  {
    if s == [] then (if r.quoted then None else Some(EndRow(r)))
    else if r.quoted then
      if s[0] == QUOTE && |s| >= 2 && s[1] == QUOTE then ReadOn(s[2..], r.(cell := r.cell + [QUOTE]))
      else if s[0] == QUOTE then ReadOn(s[1..], r.(quoted := false))
      else ReadOn(s[1..], r.(cell := r.cell + [s[0]]))
    else if s[0] == QUOTE then (if r.cell != [] then None else ReadOn(s[1..], r.(quoted := true)))
    else if s[0] == COMMA then ReadOn(s[1..], r.(row := r.row + [r.cell], cell := []))
    else if s[0] == NEWLINE then ReadOn(s[1..], Reading(EndRow(r), [], [], false))
    else ReadOn(s[1..], r.(cell := r.cell + [s[0]]))
  }

  const BLANK: Reading := Reading([], [], [], false)

  function Parsed(source: Text): (rows: Option<seq<seq<Text>>>) {
    ReadOn(NormalizeNewlines(WithoutMark(source)), BLANK)
  }

  method ParseCsvRows(source: Text) returns (result: Option<seq<seq<Text>>>)
    ensures result == Parsed(source)
  {
    hide EndRow, NormalizeNewlines, WithoutMark;
    var normalized := NormalizeNewlines(WithoutMark(source));
    var rows: seq<seq<Text>>, row: seq<Text>, cell: Text, quoted := [], [], [], false;
    var index := 0;
    assert normalized[index..] == normalized;
    while index < |normalized|
      invariant index <= |normalized|
      invariant ReadOn(normalized[index..], Reading(rows, row, cell, quoted)) == Parsed(source)
    {
      var character := normalized[index];
      ghost var rest := normalized[index..];
      assert rest[1..] == normalized[index + 1..];
      if quoted {
        if character == QUOTE && index + 1 < |normalized| && normalized[index + 1] == QUOTE {
          assert rest[2..] == normalized[index + 2..];
          cell := cell + [QUOTE];
          index := index + 1;
        } else if character == QUOTE {
          quoted := false;
        } else {
          cell := cell + [character];
        }
      } else if character == QUOTE {
        if |cell| > 0 {
          return None;
        }
        quoted := true;
      } else if character == COMMA {
        row := row + [cell];
        cell := [];
      } else if character == NEWLINE {
        rows := EndRow(Reading(rows, row, cell, quoted));
        row, cell := [], [];
      } else {
        cell := cell + [character];
      }
      index := index + 1;
    }
    if quoted {
      return None;
    }
    return Some(EndRow(Reading(rows, row, cell, quoted)));
  }

  // ---------- newlines ----------

  lemma {:induction false} PlainStays(s: Text)
    requires IsPlain(s)
    ensures NormalizeNewlines(s) == s
  {
    if s != [] {
      assert !IsSpecial(s[0]);
      PlainStays(s[1..]);
    }
  }

  lemma DoubledStep(c: CodeUnit, t: Text)
    ensures Doubled([c] + t) == if c == QUOTE then [QUOTE] + ([QUOTE] + Doubled(t)) else [c] + Doubled(t)
    ensures t != [] ==> Doubled(t) != [] && Doubled(t)[0] == t[0]
  {
    assert ([c] + t)[1..] == t;
  }

  lemma {:induction false} NewlinesInDoubled(s: Text)
    ensures NormalizeNewlines(Doubled(s)) == Doubled(NormalizeNewlines(s))
  {
    if s != [] {
      var c, t := s[0], s[1..];
      hide NormalizeNewlines, Doubled;
      assert s == [c] + t;
      NewlinesInDoubled(t);
      NewlineStep(c, t);
      DoubledStep(c, t);
      DoubledStep(c, NormalizeNewlines(t));
      DoubledStep(NEWLINE, NormalizeNewlines(t));
      NewlineStep(c, Doubled(t));
      NewlineStep(QUOTE, [QUOTE] + Doubled(t));
      NothingDoubled();
    }
  }

  lemma NothingDoubled()
    ensures Doubled([]) == []
  {
  }

  // ---------- cells, rows, tables ----------

  /** The text stands for the cell. */
  ghost predicate Represents(t: Text, cell: Text) {
    (t == cell && IsPlain(cell)) || t == [QUOTE] + Doubled(cell) + [QUOTE]
  }

  /** What the reader gives back for a cell. */
  function Kept(value: Scalar): (r: Text) {
    NormalizeNewlines(NeutralizeCsvInjection(Shown(value)))
  }

  lemma EscapedRepresents(value: Scalar)
    ensures Represents(NormalizeNewlines(EscapeCsvCell(value)), Kept(value))
    ensures var e := EscapeCsvCell(value); e == [] || (e[0] != NEWLINE && e[|e| - 1] != RETURN)
  {
    hide NormalizeNewlines, NeutralizeCsvInjection, Shown, Doubled;
    var v := NeutralizeCsvInjection(Shown(value));
    if IsPlain(v) {
      PlainStays(v);
      assert v != [] ==> !IsSpecial(v[0]) && !IsSpecial(v[|v| - 1]);
    } else {
      OneUnitStays(QUOTE);
      NewlinesJoined([QUOTE] + Doubled(v), [QUOTE]);
      NewlinesJoined([QUOTE], Doubled(v));
      NewlinesInDoubled(v);
    }
  }

  lemma OneUnitStays(c: CodeUnit)
    requires c != RETURN
    ensures NormalizeNewlines([c]) == [c]
  {
  }

  predicate EndsCell(rest: Text) {
    rest == [] || rest[0] == COMMA || rest[0] == NEWLINE
  }

  lemma {:induction false} ReadPlain(t: Text, rest: Text, r: Reading)
    requires IsPlain(t) && !r.quoted
    ensures ReadOn(t + rest, r) == ReadOn(rest, r.(cell := r.cell + t))
  {
    if t == [] {
      assert t + rest == rest && r.cell + t == r.cell;
    } else {
      assert !IsSpecial(t[0]) && (t + rest)[0] == t[0] && (t + rest)[1..] == t[1..] + rest;
      assert r.cell + [t[0]] + t[1..] == r.cell + t;
      ReadPlain(t[1..], rest, r.(cell := r.cell + [t[0]]));
    }
  }

  lemma {:induction false} ReadDoubled(s: Text, rest: Text, r: Reading)
    requires r.quoted && (rest == [] || rest[0] != QUOTE)
    ensures ReadOn(Doubled(s) + [QUOTE] + rest, r) == ReadOn(rest, r.(cell := r.cell + s, quoted := false))
  {
    hide EndRow;
    var t := Doubled(s) + [QUOTE] + rest;
    if s == [] {
      assert t[0] == QUOTE && t[1..] == rest && r.cell + s == r.cell;
    } else {
      assert r.cell + [s[0]] + s[1..] == r.cell + s;
      ReadDoubled(s[1..], rest, r.(cell := r.cell + [s[0]]));
      if s[0] == QUOTE {
        assert t == [QUOTE, QUOTE] + (Doubled(s[1..]) + [QUOTE] + rest);
        assert t[2..] == Doubled(s[1..]) + [QUOTE] + rest;
      } else {
        assert t == [s[0]] + (Doubled(s[1..]) + [QUOTE] + rest);
        assert t[1..] == Doubled(s[1..]) + [QUOTE] + rest;
      }
    }
  }

  lemma ReadCell(t: Text, cell: Text, rest: Text, rows: seq<seq<Text>>, row: seq<Text>)
    requires Represents(t, cell) && EndsCell(rest)
    ensures ReadOn(t + rest, Reading(rows, row, [], false)) == ReadOn(rest, Reading(rows, row, cell, false))
  {
    hide EndRow;
    var r := Reading(rows, row, [], false);
    if t == cell && IsPlain(cell) {
      ReadPlain(t, rest, r);
      assert [] + cell == cell;
    } else {
      var inner := Doubled(cell) + [QUOTE] + rest;
      assert t + rest == [QUOTE] + inner;
      assert (t + rest)[1..] == inner;
      ReadDoubled(cell, rest, r.(quoted := true));
      assert [] + cell == cell;
    }
  }

  lemma ReadSeparator(rest: Text, rows: seq<seq<Text>>, row: seq<Text>, cell: Text)
    ensures var r := Reading(rows, row, cell, false);
      && ReadOn([COMMA] + rest, r) == ReadOn(rest, Reading(rows, row + [cell], [], false))
      && ReadOn([NEWLINE] + rest, r) == ReadOn(rest, Reading(EndRow(r), [], [], false))
      && ReadOn([], r) == Some(EndRow(r))
  {
    hide EndRow;
    assert ([COMMA] + rest)[1..] == rest && ([NEWLINE] + rest)[1..] == rest;
  }

  ghost predicate RepresentsRow(ts: seq<Text>, cells: seq<Text>) {
    |ts| == |cells| && forall i | 0 <= i < |ts| :: Represents(ts[i], cells[i])
  }

  lemma {:induction false} ReadRow(ts: seq<Text>, cells: seq<Text>, rest: Text, rows: seq<seq<Text>>, row: seq<Text>)
    requires RepresentsRow(ts, cells) && ts != [] && (rest == [] || rest[0] == NEWLINE)
    ensures ReadOn(Join(ts, [COMMA]) + rest, Reading(rows, row, [], false))
            == ReadOn(rest, Reading(rows, row + cells[..|cells| - 1], cells[|cells| - 1], false))
  {
    hide ReadOn, Represents, Join;
    JoinStep(ts, rest);
    if |ts| == 1 {
      ReadCell(ts[0], cells[0], rest, rows, row);
      assert row + cells[..0] == row;
    } else {
      var tail := Join(ts[1..], [COMMA]) + rest;
      ReadCell(ts[0], cells[0], [COMMA] + tail, rows, row);
      ReadSeparator(tail, rows, row, cells[0]);
      ReadRow(ts[1..], cells[1..], rest, rows, row + [cells[0]]);
      Regather(row, cells);
    }
  }

  lemma JoinStep(ts: seq<Text>, rest: Text)
    requires ts != []
    ensures |ts| == 1 ==> Join(ts, [COMMA]) == ts[0]
    ensures |ts| > 1 ==> Join(ts, [COMMA]) + rest == ts[0] + ([COMMA] + (Join(ts[1..], [COMMA]) + rest))
  {
    if |ts| > 1 {
      var more := Join(ts[1..], [COMMA]);
      Regrouped(ts[0] + [COMMA], more, rest);
      Regrouped(ts[0], [COMMA], more + rest);
    }
  }

  lemma Regather(row: seq<Text>, cells: seq<Text>)
    requires |cells| > 1
    ensures row + [cells[0]] + cells[1..][..|cells| - 2] == row + cells[..|cells| - 1]
  {
  }

  function WithContent(table: seq<seq<Text>>): (r: seq<seq<Text>>) {
    if table == [] then [] else (if HasContent(table[0]) then [table[0]] else []) + WithContent(table[1..])
  }

  ghost predicate RepresentsTable(texts: seq<seq<Text>>, table: seq<seq<Text>>) {
    |texts| == |table| && forall i | 0 <= i < |texts| :: texts[i] != [] && RepresentsRow(texts[i], table[i])
  }

  function JoinRows(texts: seq<seq<Text>>): (r: Text) {
    if texts == [] then []
    else if |texts| == 1 then Join(texts[0], [COMMA])
    else Join(texts[0], [COMMA]) + [NEWLINE] + JoinRows(texts[1..])
  }

  lemma {:induction false} ReadTable(texts: seq<seq<Text>>, table: seq<seq<Text>>, rows: seq<seq<Text>>)
    requires RepresentsTable(texts, table) && texts != []
    ensures ReadOn(JoinRows(texts), Reading(rows, [], [], false)) == Some(rows + WithContent(table))
  {
    hide RepresentsRow, HasContent, Join, ReadOn;
    var ts, cells := texts[0], table[0];
    var last := |cells| - 1;
    assert |ts| == |cells| by { RowLengths(ts, cells); }
    assert [] + cells[..last] == cells[..last] && cells[..last] + [cells[last]] == cells;
    var ended := EndRow(Reading(rows, cells[..last], cells[last], false));
    if |texts| == 1 {
      assert Join(ts, [COMMA]) + [] == Join(ts, [COMMA]);
      ReadRow(ts, cells, [], rows, []);
      ReadSeparator([], rows, cells[..last], cells[last]);
      assert table[1..] == [] && ended == rows + WithContent(table);
    } else {
      var rest := [NEWLINE] + JoinRows(texts[1..]);
      assert JoinRows(texts) == Join(ts, [COMMA]) + rest;
      ReadRow(ts, cells, rest, rows, []);
      ReadSeparator(JoinRows(texts[1..]), rows, cells[..last], cells[last]);
      ReadTable(texts[1..], table[1..], ended);
      assert ended + WithContent(table[1..]) == rows + WithContent(table);
    }
  }

  lemma RowLengths(ts: seq<Text>, cells: seq<Text>)
    requires RepresentsRow(ts, cells)
    ensures |ts| == |cells|
  {
  }

  // ---------- the round trip ----------

  function KeptRow(row: seq<Scalar>): (r: seq<Text>)
    ensures |r| == |row| && forall i | 0 <= i < |r| :: r[i] == Kept(row[i])
  {
    seq(|row|, i requires 0 <= i < |row| => Kept(row[i]))
  }

  function KeptRows(rows: seq<seq<Scalar>>): (r: seq<seq<Text>>)
    ensures |r| == |rows| && forall i | 0 <= i < |r| :: r[i] == KeptRow(rows[i])
  {
    seq(|rows|, i requires 0 <= i < |rows| => KeptRow(rows[i]))
  }

  /** The texts of a row's cells once newlines are normalised; a row without cells reads as one empty cell. */
  function CellTexts(row: seq<Scalar>): (r: seq<Text>)
    ensures r != []
  {
    if row == [] then [[]] else NormalizedCells(row)
  }

  function NormalizedCells(row: seq<Scalar>): (r: seq<Text>)
    ensures |r| == |row| && forall i | 0 <= i < |r| :: r[i] == NormalizeNewlines(EscapeCsvCell(row[i]))
  {
    seq(|row|, i requires 0 <= i < |row| => NormalizeNewlines(EscapeCsvCell(row[i])))
  }

  function Cells(row: seq<Scalar>): (r: seq<Text>) {
    if row == [] then [[]] else KeptRow(row)
  }

  function TableTexts(rows: seq<seq<Scalar>>): (r: seq<seq<Text>>)
    ensures |r| == |rows| && forall i | 0 <= i < |r| :: r[i] == CellTexts(rows[i])
  {
    seq(|rows|, i requires 0 <= i < |rows| => CellTexts(rows[i]))
  }

  function TableCells(rows: seq<seq<Scalar>>): (r: seq<seq<Text>>)
    ensures |r| == |rows| && forall i | 0 <= i < |r| :: r[i] == Cells(rows[i])
  {
    seq(|rows|, i requires 0 <= i < |rows| => Cells(rows[i]))
  }

  predicate IsCalm(s: Text) {
    s == [] || (s[0] != NEWLINE && s[|s| - 1] != RETURN)
  }

  lemma CommaJoined(a: Text, b: Text)
    requires IsCalm(a) && IsCalm(b)
    ensures NormalizeNewlines(a + [COMMA] + b) == NormalizeNewlines(a) + [COMMA] + NormalizeNewlines(b)
    ensures IsCalm(a + [COMMA] + b)
  {
    hide NormalizeNewlines;
    OneUnitStays(COMMA);
    NewlinesJoined(a, [COMMA]);
    NewlinesJoined(a + [COMMA], b);
  }

  lemma {:induction false} RowNormalized(row: seq<Scalar>)
    ensures NormalizeNewlines(Join(EscapeRow(row), [COMMA])) == Join(CellTexts(row), [COMMA])
    ensures IsCalm(Join(EscapeRow(row), [COMMA]))
  {
    hide EscapeCsvCell, NormalizeNewlines, Kept, Represents;
    if row == [] {
      OneUnitStays(COMMA);
      NewlinesJoined([], [COMMA]);
      NothingStays();
    } else {
      EscapedRepresents(row[0]);
      if |row| > 1 {
        RowNormalized(row[1..]);
        assert EscapeRow(row)[1..] == EscapeRow(row[1..]) && CellTexts(row)[1..] == CellTexts(row[1..]);
        CommaJoined(EscapeCsvCell(row[0]), Join(EscapeRow(row[1..]), [COMMA]));
      }
    }
  }

  lemma NothingStays()
    ensures NormalizeNewlines([]) == []
  {
  }

  lemma LineEnds(a: Text, b: Text)
    requires IsCalm(a)
    ensures NormalizeNewlines(a + [RETURN, NEWLINE] + b) == NormalizeNewlines(a) + [NEWLINE] + NormalizeNewlines(b)
  {
    var rest := [RETURN, NEWLINE] + b;
    assert a + [RETURN, NEWLINE] + b == a + rest && rest[2..] == b;
    NewlinesJoined(a, rest);
  }

  lemma {:induction false} TableNormalized(rows: seq<seq<Scalar>>)
    ensures NormalizeNewlines(SerializeCsv(rows)) == JoinRows(TableTexts(rows))
  {
    hide NormalizeNewlines, EscapeRow, CellTexts;
    if rows == [] {
      NothingStays();
    } else {
      RowNormalized(rows[0]);
      if |rows| > 1 {
        TableNormalized(rows[1..]);
        assert Lines(rows)[1..] == Lines(rows[1..]) && TableTexts(rows)[1..] == TableTexts(rows[1..]);
        LineEnds(Join(EscapeRow(rows[0]), [COMMA]), SerializeCsv(rows[1..]));
      }
    }
  }

  lemma TextsRepresent(rows: seq<seq<Scalar>>)
    ensures RepresentsTable(TableTexts(rows), TableCells(rows))
  {
    hide EscapeCsvCell, NormalizeNewlines, Kept;
    forall i | 0 <= i < |rows| ensures RepresentsRow(CellTexts(rows[i]), Cells(rows[i])) {
      forall k | 0 <= k < |rows[i]| ensures Represents(NormalizeNewlines(EscapeCsvCell(rows[i][k])), Kept(rows[i][k])) {
        EscapedRepresents(rows[i][k]);
      }
    }
  }

  lemma {:induction false} EmptyRowsDrop(rows: seq<seq<Scalar>>)
    ensures WithContent(TableCells(rows)) == WithContent(KeptRows(rows))
  {
    hide Kept;
    if rows != [] {
      EmptyRowsDrop(rows[1..]);
      assert TableCells(rows)[1..] == TableCells(rows[1..]) && KeptRows(rows)[1..] == KeptRows(rows[1..]);
    }
  }

  /** Whether the first cell is written starting with a byte-order mark. */
  predicate StartsWithMark(rows: seq<seq<Scalar>>) {
    rows != [] && rows[0] != []
    && var first := NeutralizeCsvInjection(Shown(rows[0][0]));
        first != [] && first[0] == BYTE_ORDER_MARK && IsPlain(first)
  }

  lemma MarkIsFirst(rows: seq<seq<Scalar>>)
    ensures var s := SerializeCsv(rows); StartsWithMark(rows) <==> s != [] && s[0] == BYTE_ORDER_MARK
  {
    hide NeutralizeCsvInjection, Shown, Doubled;
    if rows != [] && rows[0] != [] {
      var e := EscapeCsvCell(rows[0][0]);
      JoinFirst(EscapeRow(rows[0]), [COMMA]);
      JoinFirst(Lines(rows), [RETURN, NEWLINE]);
      assert e != [] ==> SerializeCsv(rows)[0] == e[0];
    } else if rows != [] {
      assert EscapeRow(rows[0]) == [];
      JoinFirst(Lines(rows), [RETURN, NEWLINE]);
    }
  }

  lemma JoinFirst(parts: seq<Text>, separator: Text)
    requires parts != [] && separator != []
    ensures var s := Join(parts, separator);
      if parts[0] != [] then s != [] && s[0] == parts[0][0] else if |parts| > 1 then s != []
          && s[0] == separator[0] else s == []
  {
  }

  /** Without a mark in front, reading back gives every row with content, each cell neutralised and its newlines
      normalised. */
  lemma ReadsBack(rows: seq<seq<Scalar>>)
    requires !StartsWithMark(rows)
    ensures Parsed(SerializeCsv(rows)) == Some(WithContent(KeptRows(rows)))
  {
    hide NormalizeNewlines, SerializeCsv, StartsWithMark, JoinRows;
    MarkIsFirst(rows);
    TableNormalized(rows);
    EmptyRowsDrop(rows);
    if rows == [] {
      assert JoinRows(TableTexts(rows)) == [] by { NoRows(); }
    } else {
      TextsRepresent(rows);
      ReadTable(TableTexts(rows), TableCells(rows), []);
      assert [] + WithContent(TableCells(rows)) == WithContent(TableCells(rows));
    }
  }

  lemma NoRows()
    ensures JoinRows([]) == []
  {
  }

  /** With a mark in front, the reader takes it away. */
  lemma MarkIsLost(rows: seq<seq<Scalar>>)
    requires StartsWithMark(rows)
    ensures Parsed(SerializeCsv(rows)) != Some(WithContent(KeptRows(rows)))
  {
    hide NormalizeNewlines, SerializeCsv, Represents, EscapeCsvCell, NeutralizeCsvInjection, Shown, IsPlain, ReadOn;
    hide HasContent;
    MarkIsFirst(rows);
    TableNormalized(rows);
    EmptyRowsDrop(rows);
    TextsRepresent(rows);
    var first := NeutralizeCsvInjection(Shown(rows[0][0]));
    var s := SerializeCsv(rows);
    assert s == [s[0]] + s[1..];
    OneUnitStays(BYTE_ORDER_MARK);
    NewlinesJoined([s[0]], s[1..]);
    var texts, table := TableTexts(rows), TableCells(rows);
    FirstCell(rows);
    var texts' := texts[0 := texts[0][0 := first[1..]]];
    var table' := table[0 := table[0][0 := first[1..]]];
    CutFirst(texts, texts');
    assert NormalizeNewlines(s[1..]) == JoinRows(texts');
    assert RepresentsTable(texts', table') by {
      CutRepresents(texts, table, first);
    }
    ReadTable(texts', table', []);
    assert [] + WithContent(table') == WithContent(table');
    OtherContent(table, table');
  }

  lemma FirstCell(rows: seq<seq<Scalar>>)
    requires StartsWithMark(rows)
    ensures var first := NeutralizeCsvInjection(Shown(rows[0][0]));
      TableTexts(rows)[0][0] == first && TableCells(rows)[0] != [] && TableCells(rows)[0][0] == first
  {
    PlainStays(NeutralizeCsvInjection(Shown(rows[0][0])));
  }

  lemma CutFirst(texts: seq<seq<Text>>, texts': seq<seq<Text>>)
    requires texts != [] && texts[0] != [] && texts[0][0] != [] && texts' == texts[0 := texts[0][0 := texts[0][0][1..]]]
    ensures JoinRows(texts) != [] && JoinRows(texts') == JoinRows(texts)[1..]
  {
    var ts, ts' := texts[0], texts'[0];
    assert ts[1..] == ts'[1..] && texts[1..] == texts'[1..];
    assert Join(ts', [COMMA]) == Join(ts, [COMMA])[1..];
  }

  lemma CutRepresents(texts: seq<seq<Text>>, table: seq<seq<Text>>, first: Text)
    requires RepresentsTable(texts, table) && texts != [] && texts[0][0] == table[0][0] == first && IsPlain(first)
        && first != []
    ensures RepresentsTable(texts[0 := texts[0][0 := first[1..]]], table[0 := table[0][0 := first[1..]]])
  {
    hide Doubled;
    assert Represents(first[1..], first[1..]);
  }

  lemma OtherContent(table: seq<seq<Text>>, table': seq<seq<Text>>)
    requires table != [] && table[0] != [] && table[0][0] != [] && table' == table[0 := table[0][0 := table[0][0][1..]]]
    ensures WithContent(table') != WithContent(table)
  {
    assert table[1..] == table'[1..];
    assert HasContent(table[0]);
    assert WithContent(table)[0] == table[0] && |table'[0][0]| < |table[0][0]|;
    if HasContent(table'[0]) {
      assert WithContent(table')[0] == table'[0];
    } else {
      assert |WithContent(table')| < |WithContent(table)|;
    }
  }

  /** Serializing and reading back gives the rows again exactly when the text does not start with a byte-order mark. */
  lemma RoundTrip(rows: seq<seq<Scalar>>)
    ensures Parsed(SerializeCsv(rows)) == Some(WithContent(KeptRows(rows))) <==> !StartsWithMark(rows)
  {
    if StartsWithMark(rows) {
      MarkIsLost(rows);
    } else {
      ReadsBack(rows);
    }
  }
}
