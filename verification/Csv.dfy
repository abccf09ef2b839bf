/** The CSV reader, and what it gives back for a table printed by section 2 of RFC 4180. */
module Csv {
  import opened Text

  type Row = seq<Text>

  predicate IsBreak(c: CodeUnit) { c == CR || c == LF }

  /** A row counts when some cell is not empty. */
  function Kept(row: Row): seq<Row> { if exists i :: 0 <= i < |row| && row[i] != [] then [row] else [] }

  /** Whether the next character to read is `c`. */
  predicate Next(s: Text, c: CodeUnit) { s != [] && s[0] == c }

  // ---- Reading --------------------------------------------------------------------

  /** The rows still to come from `s`, with `row` and `field` begun. */
  function Rows(s: Text, row: Row, field: Text, inQuotes: bool): seq<Row>
    decreases |s|
  {
    if s == [] then
      if field != [] || row != [] then Kept(row + [field]) else []
    else
      var c, rest := s[0], s[1..];
      if inQuotes then
        if c == QUOTE then
          if Next(rest, QUOTE) then Rows(rest[1..], row, field + [QUOTE], true) else Rows(rest, row, field, false)
        else Rows(rest, row, field + [c], true)
      else if c == QUOTE then Rows(rest, row, field, true)
      else if c == COMMA then Rows(rest, row + [field], [], false)
      else if IsBreak(c) then Kept(row + [field]) +
           Rows(if c == CR && Next(rest, LF) then rest[1..] else rest, [], [], false)
      else Rows(rest, row, field + [c], false)
  }

  function WithoutBom(t: Text): Text { if Next(t, BOM) then t[1..] else t }

  /** What one character does, by position. */
  lemma RowsStep(s: Text, i: nat, row: Row, field: Text, inQuotes: bool)
    requires i < |s|
    ensures var c := s[i];
            Rows(s[i..], row, field, inQuotes) ==
            if inQuotes then
              if c == QUOTE then
                if i + 1 < |s| && s[i + 1] == QUOTE then Rows(s[i + 2..], row, field + [QUOTE], true)
                else Rows(s[i + 1..], row, field, false)
              else Rows(s[i + 1..], row, field + [c], true)
            else if c == QUOTE then Rows(s[i + 1..], row, field, true)
            else if c == COMMA then Rows(s[i + 1..], row + [field], [], false)
            else if IsBreak(c) then
              Kept(row + [field]) + Rows(if c == CR && i + 1 < |s|
                && s[i + 1] == LF then s[i + 2..] else s[i + 1..], [], [], false)
            else Rows(s[i + 1..], row, field + [c], false)
  {
    hide Kept;
    var rest := s[i + 1..];
    assert s[i..][0] == s[i] && s[i..][1..] == rest;
    if i + 1 < |s| { assert rest[0] == s[i + 1] && rest[1..] == s[i + 2..]; }
  }

  method ParseCsv(text: Text) returns (rows: seq<Row>)
    ensures rows == Rows(WithoutBom(text), [], [], false)
  {
    rows := [];
    var row: Row := [];
    var field: Text := [];
    var inQuotes := false;
    var s := WithoutBom(text);
    var i := 0;
    hide Rows;
    assert s[0..] == s;
    while i < |s|
      invariant 0 <= i <= |s|
      invariant rows + Rows(s[i..], row, field, inQuotes) == Rows(s, [], [], false)
    {
      var c := s[i];
      RowsStep(s, i, row, field, inQuotes);
      if inQuotes {
        if c == QUOTE {
          if i + 1 < |s| && s[i + 1] == QUOTE {
            field := field + [QUOTE];
            i := i + 1;
          } else {
            inQuotes := false;
          }
        } else {
          field := field + [c];
        }
      } else if c == QUOTE {
        inQuotes := true;
      } else if c == COMMA {
        row := row + [field];
        field := [];
      } else if c == LF || c == CR {
        if c == CR && i + 1 < |s| && s[i + 1] == LF { i := i + 1; }
        row := row + [field];
        field := [];
        if exists k :: 0 <= k < |row| && row[k] != [] { rows := rows + [row]; }
        row := [];
      } else {
        field := field + [c];
      }
      i := i + 1;
    }
    assert s[i..] == [];
    ReadEnd(row, field, inQuotes);
    NoRow();
    if field != [] || |row| > 0 {
      row := row + [field];
      if exists k :: 0 <= k < |row| && row[k] != [] { rows := rows + [row]; }
    }
  }

  // ---- Printing -------------------------------------------------------------------

  datatype Cell = Cell(value: Text, quoted: bool)

  datatype Break = Lf | CrLf | Cr

  datatype Line = Line(cells: seq<Cell>, end: Break)

  predicate Plain(t: Text) { forall i :: 0 <= i < |t| ==> t[i] != QUOTE && t[i] != COMMA && !IsBreak(t[i]) }

  /** Whatever needs quoting is quoted, and a line has at least one cell. */
  predicate LineOk(line: Line) { line.cells != [] && CellsOk(line.cells) }

  predicate CellsOk(cells: seq<Cell>) { forall i :: 0 <= i < |cells| ==> CellOk(cells[i]) }

  predicate CellOk(c: Cell) { c.quoted || Plain(c.value) }

  predicate TableOk(lines: seq<Line>) { forall i :: 0 <= i < |lines| ==> LineOk(lines[i]) }

  function Doubled(t: Text): Text {
    if t == [] then [] else (if t[0] == QUOTE then [QUOTE, QUOTE] else [t[0]]) + Doubled(t[1..])
  }

  function CellText(c: Cell): Text { if c.quoted then [QUOTE] + Doubled(c.value) + [QUOTE] else c.value }

  function CellsText(cells: seq<Cell>): Text
    decreases |cells|, 0
  {
    if cells == [] then [] else CellText(cells[0]) + MoreCellsText(cells[1..])
  }

  function MoreCellsText(cells: seq<Cell>): Text
    decreases |cells|, 1
  {
    if cells == [] then [] else [COMMA] + CellsText(cells)
  }

  function BreakText(b: Break): Text { match b case Lf => [LF] case CrLf => [CR, LF] case Cr => [CR] }

  /** The printed table; the last line's break may be missing. */
  function TableText(lines: seq<Line>, final: bool): Text
    decreases |lines|, 1
  {
    if lines == [] then [] else CellsText(lines[0].cells) + AfterLineText(lines[0].end, lines[1..], final)
  }

  function AfterLineText(end: Break, more: seq<Line>, final: bool): Text
    decreases |more|, 2
  {
    (if more != [] || final then BreakText(end) else []) + TableText(more, final)
  }

  function Values(cells: seq<Cell>): (row: Row)
    ensures |row| == |cells|
  {
    if cells == [] then [] else [cells[0].value] + Values(cells[1..])
  }

  /** The rows with something in them, in order. */
  function FilledRows(lines: seq<Line>): seq<Row> {
    if lines == [] then []
    else
      var row := Values(lines[0].cells);
      (if exists i :: 0 <= i < |row| && row[i] != [] then [row] else []) + FilledRows(lines[1..])
  }

  // ---- Reading what was printed ------------------------------------------------------

  /** What may follow a cell. */
  predicate Delimited(rest: Text) { rest == [] || rest[0] == COMMA || IsBreak(rest[0]) }

  lemma {:induction false} ReadPlain(v: Text, rest: Text, row: Row, field: Text)
    requires Plain(v)
    ensures Rows(v + rest, row, field, false) == Rows(rest, row, field + v, false)
  {
    if v == [] {
      assert v + rest == rest && field + v == field;
    } else {
      assert (v + rest)[1..] == v[1..] + rest;
      ReadPlain(v[1..], rest, row, field + [v[0]]);
      assert field + [v[0]] + v[1..] == field + v;
    }
  }

  lemma {:induction false} ReadQuoted(v: Text, rest: Text, row: Row, field: Text)
    requires !Next(rest, QUOTE)
    ensures Rows(Doubled(v) + [QUOTE] + rest, row, field, true) == Rows(rest, row, field + v, false)
  {
    var s := Doubled(v) + [QUOTE] + rest;
    if v == [] {
      assert s[1..] == rest && field + v == field;
    } else {
      var tail := Doubled(v[1..]) + [QUOTE] + rest;
      if v[0] == QUOTE {
        assert s[1..][0] == QUOTE && s[1..][1..] == tail;
      } else {
        assert s[1..] == tail;
      }
      ReadQuoted(v[1..], rest, row, field + [v[0]]);
      assert field + [v[0]] + v[1..] == field + v;
    }
  }

  lemma ReadCell(c: Cell, rest: Text, row: Row)
    requires CellOk(c) && Delimited(rest)
    ensures Rows(CellText(c) + rest, row, [], false) == Rows(rest, row, c.value, false)
  {
    assert [] + c.value == c.value;
    if c.quoted {
      var s := CellText(c) + rest;
      assert s[0] == QUOTE && s[1..] == Doubled(c.value) + [QUOTE] + rest;
      ReadQuoted(c.value, rest, row, []);
    } else {
      ReadPlain(c.value, rest, row, []);
    }
  }

  // ---- Quotes anywhere in a cell ---------------------------------------------------------

  /** A stretch of a cell, outside quotes or between them. */
  datatype Part = Bare(text: Text) | Quoted(text: Text)

  /** Two quoted stretches never touch: that would be one with a quote inside. */
  predicate PartsOk(parts: seq<Part>) {
    && (forall i :: 0 <= i < |parts| && parts[i].Bare? ==> parts[i].text != [] && Plain(parts[i].text))
    && (forall i :: 0 <= i < |parts| - 1 ==> parts[i].Bare? || parts[i + 1].Bare?)
  }

  function PartText(p: Part): Text { if p.Quoted? then [QUOTE] + Doubled(p.text) + [QUOTE] else p.text }

  function PartsText(parts: seq<Part>): Text {
    if parts == [] then [] else PartText(parts[0]) + PartsText(parts[1..])
  }

  function PartsValue(parts: seq<Part>): Text {
    if parts == [] then [] else parts[0].text + PartsValue(parts[1..])
  }

  /** A quote opens a quoted stretch wherever it stands, and what the stretches hold is read in order. */
  lemma {:induction false} ReadParts(parts: seq<Part>, rest: Text, row: Row, field: Text)
    requires PartsOk(parts) && (parts != [] && parts[|parts| - 1].Quoted? ==> !Next(rest, QUOTE))
    ensures Rows(PartsText(parts) + rest, row, field, false) == Rows(rest, row, field + PartsValue(parts), false)
    decreases |parts|
  {
    if parts == [] {
      assert [] + rest == rest && field + [] == field;
    } else {
      var p, more := parts[0], parts[1..];
      hide Rows, PartsText, PartText, PartsValue, Doubled, Plain, PartsOk, Next;
      PartsNext(parts, rest);
      PartFirst(parts, rest, field);
      ReadPart(p, PartsText(more) + rest, row, field);
      ReadParts(more, rest, row, field + p.text);
    }
  }

  lemma PartsNext(parts: seq<Part>, rest: Text)
    requires parts != [] && PartsOk(parts) && (parts[|parts| - 1].Quoted? ==> !Next(rest, QUOTE))
    ensures var more := parts[1..];
            && PartsOk(more) && (more != [] && more[|more| - 1].Quoted? ==> !Next(rest, QUOTE))
            && if parts[0].Quoted? then !Next(PartsText(more) + rest, QUOTE) else Plain(parts[0].text)
  {
    hide PartsText, Plain, Next;
    var more := parts[1..];
    assert forall i :: 0 <= i < |more| ==> more[i] == parts[i + 1];
    PartsStart(more, rest);
  }

  lemma PartFirst(parts: seq<Part>, rest: Text, field: Text)
    requires parts != []
    ensures PartsText(parts) + rest == PartText(parts[0]) + (PartsText(parts[1..]) + rest)
    ensures field + PartsValue(parts) == (field + parts[0].text) + PartsValue(parts[1..])
  {
    hide PartText;
    assert (PartText(parts[0]) + PartsText(parts[1..])) + rest == PartText(parts[0]) + (PartsText(parts[1..]) + rest);
  }

  lemma PartsStart(parts: seq<Part>, rest: Text)
    requires PartsOk(parts)
    ensures parts != [] && parts[0].Bare? ==> !Next(PartsText(parts) + rest, QUOTE)
    ensures parts == [] ==> PartsText(parts) + rest == rest
  {
    if parts != [] && parts[0].Bare? {
      assert PartsText(parts) + rest == parts[0].text + (PartsText(parts[1..]) + rest);
    } else if parts == [] {
      assert [] + rest == rest;
    }
  }

  lemma ReadPart(p: Part, rest: Text, row: Row, field: Text)
    requires if p.Quoted? then !Next(rest, QUOTE) else Plain(p.text)
    ensures Rows(PartText(p) + rest, row, field, false) == Rows(rest, row, field + p.text, false)
  {
    if p.Quoted? {
      var s := PartText(p) + rest;
      assert s[0] == QUOTE && s[1..] == Doubled(p.text) + [QUOTE] + rest;
      ReadQuoted(p.text, rest, row, field);
    } else {
      ReadPlain(p.text, rest, row, field);
    }
  }

  /** A line of cells, up to the break or the end of the text after it. */
  lemma {:induction false} ReadCells(cells: seq<Cell>, rest: Text, row: Row)
    requires cells != [] && CellsOk(cells) && (rest == [] || IsBreak(rest[0]))
    ensures Rows(CellsText(cells) + rest, row, [], false) ==
            Rows(rest, row + Front(Values(cells)), Final(Values(cells)), false)
    decreases |cells|
  {
    assert CellOk(cells[0]) && CellsOk(cells[1..]);
    FirstCell(cells, rest);
    FirstValue(cells);
    hide Rows, CellsText, MoreCellsText, Values, CellText, CellOk, CellsOk, Front, Final;
    var c, more := cells[0], cells[1..];
    if more == [] {
      ReadCell(c, rest, row);
      assert row + [] == row;
    } else {
      ReadCell(c, [COMMA] + (CellsText(more) + rest), row);
      ReadComma(CellsText(more) + rest, row, c.value);
      ReadCells(more, rest, row + [c.value]);
      Assoc(row, [c.value], Front(Values(more)));
    }
  }

  function Front(row: Row): Row
    requires row != []
  {
    row[..|row| - 1]
  }

  function Final(row: Row): Text
    requires row != []
  {
    row[|row| - 1]
  }

  lemma Assoc<T>(a: seq<T>, b: seq<T>, c: seq<T>)
    ensures a + b + c == a + (b + c)
  {}

  lemma CellsUnfold(cells: seq<Cell>)
    requires cells != []
    ensures CellsText(cells) == CellText(cells[0]) + MoreCellsText(cells[1..])
    ensures MoreCellsText(cells[1..]) == if cells[1..] == [] then [] else [COMMA] + CellsText(cells[1..])
  {
    hide CellText;
  }

  lemma FirstCell(cells: seq<Cell>, rest: Text)
    requires cells != []
    ensures CellsText(cells) + rest == CellText(cells[0]) +
            if cells[1..] == [] then rest else [COMMA] + (CellsText(cells[1..]) + rest)
  {
    hide CellText, CellsText, MoreCellsText;
    CellsUnfold(cells);
    Assoc(CellText(cells[0]), MoreCellsText(cells[1..]), rest);
    if cells[1..] == [] {
      assert [] + rest == rest;
    } else {
      Assoc([COMMA], CellsText(cells[1..]), rest);
    }
  }

  lemma FirstValue(cells: seq<Cell>)
    requires cells != []
    ensures var vs, ws := Values(cells), Values(cells[1..]);
            && Front(vs) == (if ws == [] then [] else [cells[0].value] + Front(ws))
            && Final(vs) == if ws == [] then cells[0].value else Final(ws)
  {
    var ws := Values(cells[1..]);
    assert Values(cells) == [cells[0].value] + ws;
    hide Values;
    if ws != [] { assert ([cells[0].value] + ws)[..|ws|] == [cells[0].value] + ws[..|ws| - 1]; }
  }

  lemma ReadComma(rest: Text, row: Row, field: Text)
    ensures Rows([COMMA] + rest, row, field, false) == Rows(rest, row + [field], [], false)
  {
    assert ([COMMA] + rest)[1..] == rest;
  }

  /** A break ends the row; a lone CR before an LF makes no difference, as the empty row between them is dropped. */
  lemma ReadBreak(b: Break, rest: Text, row: Row, field: Text)
    ensures Rows(BreakText(b) + rest, row, field, false) == Kept(row + [field]) + Rows(rest, [], [], false)
  {
    var s := BreakText(b) + rest;
    match b
    case Lf => assert s[1..] == rest;
    case CrLf => assert s[1..][0] == LF && s[1..][1..] == rest;
    case Cr =>
      assert s[1..] == rest;
      if Next(rest, LF) { assert Rows(rest, [], [], false) == Kept([] + [[]]) + Rows(rest[1..], [], [], false); }
  }

  lemma NoRow()
    ensures Kept([[]]) == []
  {}

  lemma ReadEnd(row: Row, field: Text, inQuotes: bool)
    ensures Rows([], row, field, inQuotes) == Kept(row + [field])
  {
    assert field == [] && row == [] ==> row + [field] == [[]];
  }

  lemma {:induction false} ReadTable(lines: seq<Line>, final: bool)
    requires TableOk(lines)
    ensures Rows(TableText(lines, final), [], [], false) == FilledRows(lines)
    decreases |lines|
  {
    if lines != [] {
      assert LineOk(lines[0]) && TableOk(lines[1..]);
      ReadTable(lines[1..], final);
      ReadLine(lines[0], lines[1..], final);
    }
  }

  lemma ReadLine(line: Line, more: seq<Line>, final: bool)
    requires LineOk(line)
    ensures Rows(CellsText(line.cells) + AfterLineText(line.end, more, final), [], [], false) ==
            Kept(Values(line.cells)) + Rows(TableText(more, final), [], [], false)
  {
    var vs := Values(line.cells);
    AfterUnfold(line.end, more, final);
    assert more == [] ==> TableText(more, final) == [] && Rows([], [], [], false) == [];
    assert [] + Front(vs) == Front(vs) && Front(vs) + [Final(vs)] == vs;
    hide Rows, Kept, CellsText, TableText, Values, Front, Final, AfterLineText;
    if more != [] || final {
      var rest := BreakText(line.end) + TableText(more, final);
      ReadCells(line.cells, rest, []);
      ReadBreak(line.end, TableText(more, final), Front(vs), Final(vs));
    } else {
      ReadCells(line.cells, [], []);
      ReadEnd(Front(vs), Final(vs), false);
    }
  }

  /** The first cell is printed without quotes and begins with the mark. */
  predicate Marked(lines: seq<Line>) {
    lines != [] && lines[0].cells != [] && !lines[0].cells[0].quoted && Next(lines[0].cells[0].value, BOM)
  }

  /** The table as it reads when the mark at the head of its first, unquoted cell is taken for a byte order mark. */
  function Unmarked(lines: seq<Line>): seq<Line> {
    if !Marked(lines) then lines
    else [Line([Cell(lines[0].cells[0].value[1..], false)] + lines[0].cells[1..], lines[0].end)] + lines[1..]
  }

  /** What follows the first cell of a table. */
  function AfterFirst(lines: seq<Line>, final: bool): Text
    requires lines != [] && lines[0].cells != []
  {
    MoreCellsText(lines[0].cells[1..]) + AfterLineText(lines[0].end, lines[1..], final)
  }

  lemma AfterFirstCell(lines: seq<Line>, final: bool)
    requires lines != [] && lines[0].cells != []
    ensures Delimited(AfterFirst(lines, final))
            && TableText(lines, final) == CellText(lines[0].cells[0]) + AfterFirst(lines, final)
  {
    var cells, end, more := lines[0].cells, lines[0].end, lines[1..];
    LineUnfold(lines, final);
    AfterUnfold(end, more, final);
    CellsUnfold(cells);
    hide TableText, CellsText, CellText, MoreCellsText, AfterLineText;
    Assoc(CellText(cells[0]), MoreCellsText(cells[1..]), AfterLineText(end, more, final));
    if cells[1..] == [] { assert [] + AfterLineText(end, more, final) == AfterLineText(end, more, final); }
  }

  lemma LineUnfold(lines: seq<Line>, final: bool)
    requires lines != []
    ensures TableText(lines, final) == CellsText(lines[0].cells) + AfterLineText(lines[0].end, lines[1..], final)
  {
    hide CellsText;
  }

  lemma AfterUnfold(end: Break, more: seq<Line>, final: bool)
    ensures AfterLineText(end, more, final) ==
            if more == [] && !final then [] else BreakText(end) + TableText(more, final)
    ensures Delimited(AfterLineText(end, more, final))
  {
    hide CellsText;
    if more == [] && !final { assert TableText(more, final) == []; }
  }

  lemma MarkedText(lines: seq<Line>, final: bool)
    requires TableOk(lines) && Marked(lines)
    ensures TableText(lines, final) == [BOM] + TableText(Unmarked(lines), final)
  {
    hide TableText, AfterFirst, TableOk;
    var u, v, after := Unmarked(lines), lines[0].cells[0].value, AfterFirst(lines, final);
    UnmarkedRest(lines, final);
    AfterFirstCell(lines, final);
    AfterFirstCell(u, final);
    assert CellText(lines[0].cells[0]) == v && CellText(u[0].cells[0]) == v[1..];
    hide CellText, Unmarked;
    assert v == [BOM] + v[1..];
    Assoc([BOM], v[1..], after);
  }

  lemma UnmarkedText(lines: seq<Line>, final: bool)
    requires TableOk(lines)
    ensures WithoutBom(TableText(lines, final)) == TableText(Unmarked(lines), final)
  {
    if Marked(lines) {
      MarkedText(lines, final);
      hide TableText, Unmarked;
      var rest := TableText(Unmarked(lines), final);
      assert ([BOM] + rest)[1..] == rest;
    } else if lines != [] {
      assert LineOk(lines[0]);
      AfterFirstCell(lines, final);
      hide TableText, AfterFirst;
    }
  }

  lemma UnmarkedRest(lines: seq<Line>, final: bool)
    requires TableOk(lines) && Marked(lines)
    ensures TableOk(Unmarked(lines)) && Unmarked(lines) != [] && Unmarked(lines)[0].cells != []
    ensures AfterFirst(Unmarked(lines), final) == AfterFirst(lines, final)
  {
    hide MoreCellsText, AfterLineText;
    var u, cells := Unmarked(lines), lines[0].cells;
    assert LineOk(lines[0]);
    assert u[1..] == lines[1..] && u[0].cells[1..] == cells[1..];
    assert CellOk(cells[0]) && CellOk(u[0].cells[0]);
    assert forall i :: 0 < i < |cells| ==> u[0].cells[i] == cells[i];
    assert CellsOk(u[0].cells);
    forall i | 0 <= i < |u| ensures LineOk(u[i]) {
      if i > 0 { assert u[i] == lines[1..][i - 1]; }
    }
  }

  /** The lost mark always shows. */
  lemma MarkedShows(lines: seq<Line>)
    requires Marked(lines)
    ensures FilledRows(Unmarked(lines)) != FilledRows(lines)
  {
    var u := Unmarked(lines);
    var vs, us, rest := Values(lines[0].cells), Values(u[0].cells), FilledRows(lines[1..]);
    assert u[1..] == lines[1..];
    assert vs[0] == lines[0].cells[0].value && us[0] == vs[0][1..];
    assert FilledRows(lines) == [vs] + rest && FilledRows(u) == Kept(us) + rest;
    if Kept(us) == [] {
      assert |FilledRows(u)| < |FilledRows(lines)|;
    } else {
      assert FilledRows(u)[0] == us && FilledRows(lines)[0] == vs;
    }
  }

  /**
   * Reading a printed table gives back exactly its rows with some non-empty cell, in order, each
   * cell as it was, if and only if its first cell is quoted or does not begin with U+FEFF; if it
   * does, that one character is lost, and its row counts only if something is left.
   */
  lemma RoundTrip(lines: seq<Line>, final: bool)
    requires TableOk(lines)
    ensures Rows(WithoutBom(TableText(lines, final)), [], [], false) == FilledRows(Unmarked(lines))
    ensures Rows(WithoutBom(TableText(lines, final)), [], [], false) == FilledRows(lines) <==> !Marked(lines)
  {
    if Marked(lines) {
      UnmarkedRest(lines, final);
      MarkedShows(lines);
    }
    UnmarkedText(lines, final);
    hide TableText, TableOk;
    ReadTable(Unmarked(lines), final);
  }
}
