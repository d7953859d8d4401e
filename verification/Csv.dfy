/**
 The CSV reader for Bulk results, and the round trip with section 2 of RFC 4180: any
 table, printed with any legal choice of quoting and line ends, is read back as it was.
 */
module Csv {
  import opened Text

  // ----- Reader -------------------------------------------------------------

  /** The reader's variables: finished rows, the open row and cell, and its two flags. */
  datatype Reader = Reader(rows: seq<seq<string>>, row: seq<string>, cell: string, inQuotes: bool, started: bool)

  const FRESH := Reader([], [], "", false, false)

  function EndField(r: Reader): Reader {
    r.(row := r.row + [r.cell], cell := "")
  }

  function EndRow(r: Reader): Reader {
    var f := EndField(r);
    f.(rows := f.rows + [f.row], row := [], started := false)
  }

  /** A trailing record without a line end is kept if anything of it was seen. */
  function Flush(r: Reader): seq<seq<string>> {
    if r.started || r.cell != "" || r.row != [] then EndRow(r).rows else r.rows
  }

  /** How many characters one turn of the loop consumes. */
  function Width(s: string, r: Reader): (n: nat)
    requires s != ""
    ensures 1 <= n <= |s|
  {
    if r.inQuotes && s[0] == '"' && |s| > 1 && s[1] == '"' then 2
    else if !r.inQuotes && s[0] == '\r' && |s| > 1 && s[1] == '\n' then 2
    else 1
  }

  /** What one turn of the loop does to the variables. */
  function Turn(s: string, r: Reader): Reader
    requires s != ""
  {
    var c := s[0];
    if r.inQuotes then
      if c == '"' then
        if |s| > 1 && s[1] == '"' then r.(cell := r.cell + ['"']) else r.(inQuotes := false)
      else r.(cell := r.cell + [c])
    else if c == '"' then r.(inQuotes := true, started := true)
    else if c == ',' then EndField(r).(started := true)
    else if c == '\r' || c == '\n' then EndRow(r)
    else r.(cell := r.cell + [c], started := true)
  }

  function Read(s: string, r: Reader): seq<seq<string>>
    decreases |s|
  {
    if s == "" then Flush(r) else Read(s[Width(s, r)..], Turn(s, r))
  }

  /** sfcsv::Parse. */
  method Parse(data: string) returns (rows: seq<seq<string>>)
    ensures rows == Read(data, FRESH)
  {
    rows := [];
    var row, cell, inQuotes, started, i := [], "", false, false, 0;
    while i < |data|
      invariant 0 <= i <= |data|
      invariant Read(data[i..], Reader(rows, row, cell, inQuotes, started)) == Read(data, FRESH)
    {
      ghost var s, r := data[i..], Reader(rows, row, cell, inQuotes, started);
      assert data[i..][Width(s, r)..] == data[i + Width(s, r)..];
      var c := data[i];
      if inQuotes {
        if c == '"' {
          if i + 1 < |data| && data[i + 1] == '"' {
            cell := cell + ['"'];
            i := i + 2;
            continue;
          }
          inQuotes := false;
          i := i + 1;
          continue;
        }
        cell := cell + [c];
        i := i + 1;
        continue;
      }
      if c == '"' {
        inQuotes, started := true, true;
        i := i + 1;
        continue;
      }
      if c == ',' {
        row, cell := row + [cell], "";
        started := true;
        i := i + 1;
        continue;
      }
      if c == '\r' {
        i := i + 1;
        if i < |data| && data[i] == '\n' {
          i := i + 1;
        }
        rows, row, cell, started := rows + [row + [cell]], [], "", false;
        continue;
      }
      if c == '\n' {
        rows, row, cell, started := rows + [row + [cell]], [], "", false;
        i := i + 1;
        continue;
      }
      cell := cell + [c];
      started := true;
      i := i + 1;
    }
    assert data[i..] == "";
    if started || cell != "" || row != [] {
      rows := rows + [row + [cell]];
    }
  }

  // ----- Printer ------------------------------------------------------------

  /** A cell and whether it is printed between quotes. */
  datatype Cell = Cell(text: string, quoted: bool)

  /** A row of at least one cell and whether it ends in CRLF or LF. */
  datatype Line = Line(cells: seq<Cell>, crlf: bool)

  predicate IsPlain(c: char) {
    c != '"' && c != ',' && c != '\r' && c != '\n'
  }

  /** Quotes may be left out only where nothing in the cell needs them. */
  predicate Legal(c: Cell) {
    !c.quoted ==> forall i | 0 <= i < |c.text| :: IsPlain(c.text[i])
  }

  predicate LegalCells(cells: seq<Cell>) {
    |cells| > 0 && forall i | 0 <= i < |cells| :: Legal(cells[i])
  }

  predicate LegalLines(lines: seq<Line>) {
    forall i | 0 <= i < |lines| :: LegalCells(lines[i].cells)
  }

  function QuotedChar(c: char): string {
    if c == '"' then "\"\"" else [c]
  }

  function DoubleQuotes(s: string): string {
    if s == "" then "" else QuotedChar(s[0]) + DoubleQuotes(s[1..])
  }

  function PrintCell(c: Cell): string {
    if c.quoted then "\"" + (DoubleQuotes(c.text) + "\"") else c.text
  }

  function PrintCells(cells: seq<Cell>): string {
    if |cells| == 0 then ""
    else if |cells| == 1 then PrintCell(cells[0])
    else PrintCell(cells[0]) + ("," + PrintCells(cells[1..]))
  }

  function LineEnd(crlf: bool): string {
    if crlf then "\r\n" else "\n"
  }

  function PrintLines(lines: seq<Line>): string {
    if |lines| == 0 then "" else PrintCells(lines[0].cells) + (LineEnd(lines[0].crlf) + PrintLines(lines[1..]))
  }

  function Texts(cells: seq<Cell>): (ts: seq<string>)
    ensures |ts| == |cells| && forall i | 0 <= i < |cells| :: ts[i] == cells[i].text
  {
    seq(|cells|, i requires 0 <= i < |cells| => cells[i].text)
  }

  function Table(lines: seq<Line>): (t: seq<seq<string>>)
    ensures |t| == |lines| && forall i | 0 <= i < |lines| :: t[i] == Texts(lines[i].cells)
  {
    seq(|lines|, i requires 0 <= i < |lines| => Texts(lines[i].cells))
  }

  // ----- Round trip ---------------------------------------------------------

  /** One turn on a text that starts with `first`. */
  lemma ReadStep(first: string, rest: string, r: Reader)
    requires first != "" && Width(first + rest, r) == |first|
    ensures Read(first + rest, r) == Read(rest, Turn(first + rest, r))
  {
    assert (first + rest)[|first|..] == rest;
  }

  /** What may follow a cell. */
  predicate CellEnds(rest: string) {
    rest == "" || rest[0] == ',' || rest[0] == '\r' || rest[0] == '\n'
  }

  lemma {:induction false} ReadPlain(text: string, rest: string, r: Reader)
    requires !r.inQuotes && forall i | 0 <= i < |text| :: IsPlain(text[i])
    ensures Read(text + rest, r) == Read(rest, r.(cell := r.cell + text, started := r.started || text != ""))
    decreases |text|
  {
    if text == "" {
      assert text + rest == rest && r.cell + text == r.cell;
    } else {
      ReadStep([text[0]], text[1..] + rest, r);
      assert text + rest == [text[0]] + (text[1..] + rest);
      var r' := r.(cell := r.cell + [text[0]], started := true);
      ReadPlain(text[1..], rest, r');
      assert r.cell + [text[0]] + text[1..] == r.cell + text;
    }
  }

  lemma ReadQuotedChar(c: char, tail: string, r: Reader)
    requires r.inQuotes
    ensures Read(QuotedChar(c) + tail, r) == Read(tail, r.(cell := r.cell + [c]))
  {
    ReadStep(QuotedChar(c), tail, r);
  }

  lemma ReadClosingQuote(rest: string, r: Reader)
    requires r.inQuotes && CellEnds(rest)
    ensures Read("\"" + rest, r) == Read(rest, r.(inQuotes := false))
  {
    ReadStep("\"", rest, r);
  }

  lemma {:induction false} ReadQuoted(text: string, rest: string, r: Reader)
    requires r.inQuotes && CellEnds(rest)
    ensures Read(DoubleQuotes(text) + ("\"" + rest), r) == Read(rest, r.(cell := r.cell + text, inQuotes := false))
    decreases |text|
  {
    if text == "" {
      ReadClosingQuote(rest, r);
      assert DoubleQuotes(text) + ("\"" + rest) == "\"" + rest;
      assert r.cell + text == r.cell;
    } else {
      Assoc(QuotedChar(text[0]), DoubleQuotes(text[1..]), "\"" + rest);
      ReadQuotedChar(text[0], DoubleQuotes(text[1..]) + ("\"" + rest), r);
      ReadQuoted(text[1..], rest, r.(cell := r.cell + [text[0]]));
      Assoc(r.cell, [text[0]], text[1..]);
      assert [text[0]] + text[1..] == text;
    }
  }

  /** A printed cell lands in the open cell. */
  lemma ReadCell(c: Cell, rest: string, r: Reader)
    requires Legal(c) && CellEnds(rest) && !r.inQuotes && r.cell == ""
    ensures Read(PrintCell(c) + rest, r) ==
            Read(rest, r.(cell := c.text, started := r.started || c.quoted || c.text != ""))
  {
    assert "" + c.text == c.text;
    if c.quoted {
      var body := DoubleQuotes(c.text) + ("\"" + rest);
      Assoc("\"", DoubleQuotes(c.text) + "\"", rest);
      Assoc(DoubleQuotes(c.text), "\"", rest);
      ReadStep("\"", body, r);
      ReadQuoted(c.text, rest, r.(inQuotes := true, started := true));
    } else {
      ReadPlain(c.text, rest, r);
    }
  }

  /** The reader after the cells of a line, all but the last closed. */
  function AfterCells(cells: seq<Cell>, r: Reader): Reader
    requires |cells| > 0
  {
    r.(row := r.row + Texts(cells[..|cells| - 1]), cell := cells[|cells| - 1].text,
       started := r.started || |cells| > 1 || cells[0].quoted || cells[0].text != "")
  }

  lemma ReadComma(more: string, r: Reader)
    requires !r.inQuotes
    ensures Read("," + more, r) == Read(more, EndField(r).(started := true))
  {
    ReadStep(",", more, r);
  }

  lemma AfterCellsCons(cells: seq<Cell>, r: Reader)
    requires |cells| > 1
    ensures AfterCells(cells, r) ==
            AfterCells(cells[1..], r.(row := r.row + [cells[0].text], cell := "", started := true))
  {
    assert r.row + [cells[0].text] + Texts(cells[1..][..|cells| - 2]) == r.row + Texts(cells[..|cells| - 1]);
  }

  lemma {:induction false} ReadCells(cells: seq<Cell>, rest: string, r: Reader)
    requires LegalCells(cells) && CellEnds(rest) && (rest != "" ==> rest[0] != ',') && !r.inQuotes && r.cell == ""
    ensures Read(PrintCells(cells) + rest, r) == Read(rest, AfterCells(cells, r))
    decreases |cells|
  {
    if |cells| == 1 {
      ReadCell(cells[0], rest, r);
      assert r.row + Texts(cells[..0]) == r.row;
    } else {
      var more := PrintCells(cells[1..]) + rest;
      Assoc(PrintCell(cells[0]), "," + PrintCells(cells[1..]), rest);
      Assoc(",", PrintCells(cells[1..]), rest);
      ReadCell(cells[0], "," + more, r);
      var r1 := r.(cell := cells[0].text, started := r.started || cells[0].quoted || cells[0].text != "");
      ReadComma(more, r1);
      ReadCells(cells[1..], rest, EndField(r1).(started := true));
      AfterCellsCons(cells, r);
    }
  }

  lemma LineEndEnds(crlf: bool, rest: string)
    ensures CellEnds(LineEnd(crlf) + rest) && (LineEnd(crlf) + rest)[0] != ','
  {
  }

  lemma AfterLine(cells: seq<Cell>, r: Reader)
    requires |cells| > 0 && r.row == [] && r.cell == "" && !r.started
    ensures EndRow(AfterCells(cells, r)) == r.(rows := r.rows + [Texts(cells)])
  {
    var r1 := AfterCells(cells, r);
    assert r1.row + [r1.cell] == Texts(cells);
  }

  lemma ReadLine(line: Line, rest: string, r: Reader)
    requires LegalCells(line.cells) && r.row == [] && r.cell == "" && !r.inQuotes && !r.started
    ensures Read(PrintCells(line.cells) + (LineEnd(line.crlf) + rest), r) ==
            Read(rest, r.(rows := r.rows + [Texts(line.cells)]))
  {
    LineEndEnds(line.crlf, rest);
    ReadCells(line.cells, LineEnd(line.crlf) + rest, r);
    ReadLineEnd(line.crlf, rest, AfterCells(line.cells, r));
    AfterLine(line.cells, r);
  }

  /** LF, and CRLF as one, close the row. */
  lemma ReadLineEnd(crlf: bool, rest: string, r: Reader)
    requires !r.inQuotes
    ensures Read(LineEnd(crlf) + rest, r) == Read(rest, EndRow(r))
  {
    ReadStep(LineEnd(crlf), rest, r);
  }

  lemma TableCons(lines: seq<Line>)
    requires |lines| > 0
    ensures Table(lines) == [Texts(lines[0].cells)] + Table(lines[1..])
  {
  }

  lemma {:induction false} ReadLines(lines: seq<Line>, rest: string, r: Reader)
    requires LegalLines(lines) && r.row == [] && r.cell == "" && !r.inQuotes && !r.started
    ensures Read(PrintLines(lines) + rest, r) == Read(rest, r.(rows := r.rows + Table(lines)))
    decreases |lines|
  {
    if |lines| == 0 {
      assert PrintLines(lines) + rest == rest && r.rows + Table(lines) == r.rows;
    } else {
      var line := lines[0];
      var more := PrintLines(lines[1..]) + rest;
      Assoc(PrintCells(line.cells), LineEnd(line.crlf) + PrintLines(lines[1..]), rest);
      Assoc(LineEnd(line.crlf), PrintLines(lines[1..]), rest);
      ReadLine(line, more, r);
      ReadLines(lines[1..], rest, r.(rows := r.rows + [Texts(line.cells)]));
      Assoc(r.rows, [Texts(line.cells)], Table(lines[1..]));
      TableCons(lines);
    }
  }

  /** Every table printed with every row ended is read back as it was. */
  lemma RoundTrip(lines: seq<Line>)
    requires LegalLines(lines)
    ensures Read(PrintLines(lines), FRESH) == Table(lines)
  {
    ReadLines(lines, "", FRESH);
    assert PrintLines(lines) + "" == PrintLines(lines);
    assert [] + Table(lines) == Table(lines);
  }

  /** What is left of a line that is not ended. */
  lemma FlushCells(cells: seq<Cell>, r: Reader)
    requires |cells| > 0 && r.row == [] && r.cell == "" && !r.started
    ensures Flush(AfterCells(cells, r)) ==
            if cells == [Cell("", false)] then r.rows else r.rows + [Texts(cells)]
  {
    AfterLine(cells, r);
    var r1 := AfterCells(cells, r);
    if !r1.started {
      assert cells == [cells[0]];
    }
  }

  /**
   RFC 4180 lets the last record go without a line end. It is then read back if and only if
   it is not one empty unquoted cell, which leaves no trace in the text.
   */
  lemma OpenLastLineIff(lines: seq<Line>, last: seq<Cell>)
    requires LegalLines(lines) && LegalCells(last)
    ensures Read(PrintLines(lines) + PrintCells(last), FRESH) == Table(lines) + [Texts(last)] <==>
            last != [Cell("", false)]
  {
    var r := FRESH.(rows := Table(lines));
    ReadLines(lines, PrintCells(last), FRESH);
    assert [] + Table(lines) == Table(lines);
    ReadCells(last, "", r);
    assert PrintCells(last) + "" == PrintCells(last);
    FlushCells(last, r);
    assert |Table(lines) + [Texts(last)]| == |Table(lines)| + 1;
  }
}
