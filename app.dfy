/**
 The row recogniser of the revenue report analyser: `extract_table_rows` turns the
 text dumped from a PDF into table rows. A line of the text yields a row when,
 once stripped of surrounding whitespace, it has at least four tab-separated
 fields and its second field is a string of digits; the row is its first four
 fields (the columns Row, Service, Last Month and This Month).
 */
module App {
  import opened PyStr
  import opened Seqs

  /** A row as `extract_table_rows` returns it: a list of fields. */
  type Row = seq<string>

  /** What every returned row looks like: four tab-free fields, the second a digit
      string, the first non-empty and not starting with whitespace. */
  predicate IsTableRow(r: Row) {
    && |r| == 4
    && (forall j :: 0 <= j < 4 ==> '\t' !in r[j])
    && IsDigit(r[1])
    && |r[0]| > 0 && !IsSpace(r[0][0])
  }

  /** `fs` are the first four tab-separated fields of `s`, the second one all digits:
      `s` is those fields joined by tabs, or starts with them and one more tab. */
  predicate IsRowOf(fs: Row, s: string) {
    && |fs| == 4
    && (forall j :: 0 <= j < 4 ==> '\t' !in fs[j])
    && IsDigit(fs[1])
    && var joined := Join(fs, '\t');
       s == joined || (|joined| < |s| && s[..|joined| + 1] == joined + "\t")
  }

  /** The row one line yields, if any: the loop body of `extract_table_rows`. */
  function LineRow(line: string): Option<Row> {
    var parts := Split(Strip(line), '\t');
    if |parts| >= 4 && IsDigit(parts[1]) then Some(parts[..4]) else None
  }

  /** Every row a line yields has the shape of a table row. */
  lemma LineRowShape(line: string)
    ensures LineRow(line).Some? ==> IsTableRow(LineRow(line).value)
  {
    var s := Strip(line);
    var parts := Split(s, '\t');
    if |parts| >= 4 && IsDigit(parts[1]) {
      StripSpec(line);
      SplitSpec(s, '\t');
      assert s == parts[0] + "\t" + Join(parts[1..], '\t');
    }
  }

  /** A row a line yields is its first four fields, the second a digit string. */
  lemma LineRowSound(line: string, fs: Row)
    requires LineRow(line) == Some(fs)
    ensures IsRowOf(fs, Strip(line))
  {
    var s := Strip(line);
    var parts := Split(s, '\t');
    SplitSpec(s, '\t');
    assert fs == parts[..4];
    var joined := Join(fs, '\t');
    if |parts| == 4 {
      assert fs == parts;
    } else {
      JoinAppend(fs, parts[4..], '\t');
      assert parts == fs + parts[4..];
      assert s == joined + "\t" + Join(parts[4..], '\t');
      assert s[..|joined| + 1] == joined + "\t";
    }
  }

  /** A line whose first four fields have a digit string second yields them. */
  lemma LineRowComplete(line: string, fs: Row)
    requires IsRowOf(fs, Strip(line))
    ensures LineRow(line) == Some(fs)
  {
    var s := Strip(line);
    var joined := Join(fs, '\t');
    var parts;
    if s == joined {
      SplitJoin(fs, '\t');
      parts := fs;
    } else {
      var rest := s[|joined| + 1..];
      assert s == joined + "\t" + rest;
      SplitPrefix(fs, rest, '\t');
      parts := fs + Split(rest, '\t');
    }
    assert Split(s, '\t') == parts;
    assert parts[..4] == fs;
    assert parts[1] == fs[1];
  }

  /** A line yields exactly the rows that are its first four fields with a digit
      string second: both directions. */
  lemma LineRowSpec(line: string, fs: Row)
    ensures LineRow(line) == Some(fs) <==> IsRowOf(fs, Strip(line))
  {
    if LineRow(line) == Some(fs) { LineRowSound(line, fs); }
    if IsRowOf(fs, Strip(line)) { LineRowComplete(line, fs); }
  }

  /** An empty line yields nothing. */
  lemma EmptyLineRow()
    ensures LineRow("") == None
  {
  }

  /** The rows that `lines` yield, in line order. */
  function TableRows(lines: seq<string>): seq<Row> {
    FilterMap(LineRow, lines)
  }

  /** Every row in the result has the shape of a table row. */
  lemma TableRowsShape(lines: seq<string>)
    ensures forall k :: 0 <= k < |TableRows(lines)| ==> IsTableRow(TableRows(lines)[k])
  {
    forall j | 0 <= j < |lines| && LineRow(lines[j]).Some?
      ensures IsTableRow(LineRow(lines[j]).value)
    {
      LineRowShape(lines[j]);
    }
    FilterMapAll(LineRow, IsTableRow, lines);
  }

  /** What `extract_table_rows(text)` returns. */
  function TextRows(text: string): seq<Row> {
    TableRows(SplitLines(text))
  }

  /** `extract_table_rows`: split the text into lines, keep the rows the lines yield. */
  method ExtractTableRows(text: string) returns (rows: seq<Row>)
    ensures rows == TextRows(text)
    ensures |rows| <= |SplitLines(text)|
    ensures forall k :: 0 <= k < |rows| ==> IsTableRow(rows[k])
    ensures text == [] ==> rows == []
  {
    var lines := SplitLines(text);
    rows := [];
    for i := 0 to |lines|
      invariant rows == FilterMap(LineRow, lines[..i])
    {
      var parts := Split(Strip(lines[i]), '\t');
      FilterMapSnoc(LineRow, lines, i);
      if |parts| >= 4 && IsDigit(parts[1]) {
        rows := rows + [parts[..4]];
      }
    }
    assert lines[..|lines|] == lines;
    TableRowsShape(lines);
  }

  /** Each line contributes independently: the rows of two runs of lines are the
      rows of the first followed by the rows of the second. */
  lemma TableRowsAppend(x: seq<string>, y: seq<string>)
    ensures TableRows(x + y) == TableRows(x) + TableRows(y)
  {
    FilterMapAppend(LineRow, x, y);
  }

  /** A line that yields no row can be dropped without changing the result. */
  lemma TableRowsSkip(x: seq<string>, line: string, y: seq<string>)
    requires LineRow(line) == None
    ensures TableRows(x + [line] + y) == TableRows(x + y)
  {
    FilterMapSkip(LineRow, x, line, y);
  }

  /** Indices of the lines that contribute a row. */
  function Contributing(lines: seq<string>): seq<nat> {
    Kept(LineRow, lines)
  }

  /** Order preservation: the result is the rows of the contributing lines, in
      increasing line order, and a line contributes if and only if it yields a row. */
  lemma TableRowsOrigins(lines: seq<string>)
    ensures |Contributing(lines)| == |TableRows(lines)|
    ensures forall k :: 0 <= k < |Contributing(lines)| ==>
              Contributing(lines)[k] < |lines|
              && LineRow(lines[Contributing(lines)[k]]) == Some(TableRows(lines)[k])
    ensures forall k, m :: 0 <= k < m < |Contributing(lines)| ==>
              Contributing(lines)[k] < Contributing(lines)[m]
    ensures forall j :: 0 <= j < |lines| ==>
              (LineRow(lines[j]).Some? <==> j in Contributing(lines))
  {
    FilterMapOrigins(LineRow, lines);
  }

  /** Extracting from two texts joined by any line boundary ("\n", "\r\n", a lone
      "\r" not followed by "\n", or another boundary character) gives the rows of
      the first followed by the rows of the second. */
  lemma TextRowsJoin(a: string, brk: string, b: string)
    requires IsBoundary(brk) && SeparateFrom(brk, b)
    ensures TextRows(a + brk + b) == TextRows(a) + TextRows(b)
  {
    SplitLinesBoundary(a, brk, b);
    var lt, la, lb := SplitLines(a + brk + b), SplitLines(a), SplitLines(b);
    if BoundaryAddsLine(a, [], brk) {
      assert lt == la + [""] + lb;
      EmptyLineRow();
      FilterMapSkip(LineRow, la, "", lb);
    } else {
      assert lt == la + lb;
    }
    FilterMapAppend(LineRow, la, lb);
  }

  /** The rows of each page's text, page after page. */
  function PagesRows(pages: seq<string>): seq<Row> {
    if pages == [] then [] else TextRows(pages[0]) + PagesRows(pages[1..])
  }

  /** On text assembled as each page's text followed by a newline, extraction works
      page by page: no row spans two pages and no page boundary adds or drops one. */
  lemma {:induction false} TextRowsOfPages(pages: seq<string>)
    ensures TextRows(JoinTerminated(pages)) == PagesRows(pages)
  {
    if pages != [] {
      TextRowsJoin(pages[0], "\n", JoinTerminated(pages[1..]));
      TextRowsOfPages(pages[1..]);
    }
  }
}
