/** `parseCSV` of the wind visualisation: the text is trimmed and cut into
    lines at "\n", the first line gives the trimmed column names, and every
    further line becomes an object from column name to trimmed cell, with
    `undefined` for a column the line does not reach. */
module WindCsv {
  import opened Wrappers
  import opened Text

  /** One data row: column name to cell, `None` standing for `undefined`. */
  type Row = map<string, Option<string>>

  /** `{ headers, data }`. */
  datatype Table = Table(headers: seq<string>, data: seq<Row>)

  const Comma: set<char> := {','}
  const Newline: set<char> := {'\n'}

  /** `values[index]?.trim()`. */
  function Cell(values: seq<string>, index: nat): (c: Option<string>)
    ensures c.Some? <==> index < |values|
    ensures c.Some? ==> c.value == Trim(values[index]) && Trimmed(c.value)
  {
    if index < |values| then Some(Trim(values[index])) else None
  }

  /** The row once `headers.forEach` has visited the first `n` columns. */
  function RowUpTo(headers: seq<string>, values: seq<string>, n: nat): (row: Row)
    requires n <= |headers|
    ensures forall h :: h in row <==> h != ProtoName && h in headers[..n]
  {
    if n == 0 then map[]
    else
      assert headers[..n] == headers[..n - 1] + [headers[n - 1]];
      SetProperty(RowUpTo(headers, values, n - 1), headers[n - 1], Cell(values, n - 1))
  }

  /** The object built from one line's cells. */
  function RowOf(headers: seq<string>, values: seq<string>): (row: Row)
    ensures forall h :: h in row <==> h != ProtoName && h in headers
  {
    assert headers[..|headers|] == headers;
    RowUpTo(headers, values, |headers|)
  }

  /** `parts.map(h => h.trim())`. */
  function TrimAll(parts: seq<string>): (r: seq<string>)
    ensures |r| == |parts|
    ensures forall i :: 0 <= i < |r| ==> r[i] == Trim(parts[i])
  {
    seq(|parts|, i requires 0 <= i < |parts| => Trim(parts[i]))
  }

  /** `parseCSV`. */
  function ParseCsv(text: string): (t: Table)
    ensures |t.headers| >= 1
    ensures forall i :: 0 <= i < |t.headers| ==> Trimmed(t.headers[i])
    ensures |t.data| == Count(Trim(text), Newline)
  {
    var lines := Split(Trim(text), Newline);
    var headers := TrimAll(Split(lines[0], Comma));
    Table(headers, seq(|lines| - 1, i requires 0 <= i < |lines| - 1 => RowOf(headers, Split(lines[i + 1], Comma))))
  }

  // ------------------------------------------------------------ row laws

  /** Index of the last occurrence of `x`. */
  function LastIndex(s: seq<string>, x: string): (i: nat)
    requires x in s
    ensures i < |s| && s[i] == x
    ensures forall j :: i < j < |s| ==> s[j] != x
  {
    if s[|s| - 1] == x then |s| - 1
    else
      assert x in s[..|s| - 1] by {
        var k :| 0 <= k < |s| && s[k] == x;
        assert s[..|s| - 1][k] == x;
      }
      LastIndex(s[..|s| - 1], x)
  }

  /** With a repeated column name the last column wins: a name's value is the
      cell under its last occurrence in the header line. */
  lemma {:induction false} RowUpToLastWins(headers: seq<string>, values: seq<string>, n: nat, h: string)
    requires n <= |headers| && h != ProtoName && h in headers[..n]
    ensures h in RowUpTo(headers, values, n)
    ensures RowUpTo(headers, values, n)[h] == Cell(values, LastIndex(headers[..n], h))
  {
    var p := headers[..n];
    if p[n - 1] != h {
      assert p[..n - 1] == headers[..n - 1];
      RowUpToLastWins(headers, values, n - 1, h);
    }
  }

  lemma RowLastWins(headers: seq<string>, values: seq<string>, h: string)
    requires h != ProtoName && h in headers
    ensures h in RowOf(headers, values)
    ensures RowOf(headers, values)[h] == Cell(values, LastIndex(headers, h))
  {
    assert headers[..|headers|] == headers;
    RowUpToLastWins(headers, values, |headers|, h);
  }

  /** A column the line does not reach is `undefined`, one it reaches is the trimmed cell. */
  lemma RowCells(headers: seq<string>, values: seq<string>, h: string)
    requires h != ProtoName && h in headers
    ensures RowOf(headers, values)[h].None? <==> LastIndex(headers, h) >= |values|
    ensures LastIndex(headers, h) < |values| ==>
      RowOf(headers, values)[h] == Some(Trim(values[LastIndex(headers, h)]))
  {
    RowLastWins(headers, values, h);
  }

  lemma CellExtra(values: seq<string>, extra: seq<string>, i: nat)
    requires i < |values|
    ensures Cell(values + extra, i) == Cell(values, i)
  {
    assert (values + extra)[i] == values[i];
  }

  /** Cells beyond the last column are ignored. */
  lemma RowExtraIgnored(headers: seq<string>, values: seq<string>, extra: seq<string>)
    requires |headers| <= |values|
    ensures RowOf(headers, values + extra) == RowOf(headers, values)
  {
    var a := RowOf(headers, values + extra);
    var b := RowOf(headers, values);
    forall h | h in a
      ensures h in b && a[h] == b[h]
    {
      RowLastWins(headers, values + extra, h);
      RowLastWins(headers, values, h);
      CellExtra(values, extra, LastIndex(headers, h));
    }
    assert a.Keys == b.Keys;
  }

  /** Text that is empty or all white space has one empty column and no rows. */
  lemma ParseBlank(text: string)
    requires AllSpace(text)
    ensures ParseCsv(text) == Table([""], [])
  {
    assert Trim(text) == [];
    assert Split([], Comma) == [[]];
  }

  // ------------------------------------------------------------ round trip

  /** A cell the round trip keeps: non-empty, no white space at either end,
      and neither a comma nor a line break inside. */
  predicate IsCell(s: string) {
    |s| > 0 && Trimmed(s) && NoneIn(s, Comma) && NoneIn(s, Newline)
  }

  predicate DistinctNames(s: seq<string>) {
    forall i, j :: 0 <= i < j < |s| ==> s[i] != s[j]
  }

  /** The lines of a CSV text with the given header line and rows. */
  function CsvLines(headers: seq<string>, rows: seq<seq<string>>): (lines: seq<string>)
    ensures |lines| == 1 + |rows|
  {
    [Join(headers, ",")] + seq(|rows|, i requires 0 <= i < |rows| => Join(rows[i], ","))
  }

  /** The text a table of cells is written as. */
  function FormatCsv(headers: seq<string>, rows: seq<seq<string>>): string {
    Join(CsvLines(headers, rows), "\n")
  }

  /** A join starts with the first part's first character and ends with the
      last part's last character. */
  lemma {:induction false} JoinEnds(parts: seq<string>, sep: string)
    requires |parts| > 0 && forall i :: 0 <= i < |parts| ==> |parts[i]| > 0
    ensures var j := Join(parts, sep);
      |j| > 0 && j[0] == parts[0][0] && j[|j| - 1] == parts[|parts| - 1][|parts[|parts| - 1]| - 1]
  {
    if |parts| > 1 {
      JoinEnds(parts[1..], sep);
      var rest := Join(parts[1..], sep);
      assert Join(parts, sep) == parts[0] + sep + rest;
    }
  }

  /** The cells of a well-formed line split back out of it. */
  lemma LineRoundTrip(cells: seq<string>)
    requires |cells| > 0 && forall i :: 0 <= i < |cells| ==> IsCell(cells[i])
    ensures Split(Join(cells, ","), Comma) == cells
    ensures TrimAll(cells) == cells
    ensures NoneIn(Join(cells, ","), Newline)
    ensures Trimmed(Join(cells, ",")) && |Join(cells, ",")| > 0
  {
    SplitJoin(cells, ',', Comma);
    JoinNoneIn(cells, ",", Newline);
    JoinEnds(cells, ",");
  }

  /** The cells of a table the round trip keeps. */
  predicate WellFormed(headers: seq<string>, rows: seq<seq<string>>) {
    && |headers| > 0
    && (forall j :: 0 <= j < |headers| ==> IsCell(headers[j]))
    && (forall i :: 0 <= i < |rows| ==> |rows[i]| == |headers|)
    && (forall i, j :: 0 <= i < |rows| && 0 <= j < |headers| ==> IsCell(rows[i][j]))
  }

  /** The lines of a well-formed table are what `trim().split('\n')` recovers. */
  lemma LinesRoundTrip(headers: seq<string>, rows: seq<seq<string>>)
    requires WellFormed(headers, rows)
    ensures Split(Trim(FormatCsv(headers, rows)), Newline) == CsvLines(headers, rows)
  {
    var lines := CsvLines(headers, rows);
    forall k | 0 <= k < |lines|
      ensures NoneIn(lines[k], Newline) && Trimmed(lines[k]) && |lines[k]| > 0
    {
      if k == 0 {
        LineRoundTrip(headers);
      } else {
        LineRoundTrip(rows[k - 1]);
      }
    }
    JoinEnds(lines, "\n");
    assert Trim(FormatCsv(headers, rows)) == FormatCsv(headers, rows);
    SplitJoin(lines, '\n', Newline);
  }

  /** The header line of a well-formed table parses back to the column names. */
  lemma ParseHeaders(headers: seq<string>, rows: seq<seq<string>>)
    requires WellFormed(headers, rows)
    ensures ParseCsv(FormatCsv(headers, rows)).headers == headers
    ensures |ParseCsv(FormatCsv(headers, rows)).data| == |rows|
  {
    LinesRoundTrip(headers, rows);
    LineRoundTrip(headers);
  }

  /** Each data line of a well-formed table parses back to that line's cells. */
  lemma ParseRow(headers: seq<string>, rows: seq<seq<string>>, i: nat)
    requires WellFormed(headers, rows) && i < |rows|
    ensures |ParseCsv(FormatCsv(headers, rows)).data| == |rows|
    ensures ParseCsv(FormatCsv(headers, rows)).data[i] == RowOf(headers, rows[i])
  {
    ParseHeaders(headers, rows);
    var text := FormatCsv(headers, rows);
    LinesRoundTrip(headers, rows);
    var t := ParseCsv(text);
    assert t.data[i] == RowOf(t.headers, Split(Split(Trim(text), Newline)[i + 1], Comma));
    assert Split(Trim(text), Newline)[i + 1] == Join(rows[i], ",");
    LineRoundTrip(rows[i]);
  }

  /** Parsing the text of a table whose column names are distinct and whose
      cells are well formed gives back the column names, one row per line,
      and each cell under its column. */
  lemma ParseFormat(headers: seq<string>, rows: seq<seq<string>>)
    requires WellFormed(headers, rows) && DistinctNames(headers)
    requires forall j :: 0 <= j < |headers| ==> headers[j] != ProtoName
    ensures var t := ParseCsv(FormatCsv(headers, rows));
      && t.headers == headers
      && |t.data| == |rows|
      && forall i, j :: 0 <= i < |rows| && 0 <= j < |headers| ==>
           headers[j] in t.data[i] && t.data[i][headers[j]] == Some(rows[i][j])
  {
    ParseHeaders(headers, rows);
    forall i | 0 <= i < |rows|
      ensures ParseCsv(FormatCsv(headers, rows)).data[i] == RowOf(headers, rows[i])
    {
      ParseRow(headers, rows, i);
    }
    forall i, j | 0 <= i < |rows| && 0 <= j < |headers|
      ensures headers[j] in RowOf(headers, rows[i]) && RowOf(headers, rows[i])[headers[j]] == Some(rows[i][j])
    {
      assert LastIndex(headers, headers[j]) == j;
      RowCells(headers, rows[i], headers[j]);
      assert Trim(rows[i][j]) == rows[i][j];
    }
  }
}
