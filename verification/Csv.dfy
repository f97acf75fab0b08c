/** The CSV writer of the reports (apps/api/src/reports/csv.ts). */
module CsvWriter {
  /** A cell: `null`, or the text `String(value)` gives. */
  datatype Cell = Null | Value(text: string)

  /** The text with a leading apostrophe when a spreadsheet would take it for a formula. */
  function FormulaSafe(text: string): string
  {
    if text != "" && text[0] in {'=', '+', '-', '@'} then "'" + text else text
  }

  /** What a cell says once it is in the file: the formula-neutralised text. */
  function Contents(cell: Cell): string
  {
    match cell
    case Null => ""
    case Value(text) => FormulaSafe(text)
  }

  function RowContents(row: seq<Cell>): (r: seq<string>)
    ensures |r| == |row|
  {
    seq(|row|, i requires 0 <= i < |row| => Contents(row[i]))
  }

  function DoubleQuotes(text: string): string
  {
    if text == "" then ""
    else (if text[0] == '"' then "\"\"" else [text[0]]) + DoubleQuotes(text[1..])
  }

  predicate NeedsQuotes(text: string)
  {
    '"' in text || ',' in text || '\r' in text || '\n' in text
  }

  function EscapeCell(cell: Cell): string
  {
    var text := Contents(cell);
    if NeedsQuotes(text) then "\"" + DoubleQuotes(text) + "\"" else text
  }

  /** `parts.join(separator)`. */
  function Join(parts: seq<string>, separator: string): string
  {
    if parts == [] then "" else if |parts| == 1 then parts[0]
    else parts[0] + separator + Join(parts[1..], separator)
  }

  function EscapeCells(row: seq<Cell>): (r: seq<string>)
    ensures |r| == |row|
  {
    seq(|row|, i requires 0 <= i < |row| => EscapeCell(row[i]))
  }

  function RowText(row: seq<Cell>): string
  {
    Join(EscapeCells(row), ",")
  }

  /** A file as RFC 4180 describes it: every record followed by CRLF. */
  function FileText(table: seq<seq<Cell>>): string
  {
    if table == [] then "" else RowText(table[0]) + "\r\n" + FileText(table[1..])
  }

  lemma {:induction false} FileTextAppend(table: seq<seq<Cell>>, row: seq<Cell>)
    ensures FileText(table + [row]) == FileText(table) + RowText(row) + "\r\n"
  {
    if table == [] {
      assert table + [row] == [row];
      assert FileText([row]) == RowText(row) + "\r\n" + FileText([]);
    } else {
      assert (table + [row])[1..] == table[1..] + [row];
      FileTextAppend(table[1..], row);
    }
  }

  lemma {:induction false} JoinAppend(parts: seq<string>, last: string, separator: string)
    requires parts != []
    ensures Join(parts + [last], separator) == Join(parts, separator) + separator + last
  {
    assert (parts + [last])[1..] == parts[1..] + [last];
    if |parts| > 1 {
      JoinAppend(parts[1..], last, separator);
      assert parts[0] + separator + (Join(parts[1..], separator) + separator + last)
          == Join(parts, separator) + separator + last;
    } else {
      assert parts[1..] + [last] == [last];
    }
  }

  lemma RowTextSplit(row: seq<Cell>)
    requires |row| > 1
    ensures RowText(row) == EscapeCell(row[0]) + ("," + RowText(row[1..]))
  {
    assert EscapeCells(row)[1..] == EscapeCells(row[1..]);
  }

  function AsCells(headers: seq<string>): (r: seq<Cell>)
    ensures |r| == |headers|
  {
    seq(|headers|, i requires 0 <= i < |headers| => Value(headers[i]))
  }

  lemma AddLine(lines: seq<string>, table: seq<seq<Cell>>, k: nat)
    requires k < |table| && lines != []
    requires Join(lines, "\r\n") + "\r\n" == FileText(table[..k])
    ensures Join(lines + [RowText(table[k])], "\r\n") + "\r\n" == FileText(table[..k + 1])
  {
    JoinAppend(lines, RowText(table[k]), "\r\n");
    FileTextAppend(table[..k], table[k]);
    assert table[..k + 1] == table[..k] + [table[k]];
  }

  /** Joining the lines with CRLF and ending the file with one writes every record of the table. */
  method ToCsv(headers: seq<string>, rows: seq<seq<Cell>>) returns (file: string)
    ensures file == FileText([AsCells(headers)] + rows)
  {
    ghost var table := [AsCells(headers)] + rows;
    var lines := [Join(EscapeCells(AsCells(headers)), ",")];
    FileTextAppend([], table[0]);
    assert table[..1] == [] + [table[0]];
    for k := 0 to |rows|
      invariant lines != []
      invariant Join(lines, "\r\n") + "\r\n" == FileText(table[..k + 1])
    {
      AddLine(lines, table, k + 1);
      lines := lines + [Join(EscapeCells(rows[k]), ",")];
    }
    assert table[..|rows| + 1] == table;
    file := Join(lines, "\r\n") + "\r\n";
  }

  // ---------- what is in the file, said of the cells' own text ----------

  /** The characters a spreadsheet takes for the beginning of a formula. */
  predicate StartsFormula(text: string)
  {
    text != "" && (text[0] == '=' || text[0] == '+' || text[0] == '-' || text[0] == '@')
  }

  /**
   * A field that gives a cell back: a null is empty, and a text is there whole, at the end, with one
   * character before it exactly when it would start a formula; and no field starts one.
   */
  ghost predicate GivesBack(cell: Cell, field: string)
  {
    && !StartsFormula(field)
    && match cell
       case Null => field == ""
       case Value(text) =>
         && |text| <= |field| <= |text| + 1
         && field[|field| - |text|..] == text
         && (field == text <==> !StartsFormula(text))
         && (StartsFormula(text) ==> field[0] == '\'')
  }

  lemma ContentsGiveBack(cell: Cell)
    ensures GivesBack(cell, Contents(cell))
  {
  }

  /** A cell is quoted exactly when what is in the file holds a quote, a comma or a line break. */
  lemma QuotedExactlyWhenNeeded(cell: Cell, field: string)
    requires field == Contents(cell)
    ensures var written := EscapeCell(cell);
      if exists i :: 0 <= i < |field| && (field[i] == '"' || field[i] == ',' || field[i] == '\r' || field[i] == '\n')
      then |written| >= 2 && written[0] == '"' && written[|written| - 1] == '"'
      else written == field
  {
  }

  /** The file ends every record, the last one too, with CRLF. */
  lemma {:induction false} EndsWithCrlf(table: seq<seq<Cell>>)
    requires table != []
    ensures var file := FileText(table); |file| >= 2 && file[|file| - 2..] == "\r\n"
  {
    if |table| > 1 {
      EndsWithCrlf(table[1..]);
      var first, rest := RowText(table[0]) + "\r\n", FileText(table[1..]);
      assert FileText(table) == first + rest;
      assert (first + rest)[|first + rest| - 2..] == rest[|rest| - 2..];
    } else {
      assert FileText(table) == RowText(table[0]) + "\r\n" + FileText([]);
    }
  }
}
