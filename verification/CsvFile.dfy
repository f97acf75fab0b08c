/** A strict reader of section 2 of RFC 4180, which shares no code with the writer or the splitter. */
module CsvFileReader {
  import opened CsvWriter
  import opened Wrappers

  /** Where the reader stands inside a field. */
  datatype Mode = Begin | Bare | Quoted | Closed

  /** Reads the rest of a file after the given field, record and records; `None` when malformed. */
  function Read(rest: string, mode: Mode, field: string, record: seq<string>, table: seq<seq<string>>)
    : Option<seq<seq<string>>>
    decreases |rest|
  {
    if rest == "" then
      if mode == Quoted then None
      else if mode == Begin && record == [] then Some(table)
      else Some(table + [record + [field]])
    else if mode == Quoted then
      if rest[0] == '"' then Read(rest[1..], Closed, field, record, table)
      else Read(rest[1..], Quoted, field + [rest[0]], record, table)
    else if rest[0] == '"' then
      if mode == Closed then Read(rest[1..], Quoted, field + "\"", record, table)
      else if mode == Begin then Read(rest[1..], Quoted, field, record, table)
      else None
    else if rest[0] == ',' then Read(rest[1..], Begin, "", record + [field], table)
    else if |rest| > 1 && rest[0] == '\r' && rest[1] == '\n' then
      Read(rest[2..], Begin, "", [], table + [record + [field]])
    else if mode == Closed || rest[0] == '\r' || rest[0] == '\n' then None
    else Read(rest[1..], Bare, field + [rest[0]], record, table)
  }

  function ReadFile(file: string): Option<seq<seq<string>>>
  {
    Read(file, Begin, "", [], [])
  }

  predicate StartsDelimiter(rest: string)
  {
    rest != "" && (rest[0] == ',' || (|rest| > 1 && rest[0] == '\r' && rest[1] == '\n'))
  }

  lemma {:induction false} ReadBare(text: string, rest: string, mode: Mode, field: string,
                                    record: seq<string>, table: seq<seq<string>>)
    requires !NeedsQuotes(text) && mode in {Begin, Bare} && StartsDelimiter(rest)
    ensures Read(text + rest, mode, field, record, table) == Read(rest, Bare, field + text, record, table)
  {
    if text == "" {
      assert text + rest == rest && field + text == field;
    } else {
      assert text[0] in text;
      assert (text + rest)[1..] == text[1..] + rest;
      ReadBare(text[1..], rest, Bare, field + [text[0]], record, table);
      assert field + [text[0]] + text[1..] == field + text;
    }
  }

  lemma {:induction false} ReadQuoted(text: string, rest: string, field: string,
                                      record: seq<string>, table: seq<seq<string>>)
    requires StartsDelimiter(rest)
    ensures Read(DoubleQuotes(text) + "\"" + rest, Quoted, field, record, table)
         == Read(rest, Bare, field + text, record, table)
  {
    var all := DoubleQuotes(text) + "\"" + rest;
    if text == "" {
      assert all[1..] == rest && field + text == field;
    } else {
      var tail := DoubleQuotes(text[1..]) + "\"" + rest;
      ReadQuoted(text[1..], rest, field + [text[0]], record, table);
      assert field + [text[0]] + text[1..] == field + text;
      if text[0] == '"' {
        assert all[1..] == "\"" + tail && all[1..][1..] == tail;
      } else {
        assert all[1..] == tail;
      }
    }
  }

  lemma ReadOpeningQuote(rest: string, record: seq<string>, table: seq<seq<string>>)
    ensures Read("\"" + rest, Begin, "", record, table) == Read(rest, Quoted, "", record, table)
  {
    assert ("\"" + rest)[1..] == rest;
  }

  lemma ReadCell(cell: Cell, rest: string, record: seq<string>, table: seq<seq<string>>)
    requires StartsDelimiter(rest)
    ensures Read(EscapeCell(cell) + rest, Begin, "", record, table)
         == Read(rest, Bare, Contents(cell), record, table)
  {
    var text := Contents(cell);
    assert "" + text == text;
    if NeedsQuotes(text) {
      var body := DoubleQuotes(text) + "\"" + rest;
      assert EscapeCell(cell) + rest == "\"" + body;
      ReadOpeningQuote(body, record, table);
      ReadQuoted(text, rest, "", record, table);
    } else {
      ReadBare(text, rest, Begin, "", record, table);
    }
  }

  /** What a row reads back as: an empty row comes back as a row of one empty field. */
  function RowAsRead(row: seq<Cell>): seq<string>
  {
    if row == [] then [""] else RowContents(row)
  }

  function TableAsRead(table: seq<seq<Cell>>): (r: seq<seq<string>>)
    ensures |r| == |table|
  {
    seq(|table|, i requires 0 <= i < |table| => RowAsRead(table[i]))
  }

  /** The first cell of a longer row, up to the comma after it. */
  lemma ReadFirstCell(row: seq<Cell>, rest: string, record: seq<string>, table: seq<seq<string>>)
    requires |row| > 1
    ensures Read(RowText(row) + "\r\n" + rest, Begin, "", record, table)
         == Read(RowText(row[1..]) + "\r\n" + rest, Begin, "", record + [Contents(row[0])], table)
  {
    RowTextSplit(row);
    var tail := RowText(row[1..]) + "\r\n" + rest;
    var more := "," + tail;
    assert RowText(row) + "\r\n" + rest == EscapeCell(row[0]) + more;
    ReadCell(row[0], more, record, table);
    assert more[1..] == tail;
  }

  lemma ReadLastCell(cell: Cell, rest: string, record: seq<string>, table: seq<seq<string>>)
    ensures Read(EscapeCell(cell) + "\r\n" + rest, Begin, "", record, table)
         == Read(rest, Begin, "", [], table + [record + [Contents(cell)]])
  {
    var ending := "\r\n" + rest;
    assert ending[2..] == rest;
    assert EscapeCell(cell) + "\r\n" + rest == EscapeCell(cell) + ending;
    ReadCell(cell, ending, record, table);
  }

  lemma {:induction false} ReadRow(row: seq<Cell>, rest: string, record: seq<string>, table: seq<seq<string>>)
    ensures Read(RowText(row) + "\r\n" + rest, Begin, "", record, table)
         == Read(rest, Begin, "", [], table + [record + RowAsRead(row)])
  {
    if row == [] {
      var ending := "\r\n" + rest;
      assert RowText(row) + "\r\n" + rest == ending && ending[2..] == rest;
    } else if |row| == 1 {
      ReadLastCell(row[0], rest, record, table);
      assert RowAsRead(row) == [Contents(row[0])];
    } else {
      ReadFirstCell(row, rest, record, table);
      ReadRow(row[1..], rest, record + [Contents(row[0])], table);
      assert record + [Contents(row[0])] + RowAsRead(row[1..]) == record + RowAsRead(row);
    }
  }

  lemma {:induction false} ReadRows(table: seq<seq<Cell>>, done: seq<seq<string>>)
    ensures Read(FileText(table), Begin, "", [], done) == Some(done + TableAsRead(table))
  {
    if table == [] {
      assert done + TableAsRead(table) == done;
    } else {
      ReadRow(table[0], FileText(table[1..]), [], done);
      assert [] + RowAsRead(table[0]) == RowAsRead(table[0]);
      ReadRows(table[1..], done + [RowAsRead(table[0])]);
      assert done + [RowAsRead(table[0])] + TableAsRead(table[1..]) == done + TableAsRead(table);
    }
  }

  function TableContents(table: seq<seq<Cell>>): (r: seq<seq<string>>)
    ensures |r| == |table|
  {
    seq(|table|, i requires 0 <= i < |table| => RowContents(table[i]))
  }

  lemma ReadAsWrittenExactly(table: seq<seq<Cell>>)
    ensures TableAsRead(table) == TableContents(table) <==> forall i :: 0 <= i < |table| ==> table[i] != []
  {
    if i :| 0 <= i < |table| && table[i] == [] {
      assert |TableAsRead(table)[i]| == 1 && |TableContents(table)[i]| == 0;
    }
  }

  /**
   * Every file the writer produces is well-formed CSV and reads back as the table it was made from:
   * every cell's neutralised text, but for a row without cells, which reads back as one empty cell.
   */
  lemma FileRoundTrip(table: seq<seq<Cell>>)
    ensures ReadFile(FileText(table)) == Some(TableAsRead(table))
    ensures ReadFile(FileText(table)) == Some(TableContents(table)) <==> forall i :: 0 <= i < |table| ==> table[i] != []
  {
    ReadRows(table, []);
    assert [] + TableAsRead(table) == TableAsRead(table);
    ReadAsWrittenExactly(table);
  }

  /** A row of the file as it reads back. */
  ghost predicate RowGivenBack(row: seq<Cell>, record: seq<string>)
  {
    |record| == |row| && forall c :: 0 <= c < |row| ==> GivesBack(row[c], record[c])
  }

  lemma RowContentsGiveBack(row: seq<Cell>)
    ensures RowGivenBack(row, RowContents(row))
  {
    forall c | 0 <= c < |row|
      ensures GivesBack(row[c], RowContents(row)[c])
    {
      ContentsGiveBack(row[c]);
    }
  }

  /** Reading a file back gives every cell back, by its own text. */
  lemma TableGivesBack(table: seq<seq<Cell>>)
    requires forall r :: 0 <= r < |table| ==> table[r] != []
    ensures var read := ReadFile(FileText(table));
      read.Some? && |read.value| == |table| && forall r :: 0 <= r < |table| ==> RowGivenBack(table[r], read.value[r])
  {
    FileRoundTrip(table);
    forall r | 0 <= r < |table|
      ensures RowGivenBack(table[r], TableContents(table)[r])
    {
      RowContentsGiveBack(table[r]);
    }
  }

  /** Reading the file the writer returns gives every header and every cell back, by its own text. */
  lemma FileGivesBack(headers: seq<string>, rows: seq<seq<Cell>>, file: string)
    requires file == FileText([AsCells(headers)] + rows) && headers != []
    requires forall r :: 0 <= r < |rows| ==> rows[r] != []
    ensures var read := ReadFile(file);
      && read.Some? && |read.value| == |rows| + 1
      && |read.value[0]| == |headers|
      && (forall c :: 0 <= c < |headers| ==> GivesBack(Value(headers[c]), read.value[0][c]))
      && (forall r :: 0 <= r < |rows| ==> RowGivenBack(rows[r], read.value[r + 1]))
  {
    var table := [AsCells(headers)] + rows;
    TableGivesBack(table);
    var read := ReadFile(file).value;
    assert RowGivenBack(table[0], read[0]);
    forall c | 0 <= c < |headers|
      ensures GivesBack(Value(headers[c]), read[0][c])
    {
      assert table[0][c] == Value(headers[c]);
    }
    forall r | 0 <= r < |rows|
      ensures RowGivenBack(rows[r], read[r + 1])
    {
      assert table[r + 1] == rows[r];
    }
  }
}
