/** `splitCsvRow`, the row reader of the bank import (apps/api/src/bank-statement/bank-statement.service.ts). */
module CsvRowSplitter {
  import opened CsvWriter
  import opened Seqs

  /** The fields still to come, given the field begun so far and whether it is inside quotes. */
  function Scan(rest: string, field: string, inQuotes: bool): (fields: seq<string>)
    ensures fields != []
    decreases |rest|
  {
    if rest == "" then [field]
    else if inQuotes then
      if rest[0] != '"' then Scan(rest[1..], field + [rest[0]], true)
      else if |rest| > 1 && rest[1] == '"' then Scan(rest[2..], field + "\"", true)
      else Scan(rest[1..], field, false)
    else if rest[0] == '"' then Scan(rest[1..], field, true)
    else if rest[0] == ',' then [field] + Scan(rest[1..], "", false)
    else Scan(rest[1..], field + [rest[0]], false)
  }

  method SplitCsvRow(row: string) returns (fields: seq<string>)
    ensures fields == Scan(row, "", false)
  {
    fields := [];
    var field := "";
    var inQuotes := false;
    var index := 0;
    while index < |row|
      invariant 0 <= index <= |row|
      invariant fields + Scan(row[index..], field, inQuotes) == Scan(row, "", false)
    {
      var c := row[index];
      ghost var rest := row[index..];
      assert rest[1..] == row[index + 1..];
      if inQuotes {
        if c == '"' {
          if index + 1 < |row| && row[index + 1] == '"' {
            assert rest[2..] == row[index + 2..];
            field := field + "\"";
            index := index + 1;
          } else {
            inQuotes := false;
          }
        } else {
          field := field + [c];
        }
      } else if c == '"' {
        inQuotes := true;
      } else if c == ',' {
        ghost var tail := Scan(row[index + 1..], "", false);
        assert fields + ([field] + tail) == (fields + [field]) + tail;
        fields := fields + [field];
        field := "";
      } else {
        field := field + [c];
      }
      index := index + 1;
    }
    assert row[index..] == "";
    fields := fields + [field];
  }

  lemma {:induction false} ScanBare(text: string, rest: string, field: string)
    requires '"' !in text && ',' !in text
    ensures Scan(text + rest, field, false) == Scan(rest, field + text, false)
  {
    if text == "" {
      assert text + rest == rest && field + text == field;
    } else {
      assert text[0] in text;
      assert (text + rest)[1..] == text[1..] + rest;
      ScanBare(text[1..], rest, field + [text[0]]);
      assert field + [text[0]] + text[1..] == field + text;
    }
  }

  lemma {:induction false} ScanQuoted(text: string, rest: string, field: string)
    requires rest == "" || rest[0] != '"'
    ensures Scan(DoubleQuotes(text) + "\"" + rest, field, true) == Scan(rest, field + text, false)
  {
    var all := DoubleQuotes(text) + "\"" + rest;
    if text == "" {
      assert all == "\"" + rest && all[1..] == rest && field + text == field;
    } else {
      var tail := DoubleQuotes(text[1..]) + "\"" + rest;
      ScanQuoted(text[1..], rest, field + [text[0]]);
      assert field + [text[0]] + text[1..] == field + text;
      if text[0] == '"' {
        assert all == "\"\"" + tail && all[2..] == tail;
      } else {
        assert all == [text[0]] + tail && all[1..] == tail;
      }
    }
  }

  lemma ScanOpeningQuote(rest: string)
    ensures Scan("\"" + rest, "", false) == Scan(rest, "", true)
  {
    assert ("\"" + rest)[1..] == rest;
  }

  lemma ScanComma(rest: string, field: string)
    ensures Scan("," + rest, field, false) == [field] + Scan(rest, "", false)
  {
    assert ("," + rest)[1..] == rest;
  }

  lemma ScanBareField(text: string, rest: string, field: string)
    requires !NeedsQuotes(text) && field == ""
    ensures Scan(text + rest, field, false) == Scan(rest, text, false)
  {
    ScanBare(text, rest, field);
    assert field + text == text;
  }

  lemma ScanQuotedField(text: string, rest: string, field: string)
    requires (rest == "" || rest[0] != '"') && field == ""
    ensures Scan("\"" + DoubleQuotes(text) + "\"" + rest, field, false) == Scan(rest, text, false)
  {
    var body := DoubleQuotes(text) + "\"" + rest;
    assert "\"" + DoubleQuotes(text) + "\"" + rest == "\"" + body;
    ScanOpeningQuote(body);
    ScanQuoted(text, rest, field);
    assert field + text == text;
  }

  lemma ScanCell(cell: Cell, rest: string)
    requires rest == "" || rest[0] == ','
    ensures Scan(EscapeCell(cell) + rest, "", false) == Scan(rest, Contents(cell), false)
  {
    var text := Contents(cell);
    if NeedsQuotes(text) {
      ScanQuotedField(text, rest, "");
    } else {
      ScanBareField(text, rest, "");
    }
  }

  /** Reading back a written row gives exactly the neutralised text of each cell. */
  lemma {:induction false} SplitInvertsJoin(row: seq<Cell>)
    requires row != []
    ensures Scan(RowText(row), "", false) == RowContents(row)
  {
    var first := EscapeCell(row[0]);
    if |row| == 1 {
      ScanCell(row[0], "");
      assert RowText(row) == first + "";
    } else {
      RowTextSplit(row);
      var rest := "," + RowText(row[1..]);
      ScanCell(row[0], rest);
      ScanComma(RowText(row[1..]), Contents(row[0]));
      SplitInvertsJoin(row[1..]);
      assert RowContents(row) == [Contents(row[0])] + RowContents(row[1..]);
    }
  }

  /** An empty row is written as an empty line, which the splitter reads as one empty field. */
  lemma SplitInvertsJoinExactly(row: seq<Cell>)
    ensures Scan(RowText(row), "", false) == RowContents(row) <==> row != []
  {
    if row != [] {
      SplitInvertsJoin(row);
    } else {
      assert RowText(row) == "";
    }
  }

  /** Splitting a written row gives every cell back, by its own text. */
  lemma RowGivesBack(row: seq<Cell>)
    requires row != []
    ensures var fields := Scan(RowText(row), "", false);
      |fields| == |row| && forall i :: 0 <= i < |row| ==> GivesBack(row[i], fields[i])
  {
    SplitInvertsJoin(row);
    forall i | 0 <= i < |row|
      ensures GivesBack(row[i], RowContents(row)[i])
    {
      ContentsGiveBack(row[i]);
    }
  }

  // ---------- any row, by the quotes before each character ----------

  function QuotesBefore(row: string, i: nat): nat
    requires i <= |row|
  {
    if i == 0 then 0 else QuotesBefore(row, i - 1) + (if row[i - 1] == '"' then 1 else 0)
  }

  /** Outside quotes: an even number of quotes before it. */
  predicate Outside(row: string, i: nat)
    requires i <= |row|
  {
    QuotesBefore(row, i) % 2 == 0
  }

  /** A quote stands for itself only inside quotes and before another one; any other character always does. */
  predicate Literal(row: string, i: nat)
    requires i < |row|
  {
    row[i] == '"' ==> !Outside(row, i) && i + 1 < |row| && row[i + 1] == '"'
  }

  /**
   * The fields of the first `n` characters: a comma outside quotes begins a field, a literal character
   * extends the last one.
   */
  function FieldsOf(row: string, n: nat): (fields: seq<string>)
    requires n <= |row|
    ensures fields != []
  {
    if n == 0 then [""]
    else
      var before := FieldsOf(row, n - 1);
      var last := |before| - 1;
      if row[n - 1] == ',' && Outside(row, n - 1) then before + [""]
      else if Literal(row, n - 1) then before[..last] + [before[last] + [row[n - 1]]]
      else before
  }

  /** The fields before a character: those complete, and the one begun. */
  ghost predicate Stands(row: string, i: nat, front: seq<string>, field: string)
    requires i <= |row|
  {
    FieldsOf(row, i) == front + [field]
  }

  lemma Toggles(row: string, i: nat)
    requires i < |row|
    ensures Outside(row, i + 1) == if row[i] == '"' then !Outside(row, i) else Outside(row, i)
  {
    var n := QuotesBefore(row, i);
    assert QuotesBefore(row, i + 1) == n + if row[i] == '"' then 1 else 0;
  }

  lemma NextField(row: string, i: nat, front: seq<string>, field: string)
    requires i < |row| && Stands(row, i, front, field)
    ensures if row[i] == ',' && Outside(row, i) then Stands(row, i + 1, front + [field], "")
            else if Literal(row, i) then Stands(row, i + 1, front, field + [row[i]])
            else Stands(row, i + 1, front, field)
  {
  }

  lemma DoubledField(row: string, i: nat, front: seq<string>, field: string)
    requires i < |row| && row[i] == '"' && Literal(row, i) && Stands(row, i, front, field)
    ensures Stands(row, i + 2, front, field + ['"'])
  {
    NextField(row, i, front, field);
    Toggles(row, i);
    NextField(row, i + 1, front, field + ['"']);
  }

  /** One character of the scan, two for a doubled quote. */
  lemma ScanAt(row: string, i: nat, field: string, inQuotes: bool)
    requires i < |row|
    ensures Scan(row[i..], field, inQuotes) ==
      if inQuotes && row[i] != '"' then Scan(row[i + 1..], field + [row[i]], true)
      else if inQuotes && i + 1 < |row| && row[i + 1] == '"' then Scan(row[i + 2..], field + ['"'], true)
      else if row[i] == '"' then Scan(row[i + 1..], field, !inQuotes)
      else if row[i] == ',' then [field] + Scan(row[i + 1..], "", false)
      else Scan(row[i + 1..], field + [row[i]], false)
  {
    var rest := row[i..];
    assert rest[0] == row[i] && rest[1..] == row[i + 1..];
    assert |rest| > 1 ==> rest[1] == row[i + 1] && rest[2..] == row[i + 2..];
  }

  /** What the fields so far and the rest of the scan come to. */
  ghost predicate Completes(row: string, i: nat, front: seq<string>, field: string)
    requires i <= |row|
  {
    front + Scan(row[i..], field, !Outside(row, i)) == FieldsOf(row, |row|)
  }

  lemma CommaCompletes(row: string, i: nat, front: seq<string>, field: string)
    requires i < |row| && row[i] == ',' && Outside(row, i) && Completes(row, i + 1, front + [field], "")
    ensures Completes(row, i, front, field)
  {
    ScanAt(row, i, field, false);
    Toggles(row, i);
    Assoc(front, [field], Scan(row[i + 1..], "", false));
  }

  lemma CharCompletes(row: string, i: nat, front: seq<string>, field: string)
    requires i < |row| && row[i] != '"' && !(row[i] == ',' && Outside(row, i))
    requires Completes(row, i + 1, front, field + [row[i]])
    ensures Completes(row, i, front, field)
  {
    ScanAt(row, i, field, !Outside(row, i));
    Toggles(row, i);
  }

  lemma QuoteCompletes(row: string, i: nat, front: seq<string>, field: string)
    requires i < |row| && row[i] == '"' && !Literal(row, i) && Completes(row, i + 1, front, field)
    ensures Completes(row, i, front, field)
  {
    ScanAt(row, i, field, !Outside(row, i));
    Toggles(row, i);
  }

  lemma DoubledCompletes(row: string, i: nat, front: seq<string>, field: string)
    requires i + 1 < |row| && row[i] == '"' && Literal(row, i) && Completes(row, i + 2, front, field + ['"'])
    ensures Completes(row, i, front, field)
  {
    ScanAt(row, i, field, true);
    Toggles(row, i);
    Toggles(row, i + 1);
  }

  /** From any character on, the scan completes the fields of what comes before it. */
  lemma {:induction false} ScanCompletes(row: string, i: nat, front: seq<string>, field: string)
    requires i <= |row| && Stands(row, i, front, field)
    ensures Completes(row, i, front, field)
    decreases |row| - i
  {
    if i == |row| {
      assert row[i..] == "";
    } else {
      NextField(row, i, front, field);
      if row[i] == ',' && Outside(row, i) {
        ScanCompletes(row, i + 1, front + [field], "");
        CommaCompletes(row, i, front, field);
      } else if row[i] != '"' {
        ScanCompletes(row, i + 1, front, field + [row[i]]);
        CharCompletes(row, i, front, field);
      } else if Literal(row, i) {
        DoubledField(row, i, front, field);
        ScanCompletes(row, i + 2, front, field + ['"']);
        DoubledCompletes(row, i, front, field);
      } else {
        ScanCompletes(row, i + 1, front, field);
        QuoteCompletes(row, i, front, field);
      }
    }
  }

  lemma CompletesFromTheStart(row: string, front: seq<string>, field: string)
    requires front == [] && field == ""
    ensures Scan(row, field, false) == FieldsOf(row, |row|)
  {
    assert row[0..] == row;
    assert Stands(row, 0, front, field);
    ScanCompletes(row, 0, front, field);
    NothingBefore(Scan(row, field, false));
  }

  /**
   * For every row, well-formed or not: it is split exactly at the commas with an even number of quotes
   * before them, and a quote is kept exactly when an odd number come before it and another right after.
   */
  lemma SplitsByQuotesBefore(row: string)
    ensures Scan(row, "", false) == FieldsOf(row, |row|)
  {
    CompletesFromTheStart(row, [], "");
  }
}
