/**
 * The accounting of the bank-statement import (apps/api/src/bank-statement/bank-statement.service.ts):
 * what becomes of each row of a pasted file. Rows are trimmed already; reading a date or a number,
 * and recognising a header by its shape, are functions the import is given.
 */
module StatementImport {
  datatype StatementLine = StatementLine(day: int, amount: int, description: string)
  datatype Reason = Malformed | BadDate | AmbiguousAmount | BadAmount
  datatype Parsed = Parsed(line: StatementLine) | Unreadable(reason: Reason)

  datatype Rejection = Rejection(line: nat, content: string, reason: Reason)

  const MAX_REPORTED_REJECTIONS := 50
  const SHOWN_LENGTH := 120

  /** A pasted file and how its rows read. */
  datatype Statement = Statement(rows: seq<string>, looksLikeHeader: string -> bool, parse: string -> Parsed)

  datatype Fate = Blank | Header | Imported | Rejected

  /** A header is looked for only in the first row with content. */
  predicate IsHeader(s: Statement, i: nat)
    requires i < |s.rows|
  {
    s.rows[i] != "" && s.looksLikeHeader(s.rows[i]) && forall j :: 0 <= j < i ==> s.rows[j] == ""
  }

  function FateOf(s: Statement, i: nat): Fate
    requires i < |s.rows|
  {
    if s.rows[i] == "" then Blank
    else if IsHeader(s, i) then Header
    else if s.parse(s.rows[i]).Parsed? then Imported
    else Rejected
  }

  /** The lines read from the first `n` rows, in file order. */
  function LinesOf(s: Statement, n: nat): seq<StatementLine>
    requires n <= |s.rows|
  {
    if n == 0 then []
    else LinesOf(s, n - 1) + (if FateOf(s, n - 1) == Imported then [s.parse(s.rows[n - 1]).line] else [])
  }

  function Shown(row: string): string
  {
    if |row| > SHOWN_LENGTH then row[..SHOWN_LENGTH] + "..." else row
  }

  function ReportOf(s: Statement, i: nat): Rejection
    requires i < |s.rows| && FateOf(s, i) == Rejected
  {
    Rejection(i + 1, Shown(s.rows[i]), s.parse(s.rows[i]).reason)
  }

  /** A report of every row refused among the first `n`, in file order. */
  function ReportsOf(s: Statement, n: nat): seq<Rejection>
    requires n <= |s.rows|
  {
    if n == 0 then []
    else ReportsOf(s, n - 1) + (if FateOf(s, n - 1) == Rejected then [ReportOf(s, n - 1)] else [])
  }

  /** As many of the reports as are described in the response. */
  function Capped(reports: seq<Rejection>): seq<Rejection>
  {
    if |reports| <= MAX_REPORTED_REJECTIONS then reports else reports[..MAX_REPORTED_REJECTIONS]
  }

  lemma NextReport(reports: seq<Rejection>, next: Rejection)
    ensures Capped(reports + [next]) ==
      if |Capped(reports)| < MAX_REPORTED_REJECTIONS then Capped(reports) + [next] else Capped(reports)
  {
  }

  /** The lines imported, every refused row counted, and the first of them described. */
  method Import(s: Statement) returns (lines: seq<StatementLine>, skipped: nat, rejections: seq<Rejection>)
    ensures lines == LinesOf(s, |s.rows|)
    ensures skipped == |ReportsOf(s, |s.rows|)|
    ensures rejections == Capped(ReportsOf(s, |s.rows|))
  {
    lines, skipped, rejections := [], 0, [];
    var seenContentRow := false;
    for index := 0 to |s.rows|
      invariant seenContentRow <==> exists j :: 0 <= j < index && s.rows[j] != ""
      invariant lines == LinesOf(s, index)
      invariant skipped == |ReportsOf(s, index)|
      invariant rejections == Capped(ReportsOf(s, index))
    {
      var row := s.rows[index];
      if row == "" {
        continue;
      }
      var isHeaderCandidate := !seenContentRow;
      seenContentRow := true;
      if isHeaderCandidate && s.looksLikeHeader(row) {
        continue;
      }
      var parsed := s.parse(row);
      match parsed
      case Parsed(line) =>
        lines := lines + [line];
      case Unreadable(reason) =>
        NextReport(ReportsOf(s, index), ReportOf(s, index));
        skipped := skipped + 1;
        if |rejections| < MAX_REPORTED_REJECTIONS {
          rejections := rejections + [Rejection(index + 1, Shown(row), reason)];
        }
    }
  }

  /** A report of one of the first `n` rows, refused. */
  ghost predicate IsReport(s: Statement, n: nat, r: Rejection)
    requires n <= |s.rows|
  {
    1 <= r.line <= n && FateOf(s, r.line - 1) == Rejected && r == ReportOf(s, r.line - 1)
  }

  lemma {:induction false} ReportsInOrder(s: Statement, n: nat)
    requires n <= |s.rows|
    ensures forall m :: 0 <= m < |ReportsOf(s, n)| ==> IsReport(s, n, ReportsOf(s, n)[m])
    ensures forall m, k :: 0 <= m < k < |ReportsOf(s, n)| ==> ReportsOf(s, n)[m].line < ReportsOf(s, n)[k].line
  {
    if n > 0 {
      var before, reports := ReportsOf(s, n - 1), ReportsOf(s, n);
      ReportsInOrder(s, n - 1);
      if FateOf(s, n - 1) == Rejected {
        assert reports == before + [ReportOf(s, n - 1)];
      } else {
        assert reports == before;
      }
      forall m | 0 <= m < |before|
        ensures IsReport(s, n, before[m])
      {
        assert IsReport(s, n - 1, before[m]);
      }
    }
  }

  lemma {:induction false} RefusalReported(s: Statement, n: nat, i: nat)
    requires i < n <= |s.rows| && FateOf(s, i) == Rejected
    ensures ReportOf(s, i) in ReportsOf(s, n)
  {
    if i < n - 1 {
      RefusalReported(s, n - 1, i);
    } else {
      assert ReportsOf(s, n)[|ReportsOf(s, n - 1)|] == ReportOf(s, i);
    }
  }

  /** Reports go down the file, each about its own row, and every refused row has one. */
  lemma {:induction false} ReportsExactly(s: Statement, n: nat)
    requires n <= |s.rows|
    ensures var reports := ReportsOf(s, n);
      && (forall m :: 0 <= m < |reports| ==> IsReport(s, n, reports[m]))
      && (forall m, k :: 0 <= m < k < |reports| ==> reports[m].line < reports[k].line)
      && (forall i :: 0 <= i < n && FateOf(s, i) == Rejected ==> ReportOf(s, i) in reports)
  {
    ReportsInOrder(s, n);
    forall i | 0 <= i < n && FateOf(s, i) == Rejected
      ensures ReportOf(s, i) in ReportsOf(s, n)
    {
      RefusalReported(s, n, i);
    }
  }

  function WithContent(s: Statement, n: nat): set<nat>
    requires n <= |s.rows|
  {
    set i: nat | 0 <= i < n && s.rows[i] != ""
  }

  ghost predicate HasHeader(s: Statement, n: nat)
    requires n <= |s.rows|
  {
    exists i :: 0 <= i < n && IsHeader(s, i)
  }

  /** Nothing is dropped silently: every row with content is imported, counted as skipped, or the one header. */
  lemma {:induction false} EveryRowIsAccountedFor(s: Statement, n: nat)
    requires n <= |s.rows|
    ensures |LinesOf(s, n)| + |ReportsOf(s, n)| + (if HasHeader(s, n) then 1 else 0) == |WithContent(s, n)|
  {
    if n == 0 {
      assert WithContent(s, 0) == {};
    } else {
      EveryRowIsAccountedFor(s, n - 1);
      if s.rows[n - 1] == "" {
        assert WithContent(s, n) == WithContent(s, n - 1);
      } else {
        assert WithContent(s, n) == WithContent(s, n - 1) + {n - 1};
      }
      assert HasHeader(s, n) <==> HasHeader(s, n - 1) || IsHeader(s, n - 1);
    }
  }

  // ---------- which lines, which reports ----------

  /** A row with content that is not the first one looking like a header. */
  ghost predicate IsData(s: Statement, i: nat)
    requires i < |s.rows|
  {
    s.rows[i] != "" && (s.looksLikeHeader(s.rows[i]) ==> exists j :: 0 <= j < i && s.rows[j] != "")
  }

  lemma FatesExactly(s: Statement, i: nat)
    requires i < |s.rows|
    ensures FateOf(s, i) == Imported <==> IsData(s, i) && s.parse(s.rows[i]).Parsed?
    ensures FateOf(s, i) == Rejected <==> IsData(s, i) && s.parse(s.rows[i]).Unreadable?
  {
  }

  /** A data row that reads. */
  ghost predicate Reads(s: Statement, i: nat)
    requires i < |s.rows|
  {
    IsData(s, i) && s.parse(s.rows[i]).Parsed?
  }

  /** Where the data rows that read are among the first `n`, top to bottom. */
  ghost function PlacesRead(s: Statement, n: nat): (places: seq<nat>)
    requires n <= |s.rows|
    ensures forall m :: 0 <= m < |places| ==> places[m] < n
  {
    if n == 0 then [] else PlacesRead(s, n - 1) + (if Reads(s, n - 1) then [n - 1] else [])
  }

  lemma {:induction false} PlacesExactly(s: Statement, n: nat, i: nat)
    requires n <= |s.rows|
    ensures i in PlacesRead(s, n) <==> i < n && Reads(s, i)
  {
    if n > 0 {
      PlacesExactly(s, n - 1, i);
    }
  }

  lemma {:induction false} PlacesIncrease(s: Statement, n: nat)
    requires n <= |s.rows|
    ensures forall m, k :: 0 <= m < k < |PlacesRead(s, n)| ==> PlacesRead(s, n)[m] < PlacesRead(s, n)[k]
  {
    if n > 0 {
      PlacesIncrease(s, n - 1);
    }
  }

  /** The lines imported are those of every data row that reads, once each and in file order. */
  lemma {:induction false} LinesInOrder(s: Statement, n: nat)
    requires n <= |s.rows|
    ensures |LinesOf(s, n)| == |PlacesRead(s, n)|
    ensures forall m :: 0 <= m < |PlacesRead(s, n)| ==>
      PlacesRead(s, n)[m] < |s.rows| && Reads(s, PlacesRead(s, n)[m])
      && LinesOf(s, n)[m] == s.parse(s.rows[PlacesRead(s, n)[m]]).line
  {
    if n > 0 {
      LinesInOrder(s, n - 1);
      FatesExactly(s, n - 1);
      var places, lines := PlacesRead(s, n - 1), LinesOf(s, n - 1);
      if Reads(s, n - 1) {
        assert PlacesRead(s, n) == places + [n - 1];
        assert LinesOf(s, n) == lines + [s.parse(s.rows[n - 1]).line];
      } else {
        assert PlacesRead(s, n) == places && LinesOf(s, n) == lines;
      }
    }
  }

  /**
   * A report is of a data row that does not read: its line counted from 1, the reason, and the row or the
   * beginning of it.
   */
  lemma ReportSays(s: Statement, n: nat, r: Rejection)
    requires n <= |s.rows| && IsReport(s, n, r)
    ensures 1 <= r.line <= n && IsData(s, r.line - 1) && s.parse(s.rows[r.line - 1]) == Unreadable(r.reason)
    ensures var row := s.rows[r.line - 1];
      if |row| <= 120 then r.content == row
      else |r.content| == 123 && r.content[..120] == row[..120] && r.content[120..] == "..."
  {
    FatesExactly(s, r.line - 1);
  }

  /** Fifty reports at most, the first ones, and all of them when there are no more. */
  lemma CappedAtFifty(reports: seq<Rejection>)
    ensures |Capped(reports)| == if |reports| <= 50 then |reports| else 50
    ensures forall m :: 0 <= m < |Capped(reports)| ==> Capped(reports)[m] == reports[m]
  {
  }
}
