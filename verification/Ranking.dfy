/**
 * Rank lists (apps/api/src/exams/exams.service.ts) and report-card positions
 * (apps/api/src/report-cards/report-cards.service.ts). Percentages are exact ratios.
 */
module Ranking {
  import opened Sets
  import opened Sums
  import opened Wrappers

  datatype Entry = Entry(student: nat, marksObtained: int, maxMarks: int)
  datatype Total = Total(obtained: int, max: int)
  /** A student and what the list is sorted by. */
  datatype Row = Row(student: nat, score: real)

  // ---------- totals per student ----------

  /** A student's own marks, summed. */
  function TotalFor(entries: seq<Entry>, student: nat): Total
  {
    if entries == [] then Total(0, 0)
    else
      var before := TotalFor(entries[..|entries| - 1], student);
      var e := entries[|entries| - 1];
      if e.student == student then Total(before.obtained + e.marksObtained, before.max + e.maxMarks) else before
  }

  /** The marks of each entry where it is the student's, nothing elsewhere. */
  function OwnMarks(entries: seq<Entry>, student: nat): (r: seq<int>)
    ensures |r| == |entries|
  {
    seq(|entries|, i requires 0 <= i < |entries| =>
      if entries[i].student == student then entries[i].marksObtained else 0)
  }

  function OwnMax(entries: seq<Entry>, student: nat): (r: seq<int>)
    ensures |r| == |entries|
  {
    seq(|entries|, i requires 0 <= i < |entries| => if entries[i].student == student then entries[i].maxMarks else 0)
  }

  /** A total is the sum of all of a student's own entries. */
  lemma {:induction false} TotalIsTheSum(entries: seq<Entry>, student: nat)
    ensures TotalFor(entries, student) == Total(Sum(OwnMarks(entries, student)), Sum(OwnMax(entries, student)))
  {
    if entries != [] {
      var n := |entries| - 1;
      var e := entries[n];
      TotalIsTheSum(entries[..n], student);
      Append(OwnMarks(entries[..n], student), if e.student == student then e.marksObtained else 0);
      Append(OwnMax(entries[..n], student), if e.student == student then e.maxMarks else 0);
      assert OwnMarks(entries, student)
          == OwnMarks(entries[..n], student) + [if e.student == student then e.marksObtained else 0];
      assert OwnMax(entries, student)
          == OwnMax(entries[..n], student) + [if e.student == student then e.maxMarks else 0];
    }
  }

  /** Each student with marks, and their total. */
  ghost function Totals(entries: seq<Entry>): (totals: map<nat, Total>)
    ensures totals.Keys == set e | e in entries :: e.student
  {
    map s | s in (set e | e in entries :: e.student) :: TotalFor(entries, s)
  }

  method Tally(entries: seq<Entry>) returns (byStudent: map<nat, Total>)
    ensures byStudent == Totals(entries)
    ensures byStudent.Keys == set i | 0 <= i < |entries| :: entries[i].student
    ensures forall s :: s in byStudent ==>
      byStudent[s].obtained == Sum(OwnMarks(entries, s)) && byStudent[s].max == Sum(OwnMax(entries, s))
  {
    byStudent := map[];
    for k := 0 to |entries|
      invariant byStudent.Keys == set e | e in entries[..k] :: e.student
      invariant forall s :: TotalFor(entries[..k], s) == if s in byStudent then byStudent[s] else Total(0, 0)
    {
      var e := entries[k];
      assert entries[..k + 1] == entries[..k] + [e];
      forall s: nat
        ensures TotalFor(entries[..k + 1], s) ==
          var before := TotalFor(entries[..k], s);
          if e.student == s then Total(before.obtained + e.marksObtained, before.max + e.maxMarks) else before
      {
        assert entries[..k + 1][..k] == entries[..k];
      }
      var existing := if e.student in byStudent then byStudent[e.student] else Total(0, 0);
      byStudent := byStudent[e.student := Total(existing.obtained + e.marksObtained, existing.max + e.maxMarks)];
    }
    assert entries[..|entries|] == entries;
    forall s | s in byStudent
      ensures byStudent[s] == Total(Sum(OwnMarks(entries, s)), Sum(OwnMax(entries, s)))
    {
      TotalIsTheSum(entries, s);
    }
  }

  // ---------- scores ----------

  /** What the rank list sorts by. */
  function Percentage(t: Total): real
  {
    if t.max > 0 then t.obtained as real / t.max as real * 100.0 else 0.0
  }

  /** What the report card sorts by. */
  function Fraction(t: Total): real
  {
    if t.max > 0 then t.obtained as real / t.max as real else 0.0
  }

  function Percentages(totals: map<nat, Total>): (scores: map<nat, real>)
    ensures scores.Keys == totals.Keys
  {
    map s | s in totals :: Percentage(totals[s])
  }

  function Fractions(totals: map<nat, Total>): (scores: map<nat, real>)
    ensures scores.Keys == totals.Keys
  {
    map s | s in totals :: Fraction(totals[s])
  }

  /**
   * What any sort of the rows may give: each student once, best first. Nothing is said about the
   * order of equal scores.
   */
  ghost predicate Sorted(scores: map<nat, real>, rows: seq<Row>)
  {
    && (forall i :: 0 <= i < |rows| ==> rows[i].student in scores && rows[i].score == scores[rows[i].student])
    && Students(rows) == scores.Keys
    && (forall i, j :: 0 <= i < j < |rows| ==> rows[i].student != rows[j].student)
    && (forall i, j :: 0 <= i < j < |rows| ==> rows[i].score >= rows[j].score)
  }

  function Students(rows: seq<Row>): set<nat>
  {
    set i | 0 <= i < |rows| :: rows[i].student
  }

  /** The students who did strictly better. */
  ghost function Better(scores: map<nat, real>, student: nat): set<nat>
    requires student in scores
  {
    set s | s in scores && scores[s] > scores[student]
  }

  ghost function Equal(scores: map<nat, real>, student: nat): set<nat>
    requires student in scores
  {
    set s | s in scores && scores[s] == scores[student]
  }

  lemma {:induction false} StudentCount(rows: seq<Row>)
    requires forall i, j :: 0 <= i < j < |rows| ==> rows[i].student != rows[j].student
    ensures |Students(rows)| == |rows|
  {
    if rows != [] {
      var n := |rows| - 1;
      StudentCount(rows[..n]);
      assert forall i :: 0 <= i < n ==> rows[..n][i] == rows[i];
      assert Students(rows) == Students(rows[..n]) + {rows[n].student};
    }
  }

  // ---------- ranks ----------

  /** Place `first` opens the run of equal scores that place `i` belongs to. */
  ghost predicate OpensTie(rows: seq<Row>, first: nat, i: nat)
  {
    && first <= i < |rows|
    && rows[first].score == rows[i].score
    && (first > 0 ==> rows[first - 1].score > rows[first].score)
  }

  lemma AboveIsBetter(scores: map<nat, real>, rows: seq<Row>, first: nat, i: nat, s: nat)
    requires Sorted(scores, rows) && OpensTie(rows, first, i)
    ensures s in Students(rows[..first]) <==> s in Better(scores, rows[i].student)
  {
    var above := rows[..first];
    if s in Students(above) {
      var k :| 0 <= k < first && above[k].student == s;
      assert rows[k].student == s && rows[k].score >= rows[first - 1].score;
    }
    if s in Better(scores, rows[i].student) {
      var k :| 0 <= k < |rows| && rows[k].student == s;
      assert k < first;
      assert above[k].student == s;
    }
  }

  /** The rows before a run of equal scores are exactly those of the students who did better. */
  lemma BetterCount(scores: map<nat, real>, rows: seq<Row>, first: nat, i: nat)
    requires Sorted(scores, rows) && OpensTie(rows, first, i)
    ensures |Better(scores, rows[i].student)| == first
  {
    StudentCount(rows[..first]);
    forall s
      ensures s in Students(rows[..first]) <==> s in Better(scores, rows[i].student)
    {
      AboveIsBetter(scores, rows, first, i, s);
    }
    assert Students(rows[..first]) == Better(scores, rows[i].student);
  }

  /** The ranks given out: each is the place that opens the row's run of equal scores, counted from 1. */
  method AssignRanks(rows: seq<Row>) returns (ranks: seq<nat>)
    requires forall i :: 0 < i < |rows| ==> rows[i - 1].score >= rows[i].score
    ensures |ranks| == |rows|
    ensures forall i :: 0 <= i < |rows| ==> ranks[i] >= 1 && OpensTie(rows, ranks[i] - 1, i)
  {
    ranks := [];
    var rank := 0;
    var lastScore: Option<real> := None;
    for index := 0 to |rows|
      invariant |ranks| == index
      invariant index == 0 ==> lastScore == None
      invariant index > 0 ==>
        rank >= 1 && lastScore == Some(rows[index - 1].score) && OpensTie(rows, rank - 1, index - 1)
      invariant forall i :: 0 <= i < index ==> ranks[i] >= 1 && OpensTie(rows, ranks[i] - 1, i)
    {
      if Some(rows[index].score) != lastScore {
        rank := index + 1;
        lastScore := Some(rows[index].score);
      }
      ranks := ranks + [rank];
    }
  }

  lemma EveryRank(scores: map<nat, real>, rows: seq<Row>, ranks: seq<nat>)
    requires Sorted(scores, rows) && |ranks| == |rows|
    requires forall i :: 0 <= i < |rows| ==> ranks[i] >= 1 && OpensTie(rows, ranks[i] - 1, i)
    ensures forall i :: 0 <= i < |rows| ==> ranks[i] == 1 + |Better(scores, rows[i].student)|
  {
    forall i | 0 <= i < |rows|
      ensures ranks[i] == 1 + |Better(scores, rows[i].student)|
    {
      BetterCount(scores, rows, ranks[i] - 1, i);
    }
  }

  /**
   * The better ratio of marks to full marks, by cross-multiplication; no marks to be had counts as a
   * ratio of zero.
   */
  predicate HigherRatio(a: Total, b: Total)
  {
    if a.max > 0 && b.max > 0 then a.obtained * b.max > b.obtained * a.max
    else if a.max > 0 then a.obtained > 0
    else b.max > 0 && b.obtained < 0
  }

  lemma Scaled(x: real, y: real, d: real)
    requires d > 0.0
    ensures x > y <==> x * d > y * d
  {
  }

  lemma RatiosCompare(a: int, b: int, c: int, d: int)
    requires b > 0 && d > 0
    ensures a as real / b as real > c as real / d as real <==> a * d > c * b
  {
    var x, y := a as real / b as real, c as real / d as real;
    var p, q := b as real, d as real;
    assert x * p == a as real && y * q == c as real;
    Scaled(x, y, p * q);
    Products(x, p, q, a as real);
    Products(y, q, p, c as real);
    assert a as real * q == (a * d) as real && c as real * p == (c * b) as real;
  }

  lemma Products(x: real, p: real, q: real, a: real)
    requires x * p == a
    ensures x * (p * q) == a * q && x * (q * p) == a * q
  {
    assert x * (p * q) == (x * p) * q;
  }

  lemma PercentagesCompare(a: Total, b: Total)
    ensures Percentage(a) > Percentage(b) <==> HigherRatio(a, b)
  {
    if a.max > 0 && b.max > 0 {
      RatiosCompare(a.obtained, a.max, b.obtained, b.max);
    } else if a.max > 0 {
      RatiosCompare(a.obtained, a.max, 0, 1);
    } else if b.max > 0 {
      RatiosCompare(0, 1, b.obtained, b.max);
    }
  }

  /** What a student's own entries add up to. */
  function OwnTotal(entries: seq<Entry>, student: nat): Total
  {
    Total(Sum(OwnMarks(entries, student)), Sum(OwnMax(entries, student)))
  }

  /** The students with an entry whose own entries add up to a higher ratio. */
  function AheadOf(entries: seq<Entry>, student: nat): set<nat>
  {
    set i | 0 <= i < |entries| && HigherRatio(OwnTotal(entries, entries[i].student), OwnTotal(entries, student))
      :: entries[i].student
  }

  lemma BetterIsAhead(entries: seq<Entry>, student: nat)
    requires student in Totals(entries)
    ensures Better(Percentages(Totals(entries)), student) == AheadOf(entries, student)
  {
    forall s | s in Totals(entries)
      ensures s in Better(Percentages(Totals(entries)), student)
         <==> HigherRatio(OwnTotal(entries, s), OwnTotal(entries, student))
    {
      TotalIsTheSum(entries, s);
      TotalIsTheSum(entries, student);
      PercentagesCompare(OwnTotal(entries, s), OwnTotal(entries, student));
    }
    assert forall i :: 0 <= i < |entries| ==> entries[i] in entries && entries[i].student in Totals(entries);
  }

  lemma RanksByRatio(entries: seq<Entry>, rows: seq<Row>, ranks: seq<nat>)
    requires Sorted(Percentages(Totals(entries)), rows) && |ranks| == |rows|
    requires forall i :: 0 <= i < |rows| ==> ranks[i] == 1 + |Better(Percentages(Totals(entries)), rows[i].student)|
    ensures forall i :: 0 <= i < |rows| ==> ranks[i] == 1 + |AheadOf(entries, rows[i].student)|
  {
    forall i | 0 <= i < |rows|
      ensures ranks[i] == 1 + |AheadOf(entries, rows[i].student)|
    {
      BetterIsAhead(entries, rows[i].student);
    }
  }

  lemma NotBelowABetter(entries: seq<Entry>, a: nat, b: nat)
    requires a in Totals(entries) && b in Totals(entries)
    requires Percentages(Totals(entries))[a] >= Percentages(Totals(entries))[b]
    ensures !HigherRatio(OwnTotal(entries, b), OwnTotal(entries, a))
  {
    TotalIsTheSum(entries, a);
    TotalIsTheSum(entries, b);
    PercentagesCompare(OwnTotal(entries, b), OwnTotal(entries, a));
  }

  lemma OrderedByRatio(entries: seq<Entry>, rows: seq<Row>)
    requires Sorted(Percentages(Totals(entries)), rows)
    ensures Students(rows) == set i | 0 <= i < |entries| :: entries[i].student
    ensures forall i, j :: 0 <= i < j < |rows| ==>
      !HigherRatio(OwnTotal(entries, rows[j].student), OwnTotal(entries, rows[i].student))
  {
    forall i, j | 0 <= i < j < |rows|
      ensures !HigherRatio(OwnTotal(entries, rows[j].student), OwnTotal(entries, rows[i].student))
    {
      NotBelowABetter(entries, rows[i].student, rows[j].student);
    }
    assert Totals(entries).Keys == set i | 0 <= i < |entries| :: entries[i].student;
  }

  /**
   * The rank list of a class: a row for each student with an entry, nobody below a worse row, and beside
   * each row the number of students whose own entries add up to a strictly higher ratio, plus one,
   * whatever order the sort leaves equal ratios in.
   */
  method RankList(entries: seq<Entry>, sort: map<nat, real> -> seq<Row>) returns (rows: seq<Row>, ranks: seq<nat>)
    requires Sorted(Percentages(Totals(entries)), sort(Percentages(Totals(entries))))
    ensures Sorted(Percentages(Totals(entries)), rows)
    ensures Students(rows) == set i | 0 <= i < |entries| :: entries[i].student
    ensures |ranks| == |rows|
    ensures forall i :: 0 <= i < |rows| ==> ranks[i] == 1 + |AheadOf(entries, rows[i].student)|
    ensures forall i, j :: 0 <= i < j < |rows| ==>
      !HigherRatio(OwnTotal(entries, rows[j].student), OwnTotal(entries, rows[i].student))
  {
    var byStudent := Tally(entries);
    var scores := Percentages(byStudent);
    rows := sort(scores);
    ranks := AssignRanks(rows);
    EveryRank(scores, rows, ranks);
    RanksByRatio(entries, rows, ranks);
    OrderedByRatio(entries, rows);
  }

  /** `findIndex` of the student among the sorted rows, and the position it gives. */
  method Position(rows: seq<Row>, student: nat) returns (position: Option<nat>)
    ensures position == None <==> student !in Students(rows)
    ensures position.Some? ==> 1 <= position.value <= |rows| && rows[position.value - 1].student == student
  {
    for index := 0 to |rows|
      invariant forall i :: 0 <= i < index ==> rows[i].student != student
    {
      if rows[index].student == student {
        return Some(index + 1);
      }
    }
    position := None;
  }

  lemma SameOrder(totals: map<nat, Total>, student: nat)
    requires student in totals
    ensures Better(Fractions(totals), student) == Better(Percentages(totals), student)
    ensures Equal(Fractions(totals), student) == Equal(Percentages(totals), student)
  {
    forall s | s in totals
      ensures Percentages(totals)[s] == Fractions(totals)[s] * 100.0
    {
    }
  }

  /** Everybody who did better comes before. */
  lemma BetterComeBefore(scores: map<nat, real>, rows: seq<Row>, index: nat)
    requires Sorted(scores, rows) && index < |rows|
    ensures |Better(scores, rows[index].student)| <= index
  {
    var student, before := rows[index].student, rows[..index];
    StudentCount(before);
    forall s | s in Better(scores, student)
      ensures s in Students(before)
    {
      var k :| 0 <= k < |rows| && rows[k].student == s;
      assert before[k].student == s;
    }
    SubsetSize(Better(scores, student), Students(before));
  }

  /** Nobody up to here did worse. */
  lemma NoWorseUpTo(scores: map<nat, real>, rows: seq<Row>, index: nat)
    requires Sorted(scores, rows) && index < |rows|
    ensures index < |Better(scores, rows[index].student)| + |Equal(scores, rows[index].student)|
  {
    var student, upTo := rows[index].student, rows[..index + 1];
    var noWorse := Better(scores, student) + Equal(scores, student);
    StudentCount(upTo);
    forall s | s in Students(upTo)
      ensures s in noWorse
    {
      var k :| 0 <= k < index + 1 && upTo[k].student == s;
      assert rows[k].student == s;
    }
    SubsetSize(Students(upTo), noWorse);
  }

  /**
   * On the same totals, whatever either sort did with ties: a student's report-card position lies
   * between the rank the rank list gives and that rank plus the number tied with it, less one.
   */
  lemma PositionWithinTies(totals: map<nat, Total>, rows: seq<Row>, index: nat)
    requires Sorted(Fractions(totals), rows) && index < |rows|
    ensures var student := rows[index].student;
      var rank := 1 + |Better(Percentages(totals), student)|;
      rank <= index + 1 <= rank + |Equal(Percentages(totals), student)| - 1
  {
    SameOrder(totals, rows[index].student);
    BetterComeBefore(Fractions(totals), rows, index);
    NoWorseUpTo(Fractions(totals), rows, index);
  }

  /** The students with an entry whose own entries add up to the same ratio. */
  function TiedWith(entries: seq<Entry>, student: nat): set<nat>
  {
    set i | 0 <= i < |entries|
            && !HigherRatio(OwnTotal(entries, entries[i].student), OwnTotal(entries, student))
            && !HigherRatio(OwnTotal(entries, student), OwnTotal(entries, entries[i].student))
      :: entries[i].student
  }

  lemma EqualIsTied(entries: seq<Entry>, student: nat)
    requires student in Totals(entries)
    ensures Equal(Percentages(Totals(entries)), student) == TiedWith(entries, student)
  {
    forall s | s in Totals(entries)
      ensures s in Equal(Percentages(Totals(entries)), student)
         <==> !HigherRatio(OwnTotal(entries, s), OwnTotal(entries, student))
              && !HigherRatio(OwnTotal(entries, student), OwnTotal(entries, s))
    {
      TotalIsTheSum(entries, s);
      TotalIsTheSum(entries, student);
      PercentagesCompare(OwnTotal(entries, s), OwnTotal(entries, student));
      PercentagesCompare(OwnTotal(entries, student), OwnTotal(entries, s));
    }
    assert forall i :: 0 <= i < |entries| ==> entries[i] in entries && entries[i].student in Totals(entries);
  }

  /** The same on the marks themselves: between the rank and the rank plus the number tied, less one. */
  lemma PositionByRatio(entries: seq<Entry>, rows: seq<Row>, index: nat)
    requires Sorted(Fractions(Totals(entries)), rows) && index < |rows|
    ensures var student := rows[index].student;
      var rank := 1 + |AheadOf(entries, student)|;
      rank <= index + 1 <= rank + |TiedWith(entries, student)| - 1
  {
    PositionWithinTies(Totals(entries), rows, index);
    BetterIsAhead(entries, rows[index].student);
    EqualIsTied(entries, rows[index].student);
  }
}
