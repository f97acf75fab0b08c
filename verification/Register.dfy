/**
 * The attendance register (apps/api/src/attendance/attendance.service.ts) and the approved absences
 * that rewrite it (apps/api/src/absences/absences.service.ts). Dates are day numbers, requests are
 * named by their place in their table.
 */
module Register {
  datatype Mark = Present | Absent | Late | Excused
  datatype Key = Key(classId: nat, student: nat, day: int)
  datatype Entry = Entry(student: nat, mark: Mark)
  datatype Sheet = Sheet(classId: nat, day: int, entries: seq<Entry>)

  datatype Status = Pending | Approved | Rejected | Cancelled
  datatype Request = Request(student: nat, raisedBy: nat, start: int, end: int, status: Status)

  datatype Outcome = Done | NotFound | Strangers(count: nat) | TooLong(days: int) | Clash | Forbidden | NotPending

  const MAX_ABSENCE_REQUEST_DAYS := 30

  datatype Records = Records(classOf: map<nat, nat>, records: map<Key, Mark>, requests: seq<Request>)

  // ---------- what the register should say ----------

  predicate Covers(r: Request, student: nat, day: int)
  {
    r.status == Approved && r.student == student && r.start <= day <= r.end
  }

  predicate Covered(requests: seq<Request>, student: nat, day: int)
  {
    exists i :: 0 <= i < |requests| && Covers(requests[i], student, day)
  }

  /** A submitted mark as it should read: an absence the school has approved reads EXCUSED. */
  function Shown(mark: Mark, covered: bool): Mark
  {
    if mark == Absent && covered then Excused else mark
  }

  /** Every record is the last mark submitted for it, excused exactly when an approved absence covers it. */
  ghost predicate Agrees(db: Records, marks: map<Key, Mark>)
  {
    && db.records.Keys == marks.Keys
    && forall k :: k in marks ==> db.records[k] == Shown(marks[k], Covered(db.requests, k.student, k.day))
  }

  // ---------- marking ----------

  function KeyOf(sheet: Sheet, i: nat): Key
    requires i < |sheet.entries|
  {
    Key(sheet.classId, sheet.entries[i].student, sheet.day)
  }

  /** The upserts of the first `n` entries, in order, ABSENT turned to EXCUSED for the students in `excused`. */
  function Upserts(records: map<Key, Mark>, sheet: Sheet, excused: set<nat>, n: nat): map<Key, Mark>
    requires n <= |sheet.entries|
  {
    if n == 0 then records
    else
      var e := sheet.entries[n - 1];
      Upserts(records, sheet, excused, n - 1)[KeyOf(sheet, n - 1) := Shown(e.mark, e.student in excused)]
  }

  function WriteSheet(records: map<Key, Mark>, sheet: Sheet, excused: set<nat>): map<Key, Mark>
  {
    Upserts(records, sheet, excused, |sheet.entries|)
  }

  function StudentsAbsent(sheet: Sheet): set<nat>
  {
    set e | e in sheet.entries && e.mark == Absent :: e.student
  }

  /** The students marked absent whom an approved absence covers that day. */
  function StudentsExcused(requests: seq<Request>, sheet: Sheet): set<nat>
  {
    set s | s in StudentsAbsent(sheet) && Covered(requests, s, sheet.day)
  }

  function StrangersOn(classOf: map<nat, nat>, sheet: Sheet): set<nat>
  {
    set e | e in sheet.entries && !(e.student in classOf && classOf[e.student] == sheet.classId) :: e.student
  }

  /** Approving converts the ABSENT records of the days covered. */
  function Excuse(records: map<Key, Mark>, r: Request): map<Key, Mark>
  {
    map k | k in records ::
      if k.student == r.student && r.start <= k.day <= r.end && records[k] == Absent
        then Excused else records[k]
  }

  predicate Overlapping(r: Request, student: nat, start: int, end: int)
  {
    r.student == student && r.status in {Pending, Approved} && r.start <= end && r.end >= start
  }

  datatype Step =
    | Enrol(student: nat, classId: nat)
    | MarkSheet(sheet: Sheet)
    | Ask(student: nat, raisedBy: nat, start: int, end: int)
    | Decide(id: nat, approve: bool)
    | Cancel(user: nat, id: nat)

  ghost function Apply(db: Records, step: Step): (Records, Outcome)
  {
    match step
    case Enrol(student, classId) => (db.(classOf := db.classOf[student := classId]), Done)
    case MarkSheet(sheet) =>
      var strangers := StrangersOn(db.classOf, sheet);
      if strangers != {} then (db, Strangers(|strangers|))
      else (db.(records := WriteSheet(db.records, sheet, StudentsExcused(db.requests, sheet))), Done)
    case Ask(student, raisedBy, start, end) =>
      if end - start + 1 > MAX_ABSENCE_REQUEST_DAYS then (db, TooLong(end - start + 1))
      else if exists i :: 0 <= i < |db.requests| && Overlapping(db.requests[i], student, start, end) then (db, Clash)
      else (db.(requests := db.requests + [Request(student, raisedBy, start, end, Pending)]), Done)
    case Decide(id, approve) =>
      if id >= |db.requests| then (db, NotFound)
      else if db.requests[id].status != Pending then (db, NotPending)
      else
        var decided := db.requests[id].(status := if approve then Approved else Rejected);
        (Records(db.classOf, if approve then Excuse(db.records, decided) else db.records,
                 db.requests[id := decided]), Done)
    case Cancel(user, id) =>
      if id >= |db.requests| then (db, NotFound)
      else if db.requests[id].raisedBy != user then (db, Forbidden)
      else if db.requests[id].status != Pending then (db, NotPending)
      else (db.(requests := db.requests[id := db.requests[id].(status := Cancelled)]), Done)
  }

  /** The marks as submitted: what accepted sheets said, before any excuse. */
  ghost function Submitted(db: Records, marks: map<Key, Mark>, step: Step): map<Key, Mark>
  {
    if step.MarkSheet? && Apply(db, step).1 == Done then WriteSheet(marks, step.sheet, {}) else marks
  }

  // ---------- the services ----------

  class School {
    var classOf: map<nat, nat>
    var records: map<Key, Mark>
    var requests: seq<Request>

    ghost function View(): Records
      reads this
    {
      Records(classOf, records, requests)
    }

    constructor ()
      ensures View() == Records(map[], map[], [])
    {
      classOf, records, requests := map[], map[], [];
    }

    method StudentsExcusedOn(sheet: Sheet) returns (excused: set<nat>)
      ensures excused == StudentsExcused(requests, sheet)
    {
      var absentIds := StudentsAbsent(sheet);
      if absentIds == {} {
        return {};
      }
      excused := set i | 0 <= i < |requests| && requests[i].student in absentIds && requests[i].status == Approved
                         && requests[i].start <= sheet.day && requests[i].end >= sheet.day :: requests[i].student;
      assert forall i :: 0 <= i < |requests| ==>
        (Covers(requests[i], requests[i].student, sheet.day) <==>
         requests[i].status == Approved && requests[i].start <= sheet.day && requests[i].end >= sheet.day);
    }

    method MarkAttendance(sheet: Sheet) returns (outcome: Outcome)
      modifies this`records
      ensures (View(), outcome) == Apply(old(View()), MarkSheet(sheet))
    {
      var strangers := StrangersOn(classOf, sheet);
      if strangers != {} {
        return Strangers(|strangers|);
      }
      var excused := StudentsExcusedOn(sheet);
      for i := 0 to |sheet.entries|
        invariant records == Upserts(old(records), sheet, excused, i)
      {
        var entry := sheet.entries[i];
        var status := if entry.mark == Absent && entry.student in excused then Excused else entry.mark;
        records := records[Key(sheet.classId, entry.student, sheet.day) := status];
      }
      outcome := Done;
    }

    method RequestAbsence(student: nat, raisedBy: nat, start: int, end: int) returns (outcome: Outcome)
      modifies this`requests
      ensures (View(), outcome) == Apply(old(View()), Ask(student, raisedBy, start, end))
    {
      var days := end - start + 1;
      if days > MAX_ABSENCE_REQUEST_DAYS {
        return TooLong(days);
      }
      if exists i :: 0 <= i < |requests| && Overlapping(requests[i], student, start, end) {
        return Clash;
      }
      requests := requests + [Request(student, raisedBy, start, end, Pending)];
      outcome := Done;
    }

    method ReviewAbsence(id: nat, approve: bool) returns (outcome: Outcome)
      modifies this`requests, this`records
      ensures (View(), outcome) == Apply(old(View()), Decide(id, approve))
    {
      var claimed := 0;
      if id < |requests| && requests[id].status == Pending {
        requests := requests[id := requests[id].(status := if approve then Approved else Rejected)];
        claimed := 1;
      }
      if claimed == 0 {
        if id >= |requests| {
          return NotFound;
        }
        return NotPending;
      }
      var request := requests[id];
      if approve {
        records := Excuse(records, request);
      }
      outcome := Done;
    }

    method CancelAbsence(user: nat, id: nat) returns (outcome: Outcome)
      modifies this`requests
      ensures (View(), outcome) == Apply(old(View()), Step.Cancel(user, id))
    {
      if id < |requests| && requests[id].raisedBy == user && requests[id].status == Pending {
        requests := requests[id := requests[id].(status := Cancelled)];
        return Done;
      }
      if id >= |requests| {
        return NotFound;
      }
      if requests[id].raisedBy != user {
        return Forbidden;
      }
      outcome := NotPending;
    }
  }

  // ---------- every run ----------

  /** The mark a sheet leaves on a student: its last entry for them. */
  function FinalMark(sheet: Sheet, student: nat, n: nat): (m: seq<Mark>)
    requires n <= |sheet.entries|
    ensures |m| <= 1
  {
    if n == 0 then []
    else if sheet.entries[n - 1].student == student then [sheet.entries[n - 1].mark]
    else FinalMark(sheet, student, n - 1)
  }

  /** A sheet changes exactly the records of its class and day that it names, to its last word on each. */
  lemma {:induction false} UpsertsAt(records: map<Key, Mark>, sheet: Sheet, excused: set<nat>, n: nat, k: Key)
    requires n <= |sheet.entries|
    ensures var after := Upserts(records, sheet, excused, n);
      var final := if k.classId == sheet.classId && k.day == sheet.day then FinalMark(sheet, k.student, n) else [];
      if final == [] then (k in after <==> k in records) && (k in records ==> after[k] == records[k])
      else k in after && after[k] == Shown(final[0], k.student in excused)
  {
    if n > 0 {
      UpsertsAt(records, sheet, excused, n - 1, k);
    }
  }

  lemma {:induction false} FinalMarkIsEntry(sheet: Sheet, student: nat, n: nat)
    requires n <= |sheet.entries| && FinalMark(sheet, student, n) != []
    ensures Entry(student, FinalMark(sheet, student, n)[0]) in sheet.entries
  {
    if sheet.entries[n - 1].student != student {
      FinalMarkIsEntry(sheet, student, n - 1);
    }
  }

  /**
   * Writing a sheet with a set of excused students that may be out of date keeps the register in
   * agreement exactly when it misses nobody: each student whose last entry is ABSENT and whom an
   * approved absence covers by now was already in the set.
   */
  lemma WriteAgreesExactly(db: Records, marks: map<Key, Mark>, sheet: Sheet, excused: set<nat>)
    requires Agrees(db, marks)
    requires forall s :: s in excused ==> Covered(db.requests, s, sheet.day)
    ensures Agrees(db.(records := WriteSheet(db.records, sheet, excused)), WriteSheet(marks, sheet, {}))
       <==> (forall s: nat :: FinalMark(sheet, s, |sheet.entries|) == [Absent] && Covered(db.requests, s, sheet.day) ==>
              s in excused)
  {
    var n := |sheet.entries|;
    var after, marks' := WriteSheet(db.records, sheet, excused), WriteSheet(marks, sheet, {});
    forall k: Key
      ensures k in after <==> k in marks'
      ensures k in marks' ==>
        var named := k.classId == sheet.classId && k.day == sheet.day && FinalMark(sheet, k.student, n) == [Absent];
        (after[k] == Shown(marks'[k], Covered(db.requests, k.student, k.day))
         <==> (named && Covered(db.requests, k.student, k.day) ==> k.student in excused))
    {
      UpsertsAt(db.records, sheet, excused, n, k);
      UpsertsAt(marks, sheet, {}, n, k);
    }
    assert after.Keys == marks'.Keys;
    if s: nat :| FinalMark(sheet, s, n) == [Absent] && Covered(db.requests, s, sheet.day) && s !in excused {
      var k := Key(sheet.classId, s, sheet.day);
      UpsertsAt(marks, sheet, {}, n, k);
      assert k in marks' && after[k] != Shown(marks'[k], Covered(db.requests, s, sheet.day));
    }
  }

  lemma MarkAgrees(db: Records, marks: map<Key, Mark>, sheet: Sheet)
    requires Agrees(db, marks)
    ensures Agrees(db.(records := WriteSheet(db.records, sheet, StudentsExcused(db.requests, sheet))),
                   WriteSheet(marks, sheet, {}))
  {
    forall s: nat | FinalMark(sheet, s, |sheet.entries|) == [Absent]
      ensures s in StudentsAbsent(sheet)
    {
      FinalMarkIsEntry(sheet, s, |sheet.entries|);
    }
    WriteAgreesExactly(db, marks, sheet, StudentsExcused(db.requests, sheet));
  }

  /** Deciding or withdrawing a pending request covers new days only by approving them. */
  lemma CoverAfter(requests: seq<Request>, id: nat, status: Status, student: nat, day: int)
    requires id < |requests| && requests[id].status == Pending && status != Pending
    ensures var decided := requests[id].(status := status);
      Covered(requests[id := decided], student, day)
      <==> Covered(requests, student, day) || Covers(decided, student, day)
  {
    var decided := requests[id].(status := status);
    var after := requests[id := decided];
    if Covered(requests, student, day) {
      var i :| 0 <= i < |requests| && Covers(requests[i], student, day);
      assert after[i] == requests[i];
    }
    if Covers(decided, student, day) {
      assert after[id] == decided;
    }
  }

  /** No two live requests of a student overlap, and none is longer than the limit. */
  ghost predicate NoOverlap(requests: seq<Request>)
  {
    && (forall i :: 0 <= i < |requests| ==> requests[i].end - requests[i].start + 1 <= MAX_ABSENCE_REQUEST_DAYS)
    && (forall i, j :: 0 <= i < j < |requests| && requests[j].status in {Pending, Approved} ==>
          !Overlapping(requests[i], requests[j].student, requests[j].start, requests[j].end))
  }

  lemma DecideAgrees(db: Records, marks: map<Key, Mark>, id: nat, approve: bool)
    requires Agrees(db, marks)
    ensures Agrees(Apply(db, Decide(id, approve)).0, marks)
  {
    var after := Apply(db, Decide(id, approve)).0;
    if after != db {
      forall k | k in marks
        ensures after.records[k] == Shown(marks[k], Covered(after.requests, k.student, k.day))
      {
        CoverAfter(db.requests, id, after.requests[id].status, k.student, k.day);
      }
    }
  }

  lemma SameCoverAgrees(db: Records, after: Records, marks: map<Key, Mark>)
    requires Agrees(db, marks) && after.records == db.records
    requires forall s, day :: Covered(after.requests, s, day) <==> Covered(db.requests, s, day)
    ensures Agrees(after, marks)
  {
  }

  lemma ApplyAgrees(db: Records, marks: map<Key, Mark>, step: Step)
    requires Agrees(db, marks)
    ensures Agrees(Apply(db, step).0, Submitted(db, marks, step))
  {
    var after := Apply(db, step).0;
    match step
    case Enrol(student, classId) =>
    case MarkSheet(sheet) => MarkAgrees(db, marks, sheet);
    case Decide(id, approve) => DecideAgrees(db, marks, id, approve);
    case Ask(student, raisedBy, start, end) =>
      if after != db {
        forall s, day
          ensures Covered(after.requests, s, day) <==> Covered(db.requests, s, day)
        {
          if i :| 0 <= i < |db.requests| && Covers(db.requests[i], s, day) {
            assert after.requests[i] == db.requests[i];
          }
        }
        SameCoverAgrees(db, after, marks);
      }
    case Cancel(user, id) =>
      if after != db {
        forall s, day
          ensures Covered(after.requests, s, day) <==> Covered(db.requests, s, day)
        {
          CoverAfter(db.requests, id, Cancelled, s, day);
        }
        SameCoverAgrees(db, after, marks);
      }
  }

  lemma ApplyNoOverlap(db: Records, step: Step)
    requires NoOverlap(db.requests)
    ensures NoOverlap(Apply(db, step).0.requests)
  {
    var after := Apply(db, step).0.requests;
    if step.Ask? && after != db.requests {
      assert forall i :: 0 <= i < |db.requests| ==> after[i] == db.requests[i];
    }
  }

  /** A run: the database and the marks as submitted. */
  ghost function Run(db: Records, marks: map<Key, Mark>, steps: seq<Step>): (Records, map<Key, Mark>)
    decreases |steps|
  {
    if steps == [] then (db, marks) else Run(Apply(db, steps[0]).0, Submitted(db, marks, steps[0]), steps[1..])
  }

  /** In every run of marking, asking, deciding and withdrawing, the register says what it should. */
  lemma {:induction false} RegisterAgrees(db: Records, marks: map<Key, Mark>, steps: seq<Step>)
    requires Agrees(db, marks) && NoOverlap(db.requests)
    ensures var (after, marks') := Run(db, marks, steps); Agrees(after, marks') && NoOverlap(after.requests)
    decreases |steps|
  {
    if steps != [] {
      ApplyAgrees(db, marks, steps[0]);
      ApplyNoOverlap(db, steps[0]);
      RegisterAgrees(Apply(db, steps[0]).0, Submitted(db, marks, steps[0]), steps[1..]);
    }
  }

  /** The requests and the marks submitted leave one register to agree with. */
  lemma AgreementDecidesRecords(a: Records, b: Records, marks: map<Key, Mark>)
    requires Agrees(a, marks) && Agrees(b, marks) && a.requests == b.requests
    ensures a.records == b.records
  {
    assert a.records.Keys == b.records.Keys;
  }

  /** Neither step looks at what the other writes, but for the records. */
  lemma MarkAndDecideApart(db: Records, sheet: Sheet, id: nat, approve: bool)
    ensures var mark, decide := MarkSheet(sheet), Decide(id, approve);
      var one, other := Apply(Apply(db, mark).0, decide).0, Apply(Apply(db, decide).0, mark).0;
      && one.requests == Apply(db, decide).0.requests == other.requests
      && one.classOf == db.classOf == other.classOf
  {
  }

  lemma MarkThenDecide(db: Records, marks: map<Key, Mark>, sheet: Sheet, id: nat, approve: bool)
    requires Agrees(db, marks)
    ensures Agrees(Apply(Apply(db, MarkSheet(sheet)).0, Decide(id, approve)).0, Submitted(db, marks, MarkSheet(sheet)))
  {
    ApplyAgrees(db, marks, MarkSheet(sheet));
    DecideAgrees(Apply(db, MarkSheet(sheet)).0, Submitted(db, marks, MarkSheet(sheet)), id, approve);
  }

  lemma DecideThenMark(db: Records, marks: map<Key, Mark>, sheet: Sheet, id: nat, approve: bool)
    requires Agrees(db, marks)
    ensures Agrees(Apply(Apply(db, Decide(id, approve)).0, MarkSheet(sheet)).0, Submitted(db, marks, MarkSheet(sheet)))
  {
    DecideAgrees(db, marks, id, approve);
    ApplyAgrees(Apply(db, Decide(id, approve)).0, marks, MarkSheet(sheet));
  }

  /** Marking a sheet and deciding a request give the same database in either order. */
  lemma MarkAndDecideCommute(db: Records, marks: map<Key, Mark>, sheet: Sheet, id: nat, approve: bool)
    requires Agrees(db, marks)
    ensures Apply(Apply(db, MarkSheet(sheet)).0, Decide(id, approve)).0
         == Apply(Apply(db, Decide(id, approve)).0, MarkSheet(sheet)).0
  {
    var one := Apply(Apply(db, MarkSheet(sheet)).0, Decide(id, approve)).0;
    var other := Apply(Apply(db, Decide(id, approve)).0, MarkSheet(sheet)).0;
    MarkAndDecideApart(db, sheet, id, approve);
    MarkThenDecide(db, marks, sheet, id, approve);
    DecideThenMark(db, marks, sheet, id, approve);
    AgreementDecidesRecords(one, other, Submitted(db, marks, MarkSheet(sheet)));
  }

  /**
   * Marking reads the approvals before it writes. If the approval comes in between, the record
   * stays ABSENT: the excuse is missed by both services.
   */
  lemma ApprovalBetweenReadAndWrite()
    ensures var sheet := Sheet(1, 5, [Entry(7, Absent)]);
      var before := Records(map[7 := 1], map[], [Request(7, 9, 5, 5, Pending)]);
      var after := Apply(before, Decide(0, true)).0;
      var written := after.(records := WriteSheet(after.records, sheet, StudentsExcused(before.requests, sheet)));
      Covered(written.requests, 7, 5) && written.records == map[Key(1, 7, 5) := Absent]
  {
    var sheet := Sheet(1, 5, [Entry(7, Absent)]);
    var before := Records(map[7 := 1], map[], [Request(7, 9, 5, 5, Pending)]);
    var after := Apply(before, Decide(0, true)).0;
    assert Covers(after.requests[0], 7, 5);
    assert Upserts(map[], sheet, {}, 1) == Upserts(map[], sheet, {}, 0)[Key(1, 7, 5) := Absent];
  }

  // ---------- what each step does and answers ----------

  /** An approved request of the student spans the day. */
  ghost predicate Spanned(requests: seq<Request>, student: nat, day: int)
  {
    exists i :: 0 <= i < |requests| && requests[i].status == Approved && requests[i].student == student
                && requests[i].start <= day && day <= requests[i].end
  }

  lemma CoveredIsSpanned(requests: seq<Request>, student: nat, day: int)
    ensures Covered(requests, student, day) <==> Spanned(requests, student, day)
  {
    if i :| 0 <= i < |requests| && requests[i].status == Approved && requests[i].student == student
            && requests[i].start <= day && day <= requests[i].end {
      assert Covers(requests[i], student, day);
    }
  }

  /** The entry at this place is the sheet's last for its student. */
  ghost predicate LastEntry(sheet: Sheet, i: nat)
    requires i < |sheet.entries|
  {
    forall j :: i < j < |sheet.entries| ==> sheet.entries[j].student != sheet.entries[i].student
  }

  lemma {:induction false} FinalMarkIsLast(sheet: Sheet, n: nat, i: nat)
    requires i < n <= |sheet.entries|
    requires forall j :: i < j < n ==> sheet.entries[j].student != sheet.entries[i].student
    ensures FinalMark(sheet, sheet.entries[i].student, n) == [sheet.entries[i].mark]
  {
    if i < n - 1 {
      FinalMarkIsLast(sheet, n - 1, i);
    }
  }

  lemma {:induction false} NotNamed(sheet: Sheet, student: nat, n: nat)
    requires n <= |sheet.entries| && forall j :: 0 <= j < n ==> sheet.entries[j].student != student
    ensures FinalMark(sheet, student, n) == []
  {
    if n > 0 {
      NotNamed(sheet, student, n - 1);
    }
  }

  /** The entry at this place is for somebody not enrolled in the sheet's class. */
  predicate IsStranger(classOf: map<nat, nat>, sheet: Sheet, i: nat)
    requires i < |sheet.entries|
  {
    var student := sheet.entries[i].student;
    student !in classOf || classOf[student] != sheet.classId
  }

  /** A sheet is refused exactly when it names somebody not in its class, and says how many. */
  lemma MarkingRefused(db: Records, sheet: Sheet)
    ensures var (after, outcome) := Apply(db, MarkSheet(sheet));
      var strangers :=
        set i | 0 <= i < |sheet.entries| && IsStranger(db.classOf, sheet, i) :: sheet.entries[i].student;
      && (outcome == if strangers == {} then Done else Strangers(|strangers|))
      && (strangers != {} ==> after == db)
  {
    var strangers := set i | 0 <= i < |sheet.entries| && IsStranger(db.classOf, sheet, i) :: sheet.entries[i].student;
    assert StrangersOn(db.classOf, sheet) == strangers;
  }

  ghost predicate Mentions(sheet: Sheet, k: Key)
  {
    && k.classId == sheet.classId && k.day == sheet.day
    && exists i :: 0 <= i < |sheet.entries| && sheet.entries[i].student == k.student
  }

  /**
   * A sheet accepted records the last entry for each student it names, an ABSENT as EXCUSED exactly when
   * an approved request spans the day, and changes no other record and nothing else.
   */
  lemma MarkingTakesEffect(db: Records, sheet: Sheet)
    requires Apply(db, MarkSheet(sheet)).1 == Done
    ensures var after := Apply(db, MarkSheet(sheet)).0;
      && after.classOf == db.classOf && after.requests == db.requests
      && (forall i :: 0 <= i < |sheet.entries| && LastEntry(sheet, i) ==>
            var e := sheet.entries[i];
            var k := Key(sheet.classId, e.student, sheet.day);
            k in after.records && after.records[k] ==
              if e.mark == Absent && Spanned(db.requests, e.student, sheet.day) then Excused else e.mark)
      && (forall k :: !Mentions(sheet, k) ==>
            (k in after.records <==> k in db.records) && (k in db.records ==> after.records[k] == db.records[k]))
  {
    var after, n := Apply(db, MarkSheet(sheet)).0, |sheet.entries|;
    var excused := StudentsExcused(db.requests, sheet);
    forall i | 0 <= i < n && LastEntry(sheet, i)
      ensures var e := sheet.entries[i];
        var k := Key(sheet.classId, e.student, sheet.day);
        k in after.records && after.records[k] ==
          if e.mark == Absent && Spanned(db.requests, e.student, sheet.day) then Excused else e.mark
    {
      var e := sheet.entries[i];
      FinalMarkIsLast(sheet, n, i);
      UpsertsAt(db.records, sheet, excused, n, Key(sheet.classId, e.student, sheet.day));
      CoveredIsSpanned(db.requests, e.student, sheet.day);
      assert e.mark == Absent ==> e.student in StudentsAbsent(sheet);
    }
    forall k | !Mentions(sheet, k)
      ensures (k in after.records <==> k in db.records) && (k in db.records ==> after.records[k] == db.records[k])
    {
      UpsertsAt(db.records, sheet, excused, n, k);
      if k.classId == sheet.classId && k.day == sheet.day {
        NotNamed(sheet, k.student, n);
      }
    }
  }

  /** A live request of the student shares a day with these. */
  ghost predicate Shares(requests: seq<Request>, student: nat, start: int, end: int)
  {
    exists i :: 0 <= i < |requests| && requests[i].student == student
                && (requests[i].status == Pending || requests[i].status == Approved)
                && requests[i].start <= end && start <= requests[i].end
  }

  /** A request is refused for more than 30 days or for sharing a day with a live one, and otherwise waits. */
  lemma AskingDoes(db: Records, student: nat, raisedBy: nat, start: int, end: int)
    ensures var (after, outcome), days := Apply(db, Ask(student, raisedBy, start, end)), end - start + 1;
      && outcome == (if days > 30 then TooLong(days)
                     else if Shares(db.requests, student, start, end) then Clash else Done)
      && (outcome != Done ==> after == db)
      && (outcome == Done ==>
            after == db.(requests := db.requests + [Request(student, raisedBy, start, end, Pending)]))
  {
    if i :| 0 <= i < |db.requests| && Overlapping(db.requests[i], student, start, end) {
      assert Shares(db.requests, student, start, end);
    }
    if i :| 0 <= i < |db.requests| && db.requests[i].student == student
            && (db.requests[i].status == Pending || db.requests[i].status == Approved)
            && db.requests[i].start <= end && start <= db.requests[i].end {
      assert Overlapping(db.requests[i], student, start, end);
    }
  }

  /** Only the status of this request has changed, to this one. */
  ghost predicate OnlyStatusSet(before: seq<Request>, after: seq<Request>, id: nat, status: Status)
  {
    && id < |before| == |after|
    && after[id] == Request(before[id].student, before[id].raisedBy, before[id].start, before[id].end, status)
    && forall j :: 0 <= j < |before| && j != id ==> after[j] == before[j]
  }

  lemma DecidingRefused(db: Records, id: nat, approve: bool)
    ensures var (after, outcome) := Apply(db, Decide(id, approve));
      && outcome == (if id >= |db.requests| then NotFound
                     else if db.requests[id].status != Pending then NotPending else Done)
      && (outcome != Done ==> after == db)
  {
  }

  /**
   * Declining leaves the request rejected, every record as it was and nobody excused for another day.
   * Approving leaves it approved, turns exactly the ABSENT records of its student and days into EXCUSED,
   * and covers exactly its student's days from the first to the last in addition.
   */
  lemma DecisionTakesEffect(db: Records, id: nat, approve: bool)
    requires Apply(db, Decide(id, approve)).1 == Done
    ensures var after := Apply(db, Decide(id, approve)).0;
      && OnlyStatusSet(db.requests, after.requests, id, if approve then Approved else Rejected)
      && after.classOf == db.classOf && after.records.Keys == db.records.Keys
      && var r := db.requests[id];
      && (forall k :: k in db.records ==>
            after.records[k] ==
              if approve && k.student == r.student && r.start <= k.day && k.day <= r.end && db.records[k] == Absent
              then Excused else db.records[k])
      && (forall student, day ::
            Spanned(after.requests, student, day) <==>
              Spanned(db.requests, student, day) || (approve && student == r.student && r.start <= day && day <= r.end))
  {
    var after, r := Apply(db, Decide(id, approve)).0, db.requests[id];
    forall student, day
      ensures Spanned(after.requests, student, day) <==>
        Spanned(db.requests, student, day) || (approve && student == r.student && r.start <= day && day <= r.end)
    {
      CoverAfter(db.requests, id, if approve then Approved else Rejected, student, day);
      CoveredIsSpanned(db.requests, student, day);
      CoveredIsSpanned(after.requests, student, day);
    }
  }

  lemma CancellingDoes(db: Records, user: nat, id: nat)
    ensures var (after, outcome) := Apply(db, Step.Cancel(user, id));
      && outcome == (if id >= |db.requests| then NotFound
                     else if db.requests[id].raisedBy != user then Forbidden
                     else if db.requests[id].status != Pending then NotPending
                     else Done)
      && (outcome != Done ==> after == db)
      && (outcome == Done ==>
            OnlyStatusSet(db.requests, after.requests, id, Cancelled)
            && after.records == db.records && after.classOf == db.classOf)
  {
  }

  /** What a step makes of a request, if it settles it. */
  ghost function SettledBy(db: Records, step: Step, id: nat): Status
  {
    if step.Decide? && step.id == id && Apply(db, step).1 == Done then if step.approve then Approved else Rejected
    else if step.Cancel? && step.id == id && Apply(db, step).1 == Done then Cancelled
    else Pending
  }

  /** Some step of a run settles the request so. */
  ghost predicate Settles(db: Records, steps: seq<Step>, id: nat, status: Status)
    decreases |steps|
  {
    steps != [] && (SettledBy(db, steps[0], id) == status || Settles(Apply(db, steps[0]).0, steps[1..], id, status))
  }

  lemma StepSettles(db: Records, step: Step, id: nat)
    ensures var after := Apply(db, step).0.requests;
      && |db.requests| <= |after|
      && (id < |after| ==>
            after[id].status ==
              if SettledBy(db, step, id) != Pending then SettledBy(db, step, id)
              else if id < |db.requests| then db.requests[id].status else Pending)
      && (SettledBy(db, step, id) != Pending ==> id < |db.requests| && db.requests[id].status == Pending)
  {
    match step
    case Enrol(student, classId) =>
    case MarkSheet(sheet) => MarkingRefused(db, sheet);
    case Ask(student, raisedBy, start, end) => AskingDoes(db, student, raisedBy, start, end);
    case Decide(j, approve) =>
      DecidingRefused(db, j, approve);
      if Apply(db, step).1 == Done {
        DecisionTakesEffect(db, j, approve);
      }
    case Cancel(user, j) => CancellingDoes(db, user, j);
  }

  lemma {:induction false} SettledStays(db: Records, steps: seq<Step>, id: nat, status: Status)
    requires id < |db.requests| && db.requests[id].status != Pending && status != Pending
    ensures var after := Run(db, map[], steps).0.requests;
      id < |after| && after[id].status == db.requests[id].status
    ensures !Settles(db, steps, id, status)
    decreases |steps|
  {
    if steps != [] {
      StepSettles(db, steps[0], id);
      MarksApart(Apply(db, steps[0]).0, map[], Submitted(db, map[], steps[0]), steps[1..]);
      SettledStays(Apply(db, steps[0]).0, steps[1..], id, status);
    }
  }

  /** The database a run comes to does not depend on the marks kept beside it. */
  lemma {:induction false} MarksApart(db: Records, a: map<Key, Mark>, b: map<Key, Mark>, steps: seq<Step>)
    ensures Run(db, a, steps).0 == Run(db, b, steps).0
    decreases |steps|
  {
    if steps != [] {
      MarksApart(Apply(db, steps[0]).0, Submitted(db, a, steps[0]), Submitted(db, b, steps[0]), steps[1..]);
    }
  }

  /**
   * Over every run, a request that began pending ends approved, rejected or cancelled exactly when the run
   * holds an approval, a refusal or a withdrawal of it that was answered done.
   */
  lemma {:induction false} StatusIsTheDecision(db: Records, steps: seq<Step>, id: nat, status: Status)
    requires id < |db.requests| ==> db.requests[id].status == Pending
    requires status != Pending
    ensures id < |Run(db, map[], steps).0.requests| ==>
      (Run(db, map[], steps).0.requests[id].status == status <==> Settles(db, steps, id, status))
    decreases |steps|
  {
    if steps != [] {
      var next := Apply(db, steps[0]).0;
      StepSettles(db, steps[0], id);
      MarksApart(next, map[], Submitted(db, map[], steps[0]), steps[1..]);
      if SettledBy(db, steps[0], id) != Pending {
        SettledStays(next, steps[1..], id, status);
      } else {
        StatusIsTheDecision(next, steps[1..], id, status);
      }
    }
  }
}
