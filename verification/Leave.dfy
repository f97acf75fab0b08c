/**
 * Staff leave and its annual allowance (apps/api/src/leave/leave.service.ts). Dates are day numbers
 * and the clock is the first day of the current calendar year.
 */
module LeaveAllowance {
  import opened Sums
  import opened WorkingDays
  import opened Wrappers

  datatype Kind = Casual | Sick | Unpaid | Maternity | Other
  datatype Status = Pending | Approved | Rejected | Cancelled
  datatype Request = Request(requester: nat, kind: Kind, start: int, end: int, status: Status)

  datatype Outcome = Done | NoWorkingDays | OverAllowance(remaining: int) | NotFound | NotPending | OwnRequest

  function Allowance(kind: Kind): Option<nat>
  {
    match kind
    case Casual => Some(15)
    case Sick => Some(10)
    case Unpaid => None
    case Maternity => Some(90)
    case Other => Some(5)
  }

  /** The working days a request takes out of the balance: live, of that kind, starting this year or later. */
  function Charge(r: Request, requester: nat, kind: Kind, yearStart: int): nat
  {
    if r.requester == requester && r.kind == kind && r.status in {Pending, Approved} && r.start >= yearStart
    then WorkingDayCount(r.start, r.end) else 0
  }

  function Charges(requests: seq<Request>, requester: nat, kind: Kind, yearStart: int): (r: seq<int>)
    ensures |r| == |requests|
  {
    seq(|requests|, k requires 0 <= k < |requests| => Charge(requests[k], requester, kind, yearStart))
  }

  function Used(requests: seq<Request>, requester: nat, kind: Kind, yearStart: int): int
  {
    Sum(Charges(requests, requester, kind, yearStart))
  }

  datatype Step =
    | Ask(requester: nat, kind: Kind, start: int, end: int)
    | Review(id: nat, reviewer: nat, approve: bool)
    | Cancel(id: nat, requester: nat)
    | NewYear(yearStart: int)

  datatype Db = Db(requests: seq<Request>, yearStart: int)

  function Remaining(db: Db, requester: nat, kind: Kind): Option<int>
  {
    match Allowance(kind)
    case None => None
    case Some(days) =>
      var left := days - Used(db.requests, requester, kind, db.yearStart);
      Some(if left >= 0 then left else 0)
  }

  ghost function Apply(db: Db, step: Step): (Db, Outcome)
  {
    match step
    case Ask(requester, kind, start, end) =>
      var days := WorkingDayCount(start, end);
      var remaining := Remaining(db, requester, kind);
      if days == 0 then (db, NoWorkingDays)
      else if remaining.Some? && days > remaining.value then (db, OverAllowance(remaining.value))
      else (db.(requests := db.requests + [Request(requester, kind, start, end, Pending)]), Done)
    case Review(id, reviewer, approve) =>
      if id >= |db.requests| then (db, NotFound)
      else if db.requests[id].status != Pending then (db, NotPending)
      else if db.requests[id].requester == reviewer then (db, OwnRequest)
      else (SetStatus(db, id, if approve then Approved else Rejected), Done)
    case Cancel(id, requester) =>
      if id >= |db.requests| || db.requests[id].requester != requester then (db, NotFound)
      else if db.requests[id].status != Pending then (db, NotPending)
      else (SetStatus(db, id, Cancelled), Done)
    case NewYear(yearStart) =>
      (if yearStart >= db.yearStart then db.(yearStart := yearStart) else db, Done)
  }

  ghost function SetStatus(db: Db, id: nat, status: Status): Db
    requires id < |db.requests|
  {
    db.(requests := db.requests[id := db.requests[id].(status := status)])
  }

  ghost function Run(db: Db, steps: seq<Step>): Db
    decreases |steps|
  {
    if steps == [] then db else Run(Apply(db, steps[0]).0, steps[1..])
  }

  lemma NextCharge(charges: seq<int>, k: nat)
    requires k < |charges|
    ensures Sum(charges[..k + 1]) == Sum(charges[..k]) + charges[k]
  {
    assert charges[..k + 1] == charges[..k] + [charges[k]];
    Append(charges[..k], charges[k]);
  }

  class Service {
    var requests: seq<Request>
    var yearStart: int

    ghost function View(): Db
      reads this
    {
      Db(requests, yearStart)
    }

    constructor (yearStart: int)
      ensures View() == Db([], yearStart)
    {
      requests := [];
      this.yearStart := yearStart;
    }

    /** The balance of one kind: the days used are summed over the selected requests. */
    method BalanceFor(requester: nat, kind: Kind) returns (remaining: Option<int>)
      ensures remaining == Remaining(View(), requester, kind)
    {
      var used := 0;
      ghost var charges := Charges(requests, requester, kind, yearStart);
      for k := 0 to |requests|
        invariant used == Sum(charges[..k])
      {
        var r := requests[k];
        NextCharge(charges, k);
        if r.requester == requester && r.kind == kind && r.status in {Pending, Approved} && r.start >= yearStart {
          DayOfMidnight(r.start);
          DayOfMidnight(r.end);
          var days := WorkingDaysBetween(r.start * DAY_MS, r.end * DAY_MS);
          used := used + days;
        }
      }
      assert charges[..|requests|] == charges;
      match Allowance(kind)
      case None => remaining := None;
      case Some(days) => remaining := Some(if days - used >= 0 then days - used else 0);
    }

    method RequestLeave(requester: nat, kind: Kind, start: int, end: int) returns (outcome: Outcome)
      modifies this`requests
      ensures (View(), outcome) == Apply(old(View()), Ask(requester, kind, start, end))
    {
      DayOfMidnight(start);
      DayOfMidnight(end);
      var days := WorkingDaysBetween(start * DAY_MS, end * DAY_MS);
      if days == 0 {
        return NoWorkingDays;
      }
      var remaining := BalanceFor(requester, kind);
      if remaining.Some? && days > remaining.value {
        return OverAllowance(remaining.value);
      }
      requests := requests + [Request(requester, kind, start, end, Pending)];
      outcome := Done;
    }

    method ReviewLeave(id: nat, reviewer: nat, approve: bool) returns (outcome: Outcome)
      modifies this`requests
      ensures (View(), outcome) == Apply(old(View()), Review(id, reviewer, approve))
    {
      if id >= |requests| {
        return NotFound;
      }
      if requests[id].status != Pending {
        return NotPending;
      }
      if requests[id].requester == reviewer {
        return OwnRequest;
      }
      requests := requests[id := requests[id].(status := if approve then Approved else Rejected)];
      outcome := Done;
    }

    method CancelLeave(id: nat, requester: nat) returns (outcome: Outcome)
      modifies this`requests
      ensures (View(), outcome) == Apply(old(View()), Cancel(id, requester))
    {
      if id >= |requests| || requests[id].requester != requester {
        return NotFound;
      }
      if requests[id].status != Pending {
        return NotPending;
      }
      requests := requests[id := requests[id].(status := Cancelled)];
      outcome := Done;
    }
  }

  // ---------- every run ----------

  /** Nobody's live leave of a capped kind, starting this year or later, exceeds the allowance. */
  ghost predicate WithinAllowance(db: Db)
  {
    forall requester: nat, kind :: Allowance(kind).Some? ==>
      Used(db.requests, requester, kind, db.yearStart) <= Allowance(kind).value
  }

  lemma SetStatusCharge(db: Db, id: nat, status: Status, requester: nat, kind: Kind)
    requires id < |db.requests| && db.requests[id].status == Pending
    ensures Used(SetStatus(db, id, status).requests, requester, kind, db.yearStart)
         <= Used(db.requests, requester, kind, db.yearStart)
  {
    var before := Charges(db.requests, requester, kind, db.yearStart);
    var after := Charges(SetStatus(db, id, status).requests, requester, kind, db.yearStart);
    Monotone(after, before);
  }

  lemma ApplyKeepsAllowance(db: Db, step: Step)
    requires WithinAllowance(db)
    ensures WithinAllowance(Apply(db, step).0)
  {
    var after := Apply(db, step).0;
    forall requester: nat, kind | Allowance(kind).Some?
      ensures Used(after.requests, requester, kind, after.yearStart) <= Allowance(kind).value
    {
      assert Used(db.requests, requester, kind, db.yearStart) <= Allowance(kind).value;
      var before := Charges(db.requests, requester, kind, db.yearStart);
      match step
      case Ask(r, k, start, end) =>
        if after != db {
          var charge := Charge(Request(r, k, start, end, Pending), requester, kind, db.yearStart);
          Append(before, charge);
          assert Charges(after.requests, requester, kind, db.yearStart) == before + [charge];
        }
      case Review(id, reviewer, approve) =>
        if after != db {
          SetStatusCharge(db, id, if approve then Approved else Rejected, requester, kind);
        }
      case Cancel(id, r) =>
        if after != db {
          SetStatusCharge(db, id, Cancelled, requester, kind);
        }
      case NewYear(yearStart) =>
        Monotone(Charges(after.requests, requester, kind, after.yearStart), before);
    }
  }

  /**
   * In every run of requests, reviews, withdrawals and year changes, the days charged to a capped
   * kind never exceed its allowance. Which days those are is what the next part is about.
   */
  lemma {:induction false} AllowanceNeverExceeded(db: Db, steps: seq<Step>)
    requires WithinAllowance(db)
    ensures WithinAllowance(Run(db, steps))
    decreases |steps|
  {
    if steps != [] {
      ApplyKeepsAllowance(db, steps[0]);
      AllowanceNeverExceeded(Apply(db, steps[0]).0, steps[1..]);
    }
  }

  lemma NothingAskedIsWithinAllowance(yearStart: int)
    ensures WithinAllowance(Db([], yearStart))
  {
  }

  // ---------- what the balance charges, and what lies in the year ----------

  predicate IsLive(r: Request, requester: nat, kind: Kind)
  {
    r.requester == requester && r.kind == kind && r.status in {Pending, Approved}
  }

  function Latest(a: int, b: int): int { if a >= b then a else b }

  function Earliest(a: int, b: int): int { if a <= b then a else b }

  /** The working days of the year `[yearStart, yearEnd)` that a live request covers. */
  function DaysInYear(r: Request, requester: nat, kind: Kind, yearStart: int, yearEnd: int): nat
  {
    if IsLive(r, requester, kind) then WorkingDayCount(Latest(r.start, yearStart), Earliest(r.end, yearEnd - 1)) else 0
  }

  function AllDaysInYear(requests: seq<Request>, requester: nat, kind: Kind, yearStart: int, yearEnd: int)
    : (r: seq<int>)
    ensures |r| == |requests|
  {
    seq(|requests|, k requires 0 <= k < |requests| => DaysInYear(requests[k], requester, kind, yearStart, yearEnd))
  }

  /** What the requests starting in the year are charged. */
  function ChargesOfYear(requests: seq<Request>, requester: nat, kind: Kind, yearStart: int, yearEnd: int)
    : (r: seq<int>)
    ensures |r| == |requests|
  {
    seq(|requests|, k requires 0 <= k < |requests| =>
      if requests[k].start < yearEnd then Charge(requests[k], requester, kind, yearStart) else 0)
  }

  /** Part of a range has no more working days than the whole. */
  lemma PartOfRange(first: int, last: int, from: int, to: int)
    requires first <= from && to <= last
    ensures WorkingDayCount(from, to) <= WorkingDayCount(first, last)
  {
  }

  /**
   * The query asks for requests starting this year or later. The balance is that of the requests
   * starting in this calendar year exactly when none that starts after it is charged a day.
   */
  lemma OnlyThisYearCountsExactly(requests: seq<Request>, requester: nat, kind: Kind, yearStart: int, yearEnd: int)
    requires yearStart <= yearEnd
    ensures Used(requests, requester, kind, yearStart)
         == Sum(ChargesOfYear(requests, requester, kind, yearStart, yearEnd))
       <==> forall k :: 0 <= k < |requests| && requests[k].start >= yearEnd ==>
              Charge(requests[k], requester, kind, yearStart) == 0
  {
    var ofYear := ChargesOfYear(requests, requester, kind, yearStart, yearEnd);
    var all := Charges(requests, requester, kind, yearStart);
    EqualSums(ofYear, all);
    if ofYear == all {
      forall k | 0 <= k < |requests| && requests[k].start >= yearEnd
        ensures Charge(requests[k], requester, kind, yearStart) == 0
      {
        assert ofYear[k] == all[k];
      }
    }
  }

  /** A live request that starts before the year and has a working day in it. */
  predicate ReachesInto(r: Request, requester: nat, kind: Kind, yearStart: int, yearEnd: int)
  {
    && IsLive(r, requester, kind) && r.start < yearStart
    && WorkingDayCount(yearStart, Earliest(r.end, yearEnd - 1)) > 0
  }

  ghost predicate NoneReachesInto(requests: seq<Request>, requester: nat, kind: Kind, yearStart: int, yearEnd: int)
  {
    forall k :: 0 <= k < |requests| ==> !ReachesInto(requests[k], requester, kind, yearStart, yearEnd)
  }

  /** A request is charged for all its working days in the year exactly when it does not reach into it from before. */
  lemma ChargedForTheYearExactly(r: Request, requester: nat, kind: Kind, yearStart: int, yearEnd: int)
    ensures DaysInYear(r, requester, kind, yearStart, yearEnd) <= Charge(r, requester, kind, yearStart)
       <==> !ReachesInto(r, requester, kind, yearStart, yearEnd)
  {
    if IsLive(r, requester, kind) && r.start >= yearStart {
      PartOfRange(r.start, r.end, Latest(r.start, yearStart), Earliest(r.end, yearEnd - 1));
    }
  }

  /** A request is charged for no working day after the year exactly when it is not charged or has none there. */
  lemma ChargedOnlyForTheYearExactly(r: Request, requester: nat, kind: Kind, yearStart: int, yearEnd: int)
    requires yearStart <= yearEnd
    ensures Charge(r, requester, kind, yearStart) <= DaysInYear(r, requester, kind, yearStart, yearEnd)
       <==> !(IsLive(r, requester, kind) && r.start >= yearStart
              && WorkingDayCount(Latest(r.start, yearEnd), r.end) > 0)
  {
    if IsLive(r, requester, kind) && r.start < yearEnd <= r.end {
      Additive(r.start, yearEnd - 1, r.end);
    }
  }

  /**
   * Every working day of the year that live leave covers is charged, exactly when no live request
   * starting before the year reaches into it; and then those days are within the allowance.
   */
  lemma EveryDayOfTheYearIsChargedExactly(db: Db, requester: nat, kind: Kind, yearEnd: int)
    requires WithinAllowance(db)
    ensures (forall k :: 0 <= k < |db.requests| ==>
               DaysInYear(db.requests[k], requester, kind, db.yearStart, yearEnd)
                 <= Charge(db.requests[k], requester, kind, db.yearStart))
       <==> NoneReachesInto(db.requests, requester, kind, db.yearStart, yearEnd)
    ensures NoneReachesInto(db.requests, requester, kind, db.yearStart, yearEnd) && Allowance(kind).Some? ==>
      Sum(AllDaysInYear(db.requests, requester, kind, db.yearStart, yearEnd)) <= Allowance(kind).value
  {
    forall k | 0 <= k < |db.requests|
      ensures DaysInYear(db.requests[k], requester, kind, db.yearStart, yearEnd)
                <= Charge(db.requests[k], requester, kind, db.yearStart)
         <==> !ReachesInto(db.requests[k], requester, kind, db.yearStart, yearEnd)
    {
      ChargedForTheYearExactly(db.requests[k], requester, kind, db.yearStart, yearEnd);
    }
    assert Allowance(kind).Some? ==> Used(db.requests, requester, kind, db.yearStart) <= Allowance(kind).value;
    if NoneReachesInto(db.requests, requester, kind, db.yearStart, yearEnd) {
      Monotone(AllDaysInYear(db.requests, requester, kind, db.yearStart, yearEnd),
               Charges(db.requests, requester, kind, db.yearStart));
    }
  }

  /** In every run, working days of the year over the allowance mean leave that reaches into it from before. */
  lemma YearIsWithinAllowance(db: Db, steps: seq<Step>, requester: nat, kind: Kind, yearEnd: int)
    requires WithinAllowance(db) && Allowance(kind).Some?
    ensures var after := Run(db, steps);
      Sum(AllDaysInYear(after.requests, requester, kind, after.yearStart, yearEnd)) <= Allowance(kind).value
      || !NoneReachesInto(after.requests, requester, kind, after.yearStart, yearEnd)
  {
    AllowanceNeverExceeded(db, steps);
    EveryDayOfTheYearIsChargedExactly(Run(db, steps), requester, kind, yearEnd);
  }

  /** 1 January of 2024 and of 2025. */
  const YEAR_2024 := 19_723
  const YEAR_2025 := 20_089

  /** Leave in January 2025 takes up the allowance of 2024: a day in July 2024 is refused. */
  lemma NextYearsLeaveIsChargedThisYear()
    ensures var db := Run(Db([], YEAR_2024), [Ask(1, Casual, YEAR_2025, YEAR_2025 + 16)]);
      && |db.requests| == 1
      && Used(db.requests, 1, Casual, YEAR_2024) == 15
      && Sum(ChargesOfYear(db.requests, 1, Casual, YEAR_2024, YEAR_2025)) == 0
      && Apply(db, Ask(1, Casual, YEAR_2024 + 182, YEAR_2024 + 182)).1 == OverAllowance(0)
  {
    var ask := Ask(1, Casual, YEAR_2025, YEAR_2025 + 16);
    var r := Request(1, Casual, YEAR_2025, YEAR_2025 + 16, Pending);
    assert Charges([], 1, Casual, YEAR_2024) == [];
    assert Run(Db([], YEAR_2024), [ask]) == Run(Db([r], YEAR_2024), []);
    assert Charges([r], 1, Casual, YEAR_2024) == [15];
    assert Sum([15]) == 15 + Sum([]);
    Zeros(ChargesOfYear([r], 1, Casual, YEAR_2024, YEAR_2025));
  }

  function Copies(r: Request, n: nat): (rs: seq<Request>)
    ensures |rs| == n && forall k :: 0 <= k < n ==> rs[k] == r
  {
    seq(n, _ => r)
  }

  lemma OneMoreTime(n: int, days: int)
    ensures (n - 1) * days + days == n * days
  {
  }

  lemma {:induction false} CopiesAddUp(r: Request, yearStart: int, yearEnd: int, n: nat)
    ensures Sum(AllDaysInYear(Copies(r, n), r.requester, r.kind, yearStart, yearEnd))
         == n * DaysInYear(r, r.requester, r.kind, yearStart, yearEnd)
    decreases n
  {
    if n > 0 {
      var days := DaysInYear(r, r.requester, r.kind, yearStart, yearEnd);
      var fewer := AllDaysInYear(Copies(r, n - 1), r.requester, r.kind, yearStart, yearEnd);
      CopiesAddUp(r, yearStart, yearEnd, n - 1);
      Append(fewer, days);
      OneMoreTime(n, days);
      assert AllDaysInYear(Copies(r, n), r.requester, r.kind, yearStart, yearEnd) == fewer + [days];
    }
  }

  /**
   * Leave starting before the year is charged to no balance, so however many times it is asked for
   * over the same days of the year, it is accepted again.
   */
  lemma EarlyLeaveIsUnlimited(r: Request, yearStart: int, yearEnd: int, n: nat)
    requires r.status == Pending && r.start < yearStart && WorkingDayCount(r.start, r.end) > 0
    requires Allowance(r.kind).Some? ==> WorkingDayCount(r.start, r.end) <= Allowance(r.kind).value
    ensures var before := Db(Copies(r, n), yearStart);
      && Apply(before, Ask(r.requester, r.kind, r.start, r.end)) == (Db(Copies(r, n + 1), yearStart), Done)
      && Used(before.requests, r.requester, r.kind, yearStart) == 0
      && Sum(AllDaysInYear(before.requests, r.requester, r.kind, yearStart, yearEnd))
           == n * DaysInYear(r, r.requester, r.kind, yearStart, yearEnd)
  {
    Zeros(Charges(Copies(r, n), r.requester, r.kind, yearStart));
    assert Copies(r, n + 1) == Copies(r, n) + [r];
    CopiesAddUp(r, yearStart, yearEnd, n);
  }

  /**
   * The three overlapping requests that each look affordable alone: 14 working days of 2024 each,
   * starting on the last day of 2023, all accepted against an allowance of 15 and none counted as used.
   */
  lemma ThreeOverlappingRequestsAreAffordable()
    ensures var r := Request(1, Casual, YEAR_2024 - 1, YEAR_2024 + 15, Pending);
      && (forall n: nat :: n < 3 ==>
            Apply(Db(Copies(r, n), YEAR_2024), Ask(1, Casual, r.start, r.end))
              == (Db(Copies(r, n + 1), YEAR_2024), Done))
      && Used(Copies(r, 3), 1, Casual, YEAR_2024) == 0
      && Sum(AllDaysInYear(Copies(r, 3), 1, Casual, YEAR_2024, YEAR_2025)) == 42
  {
    var r := Request(1, Casual, YEAR_2024 - 1, YEAR_2024 + 15, Pending);
    assert DaysInYear(r, 1, Casual, YEAR_2024, YEAR_2025) == 14;
    forall n: nat | n <= 3
      ensures Apply(Db(Copies(r, n), YEAR_2024), Ask(1, Casual, r.start, r.end))
           == (Db(Copies(r, n + 1), YEAR_2024), Done)
      ensures Used(Copies(r, n), 1, Casual, YEAR_2024) == 0
      ensures Sum(AllDaysInYear(Copies(r, n), 1, Casual, YEAR_2024, YEAR_2025)) == n * 14
    {
      EarlyLeaveIsUnlimited(r, YEAR_2024, YEAR_2025, n);
    }
  }

  // ---------- what each step does and answers ----------

  /** The days a year allows of each kind; unpaid leave is not rationed. */
  lemma AllowanceTable()
    ensures Allowance(Casual) == Some(15) && Allowance(Sick) == Some(10) && Allowance(Maternity) == Some(90)
    ensures Allowance(Other) == Some(5) && Allowance(Unpaid) == None
  {
  }

  /** Not a Sunday; day 3, 4 January 1970, was one. */
  predicate Worked(day: int)
  {
    (day - 3) % 7 != 0
  }

  function DaysWorked(first: int, last: int): set<int>
  {
    set d | first <= d <= last && Worked(d)
  }

  lemma DaysWorkedCount(first: int, last: int)
    ensures WorkingDayCount(first, last) == |DaysWorked(first, last)|
  {
    CountsWorkingDays(first, last);
    assert DaysWorked(first, last) == set d | first <= d <= last && !IsSunday(d);
  }

  /** The days worked in each pending or approved request of this person and kind that starts this year or later. */
  ghost function DaysTaken(db: Db, requester: nat, kind: Kind): (r: seq<int>)
    ensures |r| == |db.requests|
  {
    seq(|db.requests|, k requires 0 <= k < |db.requests| =>
      var r := db.requests[k];
      if r.requester == requester && r.kind == kind && (r.status == Pending || r.status == Approved)
         && r.start >= db.yearStart
      then |DaysWorked(r.start, r.end)| else 0)
  }

  lemma UsedIsTaken(db: Db, requester: nat, kind: Kind)
    ensures Used(db.requests, requester, kind, db.yearStart) == Sum(DaysTaken(db, requester, kind))
  {
    forall k | 0 <= k < |db.requests|
      ensures Charges(db.requests, requester, kind, db.yearStart)[k] == DaysTaken(db, requester, kind)[k]
    {
      DaysWorkedCount(db.requests[k].start, db.requests[k].end);
    }
    assert Charges(db.requests, requester, kind, db.yearStart) == DaysTaken(db, requester, kind);
  }

  /**
   * A request is refused when nobody works on its days, or when they are more than is left of the year's
   * allowance after the days already taken; otherwise it waits.
   */
  lemma AskingDoes(db: Db, requester: nat, kind: Kind, start: int, end: int)
    ensures var (after, outcome) := Apply(db, Ask(requester, kind, start, end));
      var days, taken := |DaysWorked(start, end)|, Sum(DaysTaken(db, requester, kind));
      var allowed := Allowance(kind);
      var left := if allowed == None then 0 else if taken <= allowed.value then allowed.value - taken else 0;
      && outcome == (if days == 0 then NoWorkingDays
                     else if allowed.Some? && days > left then OverAllowance(left)
                     else Done)
      && after == if outcome == Done
                  then db.(requests := db.requests + [Request(requester, kind, start, end, Pending)]) else db
  {
    DaysWorkedCount(start, end);
    UsedIsTaken(db, requester, kind);
  }

  /** Only the status of this request has changed, to this one. */
  ghost predicate OnlyStatusSet(before: Db, after: Db, id: nat, status: Status)
  {
    && after.yearStart == before.yearStart && id < |before.requests| == |after.requests|
    && (var r := before.requests[id]; after.requests[id] == Request(r.requester, r.kind, r.start, r.end, status))
    && forall j :: 0 <= j < |before.requests| && j != id ==> after.requests[j] == before.requests[j]
  }

  /** Approving approves, declining rejects, never one's own request and never twice. */
  lemma ReviewingDoes(db: Db, id: nat, reviewer: nat, approve: bool)
    ensures var (after, outcome) := Apply(db, Review(id, reviewer, approve));
      && outcome == (if id >= |db.requests| then NotFound
                     else if db.requests[id].status != Pending then NotPending
                     else if db.requests[id].requester == reviewer then OwnRequest
                     else Done)
      && (outcome != Done ==> after == db)
      && (outcome == Done ==> OnlyStatusSet(db, after, id, if approve then Approved else Rejected))
  {
  }

  lemma CancellingDoes(db: Db, id: nat, requester: nat)
    ensures var (after, outcome) := Apply(db, Cancel(id, requester));
      && outcome == (if id >= |db.requests| || db.requests[id].requester != requester then NotFound
                     else if db.requests[id].status != Pending then NotPending
                     else Done)
      && (outcome != Done ==> after == db)
      && (outcome == Done ==> OnlyStatusSet(db, after, id, Cancelled))
  {
  }

  lemma NewYearDoes(db: Db, yearStart: int)
    ensures Apply(db, NewYear(yearStart)).0
         == Db(db.requests, if yearStart >= db.yearStart then yearStart else db.yearStart)
  {
  }

  /** What a step makes of a request, if it settles it. */
  ghost function SettledBy(db: Db, step: Step, id: nat): Status
  {
    if step.Review? && step.id == id && Apply(db, step).1 == Done then if step.approve then Approved else Rejected
    else if step.Cancel? && step.id == id && Apply(db, step).1 == Done then Cancelled
    else Pending
  }

  ghost predicate Settles(db: Db, steps: seq<Step>, id: nat, status: Status)
    decreases |steps|
  {
    steps != [] && (SettledBy(db, steps[0], id) == status || Settles(Apply(db, steps[0]).0, steps[1..], id, status))
  }

  lemma StepSettles(db: Db, step: Step, id: nat)
    ensures var after := Apply(db, step).0.requests;
      && |db.requests| <= |after|
      && (id < |after| ==>
            after[id].status ==
              if SettledBy(db, step, id) != Pending then SettledBy(db, step, id)
              else if id < |db.requests| then db.requests[id].status else Pending)
      && (SettledBy(db, step, id) != Pending ==> id < |db.requests| && db.requests[id].status == Pending)
  {
    match step
    case Ask(requester, kind, start, end) => AskingDoes(db, requester, kind, start, end);
    case Review(j, reviewer, approve) => ReviewingDoes(db, j, reviewer, approve);
    case Cancel(j, requester) => CancellingDoes(db, j, requester);
    case NewYear(yearStart) => NewYearDoes(db, yearStart);
  }

  lemma {:induction false} SettledStays(db: Db, steps: seq<Step>, id: nat, status: Status)
    requires id < |db.requests| && db.requests[id].status != Pending && status != Pending
    ensures var after := Run(db, steps).requests; id < |after| && after[id].status == db.requests[id].status
    ensures !Settles(db, steps, id, status)
    decreases |steps|
  {
    if steps != [] {
      StepSettles(db, steps[0], id);
      SettledStays(Apply(db, steps[0]).0, steps[1..], id, status);
    }
  }

  /**
   * Over every run, a request that began pending ends approved, rejected or cancelled exactly when the run
   * holds an approval, a refusal or a withdrawal of it that was answered done.
   */
  lemma {:induction false} StatusIsTheDecision(db: Db, steps: seq<Step>, id: nat, status: Status)
    requires id < |db.requests| ==> db.requests[id].status == Pending
    requires status != Pending
    ensures id < |Run(db, steps).requests| ==>
      (Run(db, steps).requests[id].status == status <==> Settles(db, steps, id, status))
    decreases |steps|
  {
    if steps != [] {
      var next := Apply(db, steps[0]).0;
      StepSettles(db, steps[0], id);
      if SettledBy(db, steps[0], id) != Pending {
        SettledStays(next, steps[1..], id, status);
      } else {
        StatusIsTheDecision(next, steps[1..], id, status);
      }
    }
  }
}
