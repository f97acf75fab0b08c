/**
 * Concurrent starts of one student's attempts at one quiz (apps/api/src/quizzes/quizzes.service.ts):
 * the read of the existing attempts, the settling of an expired one and the insert are separate
 * steps with any number of other requests between them.
 */
module QuizStarts {
  import opened Quizzes
  import opened Wrappers

  /** A start under way: the rows its read saw, and whether it has settled the open one among them. */
  datatype Starter = Starter(seen: seq<Attempt>, settled: bool)

  /** The attempts table of one student and quiz, in the order of their numbers. */
  datatype Table = Table(rows: seq<Attempt>, starters: seq<Starter>)

  datatype Outcome = Done | Resumed | Opened(attemptNumber: nat) | NoneLeft | AlreadyOpen | Ignored

  datatype Step =
    | Read
    | SettleOwn(starter: nat, now: int)
    | Create(starter: nat, expiresAt: Option<int>)
    | SettleAny(row: nat, status: Status)

  predicate NumberTaken(rows: seq<Attempt>, number: nat)
  {
    exists i :: 0 <= i < |rows| && rows[i].attemptNumber == number
  }

  function Apply(db: Table, maxAttempts: nat, step: Step): (Table, Outcome)
  {
    match step
    case Read => (db.(starters := db.starters + [Starter(db.rows, false)]), Outcome.Done)
    case SettleOwn(s, now) =>
      if s >= |db.starters| then (db, Ignored)
      else
        var open := Open(db.starters[s].seen);
        if open == None then (db, Outcome.Done)
        else
          var deadline := db.starters[s].seen[open.value].expiresAt;
          if deadline == None || deadline.value > now then (db, Resumed)
          else if open.value >= |db.rows| then (db, Ignored)
          else (Table(db.rows[open.value := db.rows[open.value].(status := Expired)],
                   db.starters[s := db.starters[s].(settled := true)]), Outcome.Done)
    case Create(s, expiresAt) =>
      if s >= |db.starters| then (db, Ignored)
      else
        var seen := db.starters[s].seen;
        if Open(seen).Some? && !db.starters[s].settled then (db, Ignored)
        else if |seen| >= maxAttempts then (db, Outcome.NoneLeft)
        else
          var number := (if seen == [] then 0 else seen[|seen| - 1].attemptNumber) + 1;
          if NumberTaken(db.rows, number) then (db, AlreadyOpen)
          else (db.(rows := db.rows + [Attempt(number, InProgress, expiresAt, [], None, None)]), Opened(number))
    case SettleAny(k, status) =>
      if k >= |db.rows| || status == InProgress then (db, Ignored)
      else (db.(rows := db.rows[k := db.rows[k].(status := status)]), Outcome.Done)
  }

  function Run(db: Table, maxAttempts: nat, steps: seq<Step>): Table
    decreases |steps|
  {
    if steps == [] then db else Run(Apply(db, maxAttempts, steps[0]).0, maxAttempts, steps[1..])
  }

  /** What a starter saw is an orderly beginning of the table, and what was settled then is settled now. */
  ghost predicate Remembers(rows: seq<Attempt>, s: Starter)
  {
    && Orderly(s.seen)
    && |s.seen| <= |rows|
    && (forall i :: 0 <= i < |s.seen| && s.seen[i].status != InProgress ==> rows[i].status != InProgress)
    && (s.settled ==> forall i :: 0 <= i < |s.seen| ==> rows[i].status != InProgress)
  }

  ghost predicate Consistent(db: Table, maxAttempts: nat)
  {
    && Orderly(db.rows)
    && |db.rows| <= maxAttempts
    && (forall s :: 0 <= s < |db.starters| ==> Remembers(db.rows, db.starters[s]))
  }

  lemma TakenNumbers(rows: seq<Attempt>, number: nat)
    requires Orderly(rows)
    ensures NumberTaken(rows, number) <==> 1 <= number <= |rows|
  {
    if 1 <= number <= |rows| {
      assert rows[number - 1].attemptNumber == number;
    }
  }

  /** The unique index lets an insert through only if nothing was opened since its read. */
  lemma CreateKeepsConsistent(db: Table, maxAttempts: nat, s: nat, expiresAt: Option<int>)
    requires Consistent(db, maxAttempts)
    ensures Consistent(Apply(db, maxAttempts, Create(s, expiresAt)).0, maxAttempts)
  {
    var after := Apply(db, maxAttempts, Create(s, expiresAt)).0;
    if after != db {
      var seen := db.starters[s].seen;
      assert Remembers(db.rows, db.starters[s]);
      TakenNumbers(db.rows, |seen| + 1);
      assert |seen| == |db.rows|;
      forall t | 0 <= t < |after.starters|
        ensures Remembers(after.rows, after.starters[t])
      {
        assert Remembers(db.rows, db.starters[t]);
      }
    }
  }

  lemma SettleKeepsConsistent(db: Table, maxAttempts: nat, k: nat, status: Status)
    requires Consistent(db, maxAttempts) && k < |db.rows| && status != InProgress
    ensures Consistent(db.(rows := db.rows[k := db.rows[k].(status := status)]), maxAttempts)
  {
    var after := db.(rows := db.rows[k := db.rows[k].(status := status)]);
    forall t | 0 <= t < |after.starters|
      ensures Remembers(after.rows, after.starters[t])
    {
      assert Remembers(db.rows, db.starters[t]);
    }
  }

  lemma SettleOwnKeepsConsistent(db: Table, maxAttempts: nat, s: nat, now: int)
    requires Consistent(db, maxAttempts)
    ensures Consistent(Apply(db, maxAttempts, SettleOwn(s, now)).0, maxAttempts)
  {
    var after := Apply(db, maxAttempts, SettleOwn(s, now)).0;
    if after != db {
      assert Remembers(db.rows, db.starters[s]);
      var k := Open(db.starters[s].seen).value;
      assert k == |db.starters[s].seen| - 1;
      SettleKeepsConsistent(db, maxAttempts, k, Expired);
      forall t | 0 <= t < |after.starters|
        ensures Remembers(after.rows, after.starters[t])
      {
        assert Remembers(after.rows, db.starters[t]);
      }
    }
  }

  lemma ApplyKeepsConsistent(db: Table, maxAttempts: nat, step: Step)
    requires Consistent(db, maxAttempts)
    ensures Consistent(Apply(db, maxAttempts, step).0, maxAttempts)
  {
    match step
    case Read =>
    case SettleOwn(s, now) => SettleOwnKeepsConsistent(db, maxAttempts, s, now);
    case Create(s, expiresAt) => CreateKeepsConsistent(db, maxAttempts, s, expiresAt);
    case SettleAny(k, status) =>
      if k < |db.rows| && status != InProgress {
        SettleKeepsConsistent(db, maxAttempts, k, status);
      }
  }

  /**
   * However many starts race: the attempt numbers are exactly 1..n with n within the allowance, and
   * only the highest-numbered attempt can be in progress.
   */
  lemma {:induction false} StartsNeverOverlap(db: Table, maxAttempts: nat, steps: seq<Step>)
    requires Consistent(db, maxAttempts)
    ensures Consistent(Run(db, maxAttempts, steps), maxAttempts)
    ensures var rows := Run(db, maxAttempts, steps).rows;
      && |rows| <= maxAttempts
      && (forall i :: 0 <= i < |rows| ==> rows[i].attemptNumber == i + 1)
      && (forall i, j :: 0 <= i < j < |rows| ==> !(rows[i].status == InProgress && rows[j].status == InProgress))
      && (forall i :: 0 <= i < |rows| && rows[i].status == InProgress ==> rows[i].attemptNumber == |rows|)
    decreases |steps|
  {
    if steps != [] {
      ApplyKeepsConsistent(db, maxAttempts, steps[0]);
      StartsNeverOverlap(Apply(db, maxAttempts, steps[0]).0, maxAttempts, steps[1..]);
    }
  }

  /** Of two starts whose reads saw equally many attempts, once one has opened an attempt the other cannot. */
  lemma OneOfTwoWins(db: Table, maxAttempts: nat, s: nat, t: nat, expiresAt: Option<int>)
    requires Consistent(db, maxAttempts)
    requires s < |db.starters| && t < |db.starters| && |db.starters[s].seen| == |db.starters[t].seen|
    requires Apply(db, maxAttempts, Create(s, expiresAt)).1.Opened?
    ensures var next := Apply(db, maxAttempts, Create(s, expiresAt)).0;
      !Apply(next, maxAttempts, Create(t, expiresAt)).1.Opened?
  {
    assert Remembers(db.rows, db.starters[s]) && Remembers(db.rows, db.starters[t]);
    var next := Apply(db, maxAttempts, Create(s, expiresAt)).0;
    assert next.rows[|db.rows|].attemptNumber == |db.starters[s].seen| + 1;
  }

  lemma EmptyTableIsConsistent(maxAttempts: nat)
    ensures Consistent(Table([], []), maxAttempts)
  {
  }

  // ---------- what each step does and answers ----------

  /** The open attempt a read saw is its last one, if that was open. */
  lemma OpenWhenRead(seen: seq<Attempt>)
    requires Orderly(seen)
    ensures Open(seen) == if seen != [] && seen[|seen| - 1].status == InProgress then Some(|seen| - 1) else None
  {
  }

  /** The attempt a start has to settle before it may open another. */
  predicate SawOpen(s: Starter)
  {
    s.seen != [] && s.seen[|s.seen| - 1].status == InProgress
  }

  /**
   * An insert goes through exactly when no attempt has been opened since its read, the allowance is not
   * used up and what the read saw open has been settled; it adds the next attempt, open, and no other.
   */
  lemma CreateDoes(db: Table, maxAttempts: nat, s: nat, expiresAt: Option<int>)
    requires Consistent(db, maxAttempts)
    ensures var (after, outcome) := Apply(db, maxAttempts, Create(s, expiresAt));
      var n := |db.rows|;
      var known := s < |db.starters| && (SawOpen(db.starters[s]) ==> db.starters[s].settled);
      && (outcome == Ignored <==> !known)
      && (outcome == Outcome.NoneLeft <==> known && |db.starters[s].seen| >= maxAttempts)
      && (outcome == AlreadyOpen <==> known && |db.starters[s].seen| < maxAttempts && |db.starters[s].seen| < n)
      && (outcome == Opened(n + 1) <==> known && |db.starters[s].seen| < maxAttempts && |db.starters[s].seen| == n)
      && (outcome == Opened(n + 1) || after == db)
      && (outcome == Opened(n + 1) ==>
            after == Table(db.rows + [Attempt(n + 1, InProgress, expiresAt, [], None, None)], db.starters))
  {
    if s < |db.starters| {
      assert Remembers(db.rows, db.starters[s]);
      OpenWhenRead(db.starters[s].seen);
      TakenNumbers(db.rows, |db.starters[s].seen| + 1);
    }
  }

  /** A read remembers the attempts as they are; settling touches one status. */
  lemma ReadAndSettleDo(db: Table, maxAttempts: nat, k: nat, status: Status)
    ensures Apply(db, maxAttempts, Read) == (Table(db.rows, db.starters + [Starter(db.rows, false)]), Outcome.Done)
    ensures var (after, outcome) := Apply(db, maxAttempts, SettleAny(k, status));
      if k < |db.rows| && status != InProgress
      then outcome == Outcome.Done && after == Table(db.rows[k := db.rows[k].(status := status)], db.starters)
      else outcome == Ignored && after == db
  {
  }

  /** What a start does with the attempt it saw open: hand it back before its deadline, expire it from then on. */
  lemma SettleOwnDoes(db: Table, maxAttempts: nat, s: nat, now: int)
    requires Consistent(db, maxAttempts) && s < |db.starters|
    ensures var (after, outcome), starter := Apply(db, maxAttempts, SettleOwn(s, now)), db.starters[s];
      if !SawOpen(starter) then outcome == Outcome.Done && after == db
      else
        var k := |starter.seen| - 1;
        var deadline := starter.seen[k].expiresAt;
        if deadline == None || now < deadline.value then outcome == Resumed && after == db
        else
          outcome == Outcome.Done
          && after == Table(db.rows[k := db.rows[k].(status := Expired)],
                            db.starters[s := Starter(starter.seen, true)])
  {
    assert Remembers(db.rows, db.starters[s]);
    OpenWhenRead(db.starters[s].seen);
  }
}
