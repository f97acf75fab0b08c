/**
 * Sitting and grading a quiz (apps/api/src/quizzes/quizzes.service.ts). The state is the part of
 * the tables that belongs to one quiz and one student; time is an integer that never goes back and
 * marks are integers in minor units.
 */
module Quizzes {
  import opened Sums
  import opened Wrappers

  datatype Question = Question(id: nat, options: nat, correctIndex: nat, marks: nat)
  datatype Answer = Answer(questionId: nat, selectedIndex: nat, isCorrect: Option<bool>, marksAwarded: Option<int>)

  datatype Status = InProgress | Submitted | Expired
  datatype Attempt = Attempt(attemptNumber: nat, status: Status, expiresAt: Option<int>, answers: seq<Answer>,
                             score: Option<int>, maxScore: Option<int>)

  datatype Quiz = Quiz(questions: seq<Question>, published: bool, opensAt: Option<int>, closesAt: Option<int>,
                       timeLimitMinutes: Option<nat>, maxAttempts: nat, inGradebook: bool)
  datatype Cell = Cell(marksObtained: int, maxMarks: int)

  datatype Db = Db(quiz: Quiz, attempts: seq<Attempt>, cell: Option<Cell>)

  datatype Outcome =
    | Done
    | Paper(attempt: nat)
    | Saved
    | Result(attempt: nat, score: Option<int>)
    | NotFound
    | NotOpenYet
    | Closed
    | NoneLeft
    | TimeUp
    | AlreadySubmitted
    | QuestionNotFound
    | NoSuchOption
    | Frozen
    | NoQuestions

  const MINUTE_MS := 60_000

  // ---------- marking ----------

  function Find(questions: seq<Question>, id: nat): (q: Option<Question>)
    ensures q.Some? ==> q.value in questions && q.value.id == id
    ensures q == None ==> forall i :: 0 <= i < |questions| ==> questions[i].id != id
  {
    if questions == [] then None
    else if questions[|questions| - 1].id == id then Some(questions[|questions| - 1])
    else Find(questions[..|questions| - 1], id)
  }

  predicate Correct(a: Answer, questions: seq<Question>)
  {
    var q := Find(questions, a.questionId);
    q.Some? && a.selectedIndex == q.value.correctIndex
  }

  function Award(a: Answer, questions: seq<Question>): nat
  {
    if Correct(a, questions) then Find(questions, a.questionId).value.marks else 0
  }

  function Marked(a: Answer, questions: seq<Question>): Answer
  {
    a.(isCorrect := Some(Correct(a, questions)), marksAwarded := Some(Award(a, questions)))
  }

  function MarkAll(answers: seq<Answer>, questions: seq<Question>): (r: seq<Answer>)
    ensures |r| == |answers|
  {
    seq(|answers|, i requires 0 <= i < |answers| => Marked(answers[i], questions))
  }

  function Awards(answers: seq<Answer>, questions: seq<Question>): (r: seq<int>)
    ensures |r| == |answers|
  {
    seq(|answers|, i requires 0 <= i < |answers| => Award(answers[i], questions))
  }

  function Marks(questions: seq<Question>): (r: seq<int>)
    ensures |r| == |questions|
  {
    seq(|questions|, i requires 0 <= i < |questions| => questions[i].marks)
  }

  function TotalMarks(questions: seq<Question>): int
  {
    Sum(Marks(questions))
  }

  /** An attempt as grading leaves it. */
  function Settled(a: Attempt, status: Status, questions: seq<Question>): Attempt
  {
    a.(status := status, answers := MarkAll(a.answers, questions),
       score := Some(Sum(Awards(a.answers, questions))), maxScore := Some(TotalMarks(questions)))
  }

  // ---------- the gradebook ----------

  /** The best-scored attempt, the earliest of equals. */
  function Best(attempts: seq<Attempt>): (b: Option<Attempt>)
    ensures b.Some? ==> b.value.score.Some?
  {
    if attempts == [] then None
    else
      var winner, last := Best(attempts[..|attempts| - 1]), attempts[|attempts| - 1];
      if last.score.Some? && (winner == None || last.score.value > winner.value.score.value) then Some(last) else winner
  }

  function AsCell(best: Option<Attempt>): Option<Cell>
    requires best.Some? ==> best.value.score.Some?
  {
    if best == None then None
    else Some(Cell(best.value.score.value, if best.value.maxScore.Some? then best.value.maxScore.value else 0))
  }

  function CellOf(quiz: Quiz, attempts: seq<Attempt>): Option<Cell>
  {
    if quiz.inGradebook then AsCell(Best(attempts)) else None
  }

  /** Pushing the best attempt into the gradebook leaves the cell alone when there is nothing to push. */
  function Sync(db: Db): Db
  {
    if db.quiz.inGradebook && Best(db.attempts).Some? then db.(cell := AsCell(Best(db.attempts))) else db
  }

  function Grade(db: Db, k: nat, status: Status): Db
    requires k < |db.attempts|
  {
    Sync(db.(attempts := db.attempts[k := Settled(db.attempts[k], status, db.quiz.questions)]))
  }

  // ---------- the operations, expiry decided lazily ----------

  /** Open and past its deadline. */
  predicate Due(a: Attempt, now: int)
  {
    a.status == InProgress && a.expiresAt.Some? && a.expiresAt.value <= now
  }

  function FinalizeIfExpired(db: Db, k: nat, now: int): Db
    requires k < |db.attempts|
  {
    if Due(db.attempts[k], now) then Grade(db, k, Expired) else db
  }

  function Open(attempts: seq<Attempt>): (k: Option<nat>)
    ensures k.Some? ==> k.value < |attempts| && attempts[k.value].status == InProgress
    ensures k == None ==> forall i :: 0 <= i < |attempts| ==> attempts[i].status != InProgress
  {
    if attempts == [] then None
    else
      var earlier := Open(attempts[..|attempts| - 1]);
      if earlier.Some? then earlier
      else if attempts[|attempts| - 1].status == InProgress then Some(|attempts| - 1) else None
  }

  /** Why a quiz cannot be started now, whatever has been sat before. */
  function Refusal(quiz: Quiz, now: int): Option<Outcome>
  {
    if !quiz.published then Some(NotFound)
    else if quiz.opensAt.Some? && quiz.opensAt.value > now then Some(NotOpenYet)
    else if quiz.closesAt.Some? && quiz.closesAt.value <= now then Some(Closed)
    else None
  }

  function Fresh(db: Db, now: int): Attempt
  {
    var number := (if db.attempts == [] then 0 else db.attempts[|db.attempts| - 1].attemptNumber) + 1;
    var limit := db.quiz.timeLimitMinutes;
    Attempt(number, InProgress, if limit.Some? && limit.value != 0 then Some(now + limit.value * MINUTE_MS) else None,
            [], None, None)
  }

  /** A new attempt, or a refusal once the allowance is used up. */
  function Begin(db: Db, now: int): (Db, Outcome)
  {
    if |db.attempts| >= db.quiz.maxAttempts then (db, NoneLeft)
    else (db.(attempts := db.attempts + [Fresh(db, now)]), Paper(|db.attempts|))
  }

  /** The place of the answer to a question, or the end. */
  function PlaceOf(answers: seq<Answer>, questionId: nat): (k: nat)
    ensures k <= |answers|
    ensures k < |answers| ==> answers[k].questionId == questionId
    ensures forall i :: 0 <= i < k ==> answers[i].questionId != questionId
  {
    if answers == [] || answers[0].questionId == questionId then 0 else 1 + PlaceOf(answers[1..], questionId)
  }

  /** The upsert: a new choice on a question answered before, or one more answer. */
  function Upsert(answers: seq<Answer>, questionId: nat, selected: nat): seq<Answer>
  {
    var k := PlaceOf(answers, questionId);
    if k < |answers| then answers[k := answers[k].(selectedIndex := selected)]
    else answers + [Answer(questionId, selected, None, None)]
  }

  /** Saving a choice on an open attempt. */
  function Save(db: Db, k: nat, questionId: nat, selected: nat): (Db, Outcome)
    requires k < |db.attempts|
  {
    var q := Find(db.quiz.questions, questionId);
    if q == None then (db, QuestionNotFound)
    else if selected >= q.value.options then (db, NoSuchOption)
    else
      var answers := Upsert(db.attempts[k].answers, questionId, selected);
      (db.(attempts := db.attempts[k := db.attempts[k].(answers := answers)]), Saved)
  }

  datatype Op =
    | ReplaceQuestions(questions: seq<Question>)
    | Publish
    | StartAttempt
    | SaveAnswer(attempt: nat, questionId: nat, selectedIndex: nat)
    | SubmitAttempt(attempt: nat)

  function Author(db: Db, op: Op): (Db, Outcome)
    requires op.ReplaceQuestions? || op.Publish?
  {
    match op
    case ReplaceQuestions(questions) =>
      if db.quiz.published then (db, Frozen) else (db.(quiz := db.quiz.(questions := questions)), Done)
    case Publish =>
      if db.quiz.questions == [] then (db, NoQuestions) else (db.(quiz := db.quiz.(published := true)), Done)
  }

  function Apply(db: Db, op: Op, now: int): (Db, Outcome)
  {
    match op
    case ReplaceQuestions(_) => Author(db, op)
    case Publish => Author(db, op)
    case StartAttempt =>
      var refusal := Refusal(db.quiz, now);
      if refusal.Some? then (db, refusal.value)
      else
        var open := Open(db.attempts);
        if open == None then Begin(db, now)
        else
          var settled := FinalizeIfExpired(db, open.value, now);
          if settled.attempts[open.value].status == InProgress then (settled, Paper(open.value))
          else Begin(settled, now)
    case SaveAnswer(k, questionId, selected) =>
      if k >= |db.attempts| then (db, NotFound)
      else
        var settled := FinalizeIfExpired(db, k, now);
        (match settled.attempts[k].status
         case Expired => (settled, TimeUp)
         case Submitted => (settled, AlreadySubmitted)
         case InProgress => Save(settled, k, questionId, selected))
    case SubmitAttempt(k) =>
      if k >= |db.attempts| then (db, NotFound)
      else
        var settled := FinalizeIfExpired(db, k, now);
        (match settled.attempts[k].status
         case Submitted => (settled, AlreadySubmitted)
         case Expired => (settled, Result(k, settled.attempts[k].score))
         case InProgress =>
           var graded := Grade(settled, k, Submitted);
           (graded, Result(k, graded.attempts[k].score)))
  }

  // ---------- the same operations with a timer ----------

  function TickAttempt(a: Attempt, questions: seq<Question>, now: int): Attempt
  {
    if Due(a, now) then Settled(a, Expired, questions) else a
  }

  function TickAttempts(attempts: seq<Attempt>, questions: seq<Question>, now: int): (r: seq<Attempt>)
    ensures |r| == |attempts|
  {
    seq(|attempts|, i requires 0 <= i < |attempts| => TickAttempt(attempts[i], questions, now))
  }

  /** A timer firing: every attempt past its deadline is settled there and then. */
  function Tick(db: Db, now: int): Db
  {
    var attempts := TickAttempts(db.attempts, db.quiz.questions, now);
    Db(db.quiz, attempts, CellOf(db.quiz, attempts))
  }

  /** The operations of a service whose timer has already fired: no operation looks at a deadline. */
  function Timed(db: Db, op: Op, now: int): (Db, Outcome)
  {
    match op
    case ReplaceQuestions(_) => Author(db, op)
    case Publish => Author(db, op)
    case StartAttempt =>
      if Refusal(db.quiz, now).Some? then (db, Refusal(db.quiz, now).value)
      else if Open(db.attempts).Some? then (db, Paper(Open(db.attempts).value))
      else Begin(db, now)
    case SaveAnswer(k, questionId, selected) =>
      if k >= |db.attempts| then (db, NotFound)
      else (match db.attempts[k].status
            case Expired => (db, TimeUp)
            case Submitted => (db, AlreadySubmitted)
            case InProgress => Save(db, k, questionId, selected))
    case SubmitAttempt(k) =>
      if k >= |db.attempts| then (db, NotFound)
      else (match db.attempts[k].status
            case Submitted => (db, AlreadySubmitted)
            case Expired => (db, Result(k, db.attempts[k].score))
            case InProgress =>
              var attempts := db.attempts[k := Settled(db.attempts[k], Submitted, db.quiz.questions)];
              (Db(db.quiz, attempts, CellOf(db.quiz, attempts)), Result(k, attempts[k].score)))
  }

  // ---------- what every run keeps ----------

  ghost predicate DistinctQuestions(questions: seq<Question>)
  {
    forall i, j :: 0 <= i < j < |questions| ==> questions[i].id != questions[j].id
  }

  /** One answer to a question, and only to questions of this quiz. */
  ghost predicate AnswersFit(answers: seq<Answer>, questions: seq<Question>)
  {
    && (forall i, j :: 0 <= i < j < |answers| ==> answers[i].questionId != answers[j].questionId)
    && (forall i :: 0 <= i < |answers| ==> Find(questions, answers[i].questionId).Some?)
  }

  /** Marked and scored exactly when settled. */
  ghost predicate Sound(a: Attempt, questions: seq<Question>)
  {
    && AnswersFit(a.answers, questions)
    && (if a.status == InProgress then a.score == None && a.maxScore == None
        else a == Settled(a, a.status, questions))
  }

  ghost predicate Orderly(attempts: seq<Attempt>)
  {
    && (forall i :: 0 <= i < |attempts| ==> attempts[i].attemptNumber == i + 1)
    && (forall i :: 0 <= i < |attempts| - 1 ==> attempts[i].status != InProgress)
  }

  ghost predicate Valid(db: Db)
  {
    && Orderly(db.attempts)
    && |db.attempts| <= db.quiz.maxAttempts
    && (db.attempts != [] ==> db.quiz.published)
    && DistinctQuestions(db.quiz.questions)
    && (forall i :: 0 <= i < |db.attempts| ==> Sound(db.attempts[i], db.quiz.questions))
    && db.cell == CellOf(db.quiz, db.attempts)
  }

  /** Question rows come from the database with ids of their own. */
  ghost predicate Accepted(op: Op)
  {
    op.ReplaceQuestions? ==> DistinctQuestions(op.questions)
  }

  lemma SettledTwice(a: Attempt, first: Status, second: Status, questions: seq<Question>)
    ensures Settled(Settled(a, first, questions), second, questions) == Settled(a, second, questions)
  {
    var once := MarkAll(a.answers, questions);
    assert MarkAll(once, questions) == once;
    assert Awards(once, questions) == Awards(a.answers, questions);
  }

  lemma SettledIsSound(a: Attempt, status: Status, questions: seq<Question>)
    requires AnswersFit(a.answers, questions) && status != InProgress
    ensures Sound(Settled(a, status, questions), questions)
  {
    SettledTwice(a, status, status, questions);
  }

  /** The best attempt carries the highest score there is. */
  lemma {:induction false} BestIsMaximum(attempts: seq<Attempt>)
    ensures Best(attempts) == None <==> forall i :: 0 <= i < |attempts| ==> attempts[i].score == None
    ensures Best(attempts).Some? ==> Best(attempts).value in attempts
    ensures forall i :: 0 <= i < |attempts| && attempts[i].score.Some? ==>
      Best(attempts).Some? && attempts[i].score.value <= Best(attempts).value.score.value
  {
    if attempts != [] {
      BestIsMaximum(attempts[..|attempts| - 1]);
      assert attempts == attempts[..|attempts| - 1] + [attempts[|attempts| - 1]];
    }
  }

  lemma OpenIsLast(attempts: seq<Attempt>, k: nat)
    requires Orderly(attempts) && k < |attempts| && attempts[k].status == InProgress
    ensures k == |attempts| - 1 && Open(attempts) == Some(k)
  {
  }

  /** Grading the open attempt keeps everything in order, the gradebook cell included. */
  lemma GradeKeepsValid(db: Db, k: nat, status: Status)
    requires Valid(db) && k < |db.attempts| && status != InProgress
    ensures Valid(Grade(db, k, status))
    ensures var attempts := db.attempts[k := Settled(db.attempts[k], status, db.quiz.questions)];
      Grade(db, k, status) == Db(db.quiz, attempts, CellOf(db.quiz, attempts))
  {
    var settled := Settled(db.attempts[k], status, db.quiz.questions);
    var attempts := db.attempts[k := settled];
    assert Sound(db.attempts[k], db.quiz.questions);
    SettledIsSound(db.attempts[k], status, db.quiz.questions);
    BestIsMaximum(attempts);
    assert attempts[k].score.Some?;
  }

  lemma UpsertFits(answers: seq<Answer>, questionId: nat, selected: nat, questions: seq<Question>)
    requires AnswersFit(answers, questions) && Find(questions, questionId).Some?
    ensures AnswersFit(Upsert(answers, questionId, selected), questions)
  {
  }

  lemma SaveKeepsValid(db: Db, k: nat, questionId: nat, selected: nat)
    requires Valid(db) && k < |db.attempts| && db.attempts[k].status == InProgress
    ensures Valid(Save(db, k, questionId, selected).0)
  {
    var after := Save(db, k, questionId, selected).0;
    if after != db {
      assert Sound(db.attempts[k], db.quiz.questions);
      UpsertFits(db.attempts[k].answers, questionId, selected, db.quiz.questions);
      SameScores(db.attempts, after.attempts);
    }
  }

  /** Attempts with the same scores put the same marks in the cell. */
  lemma {:induction false} SameScores(a: seq<Attempt>, b: seq<Attempt>)
    requires |a| == |b|
    requires forall i :: 0 <= i < |a| ==> a[i].score == b[i].score && a[i].maxScore == b[i].maxScore
    ensures Best(a).Some? <==> Best(b).Some?
    ensures AsCell(Best(a)) == AsCell(Best(b))
    ensures Best(a).Some? ==> Best(a).value.score == Best(b).value.score
  {
    if a != [] {
      SameScores(a[..|a| - 1], b[..|b| - 1]);
    }
  }

  lemma BeginKeepsValid(db: Db, now: int)
    requires Valid(db) && db.quiz.published
    requires forall i :: 0 <= i < |db.attempts| ==> db.attempts[i].status != InProgress
    ensures Valid(Begin(db, now).0)
  {
    var after := Begin(db, now).0;
    if after != db {
      assert after.attempts[..|db.attempts|] == db.attempts;
      assert Best(after.attempts) == Best(db.attempts);
    }
  }

  lemma FinalizeKeepsValid(db: Db, k: nat, now: int)
    requires Valid(db) && k < |db.attempts|
    ensures Valid(FinalizeIfExpired(db, k, now))
  {
    if Due(db.attempts[k], now) {
      GradeKeepsValid(db, k, Expired);
    }
  }

  lemma ApplyKeepsValid(db: Db, op: Op, now: int)
    requires Valid(db) && Accepted(op)
    ensures Valid(Apply(db, op, now).0)
  {
    match op
    case ReplaceQuestions(_) =>
    case Publish =>
    case StartAttempt =>
      if Refusal(db.quiz, now) == None {
        var open := Open(db.attempts);
        if open == None {
          BeginKeepsValid(db, now);
        } else {
          FinalizeKeepsValid(db, open.value, now);
          var settled := FinalizeIfExpired(db, open.value, now);
          if settled.attempts[open.value].status != InProgress {
            OpenIsLast(db.attempts, open.value);
            BeginKeepsValid(settled, now);
          }
        }
      }
    case SaveAnswer(k, questionId, selected) =>
      if k < |db.attempts| {
        FinalizeKeepsValid(db, k, now);
        var settled := FinalizeIfExpired(db, k, now);
        if settled.attempts[k].status == InProgress {
          SaveKeepsValid(settled, k, questionId, selected);
        }
      }
    case SubmitAttempt(k) =>
      if k < |db.attempts| {
        FinalizeKeepsValid(db, k, now);
        var settled := FinalizeIfExpired(db, k, now);
        if settled.attempts[k].status == InProgress {
          GradeKeepsValid(settled, k, Submitted);
        }
      }
  }

  // ---------- lazy expiry is a timer ----------

  lemma TickKeepsValid(db: Db, now: int)
    requires Valid(db)
    ensures Valid(Tick(db, now))
  {
    var after := Tick(db, now);
    forall i | 0 <= i < |after.attempts|
      ensures Sound(after.attempts[i], after.quiz.questions)
    {
      assert Sound(db.attempts[i], db.quiz.questions);
      SettledIsSound(db.attempts[i], Expired, db.quiz.questions);
    }
  }

  lemma NothingDue(db: Db, now: int)
    requires Valid(db) && forall i :: 0 <= i < |db.attempts| ==> !Due(db.attempts[i], now)
    ensures Tick(db, now) == db
  {
    assert TickAttempts(db.attempts, db.quiz.questions, now) == db.attempts;
  }

  /** Settling the open attempt on touching it is all a timer would have done. */
  lemma FinalizeIsTick(db: Db, k: nat, now: int)
    requires Valid(db) && k < |db.attempts| && db.attempts[k].status == InProgress
    ensures FinalizeIfExpired(db, k, now) == Tick(db, now)
  {
    OpenIsLast(db.attempts, k);
    var ticked := TickAttempts(db.attempts, db.quiz.questions, now);
    if Due(db.attempts[k], now) {
      GradeKeepsValid(db, k, Expired);
      assert ticked == db.attempts[k := Settled(db.attempts[k], Expired, db.quiz.questions)];
    } else {
      assert ticked == db.attempts;
    }
  }

  lemma TickTwice(db: Db, earlier: int, later: int)
    requires earlier <= later
    ensures Tick(Tick(db, earlier), later) == Tick(db, later)
  {
    var once := TickAttempts(db.attempts, db.quiz.questions, earlier);
    forall i | 0 <= i < |db.attempts|
      ensures TickAttempt(once[i], db.quiz.questions, later) == TickAttempt(db.attempts[i], db.quiz.questions, later)
    {
    }
    assert TickAttempts(once, db.quiz.questions, later) == TickAttempts(db.attempts, db.quiz.questions, later);
  }

  lemma TickedHasNoneDue(db: Db, now: int)
    requires Tick(db, now) == db
    ensures forall i :: 0 <= i < |db.attempts| ==> !Due(db.attempts[i], now)
  {
    assert TickAttempts(db.attempts, db.quiz.questions, now) == db.attempts;
    forall i | 0 <= i < |db.attempts|
      ensures !Due(db.attempts[i], now)
    {
      assert TickAttempt(db.attempts[i], db.quiz.questions, now) == db.attempts[i];
    }
  }

  lemma ApplyIsTimed(db: Db, op: Op, now: int)
    requires Valid(db) && forall i :: 0 <= i < |db.attempts| ==> !Due(db.attempts[i], now)
    ensures Apply(db, op, now) == Timed(db, op, now)
  {
    if op.SubmitAttempt? && op.attempt < |db.attempts| && db.attempts[op.attempt].status == InProgress {
      GradeKeepsValid(db, op.attempt, Submitted);
    }
  }

  lemma TimedLeavesNoneDue(db: Db, op: Op, now: int)
    requires forall i :: 0 <= i < |db.attempts| ==> !Due(db.attempts[i], now)
    ensures var after := Timed(db, op, now).0; forall i :: 0 <= i < |after.attempts| ==> !Due(after.attempts[i], now)
  {
  }

  /** Once the timer has fired, both services do the same and leave nothing due. */
  lemma TimedLeavesNothingDue(db: Db, op: Op, now: int)
    requires Valid(db) && Accepted(op) && Tick(db, now) == db
    ensures var after := Timed(db, op, now).0;
      Apply(db, op, now) == Timed(db, op, now) && Valid(after) && Tick(after, now) == after
  {
    TickedHasNoneDue(db, now);
    ApplyIsTimed(db, op, now);
    ApplyKeepsValid(db, op, now);
    TimedLeavesNoneDue(db, op, now);
    NothingDue(Timed(db, op, now).0, now);
  }

  /**
   * Whether or not the timer fires first, an operation answers the same and comes to the same once what
   * is due is settled.
   */
  lemma ApplyOnTicked(db: Db, op: Op, now: int)
    requires Valid(db) && Accepted(op)
    ensures Apply(db, op, now).1 == Apply(Tick(db, now), op, now).1
    ensures Tick(Apply(db, op, now).0, now) == Tick(Apply(Tick(db, now), op, now).0, now)
  {
    var ticked := Tick(db, now);
    TickKeepsValid(db, now);
    TickTwice(db, now, now);
    if k :| 0 <= k < |db.attempts| && db.attempts[k].status == InProgress {
      OpenIsLast(db.attempts, k);
      FinalizeIsTick(db, k, now);
      if Due(db.attempts[k], now) {
        AfterTheDeadline(db, k, op, now);
      } else {
        assert ticked == db;
      }
    } else {
      NothingDue(db, now);
    }
  }

  lemma NoneOpen(attempts: seq<Attempt>)
    requires forall i :: 0 <= i < |attempts| ==> attempts[i].status != InProgress
    ensures Open(attempts) == None
  {
  }

  lemma StartAfterTheDeadline(db: Db, k: nat, now: int)
    requires Valid(db) && k == |db.attempts| - 1 && Due(db.attempts[k], now)
    requires Tick(db, now) == FinalizeIfExpired(db, k, now)
    ensures Apply(db, StartAttempt, now).1 == Apply(Tick(db, now), StartAttempt, now).1
    ensures Tick(Apply(db, StartAttempt, now).0, now) == Tick(Apply(Tick(db, now), StartAttempt, now).0, now)
  {
    OpenIsLast(db.attempts, k);
    TickTwice(db, now, now);
    NoneOpen(Tick(db, now).attempts);
  }

  /** Whichever attempt is touched, settling it first leaves the ticked table. */
  lemma TouchAfterTheDeadline(db: Db, k: nat, j: nat, now: int)
    requires Valid(db) && k == |db.attempts| - 1 && Due(db.attempts[k], now) && j < |db.attempts|
    requires Tick(db, now) == FinalizeIfExpired(db, k, now)
    ensures var ticked := Tick(db, now);
      && ticked.attempts[j].status != InProgress && FinalizeIfExpired(ticked, j, now) == ticked
      && FinalizeIfExpired(db, j, now).attempts[j] == ticked.attempts[j]
      && (FinalizeIfExpired(db, j, now) == ticked || FinalizeIfExpired(db, j, now) == db)
  {
  }

  lemma AfterTheDeadline(db: Db, k: nat, op: Op, now: int)
    requires Valid(db) && Accepted(op) && k == |db.attempts| - 1 && Due(db.attempts[k], now)
    requires Tick(db, now) == FinalizeIfExpired(db, k, now)
    ensures Apply(db, op, now).1 == Apply(Tick(db, now), op, now).1
    ensures Tick(Apply(db, op, now).0, now) == Tick(Apply(Tick(db, now), op, now).0, now)
  {
    TickTwice(db, now, now);
    match op
    case ReplaceQuestions(_) =>
    case Publish =>
    case StartAttempt => StartAfterTheDeadline(db, k, now);
    case SaveAnswer(j, questionId, selected) =>
      if j < |db.attempts| {
        TouchAfterTheDeadline(db, k, j, now);
      }
    case SubmitAttempt(j) =>
      if j < |db.attempts| {
        TouchAfterTheDeadline(db, k, j, now);
      }
  }

  function Run(db: Db, ops: seq<(Op, int)>): (Db, seq<Outcome>)
    decreases |ops|
  {
    if ops == [] then (db, [])
    else
      var (next, outcome) := Apply(db, ops[0].0, ops[0].1);
      var (last, outcomes) := Run(next, ops[1..]);
      (last, [outcome] + outcomes)
  }

  /** The run of a service with a timer: before each operation, everything past its deadline has been settled. */
  function TimedRun(db: Db, ops: seq<(Op, int)>): (Db, seq<Outcome>)
    decreases |ops|
  {
    if ops == [] then (db, [])
    else
      var (next, outcome) := Timed(Tick(db, ops[0].1), ops[0].0, ops[0].1);
      var (last, outcomes) := TimedRun(next, ops[1..]);
      (last, [outcome] + outcomes)
  }

  /** Times never go back, from `start` to `end`, and question rows have ids of their own. */
  ghost predicate Ordered(ops: seq<(Op, int)>, start: int, end: int)
    decreases |ops|
  {
    if ops == [] then start <= end
    else start <= ops[0].1 && Accepted(ops[0].0) && Ordered(ops[1..], ops[0].1, end)
  }

  lemma {:induction false} OrderedBounds(ops: seq<(Op, int)>, start: int, end: int)
    requires Ordered(ops, start, end)
    ensures start <= end
    decreases |ops|
  {
    if ops != [] {
      OrderedBounds(ops[1..], ops[0].1, end);
    }
  }

  /**
   * Deciding expiry on touch is a timer to everyone who acts: the same answers to the same operations,
   * and at any later moment the same attempts and gradebook once what is due has been settled. Who only
   * reads the table, without settling anything, is the subject of `ReadersSeeTheTimerExactly`.
   */
  lemma {:induction false} LazyExpiryIsATimer(db: Db, timed: Db, ops: seq<(Op, int)>, start: int, end: int)
    requires Valid(db) && Valid(timed) && Ordered(ops, start, end)
    requires Tick(db, start) == Tick(timed, start)
    ensures Run(db, ops).1 == TimedRun(timed, ops).1
    ensures Valid(Run(db, ops).0) && Tick(Run(db, ops).0, end) == Tick(TimedRun(timed, ops).0, end)
    decreases |ops|
  {
    if ops == [] {
      TickTwice(db, start, end);
      TickTwice(timed, start, end);
    } else {
      var (op, now) := ops[0];
      TickTwice(db, start, now);
      TickTwice(timed, start, now);
      var ticked := Tick(timed, now);
      assert Tick(db, now) == ticked;
      TickKeepsValid(timed, now);
      TickTwice(timed, now, now);
      ApplyOnTicked(db, op, now);
      TimedLeavesNothingDue(ticked, op, now);
      ApplyKeepsValid(db, op, now);
      LazyExpiryIsATimer(Apply(db, op, now).0, Timed(ticked, op, now).0, ops[1..], now, end);
    }
  }

  /**
   * The results, the gradebook and the marked papers are read as they stand: a timer's tables, exactly
   * while nothing is due.
   */
  lemma ReadersSeeTheTimerExactly(db: Db, timed: Db, ops: seq<(Op, int)>, start: int, end: int)
    requires Valid(db) && Valid(timed) && Ordered(ops, start, end)
    requires Tick(db, start) == Tick(timed, start)
    ensures Run(db, ops).0 == Tick(TimedRun(timed, ops).0, end) <==>
      forall i :: 0 <= i < |Run(db, ops).0.attempts| ==> !Due(Run(db, ops).0.attempts[i], end)
  {
    LazyExpiryIsATimer(db, timed, ops, start, end);
    var after := Run(db, ops).0;
    if Tick(after, end) == after {
      TickedHasNoneDue(after, end);
    } else if forall i :: 0 <= i < |after.attempts| ==> !Due(after.attempts[i], end) {
      NothingDue(after, end);
    }
  }

  // ---------- what happens to one attempt ----------

  /**
   * An attempt keeps its number and its deadline; settled it never changes, and it expires only past its
   * deadline and only as it is.
   */
  ghost predicate Kept(before: Attempt, after: Attempt, questions: seq<Question>, now: int)
  {
    && after.attemptNumber == before.attemptNumber && after.expiresAt == before.expiresAt
    && (before.status != InProgress ==> after == before)
    && (Due(before, now) ==> after == before || after == Settled(before, Expired, questions))
    && (before.status != Expired && !Due(before, now) ==> after.status != Expired)
  }

  /** Once there is an attempt the quiz is published, and nothing changes it. */
  lemma QuizFrozen(db: Db, op: Op, now: int)
    requires Valid(db) && db.attempts != []
    ensures Apply(db, op, now).0.quiz == db.quiz
  {
  }

  lemma FinalizeKeeps(db: Db, j: nat, now: int, k: nat)
    requires j < |db.attempts| && k < |db.attempts|
    ensures var after := FinalizeIfExpired(db, j, now);
      |after.attempts| == |db.attempts| && Kept(db.attempts[k], after.attempts[k], db.quiz.questions, now)
  {
  }

  lemma StartKeeps(db: Db, now: int, k: nat)
    requires Valid(db) && k < |db.attempts|
    ensures var after := Apply(db, StartAttempt, now).0;
      k < |after.attempts| && Kept(db.attempts[k], after.attempts[k], db.quiz.questions, now)
  {
    var open := Open(db.attempts);
    if open.Some? {
      FinalizeKeeps(db, open.value, now, k);
    }
  }

  lemma SaveKeeps(db: Db, now: int, k: nat, j: nat, questionId: nat, selected: nat)
    requires k < |db.attempts|
    ensures var after := Apply(db, SaveAnswer(j, questionId, selected), now).0;
      k < |after.attempts| && Kept(db.attempts[k], after.attempts[k], db.quiz.questions, now)
  {
  }

  lemma SubmitKeeps(db: Db, now: int, k: nat, j: nat)
    requires k < |db.attempts|
    ensures var after := Apply(db, SubmitAttempt(j), now).0;
      k < |after.attempts| && Kept(db.attempts[k], after.attempts[k], db.quiz.questions, now)
  {
  }

  lemma ApplyKeeps(db: Db, op: Op, now: int, k: nat)
    requires Valid(db) && k < |db.attempts|
    ensures var after := Apply(db, op, now).0;
      k < |after.attempts| && Kept(db.attempts[k], after.attempts[k], db.quiz.questions, now) && after.quiz == db.quiz
  {
    QuizFrozen(db, op, now);
    match op
    case ReplaceQuestions(_) =>
    case Publish =>
    case StartAttempt => StartKeeps(db, now, k);
    case SaveAnswer(j, questionId, selected) => SaveKeeps(db, now, k, j, questionId, selected);
    case SubmitAttempt(j) => SubmitKeeps(db, now, k, j);
  }

  /**
   * The deadline decides. From any moment at or after the deadline of an open attempt, whatever is
   * done and however late, the attempt is never submitted and takes no further answer: if it is
   * settled at all it has expired, with the score of exactly the answers saved before the deadline.
   */
  lemma {:induction false} DeadlineDecides(db: Db, ops: seq<(Op, int)>, start: int, end: int, k: nat)
    requires Valid(db) && Ordered(ops, start, end)
    requires k < |db.attempts| && Due(db.attempts[k], start)
    ensures var before, after := db.attempts[k], Run(db, ops).0.attempts;
      && k < |after|
      && (after[k] == before || after[k] == Settled(before, Expired, db.quiz.questions))
      && (after[k].status != InProgress ==> after[k].score == Some(Sum(Awards(before.answers, db.quiz.questions))))
    decreases |ops|
  {
    if ops != [] {
      var (op, now) := ops[0];
      var next := Apply(db, op, now).0;
      ApplyKeeps(db, op, now, k);
      ApplyKeepsValid(db, op, now);
      if next.attempts[k].status == InProgress {
        DeadlineDecides(next, ops[1..], now, end, k);
      } else {
        SettledIsFinal(next, ops[1..], now, end, k);
      }
    }
  }

  /** A settled attempt never changes again. */
  lemma {:induction false} SettledIsFinal(db: Db, ops: seq<(Op, int)>, start: int, end: int, k: nat)
    requires Valid(db) && Ordered(ops, start, end)
    requires k < |db.attempts| && db.attempts[k].status != InProgress
    ensures k < |Run(db, ops).0.attempts| && Run(db, ops).0.attempts[k] == db.attempts[k]
    decreases |ops|
  {
    if ops != [] {
      ApplyKeeps(db, ops[0].0, ops[0].1, k);
      ApplyKeepsValid(db, ops[0].0, ops[0].1);
      SettledIsFinal(Apply(db, ops[0].0, ops[0].1).0, ops[1..], ops[0].1, end, k);
    }
  }

  /** In every run: resuming an attempt, or anything else, never moves its deadline. */
  lemma {:induction false} DeadlineNeverMoves(db: Db, ops: seq<(Op, int)>, start: int, end: int, k: nat)
    requires Valid(db) && Ordered(ops, start, end) && k < |db.attempts|
    ensures k < |Run(db, ops).0.attempts|
    ensures Run(db, ops).0.attempts[k].expiresAt == db.attempts[k].expiresAt
    decreases |ops|
  {
    if ops != [] {
      ApplyKeeps(db, ops[0].0, ops[0].1, k);
      ApplyKeepsValid(db, ops[0].0, ops[0].1);
      DeadlineNeverMoves(Apply(db, ops[0].0, ops[0].1).0, ops[1..], ops[0].1, end, k);
    }
  }

  /** How many operations come before a moment: times never go back, so they come first. */
  function Before(ops: seq<(Op, int)>, moment: int): (n: nat)
    ensures n <= |ops|
    ensures n < |ops| ==> ops[n].1 >= moment
    ensures forall i :: 0 <= i < n ==> ops[i].1 < moment
  {
    if ops == [] || ops[0].1 >= moment then 0 else 1 + Before(ops[1..], moment)
  }

  lemma BeginIsNotDue(db: Db, now: int, k: nat)
    requires |db.attempts| <= k < |Begin(db, now).0.attempts|
    ensures var a := Begin(db, now).0.attempts[k];
      a.status == InProgress && (a.expiresAt.Some? ==> now < a.expiresAt.value)
  {
  }

  lemma OnlyStartingAdds(db: Db, op: Op, now: int)
    requires !op.StartAttempt?
    ensures |Apply(db, op, now).0.attempts| == |db.attempts|
  {
  }

  /** A new attempt is open and its deadline is still to come. */
  lemma NewIsNotDue(db: Db, op: Op, now: int, k: nat)
    requires |db.attempts| <= k < |Apply(db, op, now).0.attempts|
    ensures var a := Apply(db, op, now).0.attempts[k];
      a.status == InProgress && (a.expiresAt.Some? ==> now < a.expiresAt.value)
  {
    if op.StartAttempt? {
      var open := Open(db.attempts);
      BeginIsNotDue(if open == None then db else FinalizeIfExpired(db, open.value, now), now, k);
    } else {
      OnlyStartingAdds(db, op, now);
    }
  }

  /** The attempt of `after` is the open one of `held`, expired and marked as it stood there. */
  ghost predicate ExpiredFrom(held: Db, after: Db, k: nat)
  {
    && k < |held.attempts| && k < |after.attempts|
    && held.attempts[k].status == InProgress
    && after.attempts[k] == Settled(held.attempts[k], Expired, held.quiz.questions)
  }

  lemma FirstOp(db: Db, ops: seq<(Op, int)>, n: nat)
    requires n < |ops|
    ensures var next := Apply(db, ops[0].0, ops[0].1).0;
      Run(db, ops).0 == Run(next, ops[1..]).0 && Run(db, ops[..n + 1]).0 == Run(next, ops[1..][..n]).0
  {
    assert ops[..n + 1][1..] == ops[1..][..n];
  }

  /**
   * Over a whole run, an attempt that ends expired, and was not so to begin with, is the attempt as the
   * operations before its deadline had left it, marked; and some operation came at or after the deadline.
   */
  lemma {:induction false} ExpiredIsAsOfTheDeadline(db: Db, ops: seq<(Op, int)>, start: int, end: int, k: nat)
    requires Valid(db) && Ordered(ops, start, end)
    requires k < |Run(db, ops).0.attempts| && Run(db, ops).0.attempts[k].status == Expired
    requires k < |db.attempts| ==> db.attempts[k].status != Expired
    ensures var after := Run(db, ops).0;
      && after.attempts[k].expiresAt.Some?
      && var deadline := after.attempts[k].expiresAt.value;
         var n := Before(ops, deadline);
         n < |ops| && ExpiredFrom(Run(db, ops[..n]).0, after, k) && (k >= |db.attempts| ==> start < deadline)
    decreases |ops|
  {
    if k < |db.attempts| && db.attempts[k].status == Submitted {
      SettledIsFinal(db, ops, start, end, k);
    } else if ops != [] {
      var (op, now) := ops[0];
      var next, rest := Apply(db, op, now).0, ops[1..];
      FirstOp(db, ops, 0);
      if k < |db.attempts| && Due(db.attempts[k], now) {
        DeadlineDecides(db, ops, now, end, k);
        assert ops[..0] == [];
      } else {
        ApplyKeepsValid(db, op, now);
        if k < |db.attempts| {
          ApplyKeeps(db, op, now, k);
        } else if k < |next.attempts| {
          NewIsNotDue(db, op, now, k);
        }
        ExpiredIsAsOfTheDeadline(next, rest, now, end, k);
        if k < |next.attempts| {
          DeadlineNeverMoves(next, rest, now, end, k);
        }
        FirstOp(db, ops, Before(rest, Run(db, ops).0.attempts[k].expiresAt.value));
      }
    }
  }

  // ---------- scores ----------

  function FindAnswer(answers: seq<Answer>, questionId: nat): (a: Option<Answer>)
  {
    if answers == [] then None
    else if answers[|answers| - 1].questionId == questionId then Some(answers[|answers| - 1])
    else FindAnswer(answers[..|answers| - 1], questionId)
  }

  /** A question of the marked paper: the key, the choice, and what it earned. */
  datatype ShownQuestion = ShownQuestion(id: nat, options: nat, marks: nat, correctIndex: nat,
                                         selectedIndex: Option<nat>, isCorrect: bool, marksAwarded: int)

  function ShownOf(answer: Option<Answer>, q: Question): ShownQuestion
  {
    ShownQuestion(q.id, q.options, q.marks, q.correctIndex,
                  if answer.Some? then Some(answer.value.selectedIndex) else None,
                  answer.Some? && answer.value.isCorrect == Some(true),
                  if answer.Some? && answer.value.marksAwarded.Some? then answer.value.marksAwarded.value else 0)
  }

  function MarkedPaper(a: Attempt, questions: seq<Question>): (r: seq<ShownQuestion>)
    ensures |r| == |questions|
  {
    seq(|questions|, i requires 0 <= i < |questions| => ShownOf(FindAnswer(a.answers, questions[i].id), questions[i]))
  }

  /** The marks the marked paper shows for each question. */
  function ShownMarks(a: Attempt, questions: seq<Question>): (r: seq<int>)
    ensures |r| == |questions|
  {
    seq(|questions|, i requires 0 <= i < |questions| => MarkedPaper(a, questions)[i].marksAwarded)
  }

  /** What the answers earn, question by question. */
  function Earned(answers: seq<Answer>, questions: seq<Question>): (r: seq<int>)
    ensures |r| == |questions|
  {
    seq(|questions|, i requires 0 <= i < |questions| =>
      var answer := FindAnswer(answers, questions[i].id);
      if answer.Some? then Award(answer.value, questions) else 0)
  }

  lemma {:induction false} FindAnswerMeans(answers: seq<Answer>, questionId: nat)
    ensures FindAnswer(answers, questionId) == None
       <==> forall i :: 0 <= i < |answers| ==> answers[i].questionId != questionId
    ensures FindAnswer(answers, questionId).Some? ==>
      FindAnswer(answers, questionId).value in answers && FindAnswer(answers, questionId).value.questionId == questionId
  {
    if answers != [] {
      FindAnswerMeans(answers[..|answers| - 1], questionId);
    }
  }

  /** Adding up by answer and adding up by question give the same total. */
  lemma {:induction false} ByAnswerIsByQuestion(answers: seq<Answer>, questions: seq<Question>)
    requires AnswersFit(answers, questions) && DistinctQuestions(questions)
    ensures Sum(Awards(answers, questions)) == Sum(Earned(answers, questions))
  {
    if answers == [] {
      Zeros(Earned(answers, questions));
    } else {
      var n := |answers| - 1;
      var last, earlier := answers[n], answers[..n];
      ByAnswerIsByQuestion(earlier, questions);
      Append(Awards(earlier, questions), Award(last, questions));
      assert Awards(answers, questions) == Awards(earlier, questions) + [Award(last, questions)];
      var q := Find(questions, last.questionId).value;
      var j :| 0 <= j < |questions| && questions[j] == q;
      FindAnswerMeans(earlier, q.id);
      assert Earned(earlier, questions)[j] == 0;
      Update(Earned(earlier, questions), j, Award(last, questions));
      assert Earned(answers, questions) == Earned(earlier, questions)[j := Award(last, questions)];
    }
  }

  lemma {:induction false} FindIsTheQuestion(questions: seq<Question>, i: nat)
    requires DistinctQuestions(questions) && i < |questions|
    ensures Find(questions, questions[i].id) == Some(questions[i])
  {
    if i < |questions| - 1 {
      FindIsTheQuestion(questions[..|questions| - 1], i);
    }
  }

  lemma EarnedWithinMarks(answers: seq<Answer>, questions: seq<Question>)
    requires DistinctQuestions(questions)
    ensures 0 <= Sum(Earned(answers, questions)) <= TotalMarks(questions)
  {
    forall i | 0 <= i < |questions|
      ensures 0 <= Earned(answers, questions)[i] <= Marks(questions)[i]
    {
      FindAnswerMeans(answers, questions[i].id);
      FindIsTheQuestion(questions, i);
    }
    Monotone(Earned(answers, questions), Marks(questions));
    var zeros := seq(|questions|, _ => 0);
    Zeros(zeros);
    Monotone(zeros, Earned(answers, questions));
  }

  /**
   * In every run, a settled attempt's score is the sum of the marks its marked paper shows, between
   * 0 and the full marks of the paper, which is also its maximum.
   */
  lemma ScoreIsWhatThePaperShows(db: Db, ops: seq<(Op, int)>, start: int, end: int, k: nat)
    requires Valid(db) && Ordered(ops, start, end)
    ensures var after := Run(db, ops).0;
      k < |after.attempts| && after.attempts[k].status != InProgress ==>
        var a, questions := after.attempts[k], after.quiz.questions;
        && a.score == Some(Sum(ShownMarks(a, questions)))
        && a.maxScore == Some(TotalMarks(questions))
        && 0 <= a.score.value <= a.maxScore.value
  {
    RunKeepsValid(db, ops, start, end);
    var after := Run(db, ops).0;
    if k < |after.attempts| && after.attempts[k].status != InProgress {
      var a, questions := after.attempts[k], after.quiz.questions;
      assert Sound(a, questions);
      ByAnswerIsByQuestion(a.answers, questions);
      EarnedWithinMarks(a.answers, questions);
      forall i | 0 <= i < |questions|
        ensures ShownMarks(a, questions)[i] == Earned(a.answers, questions)[i]
      {
        FindAnswerMeans(a.answers, questions[i].id);
        assert MarkAll(a.answers, questions) == a.answers;
      }
      assert ShownMarks(a, questions) == Earned(a.answers, questions);
    }
  }

  /**
   * On the marked paper of a settled attempt, a question is shown correct exactly when the choice saved
   * for it is the key's, and earns its full marks then and nothing otherwise.
   */
  lemma PaperIsMarkedByTheKey(db: Db, ops: seq<(Op, int)>, start: int, end: int, k: nat)
    requires Valid(db) && Ordered(ops, start, end)
    ensures var after := Run(db, ops).0;
      k < |after.attempts| && after.attempts[k].status != InProgress ==>
        forall i :: 0 <= i < |after.quiz.questions| ==>
          var shown := MarkedPaper(after.attempts[k], after.quiz.questions)[i];
          && shown.id == after.quiz.questions[i].id
          && (shown.isCorrect <==> shown.selectedIndex == Some(shown.correctIndex))
          && shown.marksAwarded == if shown.isCorrect then shown.marks else 0
  {
    RunKeepsValid(db, ops, start, end);
    var after := Run(db, ops).0;
    if k < |after.attempts| && after.attempts[k].status != InProgress {
      var a, questions := after.attempts[k], after.quiz.questions;
      assert Sound(a, questions);
      forall i | 0 <= i < |questions|
        ensures var shown := MarkedPaper(a, questions)[i];
          && (shown.isCorrect <==> shown.selectedIndex == Some(shown.correctIndex))
          && shown.marksAwarded == if shown.isCorrect then shown.marks else 0
      {
        FindAnswerMeans(a.answers, questions[i].id);
        FindIsTheQuestion(questions, i);
        assert MarkAll(a.answers, questions) == a.answers;
      }
    }
  }

  lemma {:induction false} RunKeepsValid(db: Db, ops: seq<(Op, int)>, start: int, end: int)
    requires Valid(db) && Ordered(ops, start, end)
    ensures Valid(Run(db, ops).0)
    decreases |ops|
  {
    if ops != [] {
      ApplyKeepsValid(db, ops[0].0, ops[0].1);
      RunKeepsValid(Apply(db, ops[0].0, ops[0].1).0, ops[1..], ops[0].1, end);
    }
  }

  // ---------- the gradebook ----------

  /** The highest score over the settled attempts. */
  ghost predicate IsBestScore(attempts: seq<Attempt>, score: int)
  {
    && (exists i :: 0 <= i < |attempts| && attempts[i].status != InProgress && attempts[i].score == Some(score))
    && (forall i :: 0 <= i < |attempts| && attempts[i].status != InProgress && attempts[i].score.Some? ==>
          attempts[i].score.value <= score)
  }

  /** In a valid table the best attempt carries the highest score over the settled attempts. */
  lemma BestIsTheScore(db: Db)
    requires Valid(db)
    ensures var best := Best(db.attempts);
      && (best.Some? ==> IsBestScore(db.attempts, best.value.score.value))
      && (best == None <==> forall i :: 0 <= i < |db.attempts| ==> db.attempts[i].status == InProgress)
  {
    BestIsMaximum(db.attempts);
    assert forall i :: 0 <= i < |db.attempts| ==> Sound(db.attempts[i], db.quiz.questions);
    var best := Best(db.attempts);
    if best.Some? {
      var i :| 0 <= i < |db.attempts| && db.attempts[i] == best.value;
    }
  }

  /** The cell holds the best score over the full marks, and is empty exactly while nothing is settled. */
  lemma CellIsBestScore(db: Db)
    requires Valid(db) && db.quiz.inGradebook
    ensures db.cell == None <==> forall i :: 0 <= i < |db.attempts| ==> db.attempts[i].status == InProgress
    ensures db.cell.Some? ==>
      IsBestScore(db.attempts, db.cell.value.marksObtained) && db.cell.value.maxMarks == TotalMarks(db.quiz.questions)
  {
    BestIsTheScore(db);
    if db.cell.Some? {
      BestIsMaximum(db.attempts);
      var i :| 0 <= i < |db.attempts| && db.attempts[i] == Best(db.attempts).value;
      assert Sound(db.attempts[i], db.quiz.questions);
    }
  }

  /** Keeping every score there was never lowers the best. */
  lemma BestNeverLowers(before: seq<Attempt>, after: seq<Attempt>)
    requires |before| <= |after|
    requires forall i :: 0 <= i < |before| && before[i].score.Some? ==> after[i].score == before[i].score
    ensures Best(before).Some? ==>
      Best(after).Some? && Best(before).value.score.value <= Best(after).value.score.value
  {
    BestIsMaximum(before);
    BestIsMaximum(after);
    if Best(before).Some? {
      var i :| 0 <= i < |before| && before[i] == Best(before).value;
      assert after[i].score == before[i].score;
    }
  }

  lemma ApplyNeverLowersCell(db: Db, op: Op, now: int)
    requires Valid(db) && Accepted(op) && db.quiz.inGradebook
    ensures var after := Apply(db, op, now).0;
      after.quiz.inGradebook &&
      (db.cell.Some? ==> after.cell.Some? && db.cell.value.marksObtained <= after.cell.value.marksObtained)
  {
    var after := Apply(db, op, now).0;
    ApplyKeepsValid(db, op, now);
    if db.cell.Some? {
      KeepsScores(db, op, now);
      BestNeverLowers(db.attempts, after.attempts);
    }
  }

  lemma KeepsScores(db: Db, op: Op, now: int)
    requires Valid(db) && db.attempts != []
    ensures var after := Apply(db, op, now).0;
      && after.quiz == db.quiz && |db.attempts| <= |after.attempts|
      && forall i :: 0 <= i < |db.attempts| && db.attempts[i].score.Some? ==>
         after.attempts[i].score == db.attempts[i].score
  {
    ApplyKeeps(db, op, now, 0);
    forall i | 0 <= i < |db.attempts| && db.attempts[i].score.Some?
      ensures i < |Apply(db, op, now).0.attempts| && Apply(db, op, now).0.attempts[i].score == db.attempts[i].score
    {
      assert Sound(db.attempts[i], db.quiz.questions);
      ApplyKeeps(db, op, now, i);
    }
    if |db.attempts| > 0 {
      ApplyKeeps(db, op, now, |db.attempts| - 1);
    }
  }

  /** A retake never lowers a mark: over a run the gradebook cell never decreases. */
  lemma {:induction false} GradebookNeverLowers(db: Db, ops: seq<(Op, int)>, start: int, end: int)
    requires Valid(db) && Ordered(ops, start, end) && db.quiz.inGradebook
    ensures var after := Run(db, ops).0;
      && Valid(after) && after.quiz.inGradebook
      && (db.cell.Some? ==> after.cell.Some? && db.cell.value.marksObtained <= after.cell.value.marksObtained)
    decreases |ops|
  {
    if ops != [] {
      var next := Apply(db, ops[0].0, ops[0].1).0;
      ApplyKeepsValid(db, ops[0].0, ops[0].1);
      ApplyNeverLowersCell(db, ops[0].0, ops[0].1);
      GradebookNeverLowers(next, ops[1..], ops[0].1, end);
    }
  }
}
