/**
 * What each quiz operation does and answers (apps/api/src/quizzes/quizzes.service.ts), said of the rows
 * before and after alone, and what follows for the choices and the scores over a whole run.
 */
module QuizEffects {
  import opened Quizzes
  import opened Sums
  import opened Wrappers

  /** The attempt holds this choice for this question. */
  ghost predicate Holds(a: Attempt, questionId: nat, selected: nat)
  {
    exists j :: 0 <= j < |a.answers| && a.answers[j].questionId == questionId && a.answers[j].selectedIndex == selected
  }

  /** The same choices, number and deadline, whatever has become of status and marks. */
  ghost predicate SamePaper(a: Attempt, b: Attempt)
  {
    && a.attemptNumber == b.attemptNumber && a.expiresAt == b.expiresAt && |a.answers| == |b.answers|
    && forall j :: 0 <= j < |a.answers| ==>
         a.answers[j].questionId == b.answers[j].questionId && a.answers[j].selectedIndex == b.answers[j].selectedIndex
  }

  /** Open, and its time is not up. */
  predicate StillOpen(a: Attempt, now: int)
  {
    a.status == InProgress && (a.expiresAt == None || now < a.expiresAt.value)
  }

  /** What settling does to one attempt: the choices stay, the other attempts too. */
  ghost predicate OnlySettles(before: Db, after: Db, k: nat, status: Status)
    requires k < |before.attempts|
  {
    && after.quiz == before.quiz && |after.attempts| == |before.attempts|
    && (forall i :: 0 <= i < |before.attempts| && i != k ==> after.attempts[i] == before.attempts[i])
    && after.attempts[k].status == status && SamePaper(before.attempts[k], after.attempts[k])
    && after.attempts[k].score.Some?
  }

  lemma GradeSettles(db: Db, k: nat, status: Status)
    requires k < |db.attempts|
    ensures OnlySettles(db, Grade(db, k, status), k, status)
  {
  }

  // ---------- authoring ----------

  /** Questions are replaced in a draft and never in a published quiz; only a quiz with questions is published. */
  lemma AuthoringDoes(db: Db, questions: seq<Question>, now: int)
    ensures var (replaced, first) := Apply(db, ReplaceQuestions(questions), now);
      && (db.quiz.published ==> first == Frozen && replaced == db)
      && (!db.quiz.published ==> first == Done && replaced.quiz.questions == questions && !replaced.quiz.published)
      && replaced.attempts == db.attempts && replaced.cell == db.cell
    ensures var (out, second) := Apply(db, Publish, now);
      && (db.quiz.questions == [] ==> second == NoQuestions && out == db)
      && (db.quiz.questions != [] ==> second == Done && out.quiz.published && out.quiz.questions == db.quiz.questions)
      && out.attempts == db.attempts && out.cell == db.cell
  {
  }

  // ---------- starting ----------

  /** Published, opened and not closed. */
  predicate Admitted(quiz: Quiz, now: int)
  {
    && quiz.published
    && (quiz.opensAt.Some? ==> quiz.opensAt.value <= now)
    && (quiz.closesAt.Some? ==> now < quiz.closesAt.value)
  }

  lemma StartRefused(db: Db, now: int)
    ensures var quiz, (after, outcome) := db.quiz, Apply(db, StartAttempt, now);
      && (outcome == NotFound <==> !quiz.published)
      && (outcome == NotOpenYet <==> quiz.published && quiz.opensAt.Some? && now < quiz.opensAt.value)
      && (outcome == Outcome.Closed <==>
            quiz.published && (quiz.opensAt.Some? ==> quiz.opensAt.value <= now)
            && quiz.closesAt.Some? && quiz.closesAt.value <= now)
      && (!Admitted(quiz, now) ==> after == db)
  {
  }

  /** An open attempt whose time is not up is handed back, and nothing changes. */
  lemma StartResumes(db: Db, now: int)
    requires Valid(db) && Admitted(db.quiz, now)
    requires db.attempts != [] && StillOpen(db.attempts[|db.attempts| - 1], now)
    ensures Apply(db, StartAttempt, now) == (db, Paper(|db.attempts| - 1))
  {
    OpenIsLast(db.attempts, |db.attempts| - 1);
  }

  /** One minute is 60,000 milliseconds; no limit and a limit of zero are no deadline. */
  function DeadlineFrom(quiz: Quiz, now: int): Option<int>
  {
    if quiz.timeLimitMinutes.Some? && quiz.timeLimitMinutes.value > 0
    then Some(now + quiz.timeLimitMinutes.value * 60_000) else None
  }

  /** The next attempt is opened, or refused once the allowance is used; the others stay. */
  ghost predicate OpensNext(before: Db, after: Db, outcome: Outcome, now: int)
  {
    var n := |before.attempts|;
    && after.quiz == before.quiz
    && (outcome == NoneLeft <==> n >= before.quiz.maxAttempts)
    && (n >= before.quiz.maxAttempts ==> after.attempts == before.attempts)
    && (n < before.quiz.maxAttempts ==>
          && outcome == Paper(n)
          && after.attempts ==
             before.attempts + [Attempt(n + 1, InProgress, DeadlineFrom(before.quiz, now), [], None, None)])
  }

  lemma BeginOpens(db: Db, now: int)
    requires Orderly(db.attempts)
    ensures OpensNext(db, Begin(db, now).0, Begin(db, now).1, now)
  {
  }

  /**
   * With none to hand back, the next attempt is opened or refused; an attempt found past its deadline is
   * settled as expired first.
   */
  lemma StartOpens(db: Db, now: int)
    requires Valid(db) && Admitted(db.quiz, now)
    requires db.attempts != [] ==> !StillOpen(db.attempts[|db.attempts| - 1], now)
    ensures var (after, outcome), n := Apply(db, StartAttempt, now), |db.attempts|;
      if n > 0 && db.attempts[n - 1].status == InProgress then
        exists settled :: OnlySettles(db, settled, n - 1, Expired) && OpensNext(settled, after, outcome, now)
      else OpensNext(db, after, outcome, now)
  {
    var n := |db.attempts|;
    if n > 0 && db.attempts[n - 1].status == InProgress {
      GradeSettles(db, n - 1, Expired);
      StartAfterSettling(db, now);
      GradeKeepsValid(db, n - 1, Expired);
      BeginOpens(Grade(db, n - 1, Expired), now);
    } else {
      NoneOpen(db.attempts);
      BeginOpens(db, now);
    }
  }

  lemma StartAfterSettling(db: Db, now: int)
    requires Valid(db) && Admitted(db.quiz, now) && db.attempts != []
    requires Due(db.attempts[|db.attempts| - 1], now)
    ensures Apply(db, StartAttempt, now) == Begin(Grade(db, |db.attempts| - 1, Expired), now)
  {
    OpenIsLast(db.attempts, |db.attempts| - 1);
    GradeSettles(db, |db.attempts| - 1, Expired);
  }

  // ---------- saving ----------

  /** When an answer is refused, and for which reason. */
  lemma SaveRefused(db: Db, k: nat, questionId: nat, selected: nat, now: int)
    requires Valid(db)
    ensures var (after, outcome), questions := Apply(db, SaveAnswer(k, questionId, selected), now), db.quiz.questions;
      && (outcome == NotFound <==> k >= |db.attempts|)
      && (outcome == AlreadySubmitted <==> k < |db.attempts| && db.attempts[k].status == Submitted)
      && (outcome == TimeUp <==>
            k < |db.attempts| && db.attempts[k].status != Submitted && !StillOpen(db.attempts[k], now))
      && (k < |db.attempts| && StillOpen(db.attempts[k], now) ==>
            && (outcome == QuestionNotFound <==> forall i :: 0 <= i < |questions| ==> questions[i].id != questionId)
            && (outcome == NoSuchOption <==>
                  exists i :: 0 <= i < |questions| && questions[i].id == questionId && questions[i].options <= selected)
            && (outcome == Saved <==>
                  exists i :: 0 <= i < |questions| && questions[i].id == questionId && selected < questions[i].options))
      && (outcome == Saved ==> k < |db.attempts| && StillOpen(db.attempts[k], now))
      && (outcome != Saved && outcome != TimeUp ==> after == db)
      && (outcome == TimeUp && db.attempts[k].status == Expired ==> after == db)
  {
    forall i | 0 <= i < |db.quiz.questions| && db.quiz.questions[i].id == questionId
      ensures Find(db.quiz.questions, questionId) == Some(db.quiz.questions[i])
    {
      FindIsTheQuestion(db.quiz.questions, i);
    }
  }

  /** An answer that comes too late settles the attempt as expired and changes nothing else. */
  lemma LateSaveSettles(db: Db, k: nat, questionId: nat, selected: nat, now: int)
    requires k < |db.attempts| && db.attempts[k].status == InProgress && !StillOpen(db.attempts[k], now)
    ensures OnlySettles(db, Apply(db, SaveAnswer(k, questionId, selected), now).0, k, Expired)
  {
    GradeSettles(db, k, Expired);
  }

  lemma SavedRow(answers: seq<Answer>, questionId: nat, selected: nat, questions: seq<Question>)
    requires AnswersFit(answers, questions)
    ensures var after := Upsert(answers, questionId, selected);
      && (exists j :: 0 <= j < |after| && after[j].questionId == questionId && after[j].selectedIndex == selected)
      && (forall j :: 0 <= j < |after| && after[j].questionId == questionId ==> after[j].selectedIndex == selected)
      && |answers| <= |after|
      && (forall j :: 0 <= j < |answers| && answers[j].questionId != questionId ==> after[j] == answers[j])
      && (forall j :: 0 <= j < |after| && after[j].questionId != questionId ==> j < |answers| && after[j] == answers[j])
  {
    var after, k := Upsert(answers, questionId, selected), PlaceOf(answers, questionId);
    assert after[k].questionId == questionId && after[k].selectedIndex == selected;
  }

  /**
   * An answer saved is the choice the attempt holds for that question, and the only one; its choices for
   * every other question, every other attempt and the quiz are as they were.
   */
  lemma SavedIsHeld(db: Db, k: nat, questionId: nat, selected: nat, now: int)
    requires Valid(db) && Apply(db, SaveAnswer(k, questionId, selected), now).1 == Saved
    ensures var after := Apply(db, SaveAnswer(k, questionId, selected), now).0;
      && after.quiz == db.quiz && |after.attempts| == |db.attempts| && k < |db.attempts|
      && (forall i :: 0 <= i < |db.attempts| && i != k ==> after.attempts[i] == db.attempts[i])
      && after.attempts[k].(answers := db.attempts[k].answers) == db.attempts[k]
      && (forall s :: Holds(after.attempts[k], questionId, s) <==> s == selected)
      && (forall q, s :: q != questionId ==> (Holds(after.attempts[k], q, s) <==> Holds(db.attempts[k], q, s)))
  {
    var before, after := db.attempts[k], Apply(db, SaveAnswer(k, questionId, selected), now).0.attempts[k];
    assert Sound(before, db.quiz.questions);
    SavedRow(before.answers, questionId, selected, db.quiz.questions);
    assert after.answers == Upsert(before.answers, questionId, selected);
    assert Holds(after, questionId, selected);
    forall q, s | q != questionId
      ensures Holds(after, q, s) <==> Holds(before, q, s)
    {
      if j :| 0 <= j < |before.answers| && before.answers[j].questionId == q && before.answers[j].selectedIndex == s {
        assert after.answers[j] == before.answers[j];
      }
    }
  }

  // ---------- submitting ----------

  /**
   * Submitting an open attempt in time settles it as submitted; too late, as expired; one settled already
   * is refused or shown again. The answer carries the score the attempt then has.
   */
  lemma SubmitDoes(db: Db, k: nat, now: int)
    ensures var (after, outcome) := Apply(db, SubmitAttempt(k), now);
      && (outcome == NotFound <==> k >= |db.attempts|)
      && (outcome == AlreadySubmitted <==> k < |db.attempts| && db.attempts[k].status == Submitted)
      && (k >= |db.attempts| || db.attempts[k].status != InProgress ==> after == db)
      && (k < |db.attempts| && db.attempts[k].status == InProgress ==>
            OnlySettles(db, after, k, if StillOpen(db.attempts[k], now) then Submitted else Expired))
      && (k < |db.attempts| && db.attempts[k].status != Submitted ==>
            |after.attempts| == |db.attempts| && outcome == Result(k, after.attempts[k].score))
  {
    if k < |db.attempts| && db.attempts[k].status == InProgress {
      GradeSettles(db, k, Submitted);
      GradeSettles(db, k, Expired);
    }
  }

  // ---------- the choices over a whole run ----------

  lemma SamePaperHolds(a: Attempt, b: Attempt, q: nat, s: nat)
    requires SamePaper(a, b)
    ensures Holds(a, q, s) <==> Holds(b, q, s)
  {
  }

  /** An operation that saves a choice for this question of this attempt. */
  predicate Chooses(db: Db, op: Op, now: int, k: nat, q: nat)
  {
    op.SaveAnswer? && op.attempt == k && op.questionId == q && Apply(db, op, now).1 == Saved
  }

  lemma SettlingKeepsChoices(before: Db, after: Db, j: nat, status: Status, k: nat, q: nat, s: nat)
    requires j < |before.attempts| && OnlySettles(before, after, j, status)
    ensures k < |after.attempts| && Holds(after.attempts[k], q, s)
       <==> k < |before.attempts| && Holds(before.attempts[k], q, s)
  {
    if k == j {
      SamePaperHolds(before.attempts[k], after.attempts[k], q, s);
    }
  }

  lemma StartKeepsChoices(db: Db, now: int, k: nat, q: nat, s: nat)
    requires Valid(db)
    ensures var after := Apply(db, StartAttempt, now).0;
      k < |after.attempts| && Holds(after.attempts[k], q, s) <==> k < |db.attempts| && Holds(db.attempts[k], q, s)
  {
    var (after, outcome) := Apply(db, StartAttempt, now);
    var n := |db.attempts|;
    if !Admitted(db.quiz, now) {
      StartRefused(db, now);
    } else if n > 0 && StillOpen(db.attempts[n - 1], now) {
      StartResumes(db, now);
    } else {
      StartOpens(db, now);
      if n > 0 && db.attempts[n - 1].status == InProgress {
        var settled :| OnlySettles(db, settled, n - 1, Expired) && OpensNext(settled, after, outcome, now);
        SettlingKeepsChoices(db, settled, n - 1, Expired, k, q, s);
      }
    }
  }

  lemma SaveKeepsChoices(db: Db, op: Op, now: int, k: nat, q: nat, s: nat)
    requires Valid(db) && op.SaveAnswer?
    ensures var after := Apply(db, op, now).0;
      k < |after.attempts| && Holds(after.attempts[k], q, s) <==>
        k < |db.attempts| && if Chooses(db, op, now, k, q) then s == op.selectedIndex else Holds(db.attempts[k], q, s)
  {
    var SaveAnswer(j, questionId, selected) := op;
    if Apply(db, op, now).1 == Saved {
      SavedIsHeld(db, j, questionId, selected, now);
    } else if j < |db.attempts| && db.attempts[j].status == InProgress && !StillOpen(db.attempts[j], now) {
      LateSaveSettles(db, j, questionId, selected, now);
      SettlingKeepsChoices(db, Apply(db, op, now).0, j, Expired, k, q, s);
    } else {
      SaveRefused(db, j, questionId, selected, now);
    }
  }

  /** Saving an answer is the only thing that changes a choice. */
  lemma ApplyKeepsChoices(db: Db, op: Op, now: int, k: nat, q: nat, s: nat)
    requires Valid(db)
    ensures var after := Apply(db, op, now).0;
      k < |after.attempts| && Holds(after.attempts[k], q, s) <==>
        k < |db.attempts| && if Chooses(db, op, now, k, q) then s == op.selectedIndex else Holds(db.attempts[k], q, s)
  {
    match op
    case ReplaceQuestions(questions) => AuthoringDoes(db, questions, now);
    case Publish => AuthoringDoes(db, [], now);
    case StartAttempt => StartKeepsChoices(db, now, k, q, s);
    case SaveAnswer(_, _, _) => SaveKeepsChoices(db, op, now, k, q, s);
    case SubmitAttempt(j) =>
      SubmitDoes(db, j, now);
      if j < |db.attempts| && db.attempts[j].status == InProgress {
        var status := if StillOpen(db.attempts[j], now) then Submitted else Expired;
        SettlingKeepsChoices(db, Apply(db, op, now).0, j, status, k, q, s);
      }
  }

  /** The choice of the last answer to this question of this attempt that was saved, or the one before the run. */
  ghost function LastChoice(db: Db, ops: seq<(Op, int)>, k: nat, q: nat, before: Option<nat>): Option<nat>
    decreases |ops|
  {
    if ops == [] then before
    else
      var (op, now) := ops[0];
      LastChoice(Apply(db, op, now).0, ops[1..], k, q, NextChoice(db, op, now, k, q, before))
  }

  /** What the rows hold for a question, said as an option. */
  ghost predicate HoldsExactly(db: Db, k: nat, q: nat, choice: Option<nat>)
  {
    forall s: nat :: (k < |db.attempts| && Holds(db.attempts[k], q, s)) <==> choice == Some(s)
  }

  function NextChoice(db: Db, op: Op, now: int, k: nat, q: nat, before: Option<nat>): Option<nat>
  {
    if Chooses(db, op, now, k, q) then Some(op.selectedIndex) else before
  }

  lemma StepHolds(db: Db, op: Op, now: int, k: nat, q: nat, before: Option<nat>)
    requires Valid(db) && HoldsExactly(db, k, q, before)
    ensures HoldsExactly(Apply(db, op, now).0, k, q, NextChoice(db, op, now, k, q, before))
  {
    var next := Apply(db, op, now).0;
    if Chooses(db, op, now, k, q) {
      SaveRefused(db, op.attempt, op.questionId, op.selectedIndex, now);
    }
    forall s: nat
      ensures (k < |next.attempts| && Holds(next.attempts[k], q, s))
         <==> NextChoice(db, op, now, k, q, before) == Some(s)
    {
      ApplyKeepsChoices(db, op, now, k, q, s);
    }
  }

  /** Over every run, what an attempt holds for a question is the last choice saved for it. */
  lemma {:induction false} ChoicesAreTheLastSaved(db: Db, ops: seq<(Op, int)>, start: int, end: int,
                                                  k: nat, q: nat, before: Option<nat>)
    requires Valid(db) && Ordered(ops, start, end) && HoldsExactly(db, k, q, before)
    ensures HoldsExactly(Run(db, ops).0, k, q, LastChoice(db, ops, k, q, before))
    decreases |ops|
  {
    if ops != [] {
      var (op, now) := ops[0];
      StepHolds(db, op, now, k, q, before);
      ApplyKeepsValid(db, op, now);
      ChoicesAreTheLastSaved(Apply(db, op, now).0, ops[1..], now, end, k, q, NextChoice(db, op, now, k, q, before));
      FirstOp(db, ops, 0);
    }
  }

  // ---------- the score is that of the last choices ----------

  /** The choice an attempt holds for a question before a run. */
  ghost function ChoiceBefore(db: Db, k: nat, q: nat): Option<nat>
  {
    if k < |db.attempts| && FindAnswer(db.attempts[k].answers, q).Some?
    then Some(FindAnswer(db.attempts[k].answers, q).value.selectedIndex) else None
  }

  lemma ChoiceIsHeld(db: Db, k: nat, q: nat)
    requires Valid(db)
    ensures HoldsExactly(db, k, q, ChoiceBefore(db, k, q))
  {
    if k < |db.attempts| {
      var answers := db.attempts[k].answers;
      assert Sound(db.attempts[k], db.quiz.questions);
      FindAnswerMeans(answers, q);
      var found := FindAnswer(answers, q);
      if found.Some? {
        var j :| 0 <= j < |answers| && answers[j] == found.value;
        assert Holds(db.attempts[k], q, found.value.selectedIndex);
      }
    }
  }

  /** The last choice saved for a question over a run from the start. */
  ghost function FinalChoice(db: Db, ops: seq<(Op, int)>, k: nat, q: nat): Option<nat>
  {
    LastChoice(db, ops, k, q, ChoiceBefore(db, k, q))
  }

  lemma FinalChoiceIsHeld(db: Db, ops: seq<(Op, int)>, start: int, end: int, k: nat, q: nat)
    requires Valid(db) && Ordered(ops, start, end)
    ensures HoldsExactly(Run(db, ops).0, k, q, FinalChoice(db, ops, k, q))
    ensures ChoiceBefore(Run(db, ops).0, k, q) == FinalChoice(db, ops, k, q)
  {
    ChoiceIsHeld(db, k, q);
    ChoicesAreTheLastSaved(db, ops, start, end, k, q, ChoiceBefore(db, k, q));
    RunKeepsValid(db, ops, start, end);
    ChoiceIsHeld(Run(db, ops).0, k, q);
    SameOption(Run(db, ops).0, k, q, FinalChoice(db, ops, k, q), ChoiceBefore(Run(db, ops).0, k, q));
  }

  lemma SameOption(db: Db, k: nat, q: nat, a: Option<nat>, b: Option<nat>)
    requires HoldsExactly(db, k, q, a) && HoldsExactly(db, k, q, b)
    ensures a == b
  {
    if a.Some? {
      assert k < |db.attempts| && Holds(db.attempts[k], q, a.value);
    } else if b.Some? {
      assert k < |db.attempts| && Holds(db.attempts[k], q, b.value);
    }
  }

  /** What the last choices of a run earn, question by question. */
  ghost function EarnedBy(db: Db, ops: seq<(Op, int)>, k: nat, questions: seq<Question>): seq<int>
  {
    seq(|questions|, i requires 0 <= i < |questions| =>
      if FinalChoice(db, ops, k, questions[i].id) == Some(questions[i].correctIndex) then questions[i].marks else 0)
  }

  /** The marked paper shows each question of the paper with the choice held for it. */
  lemma PaperShowsTheChoices(db: Db, ops: seq<(Op, int)>, start: int, end: int, k: nat, i: nat)
    requires Valid(db) && Ordered(ops, start, end)
    requires k < |Run(db, ops).0.attempts| && i < |Run(db, ops).0.quiz.questions|
    ensures var after := Run(db, ops).0;
      var q, shown := after.quiz.questions[i], MarkedPaper(after.attempts[k], after.quiz.questions)[i];
      && (shown.id, shown.options, shown.marks, shown.correctIndex) == (q.id, q.options, q.marks, q.correctIndex)
      && shown.selectedIndex == FinalChoice(db, ops, k, q.id)
  {
    FinalChoiceIsHeld(db, ops, start, end, k, Run(db, ops).0.quiz.questions[i].id);
  }

  /**
   * In every run, a settled attempt's score is what the last choice saved for each question earns: the
   * question's marks where it is the key's, nothing elsewhere. Its maximum is the sum of all the marks.
   */
  lemma ScoreIsOfTheLastChoices(db: Db, ops: seq<(Op, int)>, start: int, end: int, k: nat)
    requires Valid(db) && Ordered(ops, start, end)
    ensures var after := Run(db, ops).0;
      k < |after.attempts| && after.attempts[k].status != InProgress ==>
        var a, questions := after.attempts[k], after.quiz.questions;
        && a.score == Some(Sum(EarnedBy(db, ops, k, questions)))
        && a.maxScore == Some(Sum(seq(|questions|, i requires 0 <= i < |questions| => questions[i].marks)))
  {
    var after := Run(db, ops).0;
    if k < |after.attempts| && after.attempts[k].status != InProgress {
      var a, questions := after.attempts[k], after.quiz.questions;
      ScoreIsWhatThePaperShows(db, ops, start, end, k);
      PaperIsMarkedByTheKey(db, ops, start, end, k);
      forall i | 0 <= i < |questions|
        ensures ShownMarks(a, questions)[i] == EarnedBy(db, ops, k, questions)[i]
      {
        PaperShowsTheChoices(db, ops, start, end, k, i);
      }
      assert ShownMarks(a, questions) == EarnedBy(db, ops, k, questions);
      assert Marks(questions) == seq(|questions|, i requires 0 <= i < |questions| => questions[i].marks);
    }
  }

  lemma {:induction false} OrderedPrefix(ops: seq<(Op, int)>, start: int, end: int, n: nat)
    requires Ordered(ops, start, end) && n <= |ops|
    ensures Ordered(ops[..n], start, end)
    decreases |ops|
  {
    OrderedBounds(ops, start, end);
    if n > 0 {
      OrderedPrefix(ops[1..], ops[0].1, end, n - 1);
      assert ops[..n][1..] == ops[1..][..n - 1];
    }
  }

  /**
   * Over a whole run, an attempt that ends expired has the score of the last choices saved before its
   * deadline; what was tried afterwards is in neither the choices nor the score.
   */
  lemma ExpiredScoreIsOfTheDeadline(db: Db, ops: seq<(Op, int)>, start: int, end: int, k: nat)
    requires Valid(db) && Ordered(ops, start, end)
    requires k < |Run(db, ops).0.attempts| && Run(db, ops).0.attempts[k].status == Expired
    requires k < |db.attempts| ==> db.attempts[k].status != Expired
    ensures var a, questions := Run(db, ops).0.attempts[k], Run(db, ops).0.quiz.questions;
      && a.expiresAt.Some?
      && var inTime := ops[..Before(ops, a.expiresAt.value)];
         && (forall q :: FinalChoice(db, ops, k, q) == FinalChoice(db, inTime, k, q))
         && a.score == Some(Sum(EarnedBy(db, inTime, k, questions)))
  {
    ExpiredIsAsOfTheDeadline(db, ops, start, end, k);
    var after := Run(db, ops).0;
    var n := Before(ops, after.attempts[k].expiresAt.value);
    OrderedPrefix(ops, start, end, n);
    RunKeepsValid(db, ops, start, end);
    RunKeepsValid(db, ops[..n], start, end);
    forall q
      ensures FinalChoice(db, ops, k, q) == FinalChoice(db, ops[..n], k, q)
    {
      FinalChoiceIsHeld(db, ops, start, end, k, q);
      FinalChoiceIsHeld(db, ops[..n], start, end, k, q);
      SettledChoice(Run(db, ops[..n]).0, after, k, q);
    }
    ScoreIsOfTheLastChoices(db, ops, start, end, k);
    assert EarnedBy(db, ops, k, after.quiz.questions) == EarnedBy(db, ops[..n], k, after.quiz.questions);
  }

  lemma SettledChoice(held: Db, after: Db, k: nat, q: nat)
    requires Valid(held) && Valid(after) && ExpiredFrom(held, after, k)
    ensures ChoiceBefore(held, k, q) == ChoiceBefore(after, k, q)
  {
    ChoiceIsHeld(held, k, q);
    ChoiceIsHeld(after, k, q);
    forall s: nat
      ensures Holds(held.attempts[k], q, s) <==> Holds(after.attempts[k], q, s)
    {
      SamePaperHolds(held.attempts[k], after.attempts[k], q, s);
    }
    SameOption(after, k, q, ChoiceBefore(held, k, q), ChoiceBefore(after, k, q));
  }
}
