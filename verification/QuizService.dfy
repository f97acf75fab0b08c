/**
 * The quiz service as it runs (apps/api/src/quizzes/quizzes.service.ts): the rows of one quiz and
 * one student, updated in place. Each operation is proved against its step in `Quizzes.Apply`, so
 * what is proved there about runs holds of this service.
 */
module QuizService {
  import opened Quizzes
  import opened Sums
  import opened Wrappers

  /** A score only once settled: what `Valid` says of the rows, as far as the gradebook query needs it. */
  ghost predicate OpenIsUnscored(attempts: seq<Attempt>)
  {
    forall i :: 0 <= i < |attempts| && attempts[i].status == InProgress ==> attempts[i].score == None
  }

  lemma ValidIsUnscored(db: Db)
    requires Valid(db)
    ensures OpenIsUnscored(db.attempts)
  {
    forall i | 0 <= i < |db.attempts| && db.attempts[i].status == InProgress
      ensures db.attempts[i].score == None
    {
      assert Sound(db.attempts[i], db.quiz.questions);
    }
  }

  /** The paper's questions by id; of two with one id the later stays. */
  method ByQuestionId(questions: seq<Question>) returns (key: map<nat, Question>)
    ensures forall id: nat :: Find(questions, id) == if id in key then Some(key[id]) else None
  {
    key := map[];
    for i := 0 to |questions|
      invariant forall id: nat :: Find(questions[..i], id) == if id in key then Some(key[id]) else None
    {
      assert questions[..i + 1][..i] == questions[..i];
      key := key[questions[i].id := questions[i]];
    }
    assert questions[..|questions|] == questions;
  }

  /** The answers by question; of two to one question the later stays. */
  method ByQuestion(answers: seq<Answer>) returns (byQuestion: map<nat, Answer>)
    ensures forall id: nat :: FindAnswer(answers, id) == if id in byQuestion then Some(byQuestion[id]) else None
  {
    byQuestion := map[];
    for i := 0 to |answers|
      invariant forall id: nat ::
        FindAnswer(answers[..i], id) == if id in byQuestion then Some(byQuestion[id]) else None
    {
      assert answers[..i + 1][..i] == answers[..i];
      byQuestion := byQuestion[answers[i].questionId := answers[i]];
    }
    assert answers[..|answers|] == answers;
  }

  method AddUpMarks(questions: seq<Question>) returns (maxScore: int)
    ensures maxScore == TotalMarks(questions)
  {
    maxScore := 0;
    for i := 0 to |questions|
      invariant maxScore == Sum(Marks(questions)[..i])
    {
      Append(Marks(questions)[..i], questions[i].marks);
      assert Marks(questions)[..i + 1] == Marks(questions)[..i] + [questions[i].marks];
      maxScore := maxScore + questions[i].marks;
    }
    assert Marks(questions)[..|questions|] == Marks(questions);
  }

  /** Marks every answer against the key, running up the score. */
  method MarkAnswers(answers: seq<Answer>, questions: seq<Question>) returns (marked: seq<Answer>, score: int)
    ensures marked == MarkAll(answers, questions) && score == Sum(Awards(answers, questions))
  {
    var key := ByQuestionId(questions);
    marked, score := [], 0;
    for i := 0 to |answers|
      invariant |marked| == i && forall j :: 0 <= j < i ==> marked[j] == Marked(answers[j], questions)
      invariant score == Sum(Awards(answers, questions)[..i])
    {
      var answer := answers[i];
      assert Find(questions, answer.questionId) ==
        if answer.questionId in key then Some(key[answer.questionId]) else None;
      var isCorrect := answer.questionId in key && answer.selectedIndex == key[answer.questionId].correctIndex;
      var marksAwarded := if isCorrect then key[answer.questionId].marks else 0;
      Append(Awards(answers, questions)[..i], marksAwarded);
      assert Awards(answers, questions)[..i + 1] == Awards(answers, questions)[..i] + [marksAwarded];
      score := score + marksAwarded;
      marked := marked + [answer.(isCorrect := Some(isCorrect), marksAwarded := Some(marksAwarded))];
    }
    assert Awards(answers, questions)[..|answers|] == Awards(answers, questions);
    assert marked == MarkAll(answers, questions);
  }

  function Shown(answer: Answer, q: Question): (r: ShownQuestion)
    ensures r == ShownOf(Some(answer), q)
  {
    ShownQuestion(q.id, q.options, q.marks, q.correctIndex, Some(answer.selectedIndex),
                  if answer.isCorrect.Some? then answer.isCorrect.value else false,
                  if answer.marksAwarded.Some? then answer.marksAwarded.value else 0)
  }

  function Unanswered(q: Question): (r: ShownQuestion)
    ensures r == ShownOf(None, q)
  {
    ShownQuestion(q.id, q.options, q.marks, q.correctIndex, None, false, 0)
  }

  /** The scored attempts reduced to the best, the earliest of equals. */
  method BestScored(attempts: seq<Attempt>) returns (winner: Option<Attempt>)
    ensures winner == Best(attempts)
  {
    winner := None;
    for i := 0 to |attempts|
      invariant winner == Best(attempts[..i])
    {
      assert attempts[..i + 1][..i] == attempts[..i];
      if attempts[i].score.Some? && (winner == None || attempts[i].score.value > winner.value.score.value) {
        winner := Some(attempts[i]);
      }
    }
    assert attempts[..|attempts|] == attempts;
  }

  class Service {
    var quiz: Quiz
    var attempts: seq<Attempt>
    /** The gradebook entry this quiz writes for the student. */
    var cell: Option<Cell>

    ghost function View(): Db
      reads this
    {
      Db(quiz, attempts, cell)
    }

    constructor (quiz: Quiz)
      ensures View() == Db(quiz, [], None)
    {
      this.quiz, attempts, cell := quiz, [], None;
    }

    method ReplaceQuestions(questions: seq<Question>) returns (outcome: Outcome)
      modifies this`quiz
      ensures (View(), outcome) == Author(old(View()), Op.ReplaceQuestions(questions))
    {
      if quiz.published {
        return Frozen;
      }
      quiz := quiz.(questions := questions);
      outcome := Done;
    }

    method Publish() returns (outcome: Outcome)
      modifies this`quiz
      ensures (View(), outcome) == Author(old(View()), Op.Publish)
    {
      if quiz.questions == [] {
        return NoQuestions;
      }
      if !quiz.published {
        quiz := quiz.(published := true);
      }
      outcome := Done;
    }

    /** The best settled and scored attempt, found by looking at each in turn. */
    method BestSettled() returns (best: Option<Attempt>)
      requires OpenIsUnscored(attempts)
      ensures best == Best(attempts)
    {
      best := None;
      for i := 0 to |attempts|
        invariant best == Best(attempts[..i])
      {
        assert attempts[..i + 1][..i] == attempts[..i];
        var attempt := attempts[i];
        if attempt.status != InProgress && attempt.score.Some?
           && (best == None || attempt.score.value > best.value.score.value) {
          best := Some(attempt);
        }
      }
      assert attempts[..|attempts|] == attempts;
    }

    method SyncGradebook()
      requires OpenIsUnscored(attempts)
      modifies this`cell
      ensures View() == Sync(old(View()))
    {
      if !quiz.inGradebook {
        return;
      }
      var best := BestSettled();
      if best == None {
        return;
      }
      var marks := best.value.score.value;
      var maxMarks := if best.value.maxScore.Some? then best.value.maxScore.value else 0;
      cell := Some(Cell(marks, maxMarks));
    }

    method Grade(k: nat, status: Status)
      requires k < |attempts| && status != InProgress && OpenIsUnscored(attempts)
      modifies this`attempts, this`cell
      ensures View() == Quizzes.Grade(old(View()), k, status)
      ensures OpenIsUnscored(attempts)
    {
      var maxScore := AddUpMarks(quiz.questions);
      var marked, score := MarkAnswers(attempts[k].answers, quiz.questions);
      attempts := attempts[k := attempts[k].(status := status, answers := marked,
                                             score := Some(score), maxScore := Some(maxScore))];
      SyncGradebook();
    }

    method FinalizeIfExpired(k: nat, now: int)
      requires k < |attempts| && OpenIsUnscored(attempts)
      modifies this`attempts, this`cell
      ensures View() == Quizzes.FinalizeIfExpired(old(View()), k, now)
      ensures OpenIsUnscored(attempts)
    {
      if attempts[k].status != InProgress || attempts[k].expiresAt == None {
        return;
      }
      if attempts[k].expiresAt.value > now {
        return;
      }
      Grade(k, Expired);
    }

    /** Resumes the open attempt, or starts the next one. */
    method StartAttempt(now: int) returns (outcome: Outcome)
      requires Valid(View())
      modifies this`attempts, this`cell
      ensures (View(), outcome) == Apply(old(View()), Op.StartAttempt, now)
    {
      ValidIsUnscored(View());
      if !quiz.published {
        return NotFound;
      }
      if quiz.opensAt.Some? && quiz.opensAt.value > now {
        return NotOpenYet;
      }
      if quiz.closesAt.Some? && quiz.closesAt.value <= now {
        return Closed;
      }
      var inProgress := Open(attempts);
      if inProgress.Some? {
        FinalizeIfExpired(inProgress.value, now);
        if attempts[inProgress.value].status == InProgress {
          return Paper(inProgress.value);
        }
      }
      if |attempts| >= quiz.maxAttempts {
        return NoneLeft;
      }
      var attemptNumber := (if attempts == [] then 0 else attempts[|attempts| - 1].attemptNumber) + 1;
      var expiresAt := if quiz.timeLimitMinutes.Some? && quiz.timeLimitMinutes.value != 0
        then Some(now + quiz.timeLimitMinutes.value * MINUTE_MS) else None;
      outcome := Paper(|attempts|);
      attempts := attempts + [Attempt(attemptNumber, InProgress, expiresAt, [], None, None)];
    }

    method SaveAnswer(k: nat, questionId: nat, selectedIndex: nat, now: int) returns (outcome: Outcome)
      requires Valid(View())
      modifies this`attempts, this`cell
      ensures (View(), outcome) == Apply(old(View()), Op.SaveAnswer(k, questionId, selectedIndex), now)
    {
      ValidIsUnscored(View());
      if k >= |attempts| {
        return NotFound;
      }
      FinalizeIfExpired(k, now);
      if attempts[k].status != InProgress {
        return if attempts[k].status == Expired then TimeUp else AlreadySubmitted;
      }
      var question := Find(quiz.questions, questionId);
      if question == None {
        return QuestionNotFound;
      }
      if selectedIndex >= question.value.options {
        return NoSuchOption;
      }
      var answers := Upsert(attempts[k].answers, questionId, selectedIndex);
      attempts := attempts[k := attempts[k].(answers := answers)];
      outcome := Saved;
    }

    method SubmitAttempt(k: nat, now: int) returns (outcome: Outcome)
      requires Valid(View())
      modifies this`attempts, this`cell
      ensures (View(), outcome) == Apply(old(View()), Op.SubmitAttempt(k), now)
    {
      ValidIsUnscored(View());
      if k >= |attempts| {
        return NotFound;
      }
      FinalizeIfExpired(k, now);
      if attempts[k].status == Submitted {
        return AlreadySubmitted;
      }
      if attempts[k].status == InProgress {
        Grade(k, Submitted);
      }
      outcome := Result(k, attempts[k].score);
    }

    /** The marked paper, question by question, once the attempt is settled. */
    method AttemptResult(k: nat) returns (paper: Option<seq<ShownQuestion>>)
      requires k < |attempts|
      ensures paper == if attempts[k].status == InProgress then None else Some(MarkedPaper(attempts[k], quiz.questions))
    {
      if attempts[k].status == InProgress {
        return None;
      }
      var byQuestion := ByQuestion(attempts[k].answers);
      var shown: seq<ShownQuestion> := [];
      for i := 0 to |quiz.questions|
        invariant shown == MarkedPaper(attempts[k], quiz.questions)[..i]
      {
        var q := quiz.questions[i];
        assert FindAnswer(attempts[k].answers, q.id) == if q.id in byQuestion then Some(byQuestion[q.id]) else None;
        shown := shown + [if q.id in byQuestion then Shown(byQuestion[q.id], q) else Unanswered(q)];
      }
      assert shown == MarkedPaper(attempts[k], quiz.questions);
      paper := Some(shown);
    }

    /** The student's row of the results table, scored attempts reduced to the best: also what the gradebook holds. */
    method BestScore() returns (bestScore: Option<int>)
      requires Valid(View())
      ensures bestScore.Some? ==> IsBestScore(attempts, bestScore.value)
      ensures bestScore == None <==> forall i :: 0 <= i < |attempts| ==> attempts[i].status == InProgress
      ensures quiz.inGradebook ==> bestScore == if cell == None then None else Some(cell.value.marksObtained)
    {
      BestIsTheScore(View());
      var best := BestScored(attempts);
      bestScore := if best == None then None else best.value.score;
    }
  }
}
