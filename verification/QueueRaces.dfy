/**
 * Marking a register while the queue is being flushed (apps/mobile/lib/offline-queue.ts). Each of the
 * two reads the stored queue, and writes back what it made of its own read; any steps of the one may
 * come between the read and the write of the other.
 */
module QueueRaces {
  import opened OfflineQueue
  import opened Register
  import opened Seqs
  import opened Wrappers

  /** A flush under way: the queue it read, and the answers to the registers sent so far. */
  datatype Flushing = Flushing(read: seq<Sheet>, answers: seq<Answer>)

  /** An enqueue under way: the queue it read, and the register to put into it. */
  datatype Parking = Parking(read: seq<Sheet>, sheet: Sheet)

  datatype App = App(queue: seq<Sheet>, server: Marks, flushing: Option<Flushing>, parking: Option<Parking>)

  datatype Step =
    | StartFlush
    | Send(answer: Answer)
    | EndFlush
    | StartMark(sheet: Sheet)
    | EndMark

  function Take(app: App, step: Step): App
  {
    match step
    case StartFlush =>
      if app.flushing.Some? || app.queue == [] then app else app.(flushing := Some(Flushing(app.queue, [])))
    case Send(answer) =>
      if app.flushing == None || |app.flushing.value.answers| >= |app.flushing.value.read| then app
      else
        var Flushing(read, answers) := app.flushing.value;
        app.(server := if WasApplied(answer) then WriteSheet(app.server, read[|answers|], {}) else app.server,
             flushing := Some(Flushing(read, answers + [answer])))
    case EndFlush =>
      if app.flushing == None || |app.flushing.value.answers| != |app.flushing.value.read| then app
      else
        var Flushing(read, answers) := app.flushing.value;
        app.(queue := Select(read, answers, HasFailed), flushing := None)
    case StartMark(sheet) =>
      if app.parking.Some? then app else app.(parking := Some(Parking(app.queue, sheet)))
    case EndMark =>
      if app.parking == None then app
      else app.(queue := Enqueue(app.parking.value.read, app.parking.value.sheet), parking := None)
  }

  function Run(app: App, steps: seq<Step>): App
    decreases |steps|
  {
    if steps == [] then app else Run(Take(app, steps[0]), steps[1..])
  }

  lemma {:induction false} RunConcat(app: App, a: seq<Step>, b: seq<Step>)
    ensures Run(app, a + b) == Run(Run(app, a), b)
    decreases |a|
  {
    if a == [] {
      assert a + b == b;
    } else {
      assert (a + b)[1..] == a[1..] + b;
      RunConcat(Take(app, a[0]), a[1..], b);
    }
  }

  function Reply(step: Step): seq<Answer>
  {
    if step.Send? then [step.answer] else []
  }

  /** The answers the network gives over some steps. */
  function AnswersIn(steps: seq<Step>): seq<Answer>
  {
    if steps == [] then [] else Reply(steps[0]) + AnswersIn(steps[1..])
  }

  /** What can happen between the read and the write-back of one flush. */
  ghost predicate During(steps: seq<Step>)
  {
    forall i :: 0 <= i < |steps| ==> !steps[i].StartFlush? && !steps[i].EndFlush?
  }

  /** The registers applied of those answered so far. */
  function Applied(read: seq<Sheet>, answers: seq<Answer>): seq<Sheet>
    requires |answers| <= |read|
  {
    Select(read[..|answers|], answers, WasApplied)
  }

  lemma AppliedNext(read: seq<Sheet>, answers: seq<Answer>, answer: Answer)
    requires |answers| < |read|
    ensures Applied(read, answers + [answer]) ==
      if WasApplied(answer) then Applied(read, answers) + [read[|answers|]] else Applied(read, answers)
  {
    var n, sent, replies := |answers|, read[..|answers| + 1], answers + [answer];
    assert sent[..n] == read[..n] && replies[..n] == answers && sent[..n + 1] == sent && replies[..n + 1] == replies;
    SelectNext(sent, replies, WasApplied, n);
  }

  /** A flush of `read` under way with these answers, and what it has done to the server it found. */
  ghost predicate Reached(app: App, found: Marks, read: seq<Sheet>, answers: seq<Answer>)
  {
    && |answers| <= |read|
    && app.flushing == Some(Flushing(read, answers))
    && app.server == Drain(found, Applied(read, answers))
  }

  lemma OneStep(app: App, step: Step, found: Marks, read: seq<Sheet>, answers: seq<Answer>)
    requires !step.StartFlush? && !step.EndFlush? && Reached(app, found, read, answers)
    requires |answers| + |Reply(step)| <= |read|
    ensures Reached(Take(app, step), found, read, answers + Reply(step))
  {
    if step.Send? {
      AppliedNext(read, answers, step.answer);
      DrainOne(found, Applied(read, answers), read[|answers|]);
    } else {
      assert answers + Reply(step) == answers;
    }
  }

  lemma {:induction false} Sending(app: App, steps: seq<Step>, found: Marks, read: seq<Sheet>, answers: seq<Answer>)
    requires During(steps) && Reached(app, found, read, answers) && |answers| + |AnswersIn(steps)| <= |read|
    ensures Reached(Run(app, steps), found, read, answers + AnswersIn(steps))
    decreases |steps|
  {
    if steps == [] {
      assert answers + AnswersIn(steps) == answers;
    } else {
      OneStep(app, steps[0], found, read, answers);
      Sending(Take(app, steps[0]), steps[1..], found, read, answers + Reply(steps[0]));
      Assoc(answers, Reply(steps[0]), AnswersIn(steps[1..]));
    }
  }

  /** The app once a flush has run, with other steps in between. */
  function AfterFlush(queue: seq<Sheet>, server: Marks, parking: Option<Parking>, during: seq<Step>): App
  {
    Take(Run(Take(App(queue, server, None, parking), StartFlush), during), EndFlush)
  }

  lemma AfterFlushIsARun(queue: seq<Sheet>, server: Marks, parking: Option<Parking>, during: seq<Step>, rest: seq<Step>)
    ensures Run(App(queue, server, None, parking), [StartFlush] + during + [EndFlush] + rest)
         == Run(AfterFlush(queue, server, parking, during), rest)
  {
    var app, tail := App(queue, server, None, parking), [EndFlush] + rest;
    assert [StartFlush] + during + [EndFlush] + rest == [StartFlush] + (during + tail);
    assert ([StartFlush] + (during + tail))[1..] == during + tail;
    RunConcat(Take(app, StartFlush), during, tail);
    assert tail[1..] == rest;
  }

  /** Every register of the queue is sent once between the read and the write-back. */
  ghost predicate WholeFlush(queue: seq<Sheet>, during: seq<Step>)
  {
    During(during) && queue != [] && |AnswersIn(during)| == |queue|
  }

  lemma StartedFlush(queue: seq<Sheet>, server: Marks, parking: Option<Parking>)
    requires queue != []
    ensures Reached(Take(App(queue, server, None, parking), StartFlush), server, queue, [])
  {
    assert Applied(queue, []) == [];
  }

  lemma FinishedFlush(app: App, found: Marks, read: seq<Sheet>, answers: seq<Answer>)
    requires Reached(app, found, read, answers) && |answers| == |read|
    ensures var after := Take(app, EndFlush);
      && after.queue == Select(read, answers, HasFailed)
      && after.server == Drain(found, Select(read, answers, WasApplied))
      && after.parking == app.parking
  {
    assert read[..|answers|] == read;
  }

  /**
   * The write-back replaces whatever the queue has become by what the flush itself read and failed
   * to send; the server got what was applied, and a register still being marked is untouched.
   */
  lemma WriteBackOverwrites(queue: seq<Sheet>, server: Marks, parking: Option<Parking>, during: seq<Step>)
    requires WholeFlush(queue, during)
    ensures var answers, after := AnswersIn(during), AfterFlush(queue, server, parking, during);
      && after.queue == Select(queue, answers, HasFailed)
      && after.server == Drain(server, Select(queue, answers, WasApplied))
      && after.parking == Run(Take(App(queue, server, None, parking), StartFlush), during).parking
  {
    var started := Take(App(queue, server, None, parking), StartFlush);
    StartedFlush(queue, server, parking);
    Sending(started, during, server, queue, []);
    assert [] + AnswersIn(during) == AnswersIn(during);
    FinishedFlush(Run(started, during), server, queue, AnswersIn(during));
  }

  // ---------- a register marked before the write-back ----------

  /** The registers whose marking is complete after some steps, the one under way at the start included. */
  function MarkedIn(pending: Option<Sheet>, steps: seq<Step>): seq<Sheet>
    decreases |steps|
  {
    if steps == [] then []
    else
      match steps[0]
      case StartMark(sheet) => MarkedIn(if pending == None then Some(sheet) else pending, steps[1..])
      case EndMark => (if pending == None then [] else [pending.value]) + MarkedIn(None, steps[1..])
      case _ => MarkedIn(pending, steps[1..])
  }

  function Pending(parking: Option<Parking>): Option<Sheet>
  {
    if parking == None then None else Some(parking.value.sheet)
  }

  /** The list already says what the others say, of every record they speak of. */
  ghost predicate AddsNothing(sheets: seq<Sheet>, others: seq<Sheet>)
  {
    forall k :: LastWord(others, k) != [] ==> LastWord(sheets, k) == LastWord(others, k)
  }

  lemma AddsNothingExactly(sheets: seq<Sheet>, others: seq<Sheet>)
    ensures SameEffect(sheets, sheets + others) <==> AddsNothing(sheets, others)
  {
    SameEffectExactly(sheets, sheets + others);
    if AddsNothing(sheets, others) {
      forall k
        ensures LastWord(sheets, k) == LastWord(sheets + others, k)
      {
        LastWordConcat(sheets, others, k);
      }
    } else {
      var k :| LastWord(others, k) != [] && LastWord(sheets, k) != LastWord(others, k);
      LastWordConcat(sheets, others, k);
    }
  }

  /** The server once what is still queued has been sent too. */
  function Drained(app: App): Marks
  {
    Drain(app.server, app.queue)
  }

  /**
   * Registers whose marking is complete before a flush writes back are lost with the queue they were
   * put into. On every server that comes to the same as sending everything not refused and then them,
   * exactly when what the flush did not have refused already says all they say.
   */
  lemma MarkedDuringFlushExactly(queue: seq<Sheet>, parking: Option<Parking>, during: seq<Step>)
    requires WholeFlush(queue, during) && DistinctRegisters(queue)
    ensures var kept, marked := Select(queue, AnswersIn(during), NotRefused), MarkedIn(Pending(parking), during);
      (forall server :: Drained(AfterFlush(queue, server, parking, during)) == Drain(server, kept + marked))
      <==> AddsNothing(kept, marked)
  {
    var kept, marked := Select(queue, AnswersIn(during), NotRefused), MarkedIn(Pending(parking), during);
    forall server
      ensures Drained(AfterFlush(queue, server, parking, during)) == Drain(server, kept)
    {
      WriteBackOverwrites(queue, server, parking, during);
      FlushLosesNothing(server, queue, AnswersIn(during));
    }
    AddsNothingExactly(kept, marked);
  }

  // ---------- a register marked across the write-back ----------

  /** No marking completes over these steps, and this one is under way at their end. */
  ghost predicate StaysPending(pending: Option<Sheet>, steps: seq<Step>, sheet: Sheet)
    decreases |steps|
  {
    if steps == [] then pending == Some(sheet)
    else
      && !steps[0].EndMark?
      && StaysPending(if steps[0].StartMark? && pending == None then Some(steps[0].sheet) else pending,
                      steps[1..], sheet)
  }

  /** Until something is written, what an enqueue reads is the queue there was. */
  lemma {:induction false} NothingWritten(app: App, steps: seq<Step>, sheet: Sheet)
    requires During(steps) && StaysPending(Pending(app.parking), steps, sheet)
    requires app.parking.Some? ==> app.parking.value.read == app.queue
    ensures Run(app, steps).queue == app.queue && Run(app, steps).parking == Some(Parking(app.queue, sheet))
    decreases |steps|
  {
    if steps != [] {
      NothingWritten(Take(app, steps[0]), steps[1..], sheet);
    }
  }

  /** A register whose marking read the queue before the write-back and writes after it puts that queue back. */
  lemma LateMarkRequeues(queue: seq<Sheet>, server: Marks, parking: Option<Parking>, during: seq<Step>, sheet: Sheet)
    requires WholeFlush(queue, during) && StaysPending(Pending(parking), during, sheet)
    requires parking.Some? ==> parking.value.read == queue
    ensures var after := Take(AfterFlush(queue, server, parking, during), EndMark);
      && after.queue == Enqueue(queue, sheet)
      && after.server == Drain(server, Select(queue, AnswersIn(during), WasApplied))
  {
    WriteBackOverwrites(queue, server, parking, during);
    NothingWritten(Take(App(queue, server, None, parking), StartFlush), during, sheet);
  }

  /**
   * What putting a register back can change: a dropped version that never arrived is missed where the
   * new one is silent, and a refused register of another class or day is sent again.
   */
  ghost predicate Harmless(s: Sheet, answer: Answer, sheet: Sheet)
  {
    if SameRegister(s, sheet) then
      answer == Failed(false) ==> forall student :: Names(s, student) ==> Names(sheet, student)
    else answer.Refused? ==> forall student :: !Names(s, student)
  }

  ghost predicate RequeuesNothingNew(queue: seq<Sheet>, answers: seq<Answer>, sheet: Sheet)
    requires |answers| == |queue|
  {
    forall i :: 0 <= i < |queue| ==> Harmless(queue[i], answers[i], sheet)
  }

  /** The same for one record. */
  predicate HarmlessAt(s: Sheet, answer: Answer, sheet: Sheet, k: Key)
  {
    Word(s, k) != [] && Word(sheet, k) == [] ==>
      if SameRegister(s, sheet) then answer != Failed(false) else !answer.Refused?
  }

  lemma HarmlessByRecord(s: Sheet, answer: Answer, sheet: Sheet)
    ensures Harmless(s, answer, sheet) <==> forall k :: HarmlessAt(s, answer, sheet, k)
  {
    forall student: nat
      ensures var k := Key(s.classId, student, s.day);
        HarmlessAt(s, answer, sheet, k) <==>
          (Names(s, student) ==>
             if SameRegister(s, sheet) then Names(sheet, student) || answer != Failed(false) else !answer.Refused?)
    {
    }
    if Harmless(s, answer, sheet) {
      forall k
        ensures HarmlessAt(s, answer, sheet, k)
      {
        assert Word(s, k) != [] ==> Names(s, k.student);
        assert Word(s, k) != [] && SameRegister(s, sheet) && Names(sheet, k.student) ==> Word(sheet, k) != [];
      }
    } else {
      var student :| Names(s, student) && (SameRegister(s, sheet) ==> !Names(sheet, student));
      assert !HarmlessAt(s, answer, sheet, Key(s.classId, student, s.day));
    }
  }

  /** The queued register that speaks of a record still does after an enqueue, unless it is the one replaced. */
  lemma RequeuedWord(queue: seq<Sheet>, sheet: Sheet, k: Key, i: nat)
    requires DistinctRegisters(queue) && i < |queue| && Word(queue[i], k) != [] && Word(sheet, k) == []
    ensures LastWord(Enqueue(queue, sheet), k) == if SameRegister(queue[i], sheet) then [] else Word(queue[i], k)
  {
    var kept := Without(queue, sheet);
    assert (kept + [sheet])[..|kept|] == kept;
    OneSpeaker(queue, k, i);
    forall t | t in kept && Word(t, k) != []
      ensures t == queue[i] && !SameRegister(queue[i], sheet)
    {
      WithoutMembers(queue, sheet, t);
    }
    if SameRegister(queue[i], sheet) {
      NoWord(kept, k);
    } else {
      WithoutMembers(queue, sheet, queue[i]);
      OnlyWord(kept, queue[i], k);
    }
  }

  /** The last words after the late mark, and as wanted, in terms of the registers' own. */
  lemma LateMarkWords(queue: seq<Sheet>, answers: seq<Answer>, sheet: Sheet, k: Key)
    requires |answers| == |queue|
    ensures var sent := Select(queue, answers, WasApplied) + Enqueue(queue, sheet);
      var wanted := Select(queue, answers, NotRefused) + [sheet];
      if Word(sheet, k) != [] then LastWord(sent, k) == LastWord(wanted, k)
      else
        && LastWord(wanted, k) == LastWord(Select(queue, answers, NotRefused), k)
        && LastWord(sent, k) == if LastWord(Enqueue(queue, sheet), k) != [] then LastWord(Enqueue(queue, sheet), k)
                                else LastWord(Select(queue, answers, WasApplied), k)
  {
    LastWordConcat(Select(queue, answers, WasApplied), Enqueue(queue, sheet), k);
    LastWordConcat(Select(queue, answers, NotRefused), [sheet], k);
    LastWordConcat(Without(queue, sheet), [sheet], k);
    assert [sheet][..0] == [];
    assert LastWord([sheet], k) == if Word(sheet, k) != [] then Word(sheet, k) else LastWord([], k);
  }

  lemma LateMarkAt(queue: seq<Sheet>, answers: seq<Answer>, sheet: Sheet, k: Key)
    requires |answers| == |queue| && DistinctRegisters(queue)
    ensures LastWord(Select(queue, answers, WasApplied) + Enqueue(queue, sheet), k)
         == LastWord(Select(queue, answers, NotRefused) + [sheet], k)
       <==> forall i :: 0 <= i < |queue| ==> HarmlessAt(queue[i], answers[i], sheet, k)
  {
    LateMarkWords(queue, answers, sheet, k);
    if Word(sheet, k) == [] {
      if i :| 0 <= i < |queue| && Word(queue[i], k) != [] {
        OneSpeaker(queue, k, i);
        SelectedWord(queue, answers, WasApplied, k, i);
        SelectedWord(queue, answers, NotRefused, k, i);
        RequeuedWord(queue, sheet, k, i);
        assert (forall j :: 0 <= j < |queue| ==> HarmlessAt(queue[j], answers[j], sheet, k))
          <==> HarmlessAt(queue[i], answers[i], sheet, k);
      } else {
        NobodySpeaks(queue, answers, sheet, k);
      }
    }
  }

  lemma NobodySpeaks(queue: seq<Sheet>, answers: seq<Answer>, sheet: Sheet, k: Key)
    requires |answers| == |queue| && Word(sheet, k) == [] && forall i :: 0 <= i < |queue| ==> Word(queue[i], k) == []
    ensures LastWord(Select(queue, answers, WasApplied), k) == LastWord(Select(queue, answers, NotRefused), k) == []
    ensures LastWord(Enqueue(queue, sheet), k) == []
  {
    SelectedSilence(queue, answers, WasApplied, k);
    SelectedSilence(queue, answers, NotRefused, k);
    forall t | t in Enqueue(queue, sheet)
      ensures Word(t, k) == []
    {
      WithoutMembers(queue, sheet, t);
    }
    NoWord(Enqueue(queue, sheet), k);
  }

  lemma OneSpeaker(queue: seq<Sheet>, k: Key, i: nat)
    requires DistinctRegisters(queue) && i < |queue| && Word(queue[i], k) != []
    ensures forall j :: 0 <= j < |queue| && j != i ==> Word(queue[j], k) == []
  {
    forall j | 0 <= j < |queue| && j != i
      ensures Word(queue[j], k) == []
    {
      assert if j < i then !SameRegister(queue[j], queue[i]) else !SameRegister(queue[i], queue[j]);
    }
  }

  lemma {:induction false} OnlyWord(sheets: seq<Sheet>, s: Sheet, k: Key)
    requires s in sheets && Word(s, k) != []
    requires forall t :: t in sheets && Word(t, k) != [] ==> t == s
    ensures LastWord(sheets, k) == Word(s, k)
  {
    var n := |sheets| - 1;
    if Word(sheets[n], k) == [] {
      assert s in sheets[..n];
      OnlyWord(sheets[..n], s, k);
    }
  }

  lemma LateMarkExactly(queue: seq<Sheet>, answers: seq<Answer>, sheet: Sheet)
    requires |answers| == |queue| && DistinctRegisters(queue)
    ensures SameEffect(Select(queue, answers, WasApplied) + Enqueue(queue, sheet),
                       Select(queue, answers, NotRefused) + [sheet])
       <==> RequeuesNothingNew(queue, answers, sheet)
  {
    var sent := Select(queue, answers, WasApplied) + Enqueue(queue, sheet);
    var wanted := Select(queue, answers, NotRefused) + [sheet];
    SameEffectExactly(sent, wanted);
    if RequeuesNothingNew(queue, answers, sheet) {
      forall k
        ensures LastWord(sent, k) == LastWord(wanted, k)
      {
        forall i | 0 <= i < |queue|
          ensures HarmlessAt(queue[i], answers[i], sheet, k)
        {
          HarmlessByRecord(queue[i], answers[i], sheet);
        }
        LateMarkAt(queue, answers, sheet, k);
      }
    } else {
      var i :| 0 <= i < |queue| && !Harmless(queue[i], answers[i], sheet);
      HarmlessByRecord(queue[i], answers[i], sheet);
      var k :| !HarmlessAt(queue[i], answers[i], sheet, k);
      LateMarkAt(queue, answers, sheet, k);
    }
  }

  /**
   * A register marked across the write-back is kept, and everything the flush had read is queued
   * again. On every server that comes to the same as sending everything not refused and then the new
   * register, exactly when nothing new is put back.
   */
  lemma MarkedAcrossWriteBackExactly(queue: seq<Sheet>, parking: Option<Parking>, during: seq<Step>, sheet: Sheet)
    requires WholeFlush(queue, during) && DistinctRegisters(queue) && StaysPending(Pending(parking), during, sheet)
    requires parking.Some? ==> parking.value.read == queue
    ensures var answers := AnswersIn(during);
      (forall server :: Drained(Take(AfterFlush(queue, server, parking, during), EndMark))
                     == Drain(server, Select(queue, answers, NotRefused) + [sheet]))
      <==> RequeuesNothingNew(queue, answers, sheet)
  {
    var answers := AnswersIn(during);
    var sent := Select(queue, answers, WasApplied) + Enqueue(queue, sheet);
    var wanted := Select(queue, answers, NotRefused) + [sheet];
    forall server
      ensures Drained(Take(AfterFlush(queue, server, parking, during), EndMark)) == Drain(server, sent)
    {
      LateMarkRequeues(queue, server, parking, during, sheet);
      DrainConcat(server, Select(queue, answers, WasApplied), Enqueue(queue, sheet));
    }
    LateMarkExactly(queue, answers, sheet);
    if !SameEffect(sent, wanted) {
      var server :| Drain(server, sent) != Drain(server, wanted);
      assert Drained(Take(AfterFlush(queue, server, parking, during), EndMark)) != Drain(server, wanted);
    }
  }

  // ---------- one input for each order ----------

  /** A queue of one register with one entry, sent and accepted while no other is flushed. */
  lemma SentAndAccepted(a: Sheet, student: nat, mark: Mark, during: seq<Step>)
    requires a.entries == [Entry(student, mark)] && During(during) && AnswersIn(during) == [Accepted]
    ensures var after := AfterFlush([a], map[], None, during);
      after.queue == [] && after.server == map[Key(a.classId, student, a.day) := mark]
  {
    WriteBackOverwrites([a], map[], None, during);
    assert [a][..0] == [] && [Accepted][..0] == [];
    assert Select([a], [Accepted], HasFailed) == [] && Select([a], [Accepted], WasApplied) == [a];
    assert Drain(map[], [a]) == WriteSheet(Drain(map[], []), a, {});
    assert Upserts(map[], a, {}, 1) == Upserts(map[], a, {}, 0)[KeyOf(a, 0) := mark];
  }

  lemma AnswersInside(b: Sheet)
    ensures During([StartMark(b), EndMark, Send(Accepted)])
    ensures AnswersIn([StartMark(b), EndMark, Send(Accepted)]) == [Accepted]
  {
    var during := [StartMark(b), EndMark, Send(Accepted)];
    assert during[1..] == [EndMark, Send(Accepted)] && during[1..][1..] == [Send(Accepted)];
    assert AnswersIn(during[1..][1..]) == [Accepted];
    assert AnswersIn(during[1..]) == [Accepted];
  }

  lemma AnswersAcross(b: Sheet)
    ensures During([StartMark(b), Send(Accepted)]) && AnswersIn([StartMark(b), Send(Accepted)]) == [Accepted]
    ensures StaysPending(None, [StartMark(b), Send(Accepted)], b)
  {
    var during := [StartMark(b), Send(Accepted)];
    assert during[1..] == [Send(Accepted)] && [Send(Accepted)][1..] == [];
    assert AnswersIn(during[1..]) == [Accepted];
  }

  lemma QueuedBeside(a: Sheet, b: Sheet)
    requires !SameRegister(a, b)
    ensures Enqueue([a], b) == [a, b]
  {
    assert [a][..0] == [];
    assert Without([a], b) == [a];
  }

  /** Another register marked while this one is being sent: the flush writes an empty queue over it. */
  lemma MarkedInside(a: Sheet, b: Sheet, student: nat, mark: Mark)
    requires a.entries == [Entry(student, mark)]
    ensures var during := [StartMark(b), EndMark, Send(Accepted)];
      var after := Run(App([a], map[], None, None), [StartFlush] + during + [EndFlush] + []);
      after.queue == [] && after.server == map[Key(a.classId, student, a.day) := mark]
  {
    var during := [StartMark(b), EndMark, Send(Accepted)];
    AnswersInside(b);
    SentAndAccepted(a, student, mark, during);
    AfterFlushIsARun([a], map[], None, during, []);
  }

  /** The same register written after the flush: it is kept, and the one already sent is queued again. */
  lemma MarkedAcross(a: Sheet, b: Sheet, student: nat, mark: Mark, during: seq<Step>)
    requires a.entries == [Entry(student, mark)] && !SameRegister(a, b)
    requires During(during) && AnswersIn(during) == [Accepted] && StaysPending(None, during, b)
    ensures var after := Run(App([a], map[], None, None), [StartFlush] + during + [EndFlush] + [EndMark]);
      after.queue == [a, b] && after.server == map[Key(a.classId, student, a.day) := mark]
  {
    SentAndAccepted(a, student, mark, during);
    LateMarkRequeues([a], map[], None, during, b);
    AfterFlushIsARun([a], map[], None, during, [EndMark]);
    RunOne(AfterFlush([a], map[], None, during), EndMark);
    QueuedBeside(a, b);
  }

  lemma RunOne(app: App, step: Step)
    ensures Run(app, [step]) == Take(app, step)
  {
    assert [step][1..] == [];
  }

  lemma MarkedWhileFlushingIsLost()
    ensures var a, b := Sheet(1, 5, [Entry(7, Absent)]), Sheet(2, 5, [Entry(9, Absent)]);
      var steps := [StartFlush, StartMark(b), EndMark, Send(Accepted), EndFlush];
      var after := Run(App([a], map[], None, None), steps);
      after.queue == [] && after.server == map[Key(1, 7, 5) := Absent]
  {
    var a, b := Sheet(1, 5, [Entry(7, Absent)]), Sheet(2, 5, [Entry(9, Absent)]);
    MarkedInside(a, b, 7, Absent);
    assert [StartFlush] + [StartMark(b), EndMark, Send(Accepted)] + [EndFlush] + []
        == [StartFlush, StartMark(b), EndMark, Send(Accepted), EndFlush];
  }

  lemma MarkedAcrossWriteBackIsKept()
    ensures var a, b := Sheet(1, 5, [Entry(7, Absent)]), Sheet(2, 5, [Entry(9, Absent)]);
      var steps := [StartFlush, StartMark(b), Send(Accepted), EndFlush, EndMark];
      var after := Run(App([a], map[], None, None), steps);
      after.queue == [a, b] && after.server == map[Key(1, 7, 5) := Absent]
  {
    var a, b := Sheet(1, 5, [Entry(7, Absent)]), Sheet(2, 5, [Entry(9, Absent)]);
    AnswersAcross(b);
    MarkedAcross(a, b, 7, Absent, [StartMark(b), Send(Accepted)]);
    assert [StartFlush] + [StartMark(b), Send(Accepted)] + [EndFlush] + [EndMark]
        == [StartFlush, StartMark(b), Send(Accepted), EndFlush, EndMark];
  }
}
