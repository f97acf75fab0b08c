/**
 * The mobile app's queue of registers marked offline (apps/mobile/lib/offline-queue.ts), drained
 * into the submitted marks of the register. The network is a list of answers.
 */
module OfflineQueue {
  import opened Register

  type Marks = map<Key, Mark>

  /** What became of one attempt to send: a lost reply may hide a register that was applied. */
  datatype Answer = Accepted | Refused | Failed(applied: bool)

  datatype FlushResult = FlushResult(synced: nat, remaining: nat, discarded: nat)

  predicate WasApplied(a: Answer) { a.Accepted? || (a.Failed? && a.applied) }

  predicate WasAccepted(a: Answer) { a.Accepted? }

  predicate WasRefused(a: Answer) { a.Refused? }

  predicate HasFailed(a: Answer) { a.Failed? }

  predicate NotRefused(a: Answer) { !a.Refused? }

  predicate SameRegister(a: Sheet, b: Sheet)
  {
    a.classId == b.classId && a.day == b.day
  }

  /** The queue without any earlier version of a register. */
  function Without(queue: seq<Sheet>, sheet: Sheet): seq<Sheet>
  {
    if queue == [] then []
    else
      var n := |queue| - 1;
      Without(queue[..n], sheet) + (if SameRegister(queue[n], sheet) then [] else [queue[n]])
  }

  function Enqueue(queue: seq<Sheet>, sheet: Sheet): seq<Sheet>
  {
    Without(queue, sheet) + [sheet]
  }

  /** The sheets of a queue whose answers satisfy `wanted`, in queue order. */
  function Select(queue: seq<Sheet>, answers: seq<Answer>, wanted: Answer -> bool): seq<Sheet>
    requires |answers| == |queue|
  {
    if queue == [] then []
    else
      var n := |queue| - 1;
      Select(queue[..n], answers[..n], wanted) + (if wanted(answers[n]) then [queue[n]] else [])
  }

  lemma SelectNext(queue: seq<Sheet>, answers: seq<Answer>, wanted: Answer -> bool, i: nat)
    requires |answers| == |queue| && i < |queue|
    ensures var before := Select(queue[..i], answers[..i], wanted);
      Select(queue[..i + 1], answers[..i + 1], wanted) == if wanted(answers[i]) then before + [queue[i]] else before
  {
    assert queue[..i + 1][..i] == queue[..i] && answers[..i + 1][..i] == answers[..i];
  }

  /** Sending registers to the server one after the other. */
  function Drain(server: Marks, sheets: seq<Sheet>): Marks
  {
    if sheets == [] then server
    else WriteSheet(Drain(server, sheets[..|sheets| - 1]), sheets[|sheets| - 1], {})
  }

  lemma DrainOne(server: Marks, sheets: seq<Sheet>, sheet: Sheet)
    ensures Drain(server, sheets + [sheet]) == WriteSheet(Drain(server, sheets), sheet, {})
  {
    assert (sheets + [sheet])[..|sheets|] == sheets;
  }

  ghost predicate DistinctRegisters(queue: seq<Sheet>)
  {
    forall i, j :: 0 <= i < j < |queue| ==> !SameRegister(queue[i], queue[j])
  }

  /** What a flush has done with a queue answered like this. */
  ghost predicate Flushed(queue: seq<Sheet>, answers: seq<Answer>, before: Marks,
                          after: Marks, remaining: seq<Sheet>, synced: nat, discarded: nat)
    requires |answers| == |queue|
  {
    && after == Drain(before, Select(queue, answers, WasApplied))
    && remaining == Select(queue, answers, HasFailed)
    && synced == |Select(queue, answers, WasAccepted)|
    && discarded == |Select(queue, answers, WasRefused)|
  }

  lemma FlushNext(queue: seq<Sheet>, answers: seq<Answer>, i: nat, before: Marks,
                  after: Marks, remaining: seq<Sheet>, synced: nat, discarded: nat)
    requires |answers| == |queue| && i < |queue|
    requires Flushed(queue[..i], answers[..i], before, after, remaining, synced, discarded)
    ensures var a, item := answers[i], queue[i];
      Flushed(queue[..i + 1], answers[..i + 1], before,
              if WasApplied(a) then WriteSheet(after, item, {}) else after,
              if HasFailed(a) then remaining + [item] else remaining,
              if WasAccepted(a) then synced + 1 else synced,
              if WasRefused(a) then discarded + 1 else discarded)
  {
    SelectNext(queue, answers, HasFailed, i);
    SelectNext(queue, answers, WasApplied, i);
    SelectNext(queue, answers, WasAccepted, i);
    SelectNext(queue, answers, WasRefused, i);
    DrainOne(before, Select(queue[..i], answers[..i], WasApplied), queue[i]);
  }

  /** Every register is synced, discarded or kept. */
  lemma {:induction false} EveryAnswerCounts(queue: seq<Sheet>, answers: seq<Answer>)
    requires |answers| == |queue|
    ensures |Select(queue, answers, WasAccepted)| + |Select(queue, answers, HasFailed)|
          + |Select(queue, answers, WasRefused)| == |queue|
  {
    if queue != [] {
      EveryAnswerCounts(queue[..|queue| - 1], answers[..|queue| - 1]);
    }
  }

  // ---------- the queue on the device ----------

  class Device {
    /** The stored queue, and the marks the server holds. */
    var queue: seq<Sheet>
    var server: Marks

    constructor (server: Marks)
      ensures queue == [] && this.server == server
    {
      queue := [];
      this.server := server;
    }

    method EnqueueAttendance(sheet: Sheet)
      modifies this`queue
      ensures queue == Enqueue(old(queue), sheet)
    {
      var withoutSameRegister := [];
      for i := 0 to |queue|
        invariant withoutSameRegister == Without(queue[..i], sheet)
      {
        assert queue[..i + 1][..i] == queue[..i];
        if !SameRegister(queue[i], sheet) {
          withoutSameRegister := withoutSameRegister + [queue[i]];
        }
      }
      assert queue[..|queue|] == queue;
      queue := withoutSameRegister + [sheet];
    }

    /** Each item is synced, discarded or kept in order, and the server got what was applied. */
    method FlushAttendanceQueue(answers: seq<Answer>) returns (result: FlushResult)
      requires |answers| == |queue|
      modifies this
      ensures Flushed(old(queue), answers, old(server), server, queue, result.synced, result.discarded)
      ensures result.remaining == |queue| && result.synced + result.remaining + result.discarded == |old(queue)|
    {
      var pending := queue;
      var stillQueued: seq<Sheet> := [];
      var synced, discarded := 0, 0;
      for i := 0 to |pending|
        invariant Flushed(pending[..i], answers[..i], old(server), server, stillQueued, synced, discarded)
      {
        var item, answer := pending[i], answers[i];
        FlushNext(pending, answers, i, old(server), server, stillQueued, synced, discarded);
        server := if WasApplied(answer) then WriteSheet(server, item, {}) else server;
        stillQueued := if HasFailed(answer) then stillQueued + [item] else stillQueued;
        synced := if WasAccepted(answer) then synced + 1 else synced;
        discarded := if WasRefused(answer) then discarded + 1 else discarded;
      }
      assert pending[..|pending|] == pending && answers[..|pending|] == answers;
      EveryAnswerCounts(pending, answers);
      queue := stillQueued;
      result := FlushResult(synced, |stillQueued|, discarded);
    }
  }

  // ---------- what a list of registers does to one record ----------

  /** The last word of a register on a record, if it names it. */
  function Word(sheet: Sheet, k: Key): (m: seq<Mark>)
    ensures |m| <= 1
  {
    if k.classId == sheet.classId && k.day == sheet.day then FinalMark(sheet, k.student, |sheet.entries|) else []
  }

  /** The last word of a list of registers on a record. */
  function LastWord(sheets: seq<Sheet>, k: Key): (m: seq<Mark>)
    ensures |m| <= 1
  {
    if sheets == [] then []
    else if Word(sheets[|sheets| - 1], k) != [] then Word(sheets[|sheets| - 1], k)
    else LastWord(sheets[..|sheets| - 1], k)
  }

  lemma {:induction false} DrainAt(server: Marks, sheets: seq<Sheet>, k: Key)
    ensures var after, word := Drain(server, sheets), LastWord(sheets, k);
      if word == [] then (k in after <==> k in server) && (k in server ==> after[k] == server[k])
      else k in after && after[k] == word[0]
  {
    if sheets != [] {
      var n := |sheets| - 1;
      DrainAt(server, sheets[..n], k);
      UpsertsAt(Drain(server, sheets[..n]), sheets[n], {}, |sheets[n].entries|, k);
    }
  }

  /** Two lists with the same last word on every record leave the server the same. */
  lemma SameWordsSameServer(server: Marks, a: seq<Sheet>, b: seq<Sheet>)
    requires forall k :: LastWord(a, k) == LastWord(b, k)
    ensures Drain(server, a) == Drain(server, b)
  {
    forall k: Key
      ensures k in Drain(server, a) <==> k in Drain(server, b)
      ensures k in Drain(server, a) ==> Drain(server, a)[k] == Drain(server, b)[k]
    {
      DrainAt(server, a, k);
      DrainAt(server, b, k);
    }
    assert Drain(server, a).Keys == Drain(server, b).Keys;
  }

  ghost predicate SameEffect(a: seq<Sheet>, b: seq<Sheet>)
  {
    forall server :: Drain(server, a) == Drain(server, b)
  }

  /** Two lists have the same effect on every server exactly when they have the same last word on every record. */
  lemma SameEffectExactly(a: seq<Sheet>, b: seq<Sheet>)
    ensures SameEffect(a, b) <==> forall k :: LastWord(a, k) == LastWord(b, k)
  {
    if k :| LastWord(a, k) != LastWord(b, k) {
      DrainAt(map[], a, k);
      DrainAt(map[], b, k);
      assert Drain(map[], a) != Drain(map[], b);
    } else {
      forall server
        ensures Drain(server, a) == Drain(server, b)
      {
        SameWordsSameServer(server, a, b);
      }
    }
  }

  lemma {:induction false} DrainConcat(server: Marks, a: seq<Sheet>, b: seq<Sheet>)
    ensures Drain(server, a + b) == Drain(Drain(server, a), b)
  {
    if b == [] {
      assert a + b == a;
    } else {
      assert (a + b)[..|a + b| - 1] == a + b[..|b| - 1];
      DrainConcat(server, a, b[..|b| - 1]);
    }
  }

  lemma {:induction false} LastWordConcat(a: seq<Sheet>, b: seq<Sheet>, k: Key)
    ensures LastWord(a + b, k) == if LastWord(b, k) != [] then LastWord(b, k) else LastWord(a, k)
  {
    if b == [] {
      assert a + b == a;
    } else {
      assert (a + b)[..|a + b| - 1] == a + b[..|b| - 1];
      LastWordConcat(a, b[..|b| - 1], k);
    }
  }

  // ---------- enqueueing ----------

  lemma {:induction false} WithoutMembers(queue: seq<Sheet>, sheet: Sheet, s: Sheet)
    ensures s in Without(queue, sheet) <==> s in queue && !SameRegister(s, sheet)
  {
    if queue != [] {
      WithoutMembers(queue[..|queue| - 1], sheet, s);
      assert queue == queue[..|queue| - 1] + [queue[|queue| - 1]];
    }
  }

  /** On records of other registers, and of this one where no dropped version spoke, dropping changes nothing. */
  lemma {:induction false} WithoutWord(queue: seq<Sheet>, sheet: Sheet, k: Key)
    requires forall s :: s in queue && SameRegister(s, sheet) ==> Word(s, k) == []
    ensures LastWord(Without(queue, sheet), k) == LastWord(queue, k)
  {
    if queue != [] {
      var n := |queue| - 1;
      assert queue == queue[..n] + [queue[n]];
      WithoutWord(queue[..n], sheet, k);
      var kept := Without(queue[..n], sheet);
      if SameRegister(queue[n], sheet) {
        assert queue[n] in queue;
        assert Without(queue, sheet) == kept;
      } else {
        assert (kept + [queue[n]])[..|kept|] == kept;
      }
    }
  }

  /** The students a register names. */
  ghost predicate Names(sheet: Sheet, student: nat)
  {
    FinalMark(sheet, student, |sheet.entries|) != []
  }

  /** Every student of a replaced version is marked again by the new one. */
  ghost predicate Supersedes(queue: seq<Sheet>, sheet: Sheet)
  {
    forall s, student :: s in queue && SameRegister(s, sheet) && Names(s, student) ==> Names(sheet, student)
  }

  lemma SupersedingWords(queue: seq<Sheet>, sheet: Sheet, k: Key)
    requires Supersedes(queue, sheet)
    ensures LastWord(Enqueue(queue, sheet), k) == LastWord(queue + [sheet], k)
  {
    var kept := Without(queue, sheet);
    assert (kept + [sheet])[..|kept|] == kept && (queue + [sheet])[..|queue|] == queue;
    if Word(sheet, k) == [] {
      forall s | s in queue && SameRegister(s, sheet)
        ensures Word(s, k) == []
      {
        assert Names(s, k.student) ==> Names(sheet, k.student);
      }
      WithoutWord(queue, sheet, k);
    }
  }

  lemma {:induction false} SomeWord(queue: seq<Sheet>, s: Sheet, k: Key)
    requires s in queue && Word(s, k) != []
    ensures LastWord(queue, k) != []
  {
    var n := |queue| - 1;
    if Word(queue[n], k) == [] {
      assert s in queue[..n];
      SomeWord(queue[..n], s, k);
    }
  }

  lemma {:induction false} NoWord(queue: seq<Sheet>, k: Key)
    requires forall s :: s in queue ==> Word(s, k) == []
    ensures LastWord(queue, k) == []
  {
    if queue != [] {
      NoWord(queue[..|queue| - 1], k);
    }
  }

  /** A student the dropped version marked and the new one does not is forgotten. */
  lemma ForgottenWord(queue: seq<Sheet>, sheet: Sheet, s: Sheet, student: nat)
    requires s in queue && SameRegister(s, sheet) && Names(s, student) && !Names(sheet, student)
    ensures var k := Key(sheet.classId, student, sheet.day);
      LastWord(Enqueue(queue, sheet), k) == [] && LastWord(queue + [sheet], k) != []
  {
    var k := Key(sheet.classId, student, sheet.day);
    forall t | t in Enqueue(queue, sheet)
      ensures Word(t, k) == []
    {
      WithoutMembers(queue, sheet, t);
    }
    NoWord(Enqueue(queue, sheet), k);
    SomeWord(queue + [sheet], s, k);
  }

  /**
   * Replacing the earlier version of a register loses nothing, whatever the server holds, exactly
   * when the new version marks every student the earlier one did.
   */
  lemma ReplacingLosesNothingExactly(queue: seq<Sheet>, sheet: Sheet)
    ensures SameEffect(Enqueue(queue, sheet), queue + [sheet]) <==> Supersedes(queue, sheet)
  {
    SameEffectExactly(Enqueue(queue, sheet), queue + [sheet]);
    if Supersedes(queue, sheet) {
      forall k
        ensures LastWord(Enqueue(queue, sheet), k) == LastWord(queue + [sheet], k)
      {
        SupersedingWords(queue, sheet, k);
      }
    } else {
      var s, student :| s in queue && SameRegister(s, sheet) && Names(s, student) && !Names(sheet, student);
      ForgottenWord(queue, sheet, s, student);
    }
  }

  /** A register marked for two students and then again for one of them: the other's mark never reaches the server. */
  lemma ReplacedRegisterLosesAMark()
    ensures var first, second := Sheet(1, 5, [Entry(7, Absent), Entry(8, Late)]), Sheet(1, 5, [Entry(7, Present)]);
      && Drain(map[], Enqueue(Enqueue([], first), second)) == map[Key(1, 7, 5) := Present]
      && Drain(map[], [first, second]) == map[Key(1, 7, 5) := Present, Key(1, 8, 5) := Late]
  {
    var first, second := Sheet(1, 5, [Entry(7, Absent), Entry(8, Late)]), Sheet(1, 5, [Entry(7, Present)]);
    assert [first][..0] == [] && SameRegister(first, second);
    assert Without([first], second) == [];
    assert Enqueue([], first) == [first] && Enqueue([first], second) == [second];
    var both := map[Key(1, 7, 5) := Absent, Key(1, 8, 5) := Late];
    assert Upserts(map[], first, {}, 1) == Upserts(map[], first, {}, 0)[Key(1, 7, 5) := Absent];
    assert Upserts(map[], first, {}, 2) == Upserts(map[], first, {}, 1)[Key(1, 8, 5) := Shown(Late, false)];
    forall server: Marks
      ensures WriteSheet(server, second, {}) == server[Key(1, 7, 5) := Present]
    {
      assert Upserts(server, second, {}, 1) == Upserts(server, second, {}, 0)[Key(1, 7, 5) := Present];
    }
    assert Drain(map[], [second]) == WriteSheet(Drain(map[], []), second, {});
    assert Drain(map[], [first]) == WriteSheet(Drain(map[], []), first, {}) == both;
    assert [first, second][..1] == [first];
  }

  lemma {:induction false} WithoutDistinct(queue: seq<Sheet>, sheet: Sheet)
    requires DistinctRegisters(queue)
    ensures DistinctRegisters(Without(queue, sheet))
  {
    if queue != [] {
      var n := |queue| - 1;
      var kept := Without(queue[..n], sheet);
      WithoutDistinct(queue[..n], sheet);
      forall i | 0 <= i < |kept|
        ensures !SameRegister(kept[i], queue[n])
      {
        WithoutMembers(queue[..n], sheet, kept[i]);
      }
    }
  }

  lemma EnqueueDistinct(queue: seq<Sheet>, sheet: Sheet)
    requires DistinctRegisters(queue)
    ensures DistinctRegisters(Enqueue(queue, sheet))
  {
    WithoutDistinct(queue, sheet);
    forall i | 0 <= i < |Without(queue, sheet)|
      ensures !SameRegister(Without(queue, sheet)[i], sheet)
    {
      WithoutMembers(queue, sheet, Without(queue, sheet)[i]);
    }
  }

  // ---------- flushing ----------

  lemma {:induction false} SelectMembers(queue: seq<Sheet>, answers: seq<Answer>, wanted: Answer -> bool)
    requires |answers| == |queue|
    ensures forall i :: 0 <= i < |queue| && wanted(answers[i]) ==> queue[i] in Select(queue, answers, wanted)
    ensures forall s :: s in Select(queue, answers, wanted) ==>
      exists i :: 0 <= i < |queue| && queue[i] == s && wanted(answers[i])
  {
    if queue != [] {
      var n := |queue| - 1;
      SelectMembers(queue[..n], answers[..n], wanted);
      forall s | s in Select(queue, answers, wanted)
        ensures exists i :: 0 <= i < |queue| && queue[i] == s && wanted(answers[i])
      {
        if s in Select(queue[..n], answers[..n], wanted) {
          var i :| 0 <= i < n && queue[..n][i] == s && wanted(answers[..n][i]);
          assert queue[i] == s;
        }
      }
    }
  }

  lemma {:induction false} SelectDistinct(queue: seq<Sheet>, answers: seq<Answer>, wanted: Answer -> bool)
    requires |answers| == |queue| && DistinctRegisters(queue)
    ensures DistinctRegisters(Select(queue, answers, wanted))
  {
    if queue != [] {
      var n := |queue| - 1;
      SelectDistinct(queue[..n], answers[..n], wanted);
      SelectMembers(queue[..n], answers[..n], wanted);
      var kept := Select(queue[..n], answers[..n], wanted);
      forall i | 0 <= i < |kept|
        ensures !SameRegister(kept[i], queue[n])
      {
        assert kept[i] in kept;
        var j :| 0 <= j < n && queue[..n][j] == kept[i];
        assert queue[j] == kept[i];
      }
    }
  }

  lemma LastWordAppend(sheets: seq<Sheet>, s: Sheet, k: Key)
    ensures LastWord(sheets + [s], k) == if Word(s, k) != [] then Word(s, k) else LastWord(sheets, k)
  {
    var more := sheets + [s];
    assert more[|more| - 1] == s && more[..|more| - 1] == sheets;
  }

  /** At most one queued register speaks of a record: the answer to it decides whether its word is selected. */
  lemma {:induction false} SelectedWord(queue: seq<Sheet>, answers: seq<Answer>, wanted: Answer -> bool, k: Key, i: nat)
    requires |answers| == |queue| && DistinctRegisters(queue) && i < |queue| && Word(queue[i], k) != []
    ensures LastWord(Select(queue, answers, wanted), k) == if wanted(answers[i]) then Word(queue[i], k) else []
  {
    var n := |queue| - 1;
    var earlier := Select(queue[..n], answers[..n], wanted);
    assert Select(queue, answers, wanted) == if wanted(answers[n]) then earlier + [queue[n]] else earlier;
    LastWordAppend(earlier, queue[n], k);
    if i < n {
      assert !SameRegister(queue[i], queue[n]);
      SelectedWord(queue[..n], answers[..n], wanted, k, i);
    } else {
      forall j | 0 <= j < n
        ensures Word(queue[..n][j], k) == []
      {
        assert !SameRegister(queue[j], queue[n]);
      }
      SelectedSilence(queue[..n], answers[..n], wanted, k);
    }
  }

  lemma SelectedSilence(queue: seq<Sheet>, answers: seq<Answer>, wanted: Answer -> bool, k: Key)
    requires |answers| == |queue| && forall i :: 0 <= i < |queue| ==> Word(queue[i], k) == []
    ensures LastWord(Select(queue, answers, wanted), k) == []
  {
    SelectMembers(queue, answers, wanted);
    NoWord(Select(queue, answers, wanted), k);
  }

  lemma FlushWords(queue: seq<Sheet>, answers: seq<Answer>, k: Key)
    requires |answers| == |queue| && DistinctRegisters(queue)
    ensures LastWord(Select(queue, answers, WasApplied) + Select(queue, answers, HasFailed), k)
         == LastWord(Select(queue, answers, NotRefused), k)
  {
    LastWordConcat(Select(queue, answers, WasApplied), Select(queue, answers, HasFailed), k);
    if i :| 0 <= i < |queue| && Word(queue[i], k) != [] {
      SelectedWord(queue, answers, WasApplied, k, i);
      SelectedWord(queue, answers, HasFailed, k, i);
      SelectedWord(queue, answers, NotRefused, k, i);
    } else {
      SelectedSilence(queue, answers, WasApplied, k);
      SelectedSilence(queue, answers, HasFailed, k);
      SelectedSilence(queue, answers, NotRefused, k);
    }
  }

  /**
   * Whatever mix of replies, lost replies and refusals: what the server has after a flush, together
   * with what is still queued, is what sending everything not refused in order would have given.
   */
  lemma FlushLosesNothing(server: Marks, queue: seq<Sheet>, answers: seq<Answer>)
    requires |answers| == |queue| && DistinctRegisters(queue)
    ensures Drain(Drain(server, Select(queue, answers, WasApplied)), Select(queue, answers, HasFailed))
         == Drain(server, Select(queue, answers, NotRefused))
  {
    var applied, failed := Select(queue, answers, WasApplied), Select(queue, answers, HasFailed);
    forall k
      ensures LastWord(applied + failed, k) == LastWord(Select(queue, answers, NotRefused), k)
    {
      FlushWords(queue, answers, k);
    }
    SameWordsSameServer(server, applied + failed, Select(queue, answers, NotRefused));
    DrainConcat(server, applied, failed);
  }

  lemma {:induction false} NothingRefused(queue: seq<Sheet>, answers: seq<Answer>)
    requires |answers| == |queue| && forall i :: 0 <= i < |answers| ==> !answers[i].Refused?
    ensures Select(queue, answers, NotRefused) == queue
  {
    if queue != [] {
      NothingRefused(queue[..|queue| - 1], answers[..|queue| - 1]);
    }
  }

  // ---------- which registers, in which order ----------

  /** Where the wanted ones are among the first `n`, in order. */
  function Where(answers: seq<Answer>, wanted: Answer -> bool, n: nat): (places: seq<nat>)
    requires n <= |answers|
    ensures forall m :: 0 <= m < |places| ==> places[m] < n
  {
    if n == 0 then [] else Where(answers, wanted, n - 1) + (if wanted(answers[n - 1]) then [n - 1] else [])
  }

  lemma {:induction false} WhereExactly(answers: seq<Answer>, wanted: Answer -> bool, n: nat)
    requires n <= |answers|
    ensures forall i: nat :: i in Where(answers, wanted, n) <==> i < n && wanted(answers[i])
    ensures forall m, k :: 0 <= m < k < |Where(answers, wanted, n)| ==>
      Where(answers, wanted, n)[m] < Where(answers, wanted, n)[k]
  {
    if n > 0 {
      WhereExactly(answers, wanted, n - 1);
    }
  }

  lemma {:induction false} SelectedThere(queue: seq<Sheet>, answers: seq<Answer>, wanted: Answer -> bool)
    requires |answers| == |queue|
    ensures var places := Where(answers, wanted, |answers|);
      |Select(queue, answers, wanted)| == |places|
      && forall m :: 0 <= m < |places| ==> Select(queue, answers, wanted)[m] == queue[places[m]]
  {
    if queue != [] {
      var n := |queue| - 1;
      SelectedThere(queue[..n], answers[..n], wanted);
      SameWhere(answers[..n], answers, wanted, n);
    }
  }

  lemma {:induction false} SameWhere(a: seq<Answer>, b: seq<Answer>, wanted: Answer -> bool, n: nat)
    requires n <= |a| && n <= |b| && a[..n] == b[..n]
    ensures Where(a, wanted, n) == Where(b, wanted, n)
  {
    if n > 0 {
      assert a[..n - 1] == a[..n][..n - 1] && b[..n - 1] == b[..n][..n - 1];
      assert a[n - 1] == a[..n][n - 1] && b[n - 1] == b[..n][n - 1];
      SameWhere(a, b, wanted, n - 1);
    }
  }

  function WantedOf(answers: seq<Answer>, wanted: Answer -> bool, n: nat): set<nat>
    requires n <= |answers|
  {
    set i: nat | i < n && wanted(answers[i])
  }

  lemma WantedNext(answers: seq<Answer>, wanted: Answer -> bool, n: nat)
    requires n < |answers|
    ensures WantedOf(answers, wanted, n + 1) ==
      if wanted(answers[n]) then WantedOf(answers, wanted, n) + {n} else WantedOf(answers, wanted, n)
  {
  }

  /** How many of the answers are wanted. */
  lemma {:induction false} WhereCounts(answers: seq<Answer>, wanted: Answer -> bool, n: nat)
    requires n <= |answers|
    ensures |Where(answers, wanted, n)| == |WantedOf(answers, wanted, n)|
  {
    if n > 0 {
      WhereCounts(answers, wanted, n - 1);
      WantedNext(answers, wanted, n - 1);
    }
  }

  /**
   * What a flush has done, answer by answer: synced counts the registers accepted and discarded those
   * refused; exactly those that failed stay queued, in order; and the server got, in order, exactly those
   * accepted and those whose reply was lost after they had been applied.
   */
  lemma FlushSplits(queue: seq<Sheet>, answers: seq<Answer>, before: Marks,
                    after: Marks, remaining: seq<Sheet>, synced: nat, discarded: nat)
    requires |answers| == |queue| && Flushed(queue, answers, before, after, remaining, synced, discarded)
    ensures synced == |set i: nat | i < |answers| && answers[i].Accepted?|
    ensures discarded == |set i: nat | i < |answers| && answers[i].Refused?|
    ensures var places := Where(answers, (a: Answer) => a.Failed?, |answers|);
      |remaining| == |places| && forall m :: 0 <= m < |places| ==> remaining[m] == queue[places[m]]
    ensures after == Drain(before, Select(queue, answers, (a: Answer) => a.Accepted? || a == Failed(true)))
  {
    SelectedThere(queue, answers, WasAccepted);
    SelectedThere(queue, answers, WasRefused);
    SelectedThere(queue, answers, HasFailed);
    WhereCounts(answers, WasAccepted, |answers|);
    WhereCounts(answers, WasRefused, |answers|);
    SameWanted(answers, HasFailed, (a: Answer) => a.Failed?, |answers|);
    SameSelected(queue, answers, WasApplied, (a: Answer) => a.Accepted? || a == Failed(true));
    assert WantedOf(answers, WasAccepted, |answers|) == set i: nat | i < |answers| && answers[i].Accepted?;
    assert WantedOf(answers, WasRefused, |answers|) == set i: nat | i < |answers| && answers[i].Refused?;
  }

  lemma {:induction false} SameWanted(answers: seq<Answer>, f: Answer -> bool, g: Answer -> bool, n: nat)
    requires n <= |answers| && forall a :: f(a) == g(a)
    ensures Where(answers, f, n) == Where(answers, g, n)
  {
    if n > 0 {
      SameWanted(answers, f, g, n - 1);
    }
  }

  lemma {:induction false} SameSelected(queue: seq<Sheet>, answers: seq<Answer>, f: Answer -> bool, g: Answer -> bool)
    requires |answers| == |queue| && forall a :: f(a) == g(a)
    ensures Select(queue, answers, f) == Select(queue, answers, g)
  {
    if queue != [] {
      SameSelected(queue[..|queue| - 1], answers[..|queue| - 1], f, g);
    }
  }

  /** Where the registers of other classes or days are among the first `n`, in order. */
  function OtherPlaces(queue: seq<Sheet>, sheet: Sheet, n: nat): (places: seq<nat>)
    requires n <= |queue|
    ensures forall m :: 0 <= m < |places| ==> places[m] < n
  {
    if n == 0 then []
    else
      var same := queue[n - 1].classId == sheet.classId && queue[n - 1].day == sheet.day;
      OtherPlaces(queue, sheet, n - 1) + (if same then [] else [n - 1])
  }

  lemma {:induction false} OtherPlacesExactly(queue: seq<Sheet>, sheet: Sheet, n: nat)
    requires n <= |queue|
    ensures forall i: nat :: i in OtherPlaces(queue, sheet, n) <==>
      i < n && !(queue[i].classId == sheet.classId && queue[i].day == sheet.day)
    ensures forall m, k :: 0 <= m < k < |OtherPlaces(queue, sheet, n)| ==>
      OtherPlaces(queue, sheet, n)[m] < OtherPlaces(queue, sheet, n)[k]
  {
    if n > 0 {
      OtherPlacesExactly(queue, sheet, n - 1);
    }
  }

  lemma {:induction false} OtherPlacesKept(queue: seq<Sheet>, sheet: Sheet, n: nat)
    requires n <= |queue|
    ensures |Without(queue[..n], sheet)| == |OtherPlaces(queue, sheet, n)|
    ensures forall m :: 0 <= m < |OtherPlaces(queue, sheet, n)| ==>
      Without(queue[..n], sheet)[m] == queue[OtherPlaces(queue, sheet, n)[m]]
  {
    if n > 0 {
      OtherPlacesKept(queue, sheet, n - 1);
      assert queue[..n][..n - 1] == queue[..n - 1];
    }
  }

  /** Enqueueing keeps exactly the registers of other classes or days, in order, and puts the new one last. */
  lemma EnqueuedInOrder(queue: seq<Sheet>, sheet: Sheet)
    ensures var after, places := Enqueue(queue, sheet), OtherPlaces(queue, sheet, |queue|);
      && |after| == |places| + 1 && after[|places|] == sheet
      && forall m :: 0 <= m < |places| ==> after[m] == queue[places[m]]
  {
    OtherPlacesKept(queue, sheet, |queue|);
    assert queue[..|queue|] == queue;
  }

  // ---------- every run ----------

  datatype Event = Mark(sheet: Sheet) | Flush(answers: seq<Answer>)

  datatype Phone = Phone(queue: seq<Sheet>, server: Marks)

  ghost function Apply(p: Phone, e: Event): Phone
  {
    match e
    case Mark(sheet) => Phone(Enqueue(p.queue, sheet), p.server)
    case Flush(answers) =>
      if |answers| != |p.queue| then p
      else Phone(Select(p.queue, answers, HasFailed), Drain(p.server, Select(p.queue, answers, WasApplied)))
  }

  ghost function Run(p: Phone, events: seq<Event>): Phone
    decreases |events|
  {
    if events == [] then p else Run(Apply(p, events[0]), events[1..])
  }

  /** The registers marked over a run, in order. */
  function Marked(events: seq<Event>): seq<Sheet>
  {
    if events == [] then []
    else (if events[0].Mark? then [events[0].sheet] else []) + Marked(events[1..])
  }

  ghost predicate NeverRefused(events: seq<Event>)
  {
    forall i, j :: 0 <= i < |events| && events[i].Flush? && 0 <= j < |events[i].answers| ==>
      !events[i].answers[j].Refused?
  }

  /** All versions of one register list the same students. */
  ghost predicate Uniform(sheets: set<Sheet>)
  {
    forall a, b, student :: a in sheets && b in sheets && SameRegister(a, b) ==>
      (Names(a, student) <==> Names(b, student))
  }

  lemma MarkStep(p: Phone, sheet: Sheet)
    requires Supersedes(p.queue, sheet)
    ensures Drain(p.server, Enqueue(p.queue, sheet)) == Drain(Drain(p.server, p.queue), [sheet])
  {
    ReplacingLosesNothingExactly(p.queue, sheet);
    assert Drain(p.server, Enqueue(p.queue, sheet)) == Drain(p.server, p.queue + [sheet]);
    DrainConcat(p.server, p.queue, [sheet]);
  }

  /**
   * Compaction and retries preserve meaning. From any moment on, the server after draining what is
   * queued is the server as if every register marked had been sent at once and in order; once the
   * queue is empty, that is what the server holds.
   */
  lemma {:induction false} QueueKeepsMeaning(p: Phone, events: seq<Event>, sheets: set<Sheet>)
    requires DistinctRegisters(p.queue) && NeverRefused(events) && Uniform(sheets)
    requires forall s :: s in p.queue || s in Marked(events) ==> s in sheets
    ensures var after := Run(p, events);
      && DistinctRegisters(after.queue)
      && Drain(after.server, after.queue) == Drain(Drain(p.server, p.queue), Marked(events))
      && (after.queue == [] ==> after.server == Drain(Drain(p.server, p.queue), Marked(events)))
    decreases |events|
  {
    if events != [] {
      var next := Apply(p, events[0]);
      match events[0] {
        case Mark(sheet) =>
          assert sheet in Marked(events);
          EnqueueDistinct(p.queue, sheet);
          MarkStep(p, sheet);
          DrainConcat(Drain(p.server, p.queue), [sheet], Marked(events[1..]));
          forall s | s in next.queue
            ensures s in sheets
          {
            WithoutMembers(p.queue, sheet, s);
          }
        case Flush(answers) =>
          if |answers| == |p.queue| {
            SelectDistinct(p.queue, answers, HasFailed);
            SelectMembers(p.queue, answers, HasFailed);
            FlushLosesNothing(p.server, p.queue, answers);
            NothingRefused(p.queue, answers);
          }
          assert Marked(events) == Marked(events[1..]);
      }
      QueueKeepsMeaning(next, events[1..], sheets);
    }
  }
}
