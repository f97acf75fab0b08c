/**
 * Confirming matches (apps/api/src/bank-statement/bank-statement.service.ts): a bank line is spent once and a
 * payment gets one line.
 */
module Reconciliation {
  import opened Wrappers
  import opened SuggestedMatches

  datatype Outcome = Matched | SubmissionNotFound | LineNotFound | LineTaken(byThisPayment: bool) | PaymentTaken

  /** The known payment submissions, and each bank line with the payment it is matched to. */
  datatype Books = Books(submissions: set<nat>, lines: map<nat, Option<nat>>) {

    ghost predicate HasLine(payment: nat)
    {
      exists l :: l in lines && lines[l] == Some(payment)
    }

    /** The line-to-payment relation is injective and points at payments that exist. */
    ghost predicate Reconciled()
    {
      && (forall l :: l in lines && lines[l].Some? ==> lines[l].value in submissions)
      && (forall l, k :: l in lines && k in lines && lines[l].Some? && lines[l] == lines[k] ==> l == k)
    }

    ghost function Confirm(line: nat, payment: nat): (Books, Outcome)
    {
      if payment !in submissions then (this, SubmissionNotFound)
      else if line !in lines then (this, LineNotFound)
      else if lines[line].Some? then (this, LineTaken(lines[line] == Some(payment)))
      else if HasLine(payment) then (this, PaymentTaken)
      else (this.(lines := lines[line := Some(payment)]), Matched)
    }
  }

  class Ledger {
    var submissions: set<nat>
    var lines: map<nat, Option<nat>>

    ghost function View(): Books
      reads this
    {
      Books(submissions, lines)
    }

    constructor ()
      ensures View() == Books({}, map[])
    {
      submissions, lines := {}, map[];
    }

    /** The update conditional on an unmatched line, refused as a whole by the unique index on the payment. */
    method Claim(line: nat, payment: nat) returns (claimed: Option<nat>)
      modifies this`lines
      ensures var free := line in old(lines) && old(lines)[line] == None;
        && (claimed == None <==> free && old(View()).HasLine(payment))
        && (claimed.Some? ==> claimed.value == if free then 1 else 0)
        && lines == if claimed == Some(1) then old(lines)[line := Some(payment)] else old(lines)
    {
      if line !in lines || lines[line].Some? {
        claimed := Some(0);
      } else if payment in set l | l in lines && lines[l].Some? :: lines[l].value {
        claimed := None;
      } else {
        lines := lines[line := Some(payment)];
        claimed := Some(1);
      }
    }

    method ConfirmMatch(line: nat, payment: nat) returns (outcome: Outcome)
      modifies this`lines
      ensures (View(), outcome) == old(View()).Confirm(line, payment)
    {
      if payment !in submissions {
        return SubmissionNotFound;
      }
      var claimed := Claim(line, payment);
      if claimed == None {
        return PaymentTaken;
      }
      if claimed == Some(0) {
        if line !in lines {
          return LineNotFound;
        }
        return LineTaken(lines[line] == Some(payment));
      }
      outcome := Matched;
    }
  }

  // ---------- every run ----------

  datatype Step = Submit(payment: nat) | Import(newLines: set<nat>) | Confirm(line: nat, payment: nat)

  ghost function Apply(books: Books, step: Step): Books
  {
    match step
    case Submit(payment) => books.(submissions := books.submissions + {payment})
    case Import(newLines) => books.(lines := (map l | l in newLines :: None) + books.lines)
    case Confirm(line, payment) => books.Confirm(line, payment).0
  }

  ghost function Run(books: Books, steps: seq<Step>): Books
    decreases |steps|
  {
    if steps == [] then books else Run(Apply(books, steps[0]), steps[1..])
  }

  /** From any moment on, whatever happens: the relation stays injective and no matched line is re-pointed. */
  lemma {:induction false} MatchesAreInjectiveAndFinal(books: Books, steps: seq<Step>)
    requires books.Reconciled()
    ensures Run(books, steps).Reconciled()
    ensures forall l :: l in books.lines && books.lines[l].Some? ==>
      l in Run(books, steps).lines && Run(books, steps).lines[l] == books.lines[l]
    decreases |steps|
  {
    if steps != [] {
      var next := Apply(books, steps[0]);
      assert next.Reconciled();
      MatchesAreInjectiveAndFinal(next, steps[1..]);
    }
  }

  // ---------- confirming a list of suggestions ----------

  /** Pairs of distinct unmatched lines and distinct known payments. */
  ghost predicate Proposable(books: Books, pairs: seq<(nat, nat)>)
  {
    && (forall m :: 0 <= m < |pairs| ==> pairs[m].0 in books.lines && books.lines[pairs[m].0] == None)
    && (forall m :: 0 <= m < |pairs| ==> pairs[m].1 in books.submissions)
    && (forall m, n :: 0 <= m < n < |pairs| ==> pairs[m].0 != pairs[n].0 && pairs[m].1 != pairs[n].1)
  }

  ghost function ConfirmAll(books: Books, pairs: seq<(nat, nat)>): (outcomes: seq<Outcome>)
    ensures |outcomes| == |pairs|
    decreases |pairs|
  {
    if pairs == [] then []
    else
      var (next, outcome) := books.Confirm(pairs[0].0, pairs[0].1);
      [outcome] + ConfirmAll(next, pairs[1..])
  }

  /**
   * Confirming a whole list, in whatever order it is given, matches exactly the payments that had
   * no line when the list was made; so nothing is refused if and only if none of them had one.
   */
  lemma {:induction false} ConfirmAllExactly(books: Books, pairs: seq<(nat, nat)>)
    requires Proposable(books, pairs)
    ensures forall m :: 0 <= m < |pairs| ==>
      ConfirmAll(books, pairs)[m] == if books.HasLine(pairs[m].1) then PaymentTaken else Matched
    ensures (forall m :: 0 <= m < |pairs| ==> ConfirmAll(books, pairs)[m] == Matched)
       <==> (forall m :: 0 <= m < |pairs| ==> !books.HasLine(pairs[m].1))
    decreases |pairs|
  {
    if pairs != [] {
      var (line, payment) := pairs[0];
      var (next, outcome) := books.Confirm(line, payment);
      var rest := pairs[1..];
      assert Proposable(next, rest);
      ConfirmAllExactly(next, rest);
      forall m | 0 <= m < |rest|
        ensures next.HasLine(rest[m].1) <==> books.HasLine(rest[m].1)
      {
        if l :| l in books.lines && books.lines[l] == Some(rest[m].1) {
          assert l in next.lines && next.lines[l] == Some(rest[m].1);
        }
      }
    }
  }

  /** The suggested pairs as ids of a line and a payment. */
  function Proposed(pending: seq<Submission>, lines: seq<Line>, suggestions: seq<Suggestion>): (r: seq<(nat, nat)>)
    requires forall m :: 0 <= m < |suggestions| ==>
      suggestions[m].submission < |pending| && suggestions[m].line < |lines|
    ensures |r| == |suggestions|
  {
    seq(|suggestions|, m requires 0 <= m < |suggestions| =>
      (lines[suggestions[m].line].id, pending[suggestions[m].submission].id))
  }

  /**
   * Any reordering of a matching of the pending submissions with the unmatched lines may be
   * confirmed: it is refused only where a pending payment had already been matched.
   */
  lemma SuggestionsConfirm(books: Books, pending: seq<Submission>, lines: seq<Line>, suggestions: seq<Suggestion>)
    requires DistinctIds(lines) && (forall i, j :: 0 <= i < j < |pending| ==> pending[i].id != pending[j].id)
    requires forall i :: 0 <= i < |pending| ==> pending[i].id in books.submissions
    requires forall i :: 0 <= i < |lines| ==> lines[i].id in books.lines && books.lines[lines[i].id] == None
    requires Matching(Claims(pending), Amounts(lines), suggestions)
    ensures var pairs := Proposed(pending, lines, suggestions);
      (forall m :: 0 <= m < |pairs| ==> ConfirmAll(books, pairs)[m] == Matched)
      <==> (forall m :: 0 <= m < |suggestions| ==> !books.HasLine(pending[suggestions[m].submission].id))
  {
    var pairs := Proposed(pending, lines, suggestions);
    ConfirmAllExactly(books, pairs);
    assert forall m :: 0 <= m < |suggestions| ==> pairs[m].1 == pending[suggestions[m].submission].id;
  }

  /** One pending payment and one line of its amount: the list is that pair. */
  lemma OnlyPairListed(amount: int)
    ensures Listed([amount], [amount], 1, [Suggestion(0, 0)])
  {
  }

  /**
   * Confirming a match does not take the payment out of the pending queue, so the list can still
   * offer it a second line: here payment 1 has line 10, is offered line 11, and is refused.
   */
  lemma MatchedPaymentStillSuggested()
    ensures var books := Books({1}, map[10 := Some(1), 11 := None]);
      && books.Reconciled()
      && Listed(Claims([Submission(1, 5000)]), Amounts([Line(11, 5000)]), 1, [Suggestion(0, 0)])
      && ConfirmAll(books, Proposed([Submission(1, 5000)], [Line(11, 5000)], [Suggestion(0, 0)])) == [PaymentTaken]
  {
    var books := Books({1}, map[10 := Some(1), 11 := None]);
    assert books.lines[10] == Some(1);
    assert Claims([Submission(1, 5000)]) == [5000] == Amounts([Line(11, 5000)]);
    OnlyPairListed(5000);
    assert Proposed([Submission(1, 5000)], [Line(11, 5000)], [Suggestion(0, 0)]) == [(11, 1)];
    assert ConfirmAll(books, [(11, 1)]) == [PaymentTaken] + ConfirmAll(books, []);
  }

  // ---------- what confirming does and answers ----------

  /** Each answer, and exactly when it is given; a refusal changes nothing. */
  lemma ConfirmAnswers(books: Books, line: nat, payment: nat)
    ensures var (after, outcome) := books.Confirm(line, payment);
      var known := payment in books.submissions;
      var free := line in books.lines && books.lines[line] == None;
      var spent := line in books.lines && books.lines[line].Some?;
      var paid := exists l :: l in books.lines && books.lines[l] == Some(payment);
      && (outcome == SubmissionNotFound <==> !known)
      && (outcome == LineNotFound <==> known && line !in books.lines)
      && (outcome == LineTaken(true) <==> known && spent && books.lines[line].value == payment)
      && (outcome == LineTaken(false) <==> known && spent && books.lines[line].value != payment)
      && (outcome == PaymentTaken <==> known && free && paid)
      && (outcome == Matched <==> known && free && !paid)
      && (outcome != Matched ==> after == books)
  {
  }

  /** A match puts the payment on that line, and touches no other line and no payment. */
  lemma MatchTakesEffect(books: Books, line: nat, payment: nat)
    requires books.Confirm(line, payment).1 == Matched
    ensures var after := books.Confirm(line, payment).0;
      && after.submissions == books.submissions && after.lines.Keys == books.lines.Keys
      && after.lines[line] == Some(payment)
      && forall l :: l in books.lines && l != line ==> after.lines[l] == books.lines[l]
  {
  }

  /** The payment a step matches to a line, if it does. */
  ghost function MatchedBy(books: Books, step: Step, line: nat): Option<nat>
  {
    if step.Confirm? && step.line == line && books.Confirm(line, step.payment).1 == Matched
    then Some(step.payment) else None
  }

  /** The payment the first confirmation of a line that was answered matched puts on it, over a run. */
  ghost function FirstMatch(books: Books, steps: seq<Step>, line: nat): Option<nat>
    decreases |steps|
  {
    if steps == [] then None
    else if MatchedBy(books, steps[0], line).Some? then MatchedBy(books, steps[0], line)
    else FirstMatch(Apply(books, steps[0]), steps[1..], line)
  }

  /** Over every run a line holds the payment it held, or the one first matched to it, and otherwise none. */
  lemma {:induction false} LineHoldsItsMatch(books: Books, steps: seq<Step>, line: nat)
    requires books.Reconciled()
    ensures var after := Run(books, steps);
      var held := if line in books.lines then books.lines[line] else None;
      line in after.lines ==> after.lines[line] == if held.Some? then held else FirstMatch(books, steps, line)
    decreases |steps|
  {
    if steps != [] {
      var next := Apply(books, steps[0]);
      assert next.Reconciled();
      if line in next.lines && next.lines[line].Some? {
        MatchesAreInjectiveAndFinal(next, steps[1..]);
      } else {
        LineHoldsItsMatch(next, steps[1..], line);
      }
    }
  }

  /** Importing adds unmatched lines and submitting adds a payment; neither touches what there is. */
  lemma OthersTouchNoMatch(books: Books, payment: nat, newLines: set<nat>)
    ensures Apply(books, Submit(payment)) == Books(books.submissions + {payment}, books.lines)
    ensures var after := Apply(books, Import(newLines));
      && after.submissions == books.submissions && after.lines.Keys == books.lines.Keys + newLines
      && (forall l :: l in books.lines ==> after.lines[l] == books.lines[l])
      && (forall l :: l in newLines && l !in books.lines ==> after.lines[l] == None)
  {
  }
}
