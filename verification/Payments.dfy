/**
 * Payment review (apps/api/src/payments/payments.service.ts) with any number of reviewers between
 * a review's first read and its write. Rows are named by their place in their table.
 */
module Payments {
  import opened Sums
  import opened Wrappers

  datatype InvoiceStatus = Unpaid | PartiallyPaid | Paid | Overdue
  datatype Invoice = Invoice(amountDue: int, amountPaid: int, status: InvoiceStatus)

  datatype SubmissionStatus = PendingVerification | Verified | Rejected | NeedsInfo
  datatype Submission = Submission(invoice: nat, amountClaimed: int, status: SubmissionStatus)

  /** A review under way: what its first read saw. */
  datatype Review = Review(id: nat, seen: Submission)

  datatype Outcome = Done | Credited(id: nat) | NotFound | AlreadyVerified

  datatype Step =
    | RaiseInvoice(amountDue: int)
    | Submit(invoice: nat, amountClaimed: int)
    | BeginReview(id: nat)
    | Decide(review: nat, decision: SubmissionStatus)

  datatype Db = Db(invoices: seq<Invoice>, submissions: seq<Submission>, reviews: seq<Review>)

  function Settle(invoice: Invoice, amount: int): Invoice
  {
    var paid := invoice.amountPaid + amount;
    Invoice(invoice.amountDue, paid, if paid >= invoice.amountDue then Paid else PartiallyPaid)
  }

  ghost function Apply(db: Db, step: Step): (Db, Outcome)
  {
    match step
    case RaiseInvoice(amountDue) =>
      (db.(invoices := db.invoices + [Invoice(amountDue, 0, Unpaid)]), Done)
    case Submit(invoice, amount) =>
      if invoice >= |db.invoices| then (db, NotFound)
      else (db.(submissions := db.submissions + [Submission(invoice, amount, PendingVerification)]), Done)
    case BeginReview(id) =>
      if id >= |db.submissions| then (db, NotFound)
      else if db.submissions[id].status == Verified then (db, AlreadyVerified)
      else (db.(reviews := db.reviews + [Review(id, db.submissions[id])]), Done)
    case Decide(k, decision) =>
      if k >= |db.reviews| then (db, NotFound) else DecideReview(db, db.reviews[k], decision)
  }

  /** The write of a review: conditional on the row, crediting what the first read saw. */
  ghost function DecideReview(db: Db, review: Review, decision: SubmissionStatus): (Db, Outcome)
  {
    var id, invoice := review.id, review.seen.invoice;
    if id >= |db.submissions| || db.submissions[id].status == Verified then (db, AlreadyVerified)
    else
      var decided := db.submissions[id := db.submissions[id].(status := decision)];
      if decision != Verified then (db.(submissions := decided), Done)
      else if invoice >= |db.invoices| then (db, NotFound)
      else
        (Db(db.invoices[invoice := Settle(db.invoices[invoice], review.seen.amountClaimed)], decided, db.reviews),
         Credited(id))
  }

  ghost function Run(db: Db, steps: seq<Step>): Db
    decreases |steps|
  {
    if steps == [] then db else Run(Apply(db, steps[0]).0, steps[1..])
  }

  // ---------- the service ----------

  class Service {
    var invoices: seq<Invoice>
    var submissions: seq<Submission>
    /** Reviews begun so far, as the requests in flight remember them. */
    ghost var reviews: seq<Review>

    ghost function View(): Db
      reads this
    {
      Db(invoices, submissions, reviews)
    }

    constructor ()
      ensures View() == Db([], [], [])
    {
      invoices, submissions, reviews := [], [], [];
    }

    method SubmitPayment(invoice: nat, amountClaimed: int) returns (outcome: Outcome)
      modifies this`submissions
      ensures (View(), outcome) == Apply(old(View()), Submit(invoice, amountClaimed))
    {
      if invoice >= |invoices| {
        return NotFound;
      }
      submissions := submissions + [Submission(invoice, amountClaimed, PendingVerification)];
      outcome := Done;
    }

    /** The first read of `review`, with its check on a status that may be out of date by the write. */
    method ReadForReview(id: nat) returns (outcome: Outcome, seen: Option<Submission>)
      modifies this`reviews
      ensures (View(), outcome) == Apply(old(View()), BeginReview(id))
      ensures outcome == Done <==> seen.Some?
      ensures seen.Some? ==> View().reviews == old(View()).reviews + [Review(id, seen.value)]
    {
      if id >= |submissions| {
        return NotFound, None;
      }
      if submissions[id].status == Verified {
        return AlreadyVerified, None;
      }
      reviews := reviews + [Review(id, submissions[id])];
      return Done, Some(submissions[id]);
    }

    /** The conditional update that claims a submission not yet verified. */
    method Claim(id: nat, status: SubmissionStatus) returns (count: nat)
      modifies this`submissions
      ensures var hit := id < |old(submissions)| && old(submissions)[id].status != Verified;
        && count == (if hit then 1 else 0)
        && submissions ==
           if hit then old(submissions)[id := old(submissions)[id].(status := status)]
           else old(submissions)
    {
      if id < |submissions| && submissions[id].status != Verified {
        submissions := submissions[id := submissions[id].(status := status)];
        return 1;
      }
      count := 0;
    }

    method ClaimForReview(id: nat, seen: Submission, decision: SubmissionStatus) returns (outcome: Outcome)
      requires decision != Verified
      modifies this`submissions
      ensures (View(), outcome) == DecideReview(old(View()), Review(id, seen), decision)
    {
      var claimed := Claim(id, decision);
      outcome := if claimed == 0 then AlreadyVerified else Done;
    }

    /** Claim then credit, in one transaction: a missing invoice undoes the claim. */
    method VerifyAndCredit(id: nat, seen: Submission) returns (outcome: Outcome)
      modifies this`submissions, this`invoices
      ensures (View(), outcome) == DecideReview(old(View()), Review(id, seen), Verified)
    {
      var before := submissions;
      var claimed := Claim(id, Verified);
      if claimed == 0 {
        return AlreadyVerified;
      }
      if seen.invoice >= |invoices| {
        submissions := before;
        return NotFound;
      }
      invoices := invoices[seen.invoice := Settle(invoices[seen.invoice], seen.amountClaimed)];
      outcome := Credited(id);
    }
  }

  // ---------- every run ----------

  /** What each submission has added to an invoice. */
  function Credits(submissions: seq<Submission>, invoice: nat): (r: seq<int>)
    ensures |r| == |submissions|
  {
    seq(|submissions|, k requires 0 <= k < |submissions| => Credit(submissions[k], invoice))
  }

  function Credit(s: Submission, invoice: nat): int
  {
    if s.status == Verified && s.invoice == invoice then s.amountClaimed else 0
  }

  /** The part of an invoice's balance that its verified submissions do not account for. */
  ghost function Opening(db: Db, invoice: nat): int
    requires invoice < |db.invoices|
  {
    db.invoices[invoice].amountPaid - Sum(Credits(db.submissions, invoice))
  }

  ghost predicate HasVerified(db: Db, invoice: nat)
  {
    exists k :: 0 <= k < |db.submissions| &&
      db.submissions[k].status == Verified && db.submissions[k].invoice == invoice
  }

  /** An invoice money has been credited to is PAID exactly when it is covered, PARTIALLY_PAID otherwise. */
  ghost predicate StatusSettled(db: Db, invoice: nat)
    requires invoice < |db.invoices|
  {
    var row := db.invoices[invoice];
    HasVerified(db, invoice) ==> row.status == if row.amountPaid >= row.amountDue then Paid else PartiallyPaid
  }

  /** What a review remembers is still what its row says, but for the status. */
  ghost predicate Consistent(db: Db)
  {
    && (forall k :: 0 <= k < |db.submissions| ==> db.submissions[k].invoice < |db.invoices|)
    && (forall k :: 0 <= k < |db.reviews| ==>
          var review := db.reviews[k];
          review.id < |db.submissions|
          && review.seen.invoice == db.submissions[review.id].invoice
          && review.seen.amountClaimed == db.submissions[review.id].amountClaimed)
    && (forall i :: 0 <= i < |db.invoices| ==> StatusSettled(db, i))
  }

  /** Nothing is lost from one state to the next: balances stay explained and VERIFIED is never left. */
  ghost predicate Conserved(before: Db, after: Db)
  {
    && |before.invoices| <= |after.invoices|
    && (forall i :: 0 <= i < |before.invoices| ==> Opening(after, i) == Opening(before, i))
    && (forall i :: |before.invoices| <= i < |after.invoices| ==> Opening(after, i) == 0)
    && |before.submissions| <= |after.submissions|
    && (forall k :: 0 <= k < |before.submissions| && before.submissions[k].status == Verified ==>
          after.submissions[k] == before.submissions[k])
  }

  lemma StatusChange(submissions: seq<Submission>, id: nat, status: SubmissionStatus, invoice: nat)
    requires id < |submissions| && submissions[id].status != Verified
    ensures var changed := submissions[id := submissions[id].(status := status)];
      Sum(Credits(changed, invoice)) == Sum(Credits(submissions, invoice)) + Credit(changed[id], invoice)
  {
    var changed := submissions[id := submissions[id].(status := status)];
    Update(Credits(submissions, invoice), id, Credit(changed[id], invoice));
    assert Credits(changed, invoice) == Credits(submissions, invoice)[id := Credit(changed[id], invoice)];
  }

  lemma NoCredits(db: Db, invoice: nat)
    requires !HasVerified(db, invoice)
    ensures Sum(Credits(db.submissions, invoice)) == 0
  {
    Zeros(Credits(db.submissions, invoice));
  }

  lemma DecideConserves(db: Db, review: Review, decision: SubmissionStatus)
    requires Consistent(db) && review in db.reviews
    ensures var after := DecideReview(db, review, decision).0; Consistent(after) && Conserved(db, after)
  {
    var id := review.id;
    var (after, outcome) := DecideReview(db, review, decision);
    if after != db {
      forall i | 0 <= i < |db.invoices|
        ensures Opening(after, i) == Opening(db, i) && StatusSettled(after, i)
      {
        StatusChange(db.submissions, id, decision, i);
        assert StatusSettled(db, i);
        if HasVerified(after, i) && after.invoices[i] == db.invoices[i] {
          var k :| 0 <= k < |after.submissions| &&
                   after.submissions[k].status == Verified && after.submissions[k].invoice == i;
          assert k == id || db.submissions[k] == after.submissions[k];
        }
      }
    }
  }

  lemma ApplyConserves(db: Db, step: Step)
    requires Consistent(db)
    ensures Consistent(Apply(db, step).0) && Conserved(db, Apply(db, step).0)
  {
    var after := Apply(db, step).0;
    match step
    case Decide(k, decision) =>
      if k < |db.reviews| {
        DecideConserves(db, db.reviews[k], decision);
      }
    case RaiseInvoice(amountDue) =>
      assert !HasVerified(db, |db.invoices|);
      NoCredits(db, |db.invoices|);
      forall i | 0 <= i < |after.invoices|
        ensures StatusSettled(after, i)
      {
        assert HasVerified(after, i) <==> HasVerified(db, i);
        assert i < |db.invoices| ==> StatusSettled(db, i);
      }
    case Submit(invoice, amount) =>
      forall i | 0 <= i < |db.invoices|
        ensures after.submissions == db.submissions ||
          Sum(Credits(after.submissions, i)) == Sum(Credits(db.submissions, i))
        ensures StatusSettled(after, i)
      {
        assert StatusSettled(db, i);
        if after != db {
          Append(Credits(db.submissions, i), 0);
          assert Credits(after.submissions, i) == Credits(db.submissions, i) + [0];
          if k :| 0 <= k < |after.submissions| &&
                  after.submissions[k].status == Verified && after.submissions[k].invoice == i {
            assert db.submissions[k] == after.submissions[k];
          }
        }
      }
    case BeginReview(id) =>
      forall i | 0 <= i < |db.invoices|
        ensures StatusSettled(after, i)
      {
        assert StatusSettled(db, i);
        assert HasVerified(after, i) <==> HasVerified(db, i);
      }
  }

  /**
   * Whatever the interleaving: each invoice's balance is what it opened with plus the claims of its
   * verified submissions, its status follows the balance, and a verified submission stays verified.
   */
  lemma {:induction false} RunConserves(db: Db, steps: seq<Step>)
    requires Consistent(db)
    ensures Consistent(Run(db, steps)) && Conserved(db, Run(db, steps))
    decreases |steps|
  {
    if steps != [] {
      ApplyConserves(db, steps[0]);
      RunConserves(Apply(db, steps[0]).0, steps[1..]);
    }
  }

  /** How many steps of a run credit the invoice of submission `id`. */
  ghost function TimesCredited(db: Db, steps: seq<Step>, id: nat): nat
    decreases |steps|
  {
    if steps == [] then 0
    else
      var (next, outcome) := Apply(db, steps[0]);
      (if outcome == Credited(id) then 1 else 0) + TimesCredited(next, steps[1..], id)
  }

  ghost predicate IsVerified(db: Db, id: nat)
  {
    id < |db.submissions| && db.submissions[id].status == Verified
  }

  /** A submission is credited once if the run verifies it, and otherwise never. */
  lemma {:induction false} CreditedAtMostOnce(db: Db, steps: seq<Step>, id: nat)
    requires Consistent(db)
    ensures TimesCredited(db, steps, id) == if IsVerified(Run(db, steps), id) && !IsVerified(db, id) then 1 else 0
    decreases |steps|
  {
    if steps != [] {
      var (next, outcome) := Apply(db, steps[0]);
      ApplyConserves(db, steps[0]);
      CreditedAtMostOnce(next, steps[1..], id);
      RunConserves(next, steps[1..]);
      assert IsVerified(next, id) <==> IsVerified(db, id) || outcome == Credited(id);
    }
  }

  // ---------- what each step does and answers ----------

  /** Raising an invoice, claiming a payment and beginning a review add one row each and touch no other. */
  lemma AddingDoes(db: Db, amountDue: int, invoice: nat, amountClaimed: int, id: nat)
    ensures Apply(db, RaiseInvoice(amountDue))
         == (Db(db.invoices + [Invoice(amountDue, 0, Unpaid)], db.submissions, db.reviews), Done)
    ensures var (after, outcome) := Apply(db, Submit(invoice, amountClaimed));
      && (outcome == NotFound <==> invoice >= |db.invoices|)
      && (outcome == NotFound ==> after == db)
      && (outcome != NotFound ==>
            outcome == Done && after.invoices == db.invoices && after.reviews == db.reviews
            && after.submissions == db.submissions + [Submission(invoice, amountClaimed, PendingVerification)])
    ensures var (after, outcome) := Apply(db, BeginReview(id));
      && (outcome == NotFound <==> id >= |db.submissions|)
      && (outcome == AlreadyVerified <==> id < |db.submissions| && db.submissions[id].status == Verified)
      && after.invoices == db.invoices && after.submissions == db.submissions
      && after.reviews == if outcome == Done then db.reviews + [Review(id, db.submissions[id])] else db.reviews
  {
  }

  /** Which answer a decision gets: it is refused exactly for want of a review or of a row not yet verified. */
  lemma DecideAnswers(db: Db, k: nat, decision: SubmissionStatus)
    requires Consistent(db)
    ensures var (after, outcome) := Apply(db, Decide(k, decision));
      && (outcome == NotFound <==> k >= |db.reviews|)
      && (outcome == AlreadyVerified <==> k < |db.reviews| && db.submissions[db.reviews[k].id].status == Verified)
      && (k < |db.reviews| && db.submissions[db.reviews[k].id].status != Verified ==>
            outcome == if decision == Verified then Credited(db.reviews[k].id) else Done)
      && (outcome == NotFound || outcome == AlreadyVerified ==> after == db)
  {
  }

  /**
   * A decision that is not refused leaves the reviewed submission with exactly the decided status, its
   * invoice and amount as they were, and every other submission alone. Rejecting and asking for more
   * touch no invoice; verifying adds the claimed amount to the submission's own invoice and to no other.
   */
  lemma DecisionTakesEffect(db: Db, k: nat, decision: SubmissionStatus)
    requires Consistent(db) && k < |db.reviews| && db.submissions[db.reviews[k].id].status != Verified
    ensures var after, id := Apply(db, Decide(k, decision)).0, db.reviews[k].id;
      var row := db.submissions[id];
      && after.reviews == db.reviews
      && |after.submissions| == |db.submissions| && |after.invoices| == |db.invoices|
      && after.submissions[id].status == decision
      && after.submissions[id].invoice == row.invoice && after.submissions[id].amountClaimed == row.amountClaimed
      && (forall j :: 0 <= j < |db.submissions| && j != id ==> after.submissions[j] == db.submissions[j])
      && (decision != Verified ==> after.invoices == db.invoices)
      && (forall j :: 0 <= j < |db.invoices| && j != row.invoice ==> after.invoices[j] == db.invoices[j])
      && (decision == Verified ==>
            var earlier, later := db.invoices[row.invoice], after.invoices[row.invoice];
            && later.amountDue == earlier.amountDue
            && later.amountPaid == earlier.amountPaid + row.amountClaimed
            && (later.status == Paid <==> later.amountDue <= later.amountPaid)
            && (later.status == PartiallyPaid <==> later.amountPaid < later.amountDue))
  {
  }

  /** The status a step decides for a submission, if it does. */
  ghost function Decided(db: Db, step: Step, id: nat): Option<SubmissionStatus>
  {
    if step.Decide? && step.review < |db.reviews| && db.reviews[step.review].id == id
       && (Apply(db, step).1 == Done || Apply(db, step).1 == Credited(id))
    then Some(step.decision) else None
  }

  /** The status last decided for a submission over a run, or the one before it. */
  ghost function LastDecided(db: Db, steps: seq<Step>, id: nat, before: SubmissionStatus): SubmissionStatus
    decreases |steps|
  {
    if steps == [] then before
    else
      var decided := Decided(db, steps[0], id);
      LastDecided(Apply(db, steps[0]).0, steps[1..], id, if decided.Some? then decided.value else before)
  }

  lemma StepDecides(db: Db, step: Step, id: nat)
    requires Consistent(db)
    ensures var after := Apply(db, step).0;
      && |db.submissions| <= |after.submissions|
      && (id < |after.submissions| ==>
            after.submissions[id].status ==
              if Decided(db, step, id).Some? then Decided(db, step, id).value
              else if id < |db.submissions| then db.submissions[id].status else PendingVerification)
      && (id < |db.submissions| ==>
            after.submissions[id].invoice == db.submissions[id].invoice
            && after.submissions[id].amountClaimed == db.submissions[id].amountClaimed)
  {
    match step
    case Decide(k, decision) =>
      DecideAnswers(db, k, decision);
      if k < |db.reviews| && db.submissions[db.reviews[k].id].status != Verified {
        DecisionTakesEffect(db, k, decision);
      }
    case RaiseInvoice(amountDue) => AddingDoes(db, amountDue, 0, 0, 0);
    case Submit(invoice, amountClaimed) => AddingDoes(db, 0, invoice, amountClaimed, 0);
    case BeginReview(j) => AddingDoes(db, 0, 0, 0, j);
  }

  /** Over every run a submission has the status last decided for it, and is pending while there is none. */
  lemma {:induction false} StatusIsTheLastDecision(db: Db, steps: seq<Step>, id: nat)
    requires Consistent(db)
    ensures id < |Run(db, steps).submissions| ==>
      Run(db, steps).submissions[id].status
        == LastDecided(db, steps, id, if id < |db.submissions| then db.submissions[id].status else PendingVerification)
    decreases |steps|
  {
    if steps != [] {
      var next := Apply(db, steps[0]).0;
      ApplyConserves(db, steps[0]);
      StepDecides(db, steps[0], id);
      StatusIsTheLastDecision(next, steps[1..], id);
      if id >= |next.submissions| {
        NothingToDecide(db, steps[0], id);
      }
    }
  }

  lemma NothingToDecide(db: Db, step: Step, id: nat)
    requires Consistent(db) && id >= |db.submissions|
    ensures Decided(db, step, id) == None
  {
  }
}
