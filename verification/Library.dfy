/** Lending books (apps/api/src/library/library.service.ts): the one-unit case of the stock counter. */
module Library {
  import Inventory
  import Sums
  import opened Wrappers

  datatype Book = Book(totalCopies: nat, availableCopies: int)
  datatype Loan = Loan(book: nat, returned: bool)

  datatype Outcome = Done | BookNotFound | NoCopies | LoanNotFound | AlreadyReturned

  datatype Step = CreateBook(totalCopies: nat) | Borrow(book: nat) | ReturnBook(loan: nat)

  datatype Db = Db(books: seq<Book>, loans: seq<Loan>)

  ghost function Apply(db: Db, step: Step): (Db, Outcome)
  {
    match step
    case CreateBook(total) => (db.(books := db.books + [Book(total, total)]), Done)
    case Borrow(b) =>
      if b >= |db.books| then (db, BookNotFound)
      else if db.books[b].availableCopies <= 0 then (db, NoCopies)
      else (Db(db.books[b := db.books[b].(availableCopies := db.books[b].availableCopies - 1)],
               db.loans + [Loan(b, false)]), Done)
    case ReturnBook(l) =>
      if l >= |db.loans| then (db, LoanNotFound)
      else if db.loans[l].returned then (db, AlreadyReturned)
      else
        var b := db.loans[l].book;
        var closed := db.loans[l := Loan(b, true)];
        if b >= |db.books| then (db, BookNotFound)
        else (Db(db.books[b := db.books[b].(availableCopies := db.books[b].availableCopies + 1)], closed), Done)
  }

  ghost function Run(db: Db, steps: seq<Step>): Db
    decreases |steps|
  {
    if steps == [] then db else Run(Apply(db, steps[0]).0, steps[1..])
  }

  class Service {
    var books: seq<Book>
    var loans: seq<Loan>

    ghost function View(): Db
      reads this
    {
      Db(books, loans)
    }

    constructor ()
      ensures View() == Db([], [])
    {
      books, loans := [], [];
    }

    method CreateBook(totalCopies: nat)
      modifies this`books
      ensures View() == Apply(old(View()), Step.CreateBook(totalCopies)).0
    {
      books := books + [Book(totalCopies, totalCopies)];
    }

    method Borrow(b: nat) returns (outcome: Outcome)
      modifies this`books, this`loans
      ensures (View(), outcome) == Apply(old(View()), Step.Borrow(b))
    {
      var claimed := 0;
      if b < |books| && books[b].availableCopies > 0 {
        books := books[b := books[b].(availableCopies := books[b].availableCopies - 1)];
        claimed := 1;
      }
      if claimed == 0 {
        if b >= |books| {
          return BookNotFound;
        }
        return NoCopies;
      }
      loans := loans + [Loan(b, false)];
      outcome := Done;
    }

    /** Closes the loan and puts the copy back, in one transaction: a missing book undoes the claim. */
    method ReturnBook(l: nat) returns (outcome: Outcome)
      modifies this`books, this`loans
      ensures (View(), outcome) == Apply(old(View()), Step.ReturnBook(l))
    {
      var before := loans;
      var claimed := 0;
      if l < |loans| && !loans[l].returned {
        loans := loans[l := loans[l].(returned := true)];
        claimed := 1;
      }
      if claimed == 0 {
        if l >= |loans| {
          return LoanNotFound;
        }
        return AlreadyReturned;
      }
      var b := loans[l].book;
      if b >= |books| {
        loans := before;
        return BookNotFound;
      }
      books := books[b := books[b].(availableCopies := books[b].availableCopies + 1)];
      outcome := Done;
    }
  }

  // ---------- the library as stock ----------

  ghost function LoanRows(loans: seq<Loan>): (r: seq<Option<Inventory.Assignment>>)
    ensures |r| == |loans|
  {
    seq(|loans|, l requires 0 <= l < |loans| => Some(Inventory.Assignment(loans[l].book, 1, loans[l].returned)))
  }

  /** A book as an item of stock: copies lent out are units out, one to a loan. */
  ghost function AsStock(db: Db): Inventory.Db
  {
    var items := seq(|db.books|, b requires 0 <= b < |db.books| =>
      var book := db.books[b];
      Some(Inventory.Item(None, book.totalCopies, book.totalCopies - book.availableCopies, Inventory.Good)));
    Inventory.Db(items, LoanRows(db.loans), [])
  }

  /** The inventory operation a library operation amounts to. */
  ghost function StockStep(stock: Inventory.Db, step: Step): Inventory.Db
  {
    match step
    case CreateBook(total) => Inventory.Apply(stock, Inventory.CreateItem(None, total, None)).0
    case Borrow(b) => Inventory.Reserve(stock, b, 1).0
    case ReturnBook(l) =>
      if !Inventory.Has(stock.assignments, l) then stock
      else
        var row := stock.assignments[l].value;
        Inventory.CloseReturn(stock, Inventory.Return(l, row.item, row.units), Inventory.Good).0
  }

  /**
   * Every lending operation is the issue or the return of one unit. The library adds the copy back
   * without the stock counter's guard, which a consistent library never needs.
   */
  lemma LendingIsIssuingOneUnit(db: Db, step: Step)
    requires Inventory.Consistent(AsStock(db))
    ensures AsStock(Apply(db, step).0) == StockStep(AsStock(db), step)
  {
    var here, there := AsStock(Apply(db, step).0), StockStep(AsStock(db), step);
    if step.ReturnBook? && step.loan < |db.loans| && !db.loans[step.loan].returned {
      Inventory.DecrementHits(AsStock(db), step.loan);
    }
    assert here.items == there.items;
    assert here.assignments == there.assignments;
  }

  ghost function OpenLoans(loans: seq<Loan>, b: nat): nat
  {
    if loans == [] then 0
    else (if loans[0].book == b && !loans[0].returned then 1 else 0) + OpenLoans(loans[1..], b)
  }

  lemma {:induction false} LoansAreUnits(loans: seq<Loan>, b: nat)
    ensures Sums.Sum(Inventory.OpenUnits(LoanRows(loans), b)) == OpenLoans(loans, b)
  {
    if loans != [] {
      assert Inventory.OpenUnits(LoanRows(loans), b)[1..] == Inventory.OpenUnits(LoanRows(loans[1..]), b);
      LoansAreUnits(loans[1..], b);
    }
  }

  /**
   * In every run from a consistent library, the copies on the shelf and the copies on loan make up
   * the copies owned, and neither count leaves its range.
   */
  lemma {:induction false} CopiesAreConserved(db: Db, steps: seq<Step>, b: nat)
    requires Inventory.Consistent(AsStock(db))
    ensures Inventory.Consistent(AsStock(Run(db, steps)))
    ensures b < |Run(db, steps).books| ==>
      var book := Run(db, steps).books[b];
      && 0 <= book.availableCopies <= book.totalCopies
      && book.availableCopies + OpenLoans(Run(db, steps).loans, b) == book.totalCopies
    decreases |steps|
  {
    if steps == [] {
      assert Inventory.Counted(AsStock(db), b);
      LoansAreUnits(db.loans, b);
    } else {
      var stock := AsStock(db);
      match steps[0] {
        case CreateBook(total) => Inventory.ApplyConserves(stock, Inventory.CreateItem(None, total, None));
        case Borrow(c) => Inventory.ReserveConserves(stock, c, 1);
        case ReturnBook(l) =>
          if l < |db.loans| {
            var row := stock.assignments[l].value;
            Inventory.ReceiveConserves(stock, Inventory.Return(l, row.item, row.units), Inventory.Good);
          }
      }
      LendingIsIssuingOneUnit(db, steps[0]);
      CopiesAreConserved(Apply(db, steps[0]).0, steps[1..], b);
    }
  }

  lemma EmptyLibraryIsConsistent()
    ensures Inventory.Consistent(AsStock(Db([], [])))
  {
  }

  // ---------- what each step does and answers ----------

  lemma CreateBookDoes(db: Db, totalCopies: nat)
    ensures Apply(db, CreateBook(totalCopies)) == (Db(db.books + [Book(totalCopies, totalCopies)], db.loans), Done)
  {
  }

  /** A copy is lent exactly when one is on the shelf, under one new open loan; a refusal says what was missing. */
  lemma BorrowDoes(db: Db, b: nat)
    ensures var (after, outcome) := Apply(db, Borrow(b));
      && (outcome == BookNotFound <==> b >= |db.books|)
      && (outcome == NoCopies <==> b < |db.books| && db.books[b].availableCopies <= 0)
      && (outcome == Done <==> b < |db.books| && db.books[b].availableCopies > 0)
      && (outcome != Done ==> after == db)
      && (outcome == Done ==>
            && after.loans == db.loans + [Loan(b, false)] && |after.books| == |db.books|
            && after.books[b].totalCopies == db.books[b].totalCopies
            && after.books[b].availableCopies == db.books[b].availableCopies - 1
            && forall c :: 0 <= c < |db.books| && c != b ==> after.books[c] == db.books[c])
  {
  }

  /** An open loan is closed and its copy put back; a closed one is refused, and nothing changes. */
  lemma ReturnBookDoes(db: Db, l: nat)
    requires Inventory.Consistent(AsStock(db))
    ensures var (after, outcome) := Apply(db, ReturnBook(l));
      && (outcome == LoanNotFound <==> l >= |db.loans|)
      && (outcome == AlreadyReturned <==> l < |db.loans| && db.loans[l].returned)
      && (outcome == Done <==> l < |db.loans| && !db.loans[l].returned)
      && (outcome != Done ==> after == db)
      && (outcome == Done ==>
            var b := db.loans[l].book;
            && |after.loans| == |db.loans| && after.loans[l] == Loan(b, true)
            && (forall m :: 0 <= m < |db.loans| && m != l ==> after.loans[m] == db.loans[m])
            && b < |db.books| == |after.books|
            && after.books[b].totalCopies == db.books[b].totalCopies
            && after.books[b].availableCopies == db.books[b].availableCopies + 1
            && forall c :: 0 <= c < |db.books| && c != b ==> after.books[c] == db.books[c])
  {
    if l < |db.loans| && !db.loans[l].returned {
      Inventory.DecrementHits(AsStock(db), l);
    }
  }

  ghost predicate ReturnedIn(db: Db, steps: seq<Step>, l: nat)
    decreases |steps|
  {
    steps != [] && ((steps[0] == ReturnBook(l) && Apply(db, steps[0]).1 == Done)
                    || ReturnedIn(Apply(db, steps[0]).0, steps[1..], l))
  }

  /** Over every run a loan is open until its return is answered done, and exactly until then. */
  lemma {:induction false} OpenUntilReturned(db: Db, steps: seq<Step>, l: nat)
    requires Inventory.Consistent(AsStock(db)) && l < |db.loans|
    ensures var after := Run(db, steps);
      && l < |after.loans| && after.loans[l].book == db.loans[l].book
      && (after.loans[l].returned <==> db.loans[l].returned || ReturnedIn(db, steps, l))
    decreases |steps|
  {
    if steps != [] {
      var next := Apply(db, steps[0]).0;
      CopiesAreConserved(db, [steps[0]], 0);
      assert [steps[0]][1..] == [];
      assert Run(db, [steps[0]]) == Run(next, []) == next;
      if steps[0].Borrow? {
        BorrowDoes(db, steps[0].book);
      } else if steps[0].ReturnBook? {
        ReturnBookDoes(db, steps[0].loan);
      }
      OpenUntilReturned(next, steps[1..], l);
    }
  }
}
