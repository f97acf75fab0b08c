/**
 * Issuing and returning stock (apps/api/src/inventory/inventory.service.ts) with any number of
 * requests between a read and its write. Rows are named by their place in their table; a deleted
 * row leaves an empty place.
 */
module Inventory {
  import opened Sums
  import opened Wrappers

  datatype Condition = New | Good | Fair | Poor | Damaged | WrittenOff

  datatype Item = Item(tag: Option<string>, quantity: nat, unitsOut: int, condition: Condition)
  datatype Assignment = Assignment(item: nat, units: int, returned: bool)

  datatype Outcome =
    | Done
    | NotFound
    | Unissuable
    | NotAvailable(available: int)
    | StillOut
    | DuplicateTag
    | AlreadyReturned

  /** A return under way: what its first read saw of the assignment. */
  datatype Return = Return(id: nat, item: nat, units: int)

  datatype Step =
    | CreateItem(tag: Option<string>, quantity: nat, condition: Option<Condition>)
    | UpdateItem(item: nat, tag: Option<string>, quantity: nat, condition: Option<Condition>)
    | RemoveItem(item: nat)
    | Issue(item: nat, units: int)
    | BeginReturn(id: nat)
    | FinishReturn(index: nat, returnedCondition: Condition)

  datatype Db = Db(items: seq<Option<Item>>, assignments: seq<Option<Assignment>>, inFlight: seq<Return>)

  predicate Has<T>(rows: seq<Option<T>>, i: nat)
  {
    i < |rows| && rows[i].Some?
  }

  predicate Refused(condition: Condition)
  {
    condition in {Damaged, WrittenOff}
  }

  /** The unique index on asset tags: a tag, if given, is carried by no other item. */
  predicate TagTaken(items: seq<Option<Item>>, tag: Option<string>, except: Option<nat>)
  {
    tag.Some? && exists i :: 0 <= i < |items| && Some(i) != except && items[i].Some? && items[i].value.tag == tag
  }

  function Edited(item: Item, tag: Option<string>, quantity: nat, condition: Option<Condition>): Item
  {
    Item(tag, quantity, item.unitsOut, if condition.Some? then condition.value else item.condition)
  }

  /** Deleting an item deletes its assignments with it. */
  function WithoutItem(assignments: seq<Option<Assignment>>, item: nat): (r: seq<Option<Assignment>>)
    ensures |r| == |assignments|
  {
    seq(|assignments|, k requires 0 <= k < |assignments| =>
      if assignments[k].Some? && assignments[k].value.item == item then None else assignments[k])
  }

  ghost function Apply(db: Db, step: Step): (Db, Outcome)
  {
    match step
    case CreateItem(tag, quantity, condition) =>
      if TagTaken(db.items, tag, None) then (db, DuplicateTag)
      else
        var item := Item(tag, quantity, 0, if condition.Some? then condition.value else Good);
        (db.(items := db.items + [Some(item)]), Done)
    case UpdateItem(i, tag, quantity, condition) =>
      if !Has(db.items, i) then (db, NotFound)
      else if quantity < db.items[i].value.unitsOut then (db, StillOut)
      else if TagTaken(db.items, tag, Some(i)) then (db, DuplicateTag)
      else (db.(items := db.items[i := Some(Edited(db.items[i].value, tag, quantity, condition))]), Done)
    case RemoveItem(i) =>
      if !Has(db.items, i) then (db, NotFound)
      else if db.items[i].value.unitsOut > 0 then (db, StillOut)
      else (db.(items := db.items[i := None], assignments := WithoutItem(db.assignments, i)), Done)
    case Issue(i, units) => Reserve(db, i, units)
    case BeginReturn(id) =>
      if !Has(db.assignments, id) then (db, NotFound)
      else
        var row := db.assignments[id].value;
        if row.returned then (db, AlreadyReturned)
        else (db.(inFlight := db.inFlight + [Return(id, row.item, row.units)]), Done)
    case FinishReturn(k, condition) =>
      if k >= |db.inFlight| then (db, NotFound) else CloseReturn(db, db.inFlight[k], condition)
  }

  /** The conditional reservation and the assignment row, in one transaction. */
  ghost function Reserve(db: Db, i: nat, units: int): (Db, Outcome)
  {
    if !Has(db.items, i) then (db, NotAvailable(0))
    else
      var item := db.items[i].value;
      if item.unitsOut + units > item.quantity then (db, NotAvailable(item.quantity - item.unitsOut))
      else (Db(db.items[i := Some(item.(unitsOut := item.unitsOut + units))],
               db.assignments + [Some(Assignment(i, units, false))], db.inFlight), Done)
  }

  /**
   * The claimed return, the guarded decrement and the condition, in one transaction: the decrement
   * passes over a missing row, while setting the condition of one undoes the claim.
   */
  ghost function CloseReturn(db: Db, r: Return, condition: Condition): (Db, Outcome)
  {
    if !Has(db.assignments, r.id) || db.assignments[r.id].value.returned then (db, AlreadyReturned)
    else
      var closed := db.assignments[r.id := Some(db.assignments[r.id].value.(returned := true))];
      if !Has(db.items, r.item) then
        (if Refused(condition) then (db, NotFound) else (db.(assignments := closed), Done))
      else
        var item := db.items[r.item].value;
        var out := if item.unitsOut - r.units >= 0 then item.unitsOut - r.units else item.unitsOut;
        var condition' := if Refused(condition) then condition else item.condition;
        (db.(items := db.items[r.item := Some(Item(item.tag, item.quantity, out, condition'))],
             assignments := closed), Done)
  }

  ghost function Run(db: Db, steps: seq<Step>): Db
    decreases |steps|
  {
    if steps == [] then db else Run(Apply(db, steps[0]).0, steps[1..])
  }

  // ---------- the service ----------

  class Service {
    var items: seq<Option<Item>>
    var assignments: seq<Option<Assignment>>
    ghost var inFlight: seq<Return>

    ghost function View(): Db
      reads this
    {
      Db(items, assignments, inFlight)
    }

    constructor ()
      ensures View() == Db([], [], [])
    {
      items, assignments, inFlight := [], [], [];
    }

    method CreateItem(tag: Option<string>, quantity: nat, condition: Option<Condition>) returns (outcome: Outcome)
      modifies this`items
      ensures (View(), outcome) == Apply(old(View()), Step.CreateItem(tag, quantity, condition))
    {
      if TagTaken(items, tag, None) {
        return DuplicateTag;
      }
      items := items + [Some(Item(tag, quantity, 0, if condition.Some? then condition.value else Good))];
      outcome := Done;
    }

    method UpdateItem(i: nat, tag: Option<string>, quantity: nat, condition: Option<Condition>)
      returns (outcome: Outcome)
      modifies this`items
      ensures (View(), outcome) == Apply(old(View()), Step.UpdateItem(i, tag, quantity, condition))
    {
      if !Has(items, i) {
        return NotFound;
      }
      if quantity < items[i].value.unitsOut {
        return StillOut;
      }
      if TagTaken(items, tag, Some(i)) {
        return DuplicateTag;
      }
      var item := items[i].value.(tag := tag, quantity := quantity);
      if condition.Some? {
        item := item.(condition := condition.value);
      }
      items := items[i := Some(item)];
      outcome := Done;
    }

    method RemoveItem(i: nat) returns (outcome: Outcome)
      modifies this`items, this`assignments
      ensures (View(), outcome) == Apply(old(View()), Step.RemoveItem(i))
    {
      if !Has(items, i) {
        return NotFound;
      }
      if items[i].value.unitsOut > 0 {
        return StillOut;
      }
      items, assignments := items[i := None], WithoutItem(assignments, i);
      outcome := Done;
    }

    /** The reads of `issue`: they may be out of date by the time of the reservation. */
    method CheckIssuable(i: nat) returns (outcome: Outcome)
      ensures outcome ==
        if !Has(items, i) then NotFound else if Refused(items[i].value.condition) then Unissuable else Done
    {
      if !Has(items, i) {
        return NotFound;
      }
      outcome := if Refused(items[i].value.condition) then Unissuable else Done;
    }

    method Reserve(i: nat, units: int) returns (outcome: Outcome)
      modifies this`items, this`assignments
      ensures (View(), outcome) == Apply(old(View()), Issue(i, units))
    {
      var reserved := 0;
      if Has(items, i) && items[i].value.unitsOut + units <= items[i].value.quantity {
        items := items[i := Some(items[i].value.(unitsOut := items[i].value.unitsOut + units))];
        reserved := 1;
      }
      if reserved == 0 {
        return NotAvailable(if Has(items, i) then items[i].value.quantity - items[i].value.unitsOut else 0);
      }
      assignments := assignments + [Some(Assignment(i, units, false))];
      outcome := Done;
    }

    method ReadForReturn(id: nat) returns (outcome: Outcome)
      modifies this`inFlight
      ensures (View(), outcome) == Apply(old(View()), BeginReturn(id))
    {
      if !Has(assignments, id) {
        return NotFound;
      }
      if assignments[id].value.returned {
        return AlreadyReturned;
      }
      inFlight := inFlight + [Return(id, assignments[id].value.item, assignments[id].value.units)];
      outcome := Done;
    }

    method Receive(r: Return, condition: Condition) returns (outcome: Outcome)
      modifies this`items, this`assignments
      ensures (View(), outcome) == CloseReturn(old(View()), r, condition)
    {
      if !Has(assignments, r.id) || assignments[r.id].value.returned {
        return AlreadyReturned;
      }
      var before := assignments;
      assignments := assignments[r.id := Some(assignments[r.id].value.(returned := true))];
      if !Has(items, r.item) && Refused(condition) {
        assignments := before;
        return NotFound;
      }
      if Has(items, r.item) {
        var item := items[r.item].value;
        if item.unitsOut - r.units >= 0 {
          item := item.(unitsOut := item.unitsOut - r.units);
          items := items[r.item := Some(item)];
        }
        if Refused(condition) {
          item := item.(condition := condition);
          items := items[r.item := Some(item)];
        }
        assert items == old(items)[r.item := Some(item)];
      }
      outcome := Done;
    }
  }

  // ---------- every run ----------

  function Open(row: Option<Assignment>, item: nat): int
  {
    if row.Some? && row.value.item == item && !row.value.returned then row.value.units else 0
  }

  /** The units each assignment still has out of an item. */
  function OpenUnits(assignments: seq<Option<Assignment>>, item: nat): (r: seq<int>)
    ensures |r| == |assignments|
  {
    seq(|assignments|, k requires 0 <= k < |assignments| => Open(assignments[k], item))
  }

  /** The counter of an item is the units over its open assignments and stays within what is held. */
  ghost predicate Counted(db: Db, i: nat)
  {
    Has(db.items, i) ==>
      && db.items[i].value.unitsOut == Sum(OpenUnits(db.assignments, i))
      && 0 <= db.items[i].value.unitsOut <= db.items[i].value.quantity
  }

  ghost predicate Owned(db: Db, k: nat)
  {
    Has(db.assignments, k) ==> db.assignments[k].value.units > 0 && Has(db.items, db.assignments[k].value.item)
  }

  /** What a return read of its assignment is still what the row says. */
  ghost predicate Remembers(db: Db, r: Return)
  {
    r.id < |db.assignments|
    && (db.assignments[r.id].Some? ==>
          db.assignments[r.id].value.item == r.item && db.assignments[r.id].value.units == r.units)
  }

  ghost predicate Consistent(db: Db)
  {
    && (forall i: nat :: Counted(db, i))
    && (forall k: nat :: Owned(db, k))
    && (forall k :: 0 <= k < |db.inFlight| ==> Remembers(db, db.inFlight[k]))
  }

  lemma SetOpen(assignments: seq<Option<Assignment>>, k: nat, row: Option<Assignment>, item: nat)
    requires k < |assignments|
    ensures Sum(OpenUnits(assignments[k := row], item))
         == Sum(OpenUnits(assignments, item)) - Open(assignments[k], item) + Open(row, item)
  {
    Update(OpenUnits(assignments, item), k, Open(row, item));
    assert OpenUnits(assignments[k := row], item) == OpenUnits(assignments, item)[k := Open(row, item)];
  }

  /** While an assignment is open its units are all on the counter, so the guarded decrement always hits its row. */
  lemma DecrementHits(db: Db, id: nat)
    requires Consistent(db) && Has(db.assignments, id) && !db.assignments[id].value.returned
    ensures var row := db.assignments[id].value;
      Has(db.items, row.item) && db.items[row.item].value.unitsOut - row.units >= 0
  {
    var item := db.assignments[id].value.item;
    assert Owned(db, id) && Counted(db, item);
    forall k | 0 <= k < |db.assignments|
      ensures 0 <= Open(db.assignments[k], item)
    {
      assert Owned(db, k);
    }
    Member(OpenUnits(db.assignments, item), id);
  }

  /** No two items carry one tag. */
  ghost predicate TagsAreUnique(items: seq<Option<Item>>)
  {
    forall i, j :: 0 <= i < j < |items| && items[i].Some? && items[j].Some? && items[i].value.tag.Some? ==>
      items[i].value.tag != items[j].value.tag
  }

  lemma {:induction false} TagsStayUnique(db: Db, steps: seq<Step>)
    requires TagsAreUnique(db.items)
    ensures TagsAreUnique(Run(db, steps).items)
    decreases |steps|
  {
    if steps != [] {
      TagsStayUnique(Apply(db, steps[0]).0, steps[1..]);
    }
  }

  lemma ReserveConserves(db: Db, i: nat, units: int)
    requires Consistent(db) && units > 0
    ensures Consistent(Reserve(db, i, units).0)
  {
    var after := Reserve(db, i, units).0;
    if after != db {
      forall j: nat
        ensures Counted(after, j)
      {
        assert Counted(db, j);
        var row := Some(Assignment(i, units, false));
        Append(OpenUnits(db.assignments, j), Open(row, j));
        assert OpenUnits(after.assignments, j) == OpenUnits(db.assignments, j) + [Open(row, j)];
      }
      forall k: nat
        ensures Owned(after, k)
      {
        assert Owned(db, k);
      }
    }
  }

  lemma ReceiveConserves(db: Db, r: Return, condition: Condition)
    requires Consistent(db) && Remembers(db, r)
    ensures Consistent(CloseReturn(db, r, condition).0)
  {
    var after := CloseReturn(db, r, condition).0;
    if after != db {
      assert Owned(db, r.id);
      DecrementHits(db, r.id);
      forall j: nat
        ensures Counted(after, j)
      {
        assert Counted(db, j);
        SetOpen(db.assignments, r.id, after.assignments[r.id], j);
      }
      forall k: nat
        ensures Owned(after, k)
      {
        assert Owned(db, k);
      }
    }
  }

  lemma RemoveConserves(db: Db, i: nat)
    requires Consistent(db)
    ensures Consistent(Apply(db, RemoveItem(i)).0)
  {
    var after := Apply(db, RemoveItem(i)).0;
    if after != db {
      forall j: nat
        ensures Counted(after, j)
      {
        assert Counted(db, j);
        assert j != i ==> OpenUnits(after.assignments, j) == OpenUnits(db.assignments, j);
      }
      forall k: nat
        ensures Owned(after, k)
      {
        assert Owned(db, k);
      }
    }
  }

  /** Units are positive, as the schema and the table's CHECK demand. */
  predicate Positive(step: Step)
  {
    step.Issue? ==> step.units > 0
  }

  lemma ApplyConserves(db: Db, step: Step)
    requires Consistent(db) && Positive(step)
    ensures Consistent(Apply(db, step).0)
  {
    var after := Apply(db, step).0;
    match step
    case Issue(i, units) => ReserveConserves(db, i, units);
    case FinishReturn(k, condition) =>
      if k < |db.inFlight| {
        ReceiveConserves(db, db.inFlight[k], condition);
      }
    case RemoveItem(i) => RemoveConserves(db, i);
    case CreateItem(_, _, _) =>
      forall j: nat
        ensures Counted(after, j)
      {
        assert Counted(db, j);
        if j == |db.items| {
          forall k | 0 <= k < |db.assignments|
            ensures Open(db.assignments[k], j) == 0
          {
            assert Owned(db, k);
          }
          Zeros(OpenUnits(db.assignments, j));
        }
      }
      forall k: nat
        ensures Owned(after, k)
      {
        assert Owned(db, k);
      }
    case _ =>
      forall j: nat
        ensures Counted(after, j) && Owned(after, j)
      {
        assert Counted(db, j) && Owned(db, j);
      }
  }

  /**
   * Whatever the interleaving of issues and returns: every item's counter is the units over its
   * unreturned assignments, within 0 and the quantity held.
   */
  lemma {:induction false} UnitsAreConserved(db: Db, steps: seq<Step>)
    requires Consistent(db) && forall k :: 0 <= k < |steps| ==> Positive(steps[k])
    ensures Consistent(Run(db, steps))
    decreases |steps|
  {
    if steps != [] {
      ApplyConserves(db, steps[0]);
      UnitsAreConserved(Apply(db, steps[0]).0, steps[1..]);
    }
  }

  lemma EmptyIsConsistent()
    ensures Consistent(Db([], [], []))
  {
  }

  // ---------- what each step does and answers ----------

  /** Another item carries this tag. */
  ghost predicate Tagged(db: Db, tag: Option<string>, except: Option<nat>)
  {
    tag.Some? && exists i: nat :: i < |db.items| && except != Some(i)
                                  && db.items[i].Some? && db.items[i].value.tag == tag
  }

  /** The rows of items are as before, but for this one. */
  predicate OnlyItem(before: Db, after: Db, i: nat)
  {
    && i < |before.items| == |after.items|
    && forall j :: 0 <= j < |before.items| && j != i ==> after.items[j] == before.items[j]
  }

  /** A new item has nothing out and is in good condition unless said otherwise; a tag in use is refused. */
  lemma CreateItemDoes(db: Db, tag: Option<string>, quantity: nat, condition: Option<Condition>)
    ensures var (after, outcome) := Apply(db, CreateItem(tag, quantity, condition));
      && after.assignments == db.assignments && after.inFlight == db.inFlight
      && if Tagged(db, tag, None) then outcome == DuplicateTag && after == db
         else
           && outcome == Done && |after.items| == |db.items| + 1 && after.items[..|db.items|] == db.items
           && after.items[|db.items|]
                == Some(Item(tag, quantity, 0, if condition == None then Good else condition.value))
  {
    assert TagTaken(db.items, tag, None) <==> Tagged(db, tag, None);
  }

  /** An edit is refused below what is out or for a tag in use; what is out is not edited. */
  lemma UpdateItemDoes(db: Db, i: nat, tag: Option<string>, quantity: nat, condition: Option<Condition>)
    ensures var (after, outcome) := Apply(db, UpdateItem(i, tag, quantity, condition));
      var known := i < |db.items| && db.items[i].Some?;
      && (outcome == NotFound <==> !known)
      && (outcome == StillOut <==> known && quantity < db.items[i].value.unitsOut)
      && (outcome == DuplicateTag <==> known && quantity >= db.items[i].value.unitsOut && Tagged(db, tag, Some(i)))
      && (outcome == Done <==> known && quantity >= db.items[i].value.unitsOut && !Tagged(db, tag, Some(i)))
      && (outcome != Done ==> after == db)
      && (outcome == Done ==>
            && OnlyItem(db, after, i) && after.assignments == db.assignments && after.inFlight == db.inFlight
            && after.items[i].Some? && after.items[i].value.tag == tag && after.items[i].value.quantity == quantity
            && after.items[i].value.unitsOut == db.items[i].value.unitsOut
            && after.items[i].value.condition
                 == if condition == None then db.items[i].value.condition else condition.value)
  {
    assert TagTaken(db.items, tag, Some(i)) <==> Tagged(db, tag, Some(i));
  }

  /** An item goes, with its assignments and no others, exactly when none of it is out. */
  lemma RemoveItemDoes(db: Db, i: nat)
    ensures var (after, outcome) := Apply(db, RemoveItem(i));
      var known := i < |db.items| && db.items[i].Some?;
      && (outcome == NotFound <==> !known)
      && (outcome == StillOut <==> known && db.items[i].value.unitsOut > 0)
      && (outcome == Done <==> known && db.items[i].value.unitsOut <= 0)
      && (outcome != Done ==> after == db)
      && (outcome == Done ==>
            && OnlyItem(db, after, i) && after.items[i] == None && after.inFlight == db.inFlight
            && |after.assignments| == |db.assignments|
            && forall k :: 0 <= k < |db.assignments| ==>
                 after.assignments[k] ==
                   if db.assignments[k].Some? && db.assignments[k].value.item == i then None else db.assignments[k])
  {
  }

  /**
   * Units are issued exactly when as many are held and not out: they are out from then on, under one new
   * open assignment. A refusal says how many are left and changes nothing.
   */
  lemma IssueDoes(db: Db, i: nat, units: int)
    ensures var (after, outcome) := Apply(db, Issue(i, units));
      var known := i < |db.items| && db.items[i].Some?;
      var left := if known then db.items[i].value.quantity - db.items[i].value.unitsOut else 0;
      && outcome == (if known && units <= left then Done else NotAvailable(left))
      && (outcome != Done ==> after == db)
      && (outcome == Done ==>
            && OnlyItem(db, after, i) && after.inFlight == db.inFlight
            && after.items[i] == Some(db.items[i].value.(unitsOut := db.items[i].value.unitsOut + units))
            && after.assignments == db.assignments + [Some(Assignment(i, units, false))])
  {
  }

  /** The first read of a return refuses a missing or returned assignment and remembers the rest. */
  lemma BeginReturnDoes(db: Db, id: nat)
    ensures var (after, outcome) := Apply(db, BeginReturn(id));
      var known := id < |db.assignments| && db.assignments[id].Some?;
      && (outcome == NotFound <==> !known)
      && (outcome == AlreadyReturned <==> known && db.assignments[id].value.returned)
      && after.items == db.items && after.assignments == db.assignments
      && after.inFlight ==
           if known && !db.assignments[id].value.returned
           then db.inFlight + [Return(id, db.assignments[id].value.item, db.assignments[id].value.units)]
           else db.inFlight
  {
  }

  /**
   * A return closes an assignment that is still open, takes exactly its units off what is out of its item,
   * and marks the item with the condition found exactly when that is damaged or written off. One closed in
   * the meantime, or gone, is refused and nothing changes.
   */
  lemma FinishReturnDoes(db: Db, k: nat, condition: Condition)
    requires Consistent(db) && k < |db.inFlight|
    ensures var (after, outcome), r := Apply(db, FinishReturn(k, condition)), db.inFlight[k];
      var open := db.assignments[r.id].Some? && !db.assignments[r.id].value.returned;
      && outcome == (if open then Done else AlreadyReturned)
      && (outcome != Done ==> after == db)
      && (outcome == Done ==>
            && OnlyItem(db, after, r.item) && db.items[r.item].Some? && after.inFlight == db.inFlight
            && (var was := db.items[r.item].value;
                after.items[r.item] ==
                  Some(Item(was.tag, was.quantity, was.unitsOut - db.assignments[r.id].value.units,
                            if condition == Damaged || condition == WrittenOff then condition else was.condition)))
            && |after.assignments| == |db.assignments|
            && after.assignments[r.id] == Some(Assignment(r.item, db.assignments[r.id].value.units, true))
            && forall j :: 0 <= j < |db.assignments| && j != r.id ==> after.assignments[j] == db.assignments[j])
  {
    var r := db.inFlight[k];
    assert Remembers(db, r);
    if db.assignments[r.id].Some? && !db.assignments[r.id].value.returned {
      DecrementHits(db, r.id);
    }
  }

  /** The checks before an issue: a missing item, or one damaged or written off, is refused. */
  lemma RefusedExactly(condition: Condition)
    ensures Refused(condition) <==> condition == Damaged || condition == WrittenOff
  {
  }

  // ---------- an assignment over a whole run ----------

  /** A return of this assignment that is answered done. */
  ghost predicate Returns(db: Db, step: Step, id: nat)
  {
    step.FinishReturn? && step.index < |db.inFlight| && db.inFlight[step.index].id == id && Apply(db, step).1 == Done
  }

  ghost predicate ReturnedIn(db: Db, steps: seq<Step>, id: nat)
    decreases |steps|
  {
    steps != [] && (Returns(db, steps[0], id) || ReturnedIn(Apply(db, steps[0]).0, steps[1..], id))
  }

  predicate IsOpen(db: Db, id: nat)
  {
    id < |db.assignments| && db.assignments[id].Some? && !db.assignments[id].value.returned
  }

  lemma OpenUnitsAreOut(db: Db, id: nat)
    requires Consistent(db) && IsOpen(db, id)
    ensures var row := db.assignments[id].value; Has(db.items, row.item) && db.items[row.item].value.unitsOut > 0
  {
    assert Owned(db, id);
    DecrementHits(db, id);
  }

  /** An open assignment stays as it is until it is returned: its item cannot be deleted under it. */
  lemma StepKeepsOpen(db: Db, step: Step, id: nat)
    requires Consistent(db) && IsOpen(db, id)
    ensures var after := Apply(db, step).0;
      && id < |after.assignments|
      && (Returns(db, step, id) ==> !IsOpen(after, id))
      && (!Returns(db, step, id) ==> after.assignments[id] == db.assignments[id])
  {
    OpenUnitsAreOut(db, id);
    match step
    case CreateItem(tag, quantity, condition) => CreateItemDoes(db, tag, quantity, condition);
    case UpdateItem(i, tag, quantity, condition) => UpdateItemDoes(db, i, tag, quantity, condition);
    case RemoveItem(i) => RemoveItemDoes(db, i);
    case Issue(i, units) => IssueDoes(db, i, units);
    case BeginReturn(j) => BeginReturnDoes(db, j);
    case FinishReturn(k, condition) =>
      if k < |db.inFlight| {
        FinishReturnDoes(db, k, condition);
      }
  }

  lemma StepKeepsClosed(db: Db, step: Step, id: nat)
    requires Consistent(db) && id < |db.assignments| && !IsOpen(db, id)
    ensures id < |Apply(db, step).0.assignments| && !IsOpen(Apply(db, step).0, id)
  {
    if step.FinishReturn? && step.index < |db.inFlight| {
      FinishReturnDoes(db, step.index, step.returnedCondition);
    }
  }

  lemma {:induction false} ClosedStaysClosed(db: Db, steps: seq<Step>, id: nat)
    requires Consistent(db) && (forall k :: 0 <= k < |steps| ==> Positive(steps[k]))
    requires id < |db.assignments| && !IsOpen(db, id)
    ensures !IsOpen(Run(db, steps), id)
    decreases |steps|
  {
    if steps != [] {
      ApplyConserves(db, steps[0]);
      StepKeepsClosed(db, steps[0], id);
      ClosedStaysClosed(Apply(db, steps[0]).0, steps[1..], id);
    }
  }

  /** Over every run an assignment is open until the return of it that is answered done, and exactly until then. */
  lemma {:induction false} OpenUntilReturned(db: Db, steps: seq<Step>, id: nat)
    requires Consistent(db) && (forall k :: 0 <= k < |steps| ==> Positive(steps[k])) && IsOpen(db, id)
    ensures IsOpen(Run(db, steps), id) <==> !ReturnedIn(db, steps, id)
    decreases |steps|
  {
    if steps != [] {
      var next := Apply(db, steps[0]).0;
      ApplyConserves(db, steps[0]);
      StepKeepsOpen(db, steps[0], id);
      if IsOpen(next, id) {
        OpenUntilReturned(next, steps[1..], id);
      } else {
        ClosedStaysClosed(next, steps[1..], id);
      }
    }
  }
}
