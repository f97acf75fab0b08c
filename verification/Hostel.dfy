/**
 * Hostel rooms and beds (apps/api/src/hostel/hostel.service.ts). The two partial unique indexes of
 * the allocation table are guards on the insert.
 */
module Hostel {
  import opened Sets
  import opened Sums
  import opened Wrappers

  datatype Room = Room(block: string, number: string, capacity: nat)
  datatype Allocation = Allocation(room: nat, student: nat, bed: int, current: bool)

  /** Two current allocations that either unique index would refuse to hold together. */
  predicate Collide(a: Allocation, b: Allocation)
  {
    && a.current && b.current
    && (a.student == b.student || (a.room == b.room && a.bed == b.bed))
  }

  datatype Outcome =
    | Placed(bed: int)
    | Done
    | NotFound
    | NoSuchBed
    | BedTaken
    | AlreadyResident
    | Full
    | Duplicate
    | Occupied
    | MovedOut

  /** The tables, and the next id to hand out. */
  datatype Db = Db(students: set<nat>, rooms: map<nat, Room>, allocations: map<nat, Allocation>, next: nat) {

    predicate BedIsTaken(room: nat, bed: int)
    {
      exists id :: id in allocations && allocations[id].current
        && allocations[id].room == room && allocations[id].bed == bed
    }

    predicate IsResident(student: nat)
    {
      exists id :: id in allocations && allocations[id].current && allocations[id].student == student
    }

    /** The beds of a room somebody lives in. */
    function Taken(room: nat): set<int>
    {
      set id | id in allocations && allocations[id].current && allocations[id].room == room :: allocations[id].bed
    }

    /** No bed and no student has two current allocations, and every occupied bed exists. */
    ghost predicate Valid()
    {
      && (forall id :: id in allocations || id in rooms ==> id < next)
      && (forall id :: id in allocations && allocations[id].current ==>
            var a := allocations[id]; a.room in rooms && 1 <= a.bed <= rooms[a.room].capacity)
      && (forall id, jd {:trigger Collide(allocations[id], allocations[jd])} ::
            id in allocations && jd in allocations && Collide(allocations[id], allocations[jd]) ==> id == jd)
    }

    predicate NameTaken(block: string, number: string, except: Option<nat>)
    {
      exists r :: r in rooms && Some(r) != except && rooms[r].block == block && rooms[r].number == number
    }

    /** The insert of an allocation, refused by either unique index. */
    function Claim(room: nat, student: nat, bed: int): (Db, bool)
    {
      if BedIsTaken(room, bed) || IsResident(student) then (this, false)
      else (this.(allocations := allocations[next := Allocation(room, student, bed, true)], next := next + 1), true)
    }
  }

  // ---------- free beds ----------

  /** The beds 1..capacity not taken, in order. */
  function FreeBeds(taken: set<int>, capacity: nat): (free: seq<int>)
  {
    if capacity == 0 then []
    else FreeBeds(taken, capacity - 1) + (if capacity in taken then [] else [capacity])
  }

  lemma {:induction false} FreeBedsExactly(taken: set<int>, capacity: nat, bed: int)
    ensures bed in FreeBeds(taken, capacity) <==> 1 <= bed <= capacity && bed !in taken
  {
    if capacity > 0 {
      FreeBedsExactly(taken, capacity - 1, bed);
    }
  }

  /** The bed chosen automatically is the lowest free one. */
  lemma {:induction false} FirstFreeIsLowest(taken: set<int>, capacity: nat)
    requires FreeBeds(taken, capacity) != []
    ensures var first := FreeBeds(taken, capacity)[0];
      1 <= first <= capacity && first !in taken && forall bed :: 1 <= bed < first ==> bed in taken
  {
    var earlier := FreeBeds(taken, capacity - 1);
    if earlier != [] {
      FirstFreeIsLowest(taken, capacity - 1);
    } else {
      forall bed | 1 <= bed < capacity
        ensures bed in taken
      {
        FreeBedsExactly(taken, capacity - 1, bed);
      }
    }
  }

  lemma {:induction false} FreeAndTaken(taken: set<int>, capacity: nat)
    requires forall bed :: bed in taken ==> 1 <= bed <= capacity
    ensures |taken| + |FreeBeds(taken, capacity)| == capacity
  {
    if capacity == 0 {
      assert forall bed :: bed !in taken;
      assert taken == {};
    } else {
      var fewer := taken - {capacity as int};
      FreeAndTaken(fewer, capacity - 1);
      SameFreeBeds(fewer, taken, capacity - 1);
    }
  }

  lemma {:induction false} SameFreeBeds(a: set<int>, b: set<int>, capacity: nat)
    requires forall bed :: 1 <= bed <= capacity ==> (bed in a <==> bed in b)
    ensures FreeBeds(a, capacity) == FreeBeds(b, capacity)
  {
    if capacity > 0 {
      SameFreeBeds(a, b, capacity - 1);
    }
  }

  /** As many distinct beds taken as there are beds: the room is full. */
  lemma Pigeonhole(taken: set<int>, capacity: nat)
    requires forall bed :: bed in taken ==> 1 <= bed <= capacity
    requires |taken| >= capacity
    ensures forall bed :: 1 <= bed <= capacity ==> bed in taken
  {
    FreeAndTaken(taken, capacity);
    forall bed | 1 <= bed <= capacity
      ensures bed in taken
    {
      FreeBedsExactly(taken, capacity, bed);
    }
  }

  lemma TakenMeans(db: Db, room: nat, bed: int)
    ensures bed in db.Taken(room) <==> db.BedIsTaken(room, bed)
  {
  }

  // ---------- allocations by others ----------

  datatype Request = Request(room: nat, student: nat, bed: int)

  /** Somebody else's allocation: refused for a bed the room does not have, then by the indexes. */
  function Other(db: Db, r: Request): Db
  {
    if r.room in db.rooms && 1 <= r.bed <= db.rooms[r.room].capacity then db.Claim(r.room, r.student, r.bed).0 else db
  }

  function Others(db: Db, requests: seq<Request>): Db
    decreases |requests|
  {
    if requests == [] then db else Others(Other(db, requests[0]), requests[1..])
  }

  /** Allocating never moves anybody out. */
  ghost predicate Grows(before: Db, after: Db)
  {
    && after.rooms == before.rooms
    && forall id :: id in before.allocations ==>
         id in after.allocations && after.allocations[id] == before.allocations[id]
  }

  lemma ClaimKeepsValid(db: Db, room: nat, student: nat, bed: int)
    requires db.Valid() && room in db.rooms && 1 <= bed <= db.rooms[room].capacity
    ensures var after := db.Claim(room, student, bed).0; after.Valid() && Grows(db, after)
  {
  }

  lemma OtherKeepsValid(db: Db, r: Request)
    requires db.Valid()
    ensures Other(db, r).Valid() && Grows(db, Other(db, r))
  {
    if r.room in db.rooms && 1 <= r.bed <= db.rooms[r.room].capacity {
      ClaimKeepsValid(db, r.room, r.student, r.bed);
      assert Other(db, r) == db.Claim(r.room, r.student, r.bed).0;
    } else {
      assert Other(db, r) == db;
    }
  }

  lemma GrowsFurther(a: Db, b: Db, c: Db)
    requires Grows(a, b) && Grows(b, c)
    ensures Grows(a, c)
  {
  }

  lemma {:induction false} OthersKeepValid(db: Db, requests: seq<Request>)
    requires db.Valid()
    ensures Others(db, requests).Valid() && Grows(db, Others(db, requests))
    decreases |requests|
  {
    if requests != [] {
      var next := Other(db, requests[0]);
      OtherKeepsValid(db, requests[0]);
      OthersKeepValid(next, requests[1..]);
      GrowsFurther(db, next, Others(next, requests[1..]));
    }
  }

  lemma GrowsTaken(before: Db, after: Db, room: nat)
    requires Grows(before, after)
    ensures before.Taken(room) <= after.Taken(room)
    ensures forall student: nat :: before.IsResident(student) ==> after.IsResident(student)
  {
    forall bed | bed in before.Taken(room)
      ensures bed in after.Taken(room)
    {
      var id :| id in before.allocations && before.allocations[id].current
                && before.allocations[id].room == room && before.allocations[id].bed == bed;
      assert id in after.allocations;
    }
    forall student: nat | before.IsResident(student)
      ensures after.IsResident(student)
    {
      var id :| id in before.allocations && before.allocations[id].current && before.allocations[id].student == student;
      assert id in after.allocations;
    }
  }

  /** A bed free when read and taken when claimed is one more bed taken. */
  lemma OneMoreTaken(before: Db, after: Db, room: nat, bed: int)
    requires Grows(before, after) && bed !in before.Taken(room) && after.BedIsTaken(room, bed)
    ensures |after.Taken(room)| > |before.Taken(room)|
  {
    GrowsTaken(before, after, room);
    var more := before.Taken(room) + {bed};
    assert more <= after.Taken(room);
    assert after.Taken(room) == more + (after.Taken(room) - more);
  }

  /** With no free bed, or with as many beds taken as there are, every bed is taken. */
  lemma RoomIsFull(db: Db, room: nat)
    requires db.Valid() && room in db.rooms
    requires FreeBeds(db.Taken(room), db.rooms[room].capacity) == [] || |db.Taken(room)| >= db.rooms[room].capacity
    ensures forall bed :: 1 <= bed <= db.rooms[room].capacity ==> db.BedIsTaken(room, bed)
  {
    var capacity := db.rooms[room].capacity;
    FreeAndTaken(db.Taken(room), capacity);
    Pigeonhole(db.Taken(room), capacity);
    forall bed | 1 <= bed <= capacity
      ensures db.BedIsTaken(room, bed)
    {
      TakenMeans(db, room, bed);
    }
  }

  // ---------- any free bed, against other allocations ----------

  /** The requests that get in before an attempt's read, before its claim, and before its last query. */
  datatype Interference = Interference(beforeRead: seq<Request>, beforeClaim: seq<Request>, beforeQuery: seq<Request>)

  /** One pass: the lowest bed free at the read is claimed; a refusal is explained by a second query. */
  function Attempt(db: Db, room: nat, student: nat, capacity: nat, i: Interference): (Db, Outcome)
  {
    var read := Others(db, i.beforeRead);
    var free := FreeBeds(read.Taken(room), capacity);
    if free == [] then (read, Full)
    else
      var (claimed, placed) := Others(read, i.beforeClaim).Claim(room, student, free[0]);
      if placed then (claimed, Placed(free[0]))
      else
        var asked := Others(claimed, i.beforeQuery);
        (asked, if asked.IsResident(student) then AlreadyResident else BedTaken)
  }

  /** The passes from the `attempt`-th on: the database, the answer and the number of claims made. */
  function Allocate(db: Db, room: nat, student: nat, capacity: nat, others: nat -> Interference, attempt: nat)
    : (Db, Outcome, nat)
    requires attempt <= capacity
    decreases capacity - attempt
  {
    if attempt == capacity then (db, Full, attempt)
    else
      var (next, outcome) := Attempt(db, room, student, capacity, others(attempt));
      if outcome == BedTaken then Allocate(next, room, student, capacity, others, attempt + 1)
      else (next, outcome, if outcome == Full then attempt else attempt + 1)
  }

  ghost predicate MovedIn(before: Db, after: Db, a: Allocation)
  {
    exists id :: id in after.allocations && id !in before.allocations && after.allocations[id] == a
  }

  /** What the caller may conclude from an answer. */
  ghost predicate Truthful(before: Db, after: Db, room: nat, student: nat, capacity: nat, outcome: Outcome)
  {
    match outcome
    case Placed(bed) =>
      && 1 <= bed <= capacity
      && MovedIn(before, after, Allocation(room, student, bed, true))
    case AlreadyResident => after.IsResident(student)
    case Full => forall bed :: 1 <= bed <= capacity ==> after.BedIsTaken(room, bed)
    case BedTaken => |after.Taken(room)| > |before.Taken(room)|
    case _ => false
  }

  /** Nobody was moved out, no index is violated, and the answer is true. */
  ghost predicate Honest(before: Db, after: Db, room: nat, student: nat, capacity: nat, outcome: Outcome)
  {
    after.Valid() && Grows(before, after) && Truthful(before, after, room, student, capacity, outcome)
  }

  lemma AttemptIsTruthful(db: Db, room: nat, student: nat, i: Interference)
    requires db.Valid() && room in db.rooms
    ensures var capacity := db.rooms[room].capacity;
      var (after, outcome) := Attempt(db, room, student, capacity, i);
      Honest(db, after, room, student, capacity, outcome)
  {
    var capacity := db.rooms[room].capacity;
    var read := Others(db, i.beforeRead);
    OthersKeepValid(db, i.beforeRead);
    var free := FreeBeds(read.Taken(room), capacity);
    if free == [] {
      RoomIsFull(read, room);
    } else {
      FirstFreeIsLowest(read.Taken(room), capacity);
      var seen := Others(read, i.beforeClaim);
      OthersKeepValid(read, i.beforeClaim);
      GrowsFurther(db, read, seen);
      var (claimed, placed) := seen.Claim(room, student, free[0]);
      ClaimKeepsValid(seen, room, student, free[0]);
      GrowsFurther(db, seen, claimed);
      if placed {
        assert claimed.allocations[seen.next] == Allocation(room, student, free[0], true);
      } else {
        RefusedIsTruthful(db, read, seen, room, student, free[0], i.beforeQuery);
      }
    }
  }

  lemma RefusedIsTruthful(db: Db, read: Db, seen: Db, room: nat, student: nat, bed: int, beforeQuery: seq<Request>)
    requires seen.Valid() && Grows(db, read) && Grows(read, seen) && bed !in read.Taken(room)
    requires seen.BedIsTaken(room, bed) || seen.IsResident(student)
    ensures var asked := Others(seen, beforeQuery);
      && asked.Valid() && Grows(db, asked)
      && (!asked.IsResident(student) ==> |asked.Taken(room)| > |db.Taken(room)|)
  {
    var asked := Others(seen, beforeQuery);
    OthersKeepValid(seen, beforeQuery);
    GrowsFurther(db, read, seen);
    GrowsFurther(db, seen, asked);
    GrowsTaken(seen, asked, room);
    if !asked.IsResident(student) {
      GrowsTaken(db, read, room);
      SubsetSize(db.Taken(room), read.Taken(room));
      OneMoreTaken(read, seen, room, bed);
      SubsetSize(seen.Taken(room), asked.Taken(room));
    }
  }

  lemma TruthfulFrom(before: Db, next: Db, after: Db, room: nat, student: nat, capacity: nat, outcome: Outcome)
    requires Grows(before, next) && outcome != BedTaken
    requires Honest(next, after, room, student, capacity, outcome)
    ensures Honest(before, after, room, student, capacity, outcome)
  {
  }

  /** One claim a pass at most. */
  lemma {:induction false} ClaimsAreBounded(db: Db, room: nat, student: nat, capacity: nat,
                                            others: nat -> Interference, attempt: nat)
    requires attempt <= capacity
    ensures Allocate(db, room, student, capacity, others, attempt).2 <= capacity
    decreases capacity - attempt
  {
    if attempt < capacity {
      ClaimsAreBounded(Attempt(db, room, student, capacity, others(attempt)).0, room, student, capacity,
                       others, attempt + 1);
    }
  }

  /**
   * However other allocations interleave: at most `capacity` claims, and the answer is true. The
   * student is placed in a bed of the room, or already lives somewhere, or every bed is taken.
   */
  lemma {:induction false} AllocateIsTruthful(db: Db, room: nat, student: nat,
                                            others: nat -> Interference, attempt: nat)
    requires db.Valid() && room in db.rooms && attempt <= db.rooms[room].capacity
    requires |db.Taken(room)| >= attempt
    ensures var capacity := db.rooms[room].capacity;
      var (after, outcome, claims) := Allocate(db, room, student, capacity, others, attempt);
      Honest(db, after, room, student, capacity, outcome) && outcome != BedTaken && claims <= capacity
    decreases db.rooms[room].capacity - attempt
  {
    var capacity := db.rooms[room].capacity;
    ClaimsAreBounded(db, room, student, capacity, others, attempt);
    if attempt == capacity {
      RoomIsFull(db, room);
    } else {
      AttemptIsTruthful(db, room, student, others(attempt));
      var (next, outcome) := Attempt(db, room, student, capacity, others(attempt));
      if outcome == BedTaken {
        AllocateIsTruthful(next, room, student, others, attempt + 1);
        var (after, final, claims) := Allocate(next, room, student, capacity, others, attempt + 1);
        TruthfulFrom(db, next, after, room, student, capacity, final);
        assert Allocate(db, room, student, capacity, others, attempt) == (after, final, claims);
      } else {
        assert Allocate(db, room, student, capacity, others, attempt).0 == next;
        assert Allocate(db, room, student, capacity, others, attempt).1 == outcome;
      }
    }
  }

  // ---------- every run ----------

  datatype Step =
    | CreateRoom(block: string, number: string, capacity: nat)
    | UpdateRoom(id: nat, block: string, number: string, capacity: nat)
    | RemoveRoom(id: nat)
    | AllocateBed(room: nat, student: nat, bed: int)
    | AllocateAny(room: nat, student: nat)
    | Vacate(id: nat)

  predicate Lives(db: Db, id: nat, room: nat)
    requires id in db.allocations
  {
    db.allocations[id].current && db.allocations[id].room == room
  }

  const NOBODY := (attempt: nat) => Interference([], [], [])

  function Apply(db: Db, step: Step): (Db, Outcome)
  {
    match step
    case CreateRoom(block, number, capacity) =>
      if db.NameTaken(block, number, None) then (db, Duplicate)
      else (db.(rooms := db.rooms[db.next := Room(block, number, capacity)], next := db.next + 1), Done)
    case UpdateRoom(r, block, number, capacity) =>
      if r !in db.rooms then (db, NotFound)
      else if exists id :: id in db.allocations && Lives(db, id, r) && db.allocations[id].bed > capacity
      then (db, Occupied)
      else if db.NameTaken(block, number, Some(r)) then (db, Duplicate)
      else (db.(rooms := db.rooms[r := Room(block, number, capacity)]), Done)
    case RemoveRoom(r) =>
      if r !in db.rooms then (db, NotFound)
      else if exists id :: id in db.allocations && Lives(db, id, r) then (db, Occupied)
      else
        var others := map id | id in db.allocations && db.allocations[id].room != r :: db.allocations[id];
        (db.(rooms := db.rooms - {r}, allocations := others), Done)
    case AllocateBed(r, student, bed) =>
      if r !in db.rooms || student !in db.students then (db, NotFound)
      else if bed > db.rooms[r].capacity then (db, NoSuchBed)
      else
        var (after, placed) := db.Claim(r, student, bed);
        (after, if placed then Placed(bed) else if db.IsResident(student) then AlreadyResident else BedTaken)
    case AllocateAny(r, student) =>
      if r !in db.rooms || student !in db.students then (db, NotFound)
      else
        var (after, outcome, claims) := Allocate(db, r, student, db.rooms[r].capacity, NOBODY, 0);
        (after, outcome)
    case Vacate(id) =>
      if id !in db.allocations then (db, NotFound)
      else if !db.allocations[id].current then (db, MovedOut)
      else (db.(allocations := db.allocations[id := db.allocations[id].(current := false)]), Done)
  }

  function Run(db: Db, steps: seq<Step>): Db
    decreases |steps|
  {
    if steps == [] then db else Run(Apply(db, steps[0]).0, steps[1..])
  }

  /** Bed numbers start at 1, as the request schema demands. */
  predicate Positive(step: Step)
  {
    step.AllocateBed? ==> step.bed >= 1
  }

  lemma UpdateRoomKeepsValid(db: Db, r: nat, block: string, number: string, capacity: nat)
    requires db.Valid()
    ensures Apply(db, UpdateRoom(r, block, number, capacity)).0.Valid()
  {
    var after := Apply(db, UpdateRoom(r, block, number, capacity)).0;
    if after != db {
      forall id | id in after.allocations && after.allocations[id].current
        ensures var a := after.allocations[id]; a.room in after.rooms && 1 <= a.bed <= after.rooms[a.room].capacity
      {
        assert Lives(db, id, r) || db.allocations[id].room != r;
      }
    }
  }

  lemma RemoveRoomKeepsValid(db: Db, r: nat)
    requires db.Valid()
    ensures Apply(db, RemoveRoom(r)).0.Valid()
  {
    var after := Apply(db, RemoveRoom(r)).0;
    if after != db {
      forall id | id in after.allocations && after.allocations[id].current
        ensures var a := after.allocations[id]; a.room in after.rooms && 1 <= a.bed <= after.rooms[a.room].capacity
      {
        assert !Lives(db, id, r);
      }
    }
  }

  lemma VacateKeepsValid(db: Db, id: nat)
    requires db.Valid()
    ensures Apply(db, Vacate(id)).0.Valid()
  {
  }

  lemma ApplyKeepsValid(db: Db, step: Step)
    requires db.Valid() && Positive(step)
    ensures Apply(db, step).0.Valid()
  {
    match step
    case UpdateRoom(r, block, number, capacity) => UpdateRoomKeepsValid(db, r, block, number, capacity);
    case RemoveRoom(r) => RemoveRoomKeepsValid(db, r);
    case AllocateBed(r, student, bed) =>
      if r in db.rooms && bed <= db.rooms[r].capacity {
        ClaimKeepsValid(db, r, student, bed);
      }
    case AllocateAny(r, student) =>
      if r in db.rooms {
        AllocateIsTruthful(db, r, student, NOBODY, 0);
      }
    case CreateRoom(_, _, _) =>
    case Vacate(id) => VacateKeepsValid(db, id);
  }

  /** What a list of rooms says of one room. */
  datatype Occupancy = Occupancy(block: string, capacity: int, occupied: int, freeBeds: seq<int>)

  function OccupancyOf(db: Db, room: nat): Occupancy
    requires room in db.rooms
  {
    Occupancy(db.rooms[room].block, db.rooms[room].capacity, |db.Taken(room)|,
              FreeBeds(db.Taken(room), db.rooms[room].capacity))
  }

  /**
   * In every run: no bed and no student has two current allocations, every occupied bed exists, and
   * each listed room's occupied and free beds make up its capacity.
   */
  lemma {:induction false} BedsAreConserved(db: Db, steps: seq<Step>)
    requires db.Valid() && forall k :: 0 <= k < |steps| ==> Positive(steps[k])
    ensures var after := Run(db, steps);
      && after.Valid()
      && forall room :: room in after.rooms ==>
           var o := OccupancyOf(after, room); o.occupied + |o.freeBeds| == o.capacity
    decreases |steps|
  {
    if steps != [] {
      ApplyKeepsValid(db, steps[0]);
      BedsAreConserved(Apply(db, steps[0]).0, steps[1..]);
    } else {
      forall room | room in db.rooms
        ensures |db.Taken(room)| + |FreeBeds(db.Taken(room), db.rooms[room].capacity)| == db.rooms[room].capacity
      {
        FreeAndTaken(db.Taken(room), db.rooms[room].capacity);
      }
    }
  }

  /** With nobody else allocating, a refusal for want of a bed means the room was full to begin with. */
  lemma FullMeansFull(db: Db, room: nat, student: nat)
    requires db.Valid() && room in db.rooms && student in db.students
    ensures var (after, outcome) := Apply(db, AllocateAny(room, student));
      && (outcome == Full <==> forall bed :: 1 <= bed <= db.rooms[room].capacity ==> db.BedIsTaken(room, bed))
      && (outcome == AlreadyResident <==>
            !(forall bed :: 1 <= bed <= db.rooms[room].capacity ==> db.BedIsTaken(room, bed)) && db.IsResident(student))
  {
    var capacity := db.rooms[room].capacity;
    var free := FreeBeds(db.Taken(room), capacity);
    if free == [] {
      RoomIsFull(db, room);
      if capacity > 0 {
        assert Attempt(db, room, student, capacity, NOBODY(0)) == (db, Full);
      }
    } else {
      FirstFreeIsLowest(db.Taken(room), capacity);
      TakenMeans(db, room, free[0]);
    }
  }

  // ---------- the service ----------

  class Service {
    var students: set<nat>
    var rooms: map<nat, Room>
    var allocations: map<nat, Allocation>
    var next: nat

    function View(): Db
      reads this
    {
      Db(students, rooms, allocations, next)
    }

    constructor (students: set<nat>)
      ensures View() == Db(students, map[], map[], 0) && View().Valid()
    {
      this.students, rooms, allocations, next := students, map[], map[], 0;
    }

    method CreateRoom(block: string, number: string, capacity: nat) returns (outcome: Outcome)
      modifies this`rooms, this`next
      ensures (View(), outcome) == Apply(old(View()), Step.CreateRoom(block, number, capacity))
    {
      if View().NameTaken(block, number, None) {
        return Duplicate;
      }
      rooms, next := rooms[next := Room(block, number, capacity)], next + 1;
      outcome := Done;
    }

    method UpdateRoom(id: nat, block: string, number: string, capacity: nat) returns (outcome: Outcome)
      modifies this`rooms
      ensures (View(), outcome) == Apply(old(View()), Step.UpdateRoom(id, block, number, capacity))
    {
      if id !in rooms {
        return NotFound;
      }
      if exists a :: a in allocations && Lives(View(), a, id) && allocations[a].bed > capacity {
        return Occupied;
      }
      if View().NameTaken(block, number, Some(id)) {
        return Duplicate;
      }
      rooms := rooms[id := Room(block, number, capacity)];
      outcome := Done;
    }

    method RemoveRoom(id: nat) returns (outcome: Outcome)
      modifies this`rooms, this`allocations
      ensures (View(), outcome) == Apply(old(View()), Step.RemoveRoom(id))
    {
      if id !in rooms {
        return NotFound;
      }
      if exists a :: a in allocations && Lives(View(), a, id) {
        return Occupied;
      }
      rooms := rooms - {id};
      allocations := map a | a in allocations && allocations[a].room != id :: allocations[a];
      outcome := Done;
    }

    method Vacate(id: nat) returns (outcome: Outcome)
      modifies this`allocations
      ensures (View(), outcome) == Apply(old(View()), Step.Vacate(id))
    {
      if id in allocations && allocations[id].current {
        allocations := allocations[id := allocations[id].(current := false)];
        return Done;
      }
      outcome := if id in allocations then MovedOut else NotFound;
    }

    /** The other requests that get in at this point. */
    method Yield(requests: seq<Request>)
      modifies this`allocations, this`next
      ensures View() == Others(old(View()), requests)
    {
      OthersTouchOnlyAllocations(View(), requests);
      var db := Others(View(), requests);
      allocations, next := db.allocations, db.next;
    }

    /** The insert; when either index refuses it, a second query says what to tell the caller. */
    method ClaimBed(room: nat, student: nat, bed: int, beforeQuery: seq<Request>) returns (outcome: Outcome)
      modifies this`allocations, this`next
      ensures var (claimed, placed) := old(View()).Claim(room, student, bed);
        if placed then View() == claimed && outcome == Placed(bed)
        else View() == Others(claimed, beforeQuery)
             && outcome == if View().IsResident(student) then AlreadyResident else BedTaken
    {
      if !View().BedIsTaken(room, bed) && !View().IsResident(student) {
        allocations, next := allocations[next := Allocation(room, student, bed, true)], next + 1;
        return Placed(bed);
      }
      Yield(beforeQuery);
      outcome := if View().IsResident(student) then AlreadyResident else BedTaken;
    }

    method AllocateBed(room: nat, student: nat, bed: int) returns (outcome: Outcome)
      modifies this`allocations, this`next
      ensures (View(), outcome) == Apply(old(View()), Step.AllocateBed(room, student, bed))
    {
      if room !in rooms || student !in students {
        return NotFound;
      }
      if bed > rooms[room].capacity {
        return NoSuchBed;
      }
      outcome := ClaimBed(room, student, bed, []);
    }

    /** The retry loop, with other requests getting in at every point it waits on the database. */
    method AllocateAny(room: nat, student: nat, others: nat -> Interference) returns (outcome: Outcome)
      modifies this`allocations, this`next
      ensures room !in old(rooms) || student !in students ==> View() == old(View()) && outcome == NotFound
      ensures room in old(rooms) && student in students ==>
        var (after, answer, claims) := Allocate(old(View()), room, student, old(rooms)[room].capacity, others, 0);
        View() == after && outcome == answer
    {
      if room !in rooms || student !in students {
        return NotFound;
      }
      var capacity := rooms[room].capacity;
      var attempt := 0;
      while attempt < capacity
        invariant attempt <= capacity
        invariant Allocate(View(), room, student, capacity, others, attempt)
               == Allocate(old(View()), room, student, capacity, others, 0)
      {
        var waits := others(attempt);
        Yield(waits.beforeRead);
        var free := FreeBeds(View().Taken(room), capacity);
        if free == [] {
          return Full;
        }
        Yield(waits.beforeClaim);
        outcome := ClaimBed(room, student, free[0], waits.beforeQuery);
        if outcome != BedTaken {
          return;
        }
        attempt := attempt + 1;
      }
      outcome := Full;
    }
  }

  lemma {:induction false} OthersTouchOnlyAllocations(db: Db, requests: seq<Request>)
    ensures Others(db, requests).rooms == db.rooms && Others(db, requests).students == db.students
    decreases |requests|
  {
    if requests != [] {
      OthersTouchOnlyAllocations(Other(db, requests[0]), requests[1..]);
    }
  }

  // ---------- the summary ----------

  datatype Block = Block(name: string, rooms: int, capacity: int, occupied: int)

  datatype Measure = RoomCount | Capacity | Residents

  function RoomValue(o: Occupancy, m: Measure): int
  {
    match m
    case RoomCount => 1
    case Capacity => o.capacity
    case Residents => o.occupied
  }

  function BlockValue(b: Block, m: Measure): int
  {
    match m
    case RoomCount => b.rooms
    case Capacity => b.capacity
    case Residents => b.occupied
  }

  /** What the rooms of a block, or of the whole hostel, add to a measure. */
  function RoomValues(rooms: seq<Occupancy>, block: Option<string>, m: Measure): (r: seq<int>)
    ensures |r| == |rooms|
  {
    seq(|rooms|, i requires 0 <= i < |rooms| =>
      if block == None || block == Some(rooms[i].block) then RoomValue(rooms[i], m) else 0)
  }

  function BlockValues(blocks: seq<Block>, m: Measure): (r: seq<int>)
    ensures |r| == |blocks|
  {
    seq(|blocks|, i requires 0 <= i < |blocks| => BlockValue(blocks[i], m))
  }

  ghost predicate Lists(blocks: seq<Block>, name: string)
  {
    exists j :: 0 <= j < |blocks| && blocks[j].name == name
  }

  /**
   * Each block's figures are those of its rooms, each room's block is listed once, and the blocks add
   * up to the whole.
   */
  ghost predicate Summarises(blocks: seq<Block>, rooms: seq<Occupancy>)
  {
    && (forall j, k :: 0 <= j < k < |blocks| ==> blocks[j].name != blocks[k].name)
    && (forall i :: 0 <= i < |rooms| ==> Lists(blocks, rooms[i].block))
    && (forall j, m :: 0 <= j < |blocks| ==>
          BlockValue(blocks[j], m) == Sum(RoomValues(rooms, Some(blocks[j].name), m)))
    && (forall m :: Sum(BlockValues(blocks, m)) == Sum(RoomValues(rooms, None, m)))
  }

  function AddRoom(b: Block, o: Occupancy): Block
  {
    Block(b.name, b.rooms + 1, b.capacity + o.capacity, b.occupied + o.occupied)
  }

  lemma NextRoomValues(rooms: seq<Occupancy>, o: Occupancy, block: Option<string>, m: Measure)
    ensures Sum(RoomValues(rooms + [o], block, m))
         == Sum(RoomValues(rooms, block, m)) + if block == None || block == Some(o.block) then RoomValue(o, m) else 0
  {
    var more := if block == None || block == Some(o.block) then RoomValue(o, m) else 0;
    Append(RoomValues(rooms, block, m), more);
    assert RoomValues(rooms + [o], block, m) == RoomValues(rooms, block, m) + [more];
  }

  /** The listed blocks once a room has been added to its block, at `j` or new at the end. */
  function WithRoom(blocks: seq<Block>, o: Occupancy, j: nat): seq<Block>
    requires j <= |blocks|
  {
    if j < |blocks| then blocks[j := AddRoom(blocks[j], o)] else blocks + [AddRoom(Block(o.block, 0, 0, 0), o)]
  }

  lemma NextBlockValues(blocks: seq<Block>, o: Occupancy, j: nat, m: Measure)
    requires j <= |blocks|
    ensures Sum(BlockValues(WithRoom(blocks, o, j), m)) == Sum(BlockValues(blocks, m)) + RoomValue(o, m)
  {
    var after := WithRoom(blocks, o, j);
    if j < |blocks| {
      Update(BlockValues(blocks, m), j, BlockValue(after[j], m));
      assert BlockValues(after, m) == BlockValues(blocks, m)[j := BlockValue(after[j], m)];
    } else {
      Append(BlockValues(blocks, m), RoomValue(o, m));
      assert BlockValues(after, m) == BlockValues(blocks, m) + [RoomValue(o, m)];
    }
  }

  lemma NoRoomsYet(rooms: seq<Occupancy>, block: string, m: Measure)
    requires forall i :: 0 <= i < |rooms| ==> rooms[i].block != block
    ensures Sum(RoomValues(rooms, Some(block), m)) == 0
  {
    Zeros(RoomValues(rooms, Some(block), m));
  }

  lemma StillListed(blocks: seq<Block>, o: Occupancy, j: nat, name: string)
    requires j <= |blocks| && (j < |blocks| ==> blocks[j].name == o.block)
    requires name == o.block || Lists(blocks, name)
    ensures Lists(WithRoom(blocks, o, j), name)
  {
    var after := WithRoom(blocks, o, j);
    if name == o.block {
      assert after[j].name == name;
    } else {
      var k :| 0 <= k < |blocks| && blocks[k].name == name;
      assert after[k].name == name;
    }
  }

  /** The room's block, if listed at `j`, gains the room; a new block is listed last. */
  lemma SummariseNext(blocks: seq<Block>, rooms: seq<Occupancy>, o: Occupancy, j: nat)
    requires Summarises(blocks, rooms) && j <= |blocks|
    requires j < |blocks| ==> blocks[j].name == o.block
    requires j == |blocks| ==> forall k :: 0 <= k < |blocks| ==> blocks[k].name != o.block
    ensures Summarises(WithRoom(blocks, o, j), rooms + [o])
  {
    var after := WithRoom(blocks, o, j);
    forall k, m | 0 <= k < |after|
      ensures BlockValue(after[k], m) == Sum(RoomValues(rooms + [o], Some(after[k].name), m))
    {
      NextRoomValues(rooms, o, Some(after[k].name), m);
      if k == |blocks| {
        NoRoomsYet(rooms, o.block, m);
      }
    }
    forall m
      ensures Sum(BlockValues(after, m)) == Sum(RoomValues(rooms + [o], None, m))
    {
      NextBlockValues(blocks, o, j, m);
      NextRoomValues(rooms, o, None, m);
    }
    forall i | 0 <= i < |rooms + [o]|
      ensures Lists(after, (rooms + [o])[i].block)
    {
      StillListed(blocks, o, j, if i < |rooms| then rooms[i].block else o.block);
    }
  }

  method FindBlock(blocks: seq<Block>, name: string) returns (j: nat)
    ensures j <= |blocks| && (j < |blocks| ==> blocks[j].name == name)
    ensures forall k :: 0 <= k < j ==> blocks[k].name != name
  {
    j := 0;
    while j < |blocks| && blocks[j].name != name
      invariant j <= |blocks| && forall k :: 0 <= k < j ==> blocks[k].name != name
    {
      j := j + 1;
    }
  }

  method Summary(rooms: seq<Occupancy>) returns (blocks: seq<Block>)
    ensures Summarises(blocks, rooms)
  {
    blocks := [];
    for i := 0 to |rooms|
      invariant Summarises(blocks, rooms[..i])
    {
      var o := rooms[i];
      var j := FindBlock(blocks, o.block);
      SummariseNext(blocks, rooms[..i], o, j);
      assert rooms[..i + 1] == rooms[..i] + [o];
      blocks := WithRoom(blocks, o, j);
    }
    assert rooms[..|rooms|] == rooms;
  }
}
