/**
 * What each hostel operation does and answers (apps/api/src/hostel/hostel.service.ts), said of the tables
 * before and after alone, and how long an allocation lasts.
 */
module HostelEffects {
  import opened Hostel
  import opened Sums
  import opened Wrappers

  /** Somebody lives in this bed. */
  ghost predicate Slept(db: Db, room: nat, bed: int)
  {
    exists id :: id in db.allocations && db.allocations[id].current
                 && db.allocations[id].room == room && db.allocations[id].bed == bed
  }

  /** The student lives somewhere. */
  ghost predicate Housed(db: Db, student: nat)
  {
    exists id :: id in db.allocations && db.allocations[id].current && db.allocations[id].student == student
  }

  /** Another room carries this name. */
  ghost predicate Named(db: Db, block: string, number: string, except: Option<nat>)
  {
    exists r :: r in db.rooms && except != Some(r) && db.rooms[r].block == block && db.rooms[r].number == number
  }

  // ---------- rooms ----------

  lemma CreateRoomDoes(db: Db, block: string, number: string, capacity: nat)
    requires db.Valid()
    ensures var (after, outcome) := Apply(db, CreateRoom(block, number, capacity));
      if Named(db, block, number, None) then outcome == Duplicate && after == db
      else
        && outcome == Done && after.students == db.students && after.allocations == db.allocations
        && exists r: nat :: r !in db.rooms && after.rooms == db.rooms[r := Room(block, number, capacity)]
  {
    assert db.NameTaken(block, number, None) <==> Named(db, block, number, None);
    assert db.next !in db.rooms;
  }

  /** A capacity is refused below an occupied bed, a name when another room carries it; the rest stays. */
  lemma UpdateRoomDoes(db: Db, room: nat, block: string, number: string, capacity: nat)
    ensures var (after, outcome) := Apply(db, UpdateRoom(room, block, number, capacity));
      var above := exists bed :: bed > capacity && Slept(db, room, bed);
      && (outcome == NotFound <==> room !in db.rooms)
      && (outcome == Occupied <==> room in db.rooms && above)
      && (outcome == Duplicate <==> room in db.rooms && !above && Named(db, block, number, Some(room)))
      && (outcome == NotFound || outcome == Occupied || outcome == Duplicate || outcome == Done)
      && after == if outcome == Done then db.(rooms := db.rooms[room := Room(block, number, capacity)]) else db
  {
    assert db.NameTaken(block, number, Some(room)) <==> Named(db, block, number, Some(room));
    if id :| id in db.allocations && Lives(db, id, room) && db.allocations[id].bed > capacity {
      assert Slept(db, room, db.allocations[id].bed);
    }
    if bed :| bed > capacity && Slept(db, room, bed) {
      var id :| id in db.allocations && db.allocations[id].current
                && db.allocations[id].room == room && db.allocations[id].bed == bed;
      assert Lives(db, id, room);
    }
  }

  /** A room goes with its history once nobody lives there, and nothing else goes. */
  lemma RemoveRoomDoes(db: Db, room: nat)
    ensures var (after, outcome) := Apply(db, RemoveRoom(room));
      var inhabited := exists bed :: Slept(db, room, bed);
      && (outcome == NotFound <==> room !in db.rooms)
      && (outcome == Occupied <==> room in db.rooms && inhabited)
      && (outcome == NotFound || outcome == Occupied ==> after == db)
      && (room in db.rooms && !inhabited ==>
            && outcome == Done && after.students == db.students
            && after.rooms.Keys == db.rooms.Keys - {room}
            && (forall r :: r in db.rooms && r != room ==> after.rooms[r] == db.rooms[r])
            && (forall id :: id in after.allocations <==> id in db.allocations && db.allocations[id].room != room)
            && (forall id :: id in after.allocations ==> after.allocations[id] == db.allocations[id]))
  {
    if id :| id in db.allocations && Lives(db, id, room) {
      assert Slept(db, room, db.allocations[id].bed);
    }
    if bed :| Slept(db, room, bed) {
      var id :| id in db.allocations && db.allocations[id].current
                && db.allocations[id].room == room && db.allocations[id].bed == bed;
      assert Lives(db, id, room);
    }
  }

  // ---------- beds ----------

  /** A current allocation is ended once: the row stays, its bed is free and its student lives nowhere. */
  lemma VacateDoes(db: Db, id: nat)
    requires db.Valid()
    ensures var (after, outcome) := Apply(db, Vacate(id));
      && (outcome == NotFound <==> id !in db.allocations)
      && (outcome == MovedOut <==> id in db.allocations && !db.allocations[id].current)
      && (outcome == NotFound || outcome == MovedOut ==> after == db)
      && (id in db.allocations && db.allocations[id].current ==>
            var a := db.allocations[id];
            && outcome == Done
            && after == db.(allocations := db.allocations[id := Allocation(a.room, a.student, a.bed, false)])
            && !Slept(after, a.room, a.bed) && !Housed(after, a.student))
  {
    if id in db.allocations && db.allocations[id].current {
      var after, a := Apply(db, Vacate(id)).0, db.allocations[id];
      forall jd | jd in after.allocations && after.allocations[jd].current
        ensures after.allocations[jd].student != a.student
        ensures !(after.allocations[jd].room == a.room && after.allocations[jd].bed == a.bed)
      {
        assert !Collide(db.allocations[id], db.allocations[jd]);
      }
    }
  }

  /** A student moved into a bed: one new current allocation, and nothing else changed. */
  ghost predicate MovesIn(before: Db, after: Db, room: nat, student: nat, bed: int)
  {
    && after.students == before.students && after.rooms == before.rooms
    && exists id: nat :: id !in before.allocations
                    && after.allocations == before.allocations[id := Allocation(room, student, bed, true)]
  }

  /** A named bed is given exactly when the room has it, nobody sleeps in it and the student lives nowhere. */
  lemma AllocateBedDoes(db: Db, room: nat, student: nat, bed: int)
    requires db.Valid()
    ensures var (after, outcome) := Apply(db, AllocateBed(room, student, bed));
      var known := room in db.rooms && student in db.students;
      && (outcome == NotFound <==> !known)
      && (outcome == NoSuchBed <==> known && bed > db.rooms[room].capacity)
      && (outcome == AlreadyResident <==> known && bed <= db.rooms[room].capacity && Housed(db, student))
      && (outcome == BedTaken <==>
            known && bed <= db.rooms[room].capacity && !Housed(db, student) && Slept(db, room, bed))
      && (outcome == Placed(bed) <==>
            known && bed <= db.rooms[room].capacity && !Housed(db, student) && !Slept(db, room, bed))
      && (if outcome == Placed(bed) then MovesIn(db, after, room, student, bed) else after == db)
  {
    assert db.next !in db.allocations;
    assert db.BedIsTaken(room, bed) <==> Slept(db, room, bed);
    assert db.IsResident(student) <==> Housed(db, student);
  }

  /** This is the lowest bed of the room that nobody sleeps in. */
  ghost predicate LowestFree(db: Db, room: nat, bed: int)
    requires room in db.rooms
  {
    1 <= bed <= db.rooms[room].capacity && !Slept(db, room, bed) && forall b :: 1 <= b < bed ==> Slept(db, room, b)
  }

  ghost predicate AllSlept(db: Db, room: nat)
    requires room in db.rooms
  {
    forall bed :: 1 <= bed <= db.rooms[room].capacity ==> Slept(db, room, bed)
  }

  lemma SleptMeansTaken(db: Db, room: nat, bed: int)
    ensures Slept(db, room, bed) <==> bed in db.Taken(room)
    ensures Slept(db, room, bed) <==> db.BedIsTaken(room, bed)
  {
    TakenMeans(db, room, bed);
  }

  lemma NoneFreeIsAllSlept(db: Db, room: nat)
    requires db.Valid() && room in db.rooms
    ensures FreeBeds(db.Taken(room), db.rooms[room].capacity) == [] <==> AllSlept(db, room)
  {
    var free := FreeBeds(db.Taken(room), db.rooms[room].capacity);
    forall bed
      ensures bed in free <==> 1 <= bed <= db.rooms[room].capacity && !Slept(db, room, bed)
    {
      FreeBedsExactly(db.Taken(room), db.rooms[room].capacity, bed);
      SleptMeansTaken(db, room, bed);
    }
    if free != [] {
      FirstFreeIsLowest(db.Taken(room), db.rooms[room].capacity);
      assert !Slept(db, room, free[0]);
    } else {
      forall bed | 1 <= bed <= db.rooms[room].capacity
        ensures Slept(db, room, bed)
      {
        assert bed !in free;
      }
    }
  }

  /** One undisturbed pass: full, resident already, or placed in the lowest free bed. */
  lemma UndisturbedPass(db: Db, room: nat, student: nat)
    requires db.Valid() && room in db.rooms
    ensures var (after, outcome) := Attempt(db, room, student, db.rooms[room].capacity, NOBODY(0));
      if AllSlept(db, room) then (after, outcome) == (db, Full)
      else if Housed(db, student) then (after, outcome) == (db, AlreadyResident)
      else outcome.Placed? && LowestFree(db, room, outcome.bed) && MovesIn(db, after, room, student, outcome.bed)
  {
    var taken, capacity := db.Taken(room), db.rooms[room].capacity;
    var free := FreeBeds(taken, capacity);
    NoneFreeIsAllSlept(db, room);
    assert db.IsResident(student) <==> Housed(db, student);
    if free != [] {
      FirstFreeIsLowest(taken, capacity);
      SleptMeansTaken(db, room, free[0]);
      assert db.next !in db.allocations;
      forall b | 1 <= b < free[0]
        ensures Slept(db, room, b)
      {
        SleptMeansTaken(db, room, b);
      }
    }
  }

  /**
   * Undisturbed, a student is placed in the lowest free bed unless the room is full or the student lives
   * somewhere, and the answer says which.
   */
  lemma AllocateAnyDoes(db: Db, room: nat, student: nat)
    requires db.Valid()
    ensures var (after, outcome) := Apply(db, AllocateAny(room, student));
      if room !in db.rooms || student !in db.students then (after, outcome) == (db, NotFound)
      else if AllSlept(db, room) then (after, outcome) == (db, Full)
      else if Housed(db, student) then (after, outcome) == (db, AlreadyResident)
      else outcome.Placed? && LowestFree(db, room, outcome.bed) && MovesIn(db, after, room, student, outcome.bed)
  {
    if room in db.rooms && student in db.students {
      UndisturbedPass(db, room, student);
      var capacity := db.rooms[room].capacity;
      if capacity > 0 {
        assert Attempt(db, room, student, capacity, NOBODY(0)).1 != BedTaken;
      }
    }
  }

  // ---------- how long an allocation lasts ----------

  /** Some step of the run ends this allocation. */
  ghost predicate VacatedIn(db: Db, steps: seq<Step>, id: nat)
    decreases |steps|
  {
    steps != [] && ((steps[0] == Vacate(id) && Apply(db, steps[0]).1 == Done)
                    || VacatedIn(Apply(db, steps[0]).0, steps[1..], id))
  }

  predicate IsCurrent(db: Db, id: nat)
  {
    id in db.allocations && db.allocations[id].current
  }

  /** A step leaves a current allocation as it is, unless it is its end. */
  lemma StepKeepsCurrent(db: Db, step: Step, id: nat)
    requires db.Valid() && IsCurrent(db, id)
    ensures var (after, outcome) := Apply(db, step);
      if step == Vacate(id) && outcome == Done then id in after.allocations && !after.allocations[id].current
      else id in after.allocations && after.allocations[id] == db.allocations[id]
  {
    match step
    case CreateRoom(block, number, capacity) => CreateRoomDoes(db, block, number, capacity);
    case UpdateRoom(room, block, number, capacity) => UpdateRoomDoes(db, room, block, number, capacity);
    case RemoveRoom(room) =>
      RemoveRoomDoes(db, room);
      assert Slept(db, db.allocations[id].room, db.allocations[id].bed);
    case AllocateBed(room, student, bed) => AllocateBedDoes(db, room, student, bed);
    case AllocateAny(room, student) => AllocateAnyDoes(db, room, student);
    case Vacate(jd) => VacateDoes(db, jd);
  }

  lemma NextOnlyGrows(db: Db, step: Step)
    requires db.Valid()
    ensures db.next <= Apply(db, step).0.next
  {
    if step.AllocateAny? && step.room in db.rooms {
      UndisturbedPass(db, step.room, step.student);
    }
  }

  /** An id handed out and not current is never current again. */
  lemma StepKeepsEnded(db: Db, step: Step, id: nat)
    requires db.Valid() && id < db.next && !IsCurrent(db, id)
    ensures id < Apply(db, step).0.next && !IsCurrent(Apply(db, step).0, id)
  {
    NextOnlyGrows(db, step);
    if step.AllocateAny? && step.room in db.rooms {
      PassAddsNext(db, step.room, step.student);
    }
  }

  lemma PassAddsNext(db: Db, room: nat, student: nat)
    requires db.Valid() && room in db.rooms
    ensures var after := Apply(db, AllocateAny(room, student)).0;
      forall id: nat :: id < db.next ==>
        (id in after.allocations <==> id in db.allocations)
        && (id in db.allocations ==> after.allocations[id] == db.allocations[id])
  {
    UndisturbedPass(db, room, student);
  }

  lemma {:induction false} EndedStaysEnded(db: Db, steps: seq<Step>, id: nat)
    requires db.Valid() && (forall k :: 0 <= k < |steps| ==> Positive(steps[k])) && id < db.next && !IsCurrent(db, id)
    ensures !IsCurrent(Run(db, steps), id)
    decreases |steps|
  {
    if steps != [] {
      ApplyKeepsValid(db, steps[0]);
      StepKeepsEnded(db, steps[0], id);
      EndedStaysEnded(Apply(db, steps[0]).0, steps[1..], id);
    }
  }

  /** Over every run a student keeps the bed until the allocation is vacated, and exactly until then. */
  lemma {:induction false} KeptUntilVacated(db: Db, steps: seq<Step>, id: nat)
    requires db.Valid() && (forall k :: 0 <= k < |steps| ==> Positive(steps[k])) && IsCurrent(db, id)
    ensures var after := Run(db, steps);
      && (IsCurrent(after, id) <==> !VacatedIn(db, steps, id))
      && (IsCurrent(after, id) ==> after.allocations[id] == db.allocations[id])
    decreases |steps|
  {
    if steps != [] {
      var next := Apply(db, steps[0]).0;
      ApplyKeepsValid(db, steps[0]);
      StepKeepsCurrent(db, steps[0], id);
      if IsCurrent(next, id) {
        KeptUntilVacated(next, steps[1..], id);
      } else {
        EndedStaysEnded(next, steps[1..], id);
      }
    }
  }

  // ---------- what a room and the hostel report ----------

  /** The current allocations of a room. */
  function Residents(db: Db, room: nat): set<nat>
  {
    set id | id in db.allocations && db.allocations[id].current && db.allocations[id].room == room
  }

  lemma {:induction false} BedsOf(db: Db, room: nat, ids: set<nat>)
    requires db.Valid() && ids <= Residents(db, room)
    ensures |set id | id in ids :: db.allocations[id].bed| == |ids|
    decreases |ids|
  {
    var beds := set id | id in ids :: db.allocations[id].bed;
    if ids == {} {
      assert beds == {};
    } else {
      var id :| id in ids;
      var fewer := ids - {id};
      var others := set jd | jd in fewer :: db.allocations[jd].bed;
      BedsOf(db, room, fewer);
      forall jd | jd in fewer
        ensures db.allocations[jd].bed != db.allocations[id].bed
      {
        assert !Collide(db.allocations[id], db.allocations[jd]);
      }
      assert beds == others + {db.allocations[id].bed};
    }
  }

  /** A room reports its name and size, one occupied bed to each resident, and exactly the beds nobody sleeps in. */
  lemma OccupancyExactly(db: Db, room: nat)
    requires db.Valid() && room in db.rooms
    ensures var o := OccupancyOf(db, room);
      && o.block == db.rooms[room].block && o.capacity == db.rooms[room].capacity
      && o.occupied == |Residents(db, room)|
      && forall bed :: bed in o.freeBeds <==> 1 <= bed <= db.rooms[room].capacity && !Slept(db, room, bed)
  {
    BedsOf(db, room, Residents(db, room));
    assert db.Taken(room) == set id | id in Residents(db, room) :: db.allocations[id].bed;
    forall bed
      ensures bed in OccupancyOf(db, room).freeBeds
         <==> 1 <= bed <= db.rooms[room].capacity && !Slept(db, room, bed)
    {
      FreeBedsExactly(db.Taken(room), db.rooms[room].capacity, bed);
      SleptMeansTaken(db, room, bed);
    }
  }

  /** The rooms of a block, their sizes and their residents, one number to a room. */
  function InBlock(rooms: seq<Occupancy>, block: string): (seq<int>, seq<int>, seq<int>)
  {
    (seq(|rooms|, i requires 0 <= i < |rooms| => if rooms[i].block == block then 1 else 0),
     seq(|rooms|, i requires 0 <= i < |rooms| => if rooms[i].block == block then rooms[i].capacity else 0),
     seq(|rooms|, i requires 0 <= i < |rooms| => if rooms[i].block == block then rooms[i].occupied else 0))
  }

  /** In a summary each block has the number, the beds and the residents of its own rooms, and the blocks add up. */
  lemma SummaryFigures(blocks: seq<Block>, rooms: seq<Occupancy>)
    requires Summarises(blocks, rooms)
    ensures forall j :: 0 <= j < |blocks| ==>
      && blocks[j].rooms == Sum(InBlock(rooms, blocks[j].name).0)
      && blocks[j].capacity == Sum(InBlock(rooms, blocks[j].name).1)
      && blocks[j].occupied == Sum(InBlock(rooms, blocks[j].name).2)
    ensures Sum(seq(|blocks|, j requires 0 <= j < |blocks| => blocks[j].capacity))
         == Sum(seq(|rooms|, i requires 0 <= i < |rooms| => rooms[i].capacity))
    ensures Sum(seq(|blocks|, j requires 0 <= j < |blocks| => blocks[j].occupied))
         == Sum(seq(|rooms|, i requires 0 <= i < |rooms| => rooms[i].occupied))
  {
    forall j | 0 <= j < |blocks|
      ensures blocks[j].rooms == Sum(InBlock(rooms, blocks[j].name).0)
      ensures blocks[j].capacity == Sum(InBlock(rooms, blocks[j].name).1)
      ensures blocks[j].occupied == Sum(InBlock(rooms, blocks[j].name).2)
    {
      BlockFigures(blocks, rooms, j);
    }
    assert seq(|blocks|, j requires 0 <= j < |blocks| => blocks[j].capacity) == BlockValues(blocks, Capacity);
    assert seq(|rooms|, i requires 0 <= i < |rooms| => rooms[i].capacity) == RoomValues(rooms, None, Capacity);
    assert seq(|blocks|, j requires 0 <= j < |blocks| => blocks[j].occupied) == BlockValues(blocks, Measure.Residents);
    assert seq(|rooms|, i requires 0 <= i < |rooms| => rooms[i].occupied) == RoomValues(rooms, None, Measure.Residents);
  }

  lemma BlockFigures(blocks: seq<Block>, rooms: seq<Occupancy>, j: nat)
    requires Summarises(blocks, rooms) && j < |blocks|
    ensures blocks[j].rooms == Sum(InBlock(rooms, blocks[j].name).0)
    ensures blocks[j].capacity == Sum(InBlock(rooms, blocks[j].name).1)
    ensures blocks[j].occupied == Sum(InBlock(rooms, blocks[j].name).2)
  {
    var name := blocks[j].name;
    assert InBlock(rooms, name).0 == RoomValues(rooms, Some(name), RoomCount);
    assert InBlock(rooms, name).1 == RoomValues(rooms, Some(name), Capacity);
    assert InBlock(rooms, name).2 == RoomValues(rooms, Some(name), Measure.Residents);
    assert BlockValue(blocks[j], RoomCount) == blocks[j].rooms;
    assert BlockValue(blocks[j], Capacity) == blocks[j].capacity;
    assert BlockValue(blocks[j], Measure.Residents) == blocks[j].occupied;
  }
}
