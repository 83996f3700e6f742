/** The plan store: a table of workout and diet plans, each owned by one
    user, in which a user has at most one plan flagged active. */
module Plans {

  /** A JavaScript number that the store copies and never computes on. */
  type Number = int

  datatype Routine = Routine(name: string, sets: Number, reps: Number)
  datatype Exercise = Exercise(day: string, routines: seq<Routine>)
  datatype WorkoutPlan = WorkoutPlan(schedule: seq<string>, exercises: seq<Exercise>)
  datatype Meal = Meal(name: string, foods: seq<string>)
  datatype DietPlan = DietPlan(dailyCalories: Number, meals: seq<Meal>)

  /** The argument object of createPlan. */
  datatype PlanArgs = PlanArgs(
    userId: string,
    name: string,
    workoutPlan: WorkoutPlan,
    dietPlan: DietPlan,
    isActive: bool)

  /** Document ids: opaque to callers, handed out from a counter here. */
  type PlanId = nat

  /** One document of the plans table. */
  datatype Plan = Plan(
    id: PlanId,
    userId: string,
    name: string,
    workoutPlan: WorkoutPlan,
    dietPlan: DietPlan,
    isActive: bool)

  /** The document that inserting `args` under `id` stores. */
  function NewPlan(id: PlanId, args: PlanArgs): Plan {
    Plan(id, args.userId, args.name, args.workoutPlan, args.dietPlan, args.isActive)
  }

  /** Ids grow with insertion order: they are distinct, and a larger id is a
      more recently created plan. */
  ghost predicate IdsAscending(rows: seq<Plan>) {
    forall i, j :: 0 <= i < j < |rows| ==> rows[i].id < rows[j].id
  }

  /** No user owns two active plans. */
  ghost predicate AtMostOneActive(rows: seq<Plan>) {
    forall i, j ::
      0 <= i < |rows| && 0 <= j < |rows| && i != j && rows[i].isActive && rows[j].isActive
      ==> rows[i].userId != rows[j].userId
  }

  /** The ids of a list of plans. */
  function Ids(plans: seq<Plan>): set<PlanId> {
    set p | p in plans :: p.id
  }

  /** The query of createPlan: the plans of `userId` whose flag is set, in
      table order. */
  function ActivePlans(rows: seq<Plan>, userId: string): (r: seq<Plan>)
    ensures forall p :: p in r <==> p in rows && p.userId == userId && p.isActive
  {
    if rows == [] then []
    else
      (if rows[0].userId == userId && rows[0].isActive then [rows[0]] else [])
      + ActivePlans(rows[1..], userId)
  }

  /** `patch(id, {isActive: false})`: the document with that id loses its
      flag; every other document is left alone. */
  function PatchInactive(rows: seq<Plan>, id: PlanId): (r: seq<Plan>)
    ensures |r| == |rows|
    ensures forall i :: 0 <= i < |rows| ==> r[i] == rows[i].(isActive := rows[i].isActive && rows[i].id != id)
  {
    seq(|rows|, i requires 0 <= i < |rows| =>
      if rows[i].id == id then rows[i].(isActive := false) else rows[i])
  }

  /** The table once every plan of `userId` has been deactivated. */
  function Deactivated(rows: seq<Plan>, userId: string): (r: seq<Plan>)
    ensures |r| == |rows|
    ensures forall i :: 0 <= i < |rows| ==>
      r[i] == rows[i].(isActive := rows[i].isActive && rows[i].userId != userId)
  {
    if rows == [] then []
    else
      var last := rows[|rows| - 1];
      Deactivated(rows[..|rows| - 1], userId)
      + [last.(isActive := last.isActive && last.userId != userId)]
  }

  /** The table after createPlan(args) has run and inserted under `id`. */
  function AfterCreate(rows: seq<Plan>, id: PlanId, args: PlanArgs): (r: seq<Plan>)
    ensures |r| == |rows| + 1 && r[|rows|] == NewPlan(id, args)
    ensures forall i :: 0 <= i < |rows| && rows[i].userId != args.userId ==> r[i] == rows[i]
    ensures forall i :: 0 <= i < |rows| ==> r[i].(isActive := rows[i].isActive) == rows[i]
    ensures forall i :: 0 <= i < |r| ==>
      (r[i].userId == args.userId && r[i].isActive <==> i == |rows| && args.isActive)
  {
    Deactivated(rows, args.userId) + [NewPlan(id, args)]
  }

  /** getUserPlans: the plans of `userId`, most recently created first. */
  function GetUserPlans(rows: seq<Plan>, userId: string): (r: seq<Plan>)
    ensures forall p :: p in r <==> p in rows && p.userId == userId
    ensures IdsAscending(rows) ==> IdsDescending(r)
    ensures (forall i :: 0 <= i < |rows| ==> rows[i].userId != userId) ==> r == []
  {
    if rows == [] then []
    else
      var last := rows[|rows| - 1];
      var older := rows[..|rows| - 1];
      SplitLast(rows);
      (if last.userId == userId then [last] else []) + GetUserPlans(older, userId)
  }

  /** A table is its older rows followed by its newest one, whose id is the
      largest when ids ascend. */
  lemma SplitLast(rows: seq<Plan>)
    requires rows != []
    ensures forall p :: p in rows <==> p in rows[..|rows| - 1] || p == rows[|rows| - 1]
    ensures IdsAscending(rows) ==> IdsAscending(rows[..|rows| - 1])
    ensures IdsAscending(rows) ==> forall p :: p in rows[..|rows| - 1] ==> p.id < rows[|rows| - 1].id
  {
  }

  /** `rows` is `before` with the flag cleared on each document whose id is in `ids`. */
  ghost predicate FlagsCleared(before: seq<Plan>, rows: seq<Plan>, ids: set<PlanId>) {
    |rows| == |before| &&
    forall i :: 0 <= i < |rows| ==>
      rows[i] == if before[i].id in ids then before[i].(isActive := false) else before[i]
  }

  /** One turn of createPlan's loop: patching the next collected document
      clears its flag too. */
  lemma PatchStep(before: seq<Plan>, rows: seq<Plan>, plans: seq<Plan>, k: nat)
    requires k < |plans| && FlagsCleared(before, rows, Ids(plans[..k]))
    ensures FlagsCleared(before, PatchInactive(rows, plans[k].id), Ids(plans[..k + 1]))
  {
    assert plans[..k + 1] == plans[..k] + [plans[k]];
  }

  /** Patching away the flag of every document that the createPlan query
      returned deactivates exactly the plans of that user. */
  lemma PatchedActiveAreDeactivated(before: seq<Plan>, userId: string, rows: seq<Plan>)
    requires IdsAscending(before) && FlagsCleared(before, rows, Ids(ActivePlans(before, userId)))
    ensures rows == Deactivated(before, userId)
    ensures IdsAscending(rows)
  {
  }

  /** Appending a document whose id exceeds every id keeps ids ascending. */
  lemma AppendKeepsIdsAscending(rows: seq<Plan>, p: Plan, bound: PlanId)
    requires IdsAscending(rows) && (forall i :: 0 <= i < |rows| ==> rows[i].id < bound) && bound <= p.id
    ensures IdsAscending(rows + [p]) && forall i :: 0 <= i < |rows| + 1 ==> (rows + [p])[i].id <= p.id
  {
  }

  /** Ids strictly decrease along the list. */
  ghost predicate IdsDescending(plans: seq<Plan>) {
    forall i, j :: 0 <= i < j < |plans| ==> plans[i].id > plans[j].id
  }

  /** Two lists with the same members, both in strictly decreasing id order,
      are the same list. */
  lemma {:induction false} DescendingListsEqual(a: seq<Plan>, b: seq<Plan>)
    requires IdsDescending(a) && IdsDescending(b)
    requires forall p :: p in a <==> p in b
    ensures a == b
  {
    assert a != [] ==> a[0] in b;
    assert b != [] ==> b[0] in a;
    if a != [] {
      var m :| 0 <= m < |b| && b[m] == a[0];
      var k :| 0 <= k < |a| && a[k] == b[0];
      assert a[k].id <= a[0].id && b[m].id <= b[0].id;
      assert m == 0;
      forall p ensures p in a[1..] <==> p in b[1..] {
        if p in a[1..] {
          var i :| 1 <= i < |a| && a[i] == p;
          assert p != a[0] by { assert a[0].id > a[i].id; }
          assert p in b;
        }
        if p in b[1..] {
          var i :| 1 <= i < |b| && b[i] == p;
          assert p != b[0] by { assert b[0].id > b[i].id; }
          assert p in a;
        }
      }
      DescendingListsEqual(a[1..], b[1..]);
      assert a == [a[0]] + a[1..] && b == [b[0]] + b[1..];
    }
  }

  /** getUserPlans is the only listing of the user's plans that puts them
      newest first. */
  lemma UserPlansDetermined(rows: seq<Plan>, userId: string, listing: seq<Plan>)
    requires IdsAscending(rows)
    requires forall p :: p in listing <==> p in rows && p.userId == userId
    requires IdsDescending(listing)
    ensures listing == GetUserPlans(rows, userId)
  {
    DescendingListsEqual(listing, GetUserPlans(rows, userId));
  }

  /** createPlan keeps the invariant that no user owns two active plans. */
  lemma CreatePlanKeepsOneActive(rows: seq<Plan>, id: PlanId, args: PlanArgs)
    requires AtMostOneActive(rows)
    ensures AtMostOneActive(AfterCreate(rows, id, args))
  {
  }

  /** Right after createPlan, getUserPlans lists the new plan first and every
      other plan of that user as inactive. */
  lemma CreatedPlanListedFirst(rows: seq<Plan>, id: PlanId, args: PlanArgs)
    ensures var r := GetUserPlans(AfterCreate(rows, id, args), args.userId);
      |r| >= 1 && r[0] == NewPlan(id, args) && forall j :: 1 <= j < |r| ==> !r[j].isActive
  {
  }

  /** The plans table of the data layer. */
  class PlanTable {
    /** The documents in insertion order, which stands for creation-time order. */
    var rows: seq<Plan>
    /** The id the next insert hands out. */
    var nextId: PlanId

    ghost predicate Valid()
      reads this
    {
      IdsAscending(rows) && forall i :: 0 <= i < |rows| ==> rows[i].id < nextId
    }

    constructor ()
      ensures Valid() && rows == []
    {
      rows := [];
      nextId := 0;
    }

    /** createPlan: deactivate the user's active plans one by one, then
        insert the new plan and return its id. */
    method CreatePlan(args: PlanArgs) returns (id: PlanId)
      requires Valid()
      modifies this
      ensures Valid()
      ensures id == old(nextId) && nextId == id + 1
      ensures forall i :: 0 <= i < |old(rows)| ==> old(rows)[i].id != id
      ensures rows == AfterCreate(old(rows), id, args)
      ensures AtMostOneActive(old(rows)) ==> AtMostOneActive(rows)
    {
      var activePlans := ActivePlans(rows, args.userId);
      ghost var before := rows;
      for k := 0 to |activePlans|
        invariant nextId == old(nextId)
        invariant FlagsCleared(before, rows, Ids(activePlans[..k]))
      {
        PatchStep(before, rows, activePlans, k);
        rows := PatchInactive(rows, activePlans[k].id);
      }
      assert activePlans[..|activePlans|] == activePlans;
      PatchedActiveAreDeactivated(before, args.userId, rows);
      AppendKeepsIdsAscending(rows, NewPlan(nextId, args), nextId);
      rows := rows + [NewPlan(nextId, args)];
      id := nextId;
      nextId := nextId + 1;
      if AtMostOneActive(before) {
        CreatePlanKeepsOneActive(before, id, args);
      }
    }
  }

  /** Two plans created for one user, both flagged active: getUserPlans
      returns the second first, still active, and the first deactivated. */
  method TwoWeeksScenario(userId: string, w1: WorkoutPlan, d1: DietPlan, w2: WorkoutPlan, d2: DietPlan)
    returns (week1: PlanId, week2: PlanId, plans: seq<Plan>)
    ensures week1 != week2
    ensures plans == [
      Plan(week2, userId, "Week 2", w2, d2, true),
      Plan(week1, userId, "Week 1", w1, d1, false)]
  {
    var table := new PlanTable();
    var a1 := PlanArgs(userId, "Week 1", w1, d1, true);
    var a2 := PlanArgs(userId, "Week 2", w2, d2, true);
    week1 := table.CreatePlan(a1);
    ghost var afterFirst := table.rows;
    assert afterFirst == [NewPlan(week1, a1)];
    week2 := table.CreatePlan(a2);
    var first, second := table.rows[0], table.rows[1];
    assert first.(isActive := afterFirst[0].isActive) == afterFirst[0];
    assert first == Plan(week1, userId, "Week 1", w1, d1, false);
    assert second == NewPlan(week2, a2);
    plans := GetUserPlans(table.rows, userId);
    assert table.rows[..1] == [first];
    assert GetUserPlans([first], userId) == [first] + GetUserPlans([], userId);
  }
}
