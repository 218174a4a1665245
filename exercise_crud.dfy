/**
 * The function-style exercise operations of app/crud/exercise.py. They raise the module's own
 * plain exception classes: a plan or an exercise missing from the club is `PlanNotFoundError`
 * in both cases, and every failed write is `ConflictError`. Creation makes at most three
 * attempts, of which only auto-append ever retries.
 */
module ExerciseCrud {
  import opened Wrappers
  import opened Models
  import opened Errors
  import opened Rows
  import opened Database
  import opened PlanQueries
  import opened ExerciseSchema
  import opened ExercisePositions
  import opened ExerciseQueries
  import opened ExerciseUpdates

  /** The attempts of `create_exercise` (`for _ in range(3)`). */
  const CreateAttempts: nat := 3

  /** `_get_plan_in_club_or_raise`. */
  method GetPlanInClubOrRaise(db: Db, clubId: int, planId: int) returns (r: Result<Plan, Fault>)
    ensures r.Ok? <==> exists p :: p in db.plans && p.id == planId && p.clubId == clubId
    ensures r.Ok? ==> r.value in db.plans && r.value.id == planId && r.value.clubId == clubId
    ensures r.Err? ==> r.error == Plain(PlanNotFound)
  {
    var p := PlanInClub(db.plans, clubId, planId);
    if p.None? {
      return Err(Plain(PlanNotFound));
    }
    r := Ok(p.value);
  }

  /** `_get_exercise_in_plan_and_club_or_raise` and `get_exercise`: a miss is `PlanNotFoundError` too. */
  method GetExercise(db: Db, clubId: int, planId: int, exerciseId: int) returns (r: Result<Exercise, Fault>)
    ensures r.Ok? <==> ExerciseIndex(db.exercises, db.plans, clubId, planId, exerciseId).Some?
    ensures r.Ok? ==> r.value in db.exercises && r.value.id == exerciseId && r.value.planId == planId
    ensures r.Err? ==> r.error == Plain(PlanNotFound)
  {
    var e := ExerciseInPlan(db.exercises, db.plans, clubId, planId, exerciseId);
    if e.None? {
      return Err(Plain(PlanNotFound));
    }
    r := Ok(e.value);
  }

  /** `list_exercises`: the plan must be in the club; its exercises ordered by position. */
  method ListExercises(db: Db, clubId: int, planId: int) returns (r: Result<seq<Exercise>, Fault>)
    ensures r.Err? <==> PlanInClub(db.plans, clubId, planId).None?
    ensures r.Err? ==> r.error == Plain(PlanNotFound)
    ensures r.Ok? ==> r.value == ListByPosition(db.exercises, planId)
  {
    var plan := GetPlanInClubOrRaise(db, clubId, planId);
    if plan.Err? {
      return Err(plan.error);
    }
    r := Ok(ListByPosition(db.exercises, planId));
  }

  /**
   * `create_exercise`: each of the three attempts commits a row at the requested position or,
   * without one, at the next position; the race of attempt `n` is `RaceAt(races, n)`. Only an
   * auto-append attempt that meets a unique violation tries again; every failure otherwise,
   * and running out of attempts, is `ConflictError`.
   */
  method CreateExercise(db: Db, clubId: int, planId: int, data: ExerciseData, position: Option<int>, races: seq<Race>)
    returns (r: Result<Exercise, Fault>)
    requires ExercisesValid(db.exercises)
    modifies db`exercises
    ensures ExercisesValid(db.exercises)
    ensures PlanInClub(db.plans, clubId, planId).None? ==>
      r == Err(Plain(PlanNotFound)) && db.exercises == old(db.exercises)
    ensures PlanInClub(db.plans, clubId, planId).Some? && position.Some? ==>
      var o := PlaceAt(old(db.exercises), planId, data, position.value, RaceAt(races, 0), CrudFaults);
      r == o.result && db.exercises == o.table
    ensures PlanInClub(db.plans, clubId, planId).Some? && position.None? ==>
      AutoAppended(old(db.exercises), db.exercises, planId, data, races, CreateAttempts, CrudFaults, r)
  {
    var plan := GetPlanInClubOrRaise(db, clubId, planId);
    if plan.Err? {
      return Err(plan.error);
    }
    var n := 0;
    while n < CreateAttempts
      invariant n <= CreateAttempts
      invariant position.Some? ==> n == 0 && db.exercises == old(db.exercises)
      invariant position.None? ==> AfterLostRaces(old(db.exercises), db.exercises, planId, races, n)
    {
      var race := RaceAt(races, n);
      var pos := if position.Some? then position.value else NextPosition(db.exercises, planId);
      ghost var step := AppendStep(db.exercises, planId, data, race);
      var seen := Rivalled(db.exercises, planId, pos, race);
      var row := NewRow(seen, planId, data, pos);
      var violation := CommitViolation(seen, row, race);
      if violation.None? {
        if position.None? {
          AttemptCreates(old(db.exercises), db.exercises, planId, data, races, CreateAttempts, n, CrudFaults);
        } else {
          PlaceAtKeepsValid(db.exercises, planId, data, pos, race, CrudFaults);
        }
        db.exercises := seen + [row];
        return Ok(row);
      }
      if position.None? && IsUniqueViolation(violation.value) {
        AttemptLost(old(db.exercises), db.exercises, planId, data, races, n);
        db.exercises := seen;
        n := n + 1;
      } else {
        if position.None? {
          AttemptFails(old(db.exercises), db.exercises, planId, data, races, CreateAttempts, n, CrudFaults);
        } else {
          PlaceAtKeepsValid(db.exercises, planId, data, pos, race, CrudFaults);
        }
        db.exercises := seen;
        return Err(Plain(Conflict));
      }
    }
    AttemptsExhausted(old(db.exercises), db.exercises, planId, data, races, CreateAttempts, CrudFaults);
    r := Err(Plain(Conflict));
  }

  /**
   * `update_exercise`: a position supplied as NULL is dropped, the remaining fields are
   * applied in order, and a failed commit rolls back and raises `ConflictError`, whatever the
   * violation.
   */
  method UpdateExercise(db: Db, clubId: int, planId: int, exerciseId: int, updates: seq<ExerciseField>)
    returns (r: Result<Exercise, Fault>)
    requires ExercisesValid(db.exercises)
    modifies db`exercises
    ensures ExercisesValid(db.exercises)
    ensures ExerciseIndex(old(db.exercises), db.plans, clubId, planId, exerciseId).None? ==>
      r == Err(Plain(PlanNotFound)) && db.exercises == old(db.exercises)
    ensures ExerciseIndex(old(db.exercises), db.plans, clubId, planId, exerciseId).Some? ==>
      var i := ExerciseIndex(old(db.exercises), db.plans, clubId, planId, exerciseId).value;
      var row := ApplyAll(old(db.exercises)[i], DropNullPosition(updates));
      (UpdateViolation(old(db.exercises), i, row).None? ==> r == Ok(row) && db.exercises == old(db.exercises)[i := row]) &&
      (UpdateViolation(old(db.exercises), i, row).Some? ==> r == Err(Plain(Conflict)) && db.exercises == old(db.exercises))
  {
    var found := ExerciseIndex(db.exercises, db.plans, clubId, planId, exerciseId);
    if found.None? {
      return Err(Plain(PlanNotFound));
    }
    var i := found.value;
    var fields := DropNullPosition(updates);
    var exercise := db.exercises[i];
    var k := 0;
    while k < |fields|
      invariant k <= |fields|
      invariant exercise == ApplyAll(db.exercises[i], fields[..k])
    {
      assert fields[..k + 1][..k] == fields[..k];
      exercise := ApplyField(exercise, fields[k]);
      k := k + 1;
    }
    assert fields[..k] == fields;
    var violation := UpdateViolation(db.exercises, i, exercise);
    if violation.Some? {
      return Err(Plain(Conflict));
    }
    UpdateKeepsValid(db.exercises, i, exercise);
    db.exercises := db.exercises[i := exercise];
    r := Ok(exercise);
  }

  /**
   * `delete_exercise`: a miss is `PlanNotFoundError`; otherwise the row leaves the table and
   * nothing is returned. The `ConflictError` the source builds on an integrity error is never
   * raised, and no foreign key refers to an exercise, so the delete always goes through.
   */
  method DeleteExercise(db: Db, clubId: int, planId: int, exerciseId: int) returns (err: Option<Fault>)
    requires ExercisesValid(db.exercises)
    modifies db`exercises
    ensures ExercisesValid(db.exercises)
    ensures ExerciseIndex(old(db.exercises), db.plans, clubId, planId, exerciseId).None? ==>
      err == Some(Plain(PlanNotFound)) && db.exercises == old(db.exercises)
    ensures ExerciseIndex(old(db.exercises), db.plans, clubId, planId, exerciseId).Some? ==>
      err.None? &&
      db.exercises == RemoveAt(old(db.exercises), ExerciseIndex(old(db.exercises), db.plans, clubId, planId, exerciseId).value)
  {
    var found := ExerciseIndex(db.exercises, db.plans, clubId, planId, exerciseId);
    if found.None? {
      return Some(Plain(PlanNotFound));
    }
    RemoveKeepsValid(db.exercises, found.value);
    db.exercises := RemoveAt(db.exercises, found.value);
    err := None;
  }
}
