/**
 * `ExerciseRepository` (app/repositories/exercise.py): the exercises of a plan, reached only
 * through a plan of the club. Creation allocates positions (module ExercisePositions), updates
 * apply the fields a client set (module ExerciseUpdates), and integrity errors map to
 * `PositionConflictError` or `ConflictError`.
 */
module ExerciseRepository {
  import opened Wrappers
  import opened Models
  import opened Errors
  import opened Rows
  import opened Database
  import opened PlanQueries
  import opened ExerciseSchema
  import opened ExercisePositions
  import opened ExerciseQueries
  import opened ExerciseUpdates

  /** The number of auto-append attempts `create_in_plan` makes unless told otherwise (`_retries`). */
  const DefaultRetries: nat := 3

  /**
   * What `create_in_plan` does to the exercises table: a plan outside the club is
   * `PlanNotFoundError` before any insert; an explicit position is the single attempt
   * `PlaceAt`; no position is the auto-append `AutoAppended`, both with the repository's
   * errors.
   */
  ghost predicate CreatedInPlan(before: seq<Exercise>, after: seq<Exercise>, plans: seq<Plan>, clubId: int, planId: int,
                                data: ExerciseData, position: Option<int>, races: seq<Race>, retries: nat,
                                r: Result<Exercise, Fault>) {
    (PlanInClub(plans, clubId, planId).None? ==> r == Err(Domain(PlanNotFound)) && after == before) &&
    (PlanInClub(plans, clubId, planId).Some? && position.Some? ==>
       var o := PlaceAt(before, planId, data, position.value, RaceAt(races, 0), RepositoryFaults);
       r == o.result && after == o.table) &&
    (PlanInClub(plans, clubId, planId).Some? && position.None? ==>
       AutoAppended(before, after, planId, data, races, retries, RepositoryFaults, r))
  }

  /**
   * What `update_in_plan` does: an exercise not found through its plan's club is
   * `ExerciseNotFoundError`; otherwise the fields are applied and the row replaced, unless
   * the commit fails, which leaves the table as it was and raises `RepositoryUpdateFault`.
   */
  ghost predicate UpdatedInPlan(before: seq<Exercise>, after: seq<Exercise>, plans: seq<Plan>, clubId: int, planId: int,
                                exerciseId: int, updates: seq<ExerciseField>, r: Result<Exercise, Fault>) {
    var found := ExerciseIndex(before, plans, clubId, planId, exerciseId);
    (found.None? ==> r == Err(Domain(ExerciseNotFound)) && after == before) &&
    (found.Some? ==>
       var row := ApplyAll(before[found.value], updates);
       var v := UpdateViolation(before, found.value, row);
       (v.None? ==> r == Ok(row) && after == before[found.value := row]) &&
       (v.Some? ==> r == Err(RepositoryUpdateFault(v.value, updates)) && after == before))
  }

  /** What `delete_in_plan` does: a miss is `ExerciseNotFoundError`, a hit removes exactly that row. */
  ghost predicate DeletedInPlan(before: seq<Exercise>, after: seq<Exercise>, plans: seq<Plan>, clubId: int, planId: int,
                                exerciseId: int, err: Option<Fault>) {
    var found := ExerciseIndex(before, plans, clubId, planId, exerciseId);
    (found.None? ==> err == Some(Domain(ExerciseNotFound)) && after == before) &&
    (found.Some? ==> err.None? && after == RemoveAt(before, found.value))
  }

  class ExerciseRepository {
    const db: Db

    constructor (db: Db)
      ensures this.db == db
    {
      this.db := db;
    }

    /** `_get_plan_in_club`: the plan, or `PlanNotFoundError`. */
    method GetPlanInClub(clubId: int, planId: int) returns (r: Result<Plan, Fault>)
      ensures r.Ok? <==> exists p :: p in db.plans && p.id == planId && p.clubId == clubId
      ensures r.Ok? ==> r.value in db.plans && r.value.id == planId && r.value.clubId == clubId
      ensures r.Err? ==> r.error == Domain(PlanNotFound)
    {
      var p := PlanInClub(db.plans, clubId, planId);
      if p.None? {
        return Err(Domain(PlanNotFound));
      }
      r := Ok(p.value);
    }

    /** `_get_exercise_in_plan` and `get_in_plan`: the exercise through its plan's club, or `ExerciseNotFoundError`. */
    method GetInPlan(clubId: int, planId: int, exerciseId: int) returns (r: Result<Exercise, Fault>)
      ensures r.Ok? <==> ExerciseIndex(db.exercises, db.plans, clubId, planId, exerciseId).Some?
      ensures r.Ok? ==> r.value in db.exercises && r.value.id == exerciseId && r.value.planId == planId
      ensures r.Err? ==> r.error == Domain(ExerciseNotFound)
    {
      var e := ExerciseInPlan(db.exercises, db.plans, clubId, planId, exerciseId);
      if e.None? {
        return Err(Domain(ExerciseNotFound));
      }
      r := Ok(e.value);
    }

    /** `list_in_plan`: the plan must be in the club; its exercises by position, then id. */
    method ListInPlan(clubId: int, planId: int) returns (r: Result<seq<Exercise>, Fault>)
      ensures r.Err? <==> PlanInClub(db.plans, clubId, planId).None?
      ensures r.Err? ==> r.error == Domain(PlanNotFound)
      ensures r.Ok? ==> r.value == ExerciseQueries.ListInPlan(db.exercises, planId)
    {
      var plan := GetPlanInClub(clubId, planId);
      if plan.Err? {
        return Err(plan.error);
      }
      r := Ok(ExerciseQueries.ListInPlan(db.exercises, planId));
    }

    /**
     * `create_in_plan`. The plan must be in the club. Without a position, up to `retries`
     * attempts each compute the next position and commit a row there; the race of attempt
     * `n` is `RaceAt(races, n)`. Each lost race leaves the rival's row behind and costs an
     * attempt; running out raises `PositionConflictError`, a non-unique failure raises
     * `ConflictError` at once. With a position, the single attempt is `PlaceAt`.
     */
    method CreateInPlan(clubId: int, planId: int, data: ExerciseData, position: Option<int>,
                        races: seq<Race>, retries: nat) returns (r: Result<Exercise, Fault>)
      requires ExercisesValid(db.exercises)
      modifies db`exercises
      ensures ExercisesValid(db.exercises)
      ensures CreatedInPlan(old(db.exercises), db.exercises, db.plans, clubId, planId, data, position, races, retries, r)
    {
      var plan := GetPlanInClub(clubId, planId);
      if plan.Err? {
        return Err(plan.error);
      }
      if position.Some? {
        var o := PlaceAt(db.exercises, planId, data, position.value, RaceAt(races, 0), RepositoryFaults);
        PlaceAtKeepsValid(db.exercises, planId, data, position.value, RaceAt(races, 0), RepositoryFaults);
        db.exercises := o.table;
        return o.result;
      }
      r := AppendInPlan(planId, data, races, retries);
    }

    /** The auto-append branch of `create_in_plan`: the retry loop. */
    method AppendInPlan(planId: int, data: ExerciseData, races: seq<Race>, retries: nat) returns (r: Result<Exercise, Fault>)
      requires ExercisesValid(db.exercises)
      modifies db`exercises
      ensures ExercisesValid(db.exercises)
      ensures AutoAppended(old(db.exercises), db.exercises, planId, data, races, retries, RepositoryFaults, r)
    {
      var n := 0;
      while n < retries
        invariant n <= retries
        invariant AfterLostRaces(old(db.exercises), db.exercises, planId, races, n)
      {
        var race := RaceAt(races, n);
        var step := AppendStep(db.exercises, planId, data, race);
        if step.violation.None? {
          AttemptCreates(old(db.exercises), db.exercises, planId, data, races, retries, n, RepositoryFaults);
          db.exercises := step.seen + [step.row];
          return Ok(step.row);
        }
        if !IsUniqueViolation(step.violation.value) {
          AttemptFails(old(db.exercises), db.exercises, planId, data, races, retries, n, RepositoryFaults);
          db.exercises := step.seen;
          return Err(Domain(Conflict));
        }
        AttemptLost(old(db.exercises), db.exercises, planId, data, races, n);
        db.exercises := step.seen;
        n := n + 1;
      }
      AttemptsExhausted(old(db.exercises), db.exercises, planId, data, races, retries, RepositoryFaults);
      r := Err(Domain(PositionConflict));
    }

    /**
     * `update_in_plan`: the exercise must be found through its plan's club; the set fields
     * are applied in order and the row committed. A failed commit rolls back and raises
     * `RepositoryUpdateFault`: `PositionConflictError` for a position clash when the body set
     * the position.
     */
    method UpdateInPlan(clubId: int, planId: int, exerciseId: int, updates: seq<ExerciseField>)
      returns (r: Result<Exercise, Fault>)
      requires ExercisesValid(db.exercises)
      modifies db`exercises
      ensures ExercisesValid(db.exercises)
      ensures UpdatedInPlan(old(db.exercises), db.exercises, db.plans, clubId, planId, exerciseId, updates, r)
    {
      var found := ExerciseIndex(db.exercises, db.plans, clubId, planId, exerciseId);
      if found.None? {
        return Err(Domain(ExerciseNotFound));
      }
      var i := found.value;
      var exercise := db.exercises[i];
      var k := 0;
      while k < |updates|
        invariant k <= |updates|
        invariant exercise == ApplyAll(db.exercises[i], updates[..k])
      {
        assert updates[..k + 1][..k] == updates[..k];
        exercise := ApplyField(exercise, updates[k]);
        k := k + 1;
      }
      assert updates[..k] == updates;
      var v := UpdateViolation(db.exercises, i, exercise);
      if v.Some? {
        return Err(RepositoryUpdateFault(v.value, updates));
      }
      UpdateKeepsValid(db.exercises, i, exercise);
      db.exercises := db.exercises[i := exercise];
      r := Ok(exercise);
    }

    /**
     * `delete_in_plan`: the exercise must be found through its plan's club, then its row
     * leaves the table. No foreign key refers to an exercise, so the commit cannot fail.
     */
    method DeleteInPlan(clubId: int, planId: int, exerciseId: int) returns (err: Option<Fault>)
      requires ExercisesValid(db.exercises)
      modifies db`exercises
      ensures ExercisesValid(db.exercises)
      ensures DeletedInPlan(old(db.exercises), db.exercises, db.plans, clubId, planId, exerciseId, err)
    {
      var found := ExerciseIndex(db.exercises, db.plans, clubId, planId, exerciseId);
      if found.None? {
        return Some(Domain(ExerciseNotFound));
      }
      RemoveKeepsValid(db.exercises, found.value);
      db.exercises := RemoveAt(db.exercises, found.value);
      err := None;
    }
  }
}
