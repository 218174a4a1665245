/**
 * `ExerciseService` (app/services/exercise.py): every operation first checks the caller's
 * membership of the club (a member may read, a coach or owner may write) and calls the
 * repository only when that guard passes. The guard reads the memberships of the same
 * session the repository writes to.
 */
module ExerciseService {
  import opened Wrappers
  import opened Models
  import opened Errors
  import opened Database
  import opened RoleGuards
  import opened PlanQueries
  import opened ExerciseSchema
  import opened ExercisePositions
  import opened ExerciseQueries
  import opened ExerciseUpdates
  import opened ExerciseRepository

  /** The columns a validated `ExerciseCreate` hands to `create_in_plan`, its position apart. */
  function CreateData(data: ExerciseCreate): (d: ExerciseData)
    ensures d.name == data.name && d.description == data.description && d.sets == data.sets
    ensures d.repetitions == data.repetitions && d.dayLabel == data.dayLabel
  {
    ExerciseData(data.name, data.description, data.sets, data.repetitions, data.dayLabel)
  }

  class ExerciseService {
    const repo: ExerciseRepository

    constructor (repo: ExerciseRepository)
      ensures this.repo == repo
    {
      this.repo := repo;
    }

    /** `list_exercises`: members only, then the repository's listing. */
    method ListExercises(clubId: int, planId: int, userId: int) returns (r: Result<seq<Exercise>, Fault>)
      ensures RequireMemberOfClub(repo.db.memberships, userId, clubId).Err? ==> r == Err(Domain(NotClubMember))
      ensures RequireMemberOfClub(repo.db.memberships, userId, clubId).Ok? ==>
        (r.Err? <==> PlanInClub(repo.db.plans, clubId, planId).None?) &&
        (r.Err? ==> r.error == Domain(PlanNotFound)) &&
        (r.Ok? ==> r.value == ExerciseQueries.ListInPlan(repo.db.exercises, planId))
    {
      var guard := RequireMemberOfClub(repo.db.memberships, userId, clubId);
      if guard.Err? {
        return Err(guard.error);
      }
      r := repo.ListInPlan(clubId, planId);
    }

    /** `get_exercise`: members only, then the repository's lookup. */
    method GetExercise(clubId: int, planId: int, exerciseId: int, userId: int) returns (r: Result<Exercise, Fault>)
      ensures RequireMemberOfClub(repo.db.memberships, userId, clubId).Err? ==> r == Err(Domain(NotClubMember))
      ensures RequireMemberOfClub(repo.db.memberships, userId, clubId).Ok? ==>
        (r.Ok? <==> ExerciseIndex(repo.db.exercises, repo.db.plans, clubId, planId, exerciseId).Some?) &&
        (r.Ok? ==> r.value in repo.db.exercises && r.value.id == exerciseId && r.value.planId == planId) &&
        (r.Err? ==> r.error == Domain(ExerciseNotFound))
    {
      var guard := RequireMemberOfClub(repo.db.memberships, userId, clubId);
      if guard.Err? {
        return Err(guard.error);
      }
      r := repo.GetInPlan(clubId, planId, exerciseId);
    }

    /**
     * `create_exercise`: coaches and owners only; the body's position is forwarded as it is,
     * `None` asking for auto-append with the repository's default number of attempts.
     */
    method CreateExercise(clubId: int, planId: int, userId: int, data: ExerciseCreate, races: seq<Race>)
      returns (r: Result<Exercise, Fault>)
      requires ExercisesValid(repo.db.exercises)
      modifies repo.db`exercises
      ensures ExercisesValid(repo.db.exercises)
      ensures RequireCoachOrOwnerOfClub(repo.db.memberships, userId, clubId).Err? ==>
        r == Err(RequireCoachOrOwnerOfClub(repo.db.memberships, userId, clubId).error) &&
        repo.db.exercises == old(repo.db.exercises)
      ensures RequireCoachOrOwnerOfClub(repo.db.memberships, userId, clubId).Ok? ==>
        CreatedInPlan(old(repo.db.exercises), repo.db.exercises, repo.db.plans, clubId, planId,
                      CreateData(data), data.position, races, DefaultRetries, r)
    {
      var guard := RequireCoachOrOwnerOfClub(repo.db.memberships, userId, clubId);
      if guard.Err? {
        return Err(guard.error);
      }
      r := repo.CreateInPlan(clubId, planId, CreateData(data), data.position, races, DefaultRetries);
    }

    /**
     * `update_exercise`: coaches and owners only; a position supplied as NULL is dropped so
     * it cannot overwrite the stored one, and the other set fields go to the repository.
     */
    method UpdateExercise(clubId: int, planId: int, exerciseId: int, userId: int, updates: seq<ExerciseField>)
      returns (r: Result<Exercise, Fault>)
      requires ExercisesValid(repo.db.exercises)
      modifies repo.db`exercises
      ensures ExercisesValid(repo.db.exercises)
      ensures RequireCoachOrOwnerOfClub(repo.db.memberships, userId, clubId).Err? ==>
        r == Err(RequireCoachOrOwnerOfClub(repo.db.memberships, userId, clubId).error) &&
        repo.db.exercises == old(repo.db.exercises)
      ensures RequireCoachOrOwnerOfClub(repo.db.memberships, userId, clubId).Ok? ==>
        UpdatedInPlan(old(repo.db.exercises), repo.db.exercises, repo.db.plans, clubId, planId, exerciseId,
                      DropNullPosition(updates), r)
    {
      var guard := RequireCoachOrOwnerOfClub(repo.db.memberships, userId, clubId);
      if guard.Err? {
        return Err(guard.error);
      }
      r := repo.UpdateInPlan(clubId, planId, exerciseId, DropNullPosition(updates));
    }

    /** `delete_exercise`: coaches and owners only, then the repository's delete. */
    method DeleteExercise(clubId: int, planId: int, exerciseId: int, userId: int) returns (err: Option<Fault>)
      requires ExercisesValid(repo.db.exercises)
      modifies repo.db`exercises
      ensures ExercisesValid(repo.db.exercises)
      ensures RequireCoachOrOwnerOfClub(repo.db.memberships, userId, clubId).Err? ==>
        err == Some(RequireCoachOrOwnerOfClub(repo.db.memberships, userId, clubId).error) &&
        repo.db.exercises == old(repo.db.exercises)
      ensures RequireCoachOrOwnerOfClub(repo.db.memberships, userId, clubId).Ok? ==>
        DeletedInPlan(old(repo.db.exercises), repo.db.exercises, repo.db.plans, clubId, planId, exerciseId, err)
    {
      var guard := RequireCoachOrOwnerOfClub(repo.db.memberships, userId, clubId);
      if guard.Err? {
        return Some(guard.error);
      }
      err := repo.DeleteInPlan(clubId, planId, exerciseId);
    }
  }
}
