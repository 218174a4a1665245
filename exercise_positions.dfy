/**
 * Position allocation for the exercises of a plan (app/repositories/exercise.py and
 * app/crud/exercise.py). A new exercise either asks for an explicit position, which gets one
 * insert attempt, or is appended at `max(position) + 1`, recomputed before each of a bounded
 * number of attempts. `uq_exercises_plan_position` is what makes two writers collide.
 *
 * Concurrency is modelled by an oracle: for each commit attempt a `Race` says whether a rival
 * transaction committed a row at the same plan position first, or whether the commit failed
 * on some other integrity error. With no race every commit behaves as in a sequential run.
 */
module ExercisePositions {
  import opened Wrappers
  import opened Models
  import opened Errors
  import opened Rows
  import opened Database

  /** Whether some exercise of the plan already sits at `pos`. */
  predicate PositionTaken(es: seq<Exercise>, planId: int, pos: int) {
    exists k :: 0 <= k < |es| && es[k].planId == planId && es[k].position == Some(pos)
  }

  /** Whether some exercise of the plan has a (non-NULL) position. */
  predicate HasPositions(es: seq<Exercise>, planId: int) {
    exists k :: 0 <= k < |es| && es[k].planId == planId && es[k].position.Some?
  }

  /** `max(position)` over the plan's rows; NULL positions are skipped, and no position at all is `None`. */
  function MaxPosition(es: seq<Exercise>, planId: int): (m: Option<int>)
    ensures m.None? <==> !HasPositions(es, planId)
    ensures m.Some? ==> PositionTaken(es, planId, m.value)
    ensures m.Some? ==> forall k :: 0 <= k < |es| && es[k].planId == planId && es[k].position.Some? ==>
      es[k].position.value <= m.value
  {
    if es == [] then None
    else
      var rest := MaxPosition(es[1..], planId);
      assert forall k :: 1 <= k < |es| ==> es[k] == es[1..][k - 1];
      assert HasPositions(es[1..], planId) ==> HasPositions(es, planId) by {
        if HasPositions(es[1..], planId) {
          var k :| 0 <= k < |es[1..]| && es[1..][k].planId == planId && es[1..][k].position.Some?;
          assert es[k + 1] == es[1..][k];
        }
      }
      assert rest.Some? ==> PositionTaken(es, planId, rest.value) by {
        if rest.Some? {
          var k :| 0 <= k < |es[1..]| && es[1..][k].planId == planId && es[1..][k].position == Some(rest.value);
          assert es[k + 1] == es[1..][k];
        }
      }
      if es[0].planId != planId || es[0].position.None? then rest
      else if rest.None? || rest.value < es[0].position.value then es[0].position
      else rest
  }

  /**
   * `_next_position`: `coalesce(max(position) + 1, 0)`. The result is above every position of
   * the plan, so it is free; it is 0 for a plan without positions and directly follows the
   * largest position otherwise.
   */
  function NextPosition(es: seq<Exercise>, planId: int): (n: int)
    ensures forall k :: 0 <= k < |es| && es[k].planId == planId && es[k].position.Some? ==> es[k].position.value < n
    ensures !PositionTaken(es, planId, n)
    ensures !HasPositions(es, planId) ==> n == 0
    ensures HasPositions(es, planId) ==> PositionTaken(es, planId, n - 1)
  {
    var m := MaxPosition(es, planId);
    if m.None? then 0 else m.value + 1
  }

  /** The columns of a new exercise other than its id, plan and position. */
  datatype ExerciseData = ExerciseData(
    name: string, description: Option<string>, sets: Option<int>, repetitions: Option<int>,
    dayLabel: Option<DayLabel>)

  /** `Exercise(**payload, position=pos)`, with the id the table's sequence hands out next. */
  function NewRow(es: seq<Exercise>, planId: int, data: ExerciseData, pos: int): Exercise {
    Exercise(NextId(es, ExerciseId), planId, data.name, data.description, data.sets, data.repetitions, Some(pos), data.dayLabel)
  }

  /** What happens around one commit attempt, beyond this transaction's control. */
  datatype Race =
    | NoRace
      /** A rival transaction commits its own row (`rival`'s columns) at this plan and position first. */
    | RivalTakesPosition(rival: Exercise)
      /** The commit fails on an integrity error that is not a unique violation. */
    | ForeignKeyFailure

  /** The race of attempt `i`; past the end of the oracle nothing interferes. */
  function RaceAt(races: seq<Race>, i: nat): Race {
    if i < |races| then races[i] else NoRace
  }

  /**
   * The table the commit of a row at `pos` meets: the rival's row, if there is one and the
   * position is still free for it, has been committed first.
   */
  function Rivalled(es: seq<Exercise>, planId: int, pos: int, race: Race): (r: seq<Exercise>)
    ensures es <= r && |r| <= |es| + 1
    ensures |r| == |es| + 1 <==> race.RivalTakesPosition? && !PositionTaken(es, planId, pos)
    ensures |r| == |es| + 1 ==>
      r[|es|].id == NextId(es, ExerciseId) && r[|es|].planId == planId && r[|es|].position == Some(pos)
  {
    if race.RivalTakesPosition? && !PositionTaken(es, planId, pos) then
      es + [race.rival.(id := NextId(es, ExerciseId), planId := planId, position := Some(pos))]
    else es
  }

  /** The integrity error the commit of `row` into `seen` raises, if any. */
  function CommitViolation(seen: seq<Exercise>, row: Exercise, race: Race): (v: Option<Constraint>)
    ensures v == Some(ForeignKey) <==> race.ForeignKeyFailure?
    ensures v == Some(UqExercisesPlanPosition) <==>
      !race.ForeignKeyFailure? && row.position.Some? && PositionTaken(seen, row.planId, row.position.value)
    ensures v.None? <==> !race.ForeignKeyFailure? && !(row.position.Some? && PositionTaken(seen, row.planId, row.position.value))
  {
    if race.ForeignKeyFailure? then Some(ForeignKey)
    else if row.position.Some? && PositionTaken(seen, row.planId, row.position.value) then Some(UqExercisesPlanPosition)
    else None
  }

  /** A row with a fresh id at a free (or NULL) position keeps the exercises table valid. */
  lemma AppendFreeKeepsValid(es: seq<Exercise>, row: Exercise)
    requires ExercisesValid(es) && row.id == NextId(es, ExerciseId)
    requires row.position.Some? ==> !PositionTaken(es, row.planId, row.position.value)
    ensures ExercisesValid(es + [row])
  {
    AppendFreshId(es, row, ExerciseId);
    var r := es + [row];
    forall i, j | 0 <= i < |r| && 0 <= j < |r| && i != j && r[i].position.Some?
      ensures !(r[i].planId == r[j].planId && r[i].position == r[j].position)
    {
      if i == |es| {
        assert r[j] == es[j];
      } else if j == |es| {
        assert r[i] == es[i];
      }
    }
  }

  /** The rival's commit keeps the table valid. */
  lemma RivalledKeepsValid(es: seq<Exercise>, planId: int, pos: int, race: Race)
    requires ExercisesValid(es)
    ensures ExercisesValid(Rivalled(es, planId, pos, race))
  {
    var r := Rivalled(es, planId, pos, race);
    if |r| == |es| + 1 {
      assert r == es + [r[|es|]];
      AppendFreeKeepsValid(es, r[|es|]);
    }
  }

  /** How each way of failing leaves a create: the error raised for each case. */
  datatype CreateFaults = CreateFaults(exhausted: Fault, taken: Fault, other: Fault)

  /**
   * app/repositories/exercise.py: exhausted retries and a taken explicit position are
   * `PositionConflictError`, any other integrity error `ConflictError`.
   */
  const RepositoryFaults := CreateFaults(Domain(PositionConflict), Domain(PositionConflict), Domain(Conflict))

  /** app/crud/exercise.py: every failed create is its local `ConflictError`. */
  const CrudFaults := CreateFaults(Plain(Conflict), Plain(Conflict), Plain(Conflict))

  /** The result of a create and the exercises table it leaves behind. */
  datatype Outcome = Outcome(result: Result<Exercise, Fault>, table: seq<Exercise>)

  /** One auto-append attempt: the table its commit meets, the row it commits, and what the commit raises. */
  datatype Step = Step(seen: seq<Exercise>, row: Exercise, violation: Option<Constraint>)

  /**
   * One auto-append attempt against `es`: the row goes to `NextPosition(es)`. Without
   * interference the commit succeeds, since that position is free; a lost race is always a
   * unique violation, because the rival took that very position; the other failure is not.
   */
  function AppendStep(es: seq<Exercise>, planId: int, data: ExerciseData, race: Race): (s: Step)
    ensures s.seen == Rivalled(es, planId, NextPosition(es, planId), race)
    ensures |s.seen| == |es| + (if race.RivalTakesPosition? then 1 else 0)
    ensures s.row == NewRow(s.seen, planId, data, NextPosition(es, planId))
    ensures forall k :: 0 <= k < |s.seen| && s.seen[k].planId == planId && s.seen[k].position.Some? ==>
      s.seen[k].position.value <= NextPosition(es, planId)
    ensures s.violation == CommitViolation(s.seen, s.row, race)
    ensures race.NoRace? ==> s.violation.None?
    ensures race.RivalTakesPosition? ==> s.violation == Some(UqExercisesPlanPosition)
    ensures race.ForeignKeyFailure? ==> s.violation == Some(ForeignKey)
  {
    var pos := NextPosition(es, planId);
    var seen := Rivalled(es, planId, pos, race);
    var row := NewRow(seen, planId, data, pos);
    assert |seen| == |es| + 1 ==> PositionTaken(seen, planId, pos) by {
      if |seen| == |es| + 1 {
        assert seen[|es|].planId == planId && seen[|es|].position == Some(pos);
      }
    }
    assert forall k :: 0 <= k < |es| ==> seen[k] == es[k];
    Step(seen, row, CommitViolation(seen, row, race))
  }

  /**
   * One attempt keeps the table valid: the table the commit meets is valid, and so is that
   * table with the attempt's row when the commit goes through.
   */
  lemma AppendStepKeepsValid(es: seq<Exercise>, planId: int, data: ExerciseData, race: Race)
    requires ExercisesValid(es)
    ensures ExercisesValid(AppendStep(es, planId, data, race).seen)
    ensures AppendStep(es, planId, data, race).violation.None? ==>
      ExercisesValid(AppendStep(es, planId, data, race).seen + [AppendStep(es, planId, data, race).row])
  {
    var s := AppendStep(es, planId, data, race);
    RivalledKeepsValid(es, planId, NextPosition(es, planId), race);
    if s.violation.None? {
      AppendFreeKeepsValid(s.seen, s.row);
    }
  }

  /** The number of consecutive lost races from attempt `i`, counting at most `attempts`. */
  function LeadingRivals(races: seq<Race>, i: nat, attempts: nat): (k: nat)
    ensures k <= attempts
    ensures forall j :: i <= j < i + k ==> RaceAt(races, j).RivalTakesPosition?
    ensures k < attempts ==> !RaceAt(races, i + k).RivalTakesPosition?
    decreases attempts
  {
    if attempts == 0 || !RaceAt(races, i).RivalTakesPosition? then 0
    else 1 + LeadingRivals(races, i + 1, attempts - 1)
  }

  /**
   * `LeadingRivals` is the length of the run of lost races: a run of `n` lost races from
   * attempt `i` that ends at a race not lost, or at the last attempt, has length `n`.
   */
  lemma {:induction false} LeadingRivalsIsRun(races: seq<Race>, i: nat, attempts: nat, n: nat)
    requires n <= attempts
    requires forall j :: i <= j < i + n ==> RaceAt(races, j).RivalTakesPosition?
    requires n < attempts ==> !RaceAt(races, i + n).RivalTakesPosition?
    ensures LeadingRivals(races, i, attempts) == n
    decreases attempts
  {
    if n > 0 {
      LeadingRivalsIsRun(races, i + 1, attempts - 1, n - 1);
    }
  }

  /**
   * What an auto-append with `retries` attempts leaves behind, `k` being the run of lost races
   * it starts with. It creates its row exactly when the first race not lost is no race at all;
   * a non-unique failure there raises `faults.other`, and losing every attempt raises
   * `faults.exhausted`. Rows are only added: one rival row per lost race, all in this plan,
   * then the created row, which carries the data and a position above every position the
   * plan had when the create began.
   */
  ghost predicate AutoAppended(before: seq<Exercise>, after: seq<Exercise>, planId: int, data: ExerciseData,
                               races: seq<Race>, retries: nat, faults: CreateFaults, r: Result<Exercise, Fault>) {
    var k := LeadingRivals(races, 0, retries);
    (r.Ok? <==> k < retries && RaceAt(races, k).NoRace?) &&
    (r.Err? && k < retries ==> r.error == faults.other) &&
    (r.Err? && k == retries ==> r.error == faults.exhausted) &&
    before <= after &&
    |after| == |before| + k + (if r.Ok? then 1 else 0) &&
    (forall j :: |before| <= j < |after| ==> after[j].planId == planId) &&
    (r.Ok? ==> r.value == after[|after| - 1] && r.value.planId == planId && r.value.position.Some? &&
               r.value.name == data.name && r.value.description == data.description &&
               r.value.sets == data.sets && r.value.repetitions == data.repetitions &&
               r.value.dayLabel == data.dayLabel) &&
    (r.Ok? ==> forall j :: 0 <= j < |before| && before[j].planId == planId && before[j].position.Some? ==>
                 before[j].position.value < r.value.position.value)
  }

  /** The state of the retry loop after `n` attempts, all of them lost races. */
  ghost predicate AfterLostRaces(before: seq<Exercise>, es: seq<Exercise>, planId: int, races: seq<Race>, n: nat) {
    ExercisesValid(es) && before <= es && |es| == |before| + n &&
    (forall j :: 0 <= j < n ==> RaceAt(races, j).RivalTakesPosition?) &&
    (forall j :: |before| <= j < |es| ==> es[j].planId == planId)
  }

  /** Attempt `n` goes through when its race is no race: the create succeeds with a valid table. */
  lemma AttemptCreates(before: seq<Exercise>, es: seq<Exercise>, planId: int, data: ExerciseData,
                       races: seq<Race>, retries: nat, n: nat, faults: CreateFaults)
    requires AfterLostRaces(before, es, planId, races, n) && n < retries
    requires AppendStep(es, planId, data, RaceAt(races, n)).violation.None?
    ensures var s := AppendStep(es, planId, data, RaceAt(races, n));
      ExercisesValid(s.seen + [s.row]) &&
      AutoAppended(before, s.seen + [s.row], planId, data, races, retries, faults, Ok(s.row))
  {
    var s := AppendStep(es, planId, data, RaceAt(races, n));
    AppendStepKeepsValid(es, planId, data, RaceAt(races, n));
    LeadingRivalsIsRun(races, 0, retries, n);
    var after := s.seen + [s.row];
    assert before <= after;
    forall j | 0 <= j < |before| && before[j].planId == planId && before[j].position.Some?
      ensures before[j].position.value < s.row.position.value
    {
      assert es[j] == before[j];
    }
  }

  /** Attempt `n` fails on a non-unique error: the create stops with `faults.other`. */
  lemma AttemptFails(before: seq<Exercise>, es: seq<Exercise>, planId: int, data: ExerciseData,
                     races: seq<Race>, retries: nat, n: nat, faults: CreateFaults)
    requires AfterLostRaces(before, es, planId, races, n) && n < retries
    requires var v := AppendStep(es, planId, data, RaceAt(races, n)).violation; v.Some? && !IsUniqueViolation(v.value)
    ensures var s := AppendStep(es, planId, data, RaceAt(races, n));
      ExercisesValid(s.seen) && AutoAppended(before, s.seen, planId, data, races, retries, faults, Err(faults.other))
  {
    AppendStepKeepsValid(es, planId, data, RaceAt(races, n));
    LeadingRivalsIsRun(races, 0, retries, n);
  }

  /** Attempt `n` loses its race: the rival's row stays and the loop goes on. */
  lemma AttemptLost(before: seq<Exercise>, es: seq<Exercise>, planId: int, data: ExerciseData, races: seq<Race>, n: nat)
    requires AfterLostRaces(before, es, planId, races, n)
    requires var v := AppendStep(es, planId, data, RaceAt(races, n)).violation; v.Some? && IsUniqueViolation(v.value)
    ensures AfterLostRaces(before, AppendStep(es, planId, data, RaceAt(races, n)).seen, planId, races, n + 1)
  {
    var s := AppendStep(es, planId, data, RaceAt(races, n));
    AppendStepKeepsValid(es, planId, data, RaceAt(races, n));
    assert RaceAt(races, n).RivalTakesPosition?;
    assert s.seen[|es|].planId == planId;
  }

  /** Every attempt lost: the create raises `faults.exhausted`. */
  lemma AttemptsExhausted(before: seq<Exercise>, es: seq<Exercise>, planId: int, data: ExerciseData,
                          races: seq<Race>, retries: nat, faults: CreateFaults)
    requires AfterLostRaces(before, es, planId, races, retries)
    ensures AutoAppended(before, es, planId, data, races, retries, faults, Err(faults.exhausted))
  {
    LeadingRivalsIsRun(races, 0, retries, retries);
  }

  /**
   * An explicit position: a single attempt. It succeeds exactly when nothing interferes and
   * the position is free in the plan; a taken position raises `faults.taken` and a
   * non-unique failure `faults.other`, and a failed attempt adds no row of its own.
   */
  function PlaceAt(es: seq<Exercise>, planId: int, data: ExerciseData, pos: int, race: Race, faults: CreateFaults): (o: Outcome)
    ensures o.result.Ok? <==> race.NoRace? && !PositionTaken(es, planId, pos)
    ensures o.result.Ok? ==> o.result.value.position == Some(pos) && o.result.value.planId == planId
    ensures o.result.Ok? ==> o.table == es + [o.result.value]
    ensures o.result.Err? ==> o.result.error == (if race.ForeignKeyFailure? then faults.other else faults.taken)
    ensures o.result.Err? ==> o.table == Rivalled(es, planId, pos, race)
  {
    var seen := Rivalled(es, planId, pos, race);
    var row := NewRow(seen, planId, data, pos);
    var v := CommitViolation(seen, row, race);
    assert |seen| == |es| + 1 ==> PositionTaken(seen, planId, pos) by {
      if |seen| == |es| + 1 {
        assert seen[|es|].planId == planId && seen[|es|].position == Some(pos);
      }
    }
    if v.None? then Outcome(Ok(row), seen + [row])
    else if IsUniqueViolation(v.value) then Outcome(Err(faults.taken), seen)
    else Outcome(Err(faults.other), seen)
  }

  /** An explicit-position create keeps the exercises table valid. */
  lemma PlaceAtKeepsValid(es: seq<Exercise>, planId: int, data: ExerciseData, pos: int, race: Race, faults: CreateFaults)
    requires ExercisesValid(es)
    ensures ExercisesValid(PlaceAt(es, planId, data, pos, race, faults).table)
  {
    var o := PlaceAt(es, planId, data, pos, race, faults);
    RivalledKeepsValid(es, planId, pos, race);
    if o.result.Ok? {
      AppendFreeKeepsValid(es, o.result.value);
    }
  }
}
