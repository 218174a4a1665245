/**
 * Partial updates of an exercise: the `setattr` loop over the fields a client set, the
 * commit check against `uq_exercises_plan_position`, the repository's error mapping and the
 * "a supplied NULL position is dropped" filter of the service and of app/crud/exercise.py.
 */
module ExerciseUpdates {
  import opened Wrappers
  import opened Models
  import opened Errors
  import opened Rows
  import opened Database
  import opened ExerciseSchema
  import opened ExercisePositions

  /** `setattr(exercise, key, value)` for one field: that column takes the value, every other column stays. */
  function ApplyField(e: Exercise, f: ExerciseField): (r: Exercise)
    ensures r.id == e.id && r.planId == e.planId
    ensures FieldOf(r, f) == f
    ensures forall g :: FieldKey(g) != FieldKey(f) ==> FieldOf(r, g) == FieldOf(e, g)
  {
    match f
    case NameField(n) => e.(name := n)
    case DescriptionField(d) => e.(description := d)
    case SetsField(v) => e.(sets := v)
    case RepetitionsField(v) => e.(repetitions := v)
    case PositionField(v) => e.(position := v)
    case DayLabelField(d) => e.(dayLabel := d)
  }

  /** The column of `e` that `f` addresses, read back as a field. */
  function FieldOf(e: Exercise, f: ExerciseField): ExerciseField {
    match f
    case NameField(_) => NameField(e.name)
    case DescriptionField(_) => DescriptionField(e.description)
    case SetsField(_) => SetsField(e.sets)
    case RepetitionsField(_) => RepetitionsField(e.repetitions)
    case PositionField(_) => PositionField(e.position)
    case DayLabelField(_) => DayLabelField(e.dayLabel)
  }

  /** Whether `fields[i]` is the last field with its key (the one whose value stays). */
  predicate LastOfKey(fields: seq<ExerciseField>, i: nat)
    requires i < |fields|
  {
    forall j :: i < j < |fields| ==> FieldKey(fields[j]) != FieldKey(fields[i])
  }

  /** No field of the body has that key. */
  predicate KeyNotSet(fields: seq<ExerciseField>, key: string) {
    forall i :: 0 <= i < |fields| ==> FieldKey(fields[i]) != key
  }

  /** The `for key, value in updates.items(): setattr(...)` loop as a whole, field by field in order. */
  function ApplyAll(e: Exercise, fields: seq<ExerciseField>): (r: Exercise)
    ensures r.id == e.id && r.planId == e.planId
    decreases |fields|
  {
    if fields == [] then e
    else ApplyField(ApplyAll(e, fields[..|fields| - 1]), fields[|fields| - 1])
  }

  /** Each set key ends with the last value the body gives it. */
  lemma {:induction false} ApplyAllLastWins(e: Exercise, fields: seq<ExerciseField>, i: nat)
    requires i < |fields| && LastOfKey(fields, i)
    ensures FieldOf(ApplyAll(e, fields), fields[i]) == fields[i]
    decreases |fields|
  {
    var n := |fields| - 1;
    var prefix := fields[..n];
    if i < n {
      assert prefix[i] == fields[i];
      assert LastOfKey(prefix, i) by {
        forall j | i < j < n ensures FieldKey(prefix[j]) != FieldKey(prefix[i]) {
          assert prefix[j] == fields[j];
        }
      }
      ApplyAllLastWins(e, prefix, i);
      assert FieldKey(fields[n]) != FieldKey(fields[i]);
    }
  }

  /** Every key the body does not set keeps its column. */
  lemma {:induction false} ApplyAllKeepsUnset(e: Exercise, fields: seq<ExerciseField>, f: ExerciseField)
    requires KeyNotSet(fields, FieldKey(f))
    ensures FieldOf(ApplyAll(e, fields), f) == FieldOf(e, f)
    decreases |fields|
  {
    if fields != [] {
      var n := |fields| - 1;
      var prefix := fields[..n];
      assert KeyNotSet(prefix, FieldKey(f)) by {
        forall i | 0 <= i < n ensures FieldKey(prefix[i]) != FieldKey(f) {
          assert prefix[i] == fields[i];
        }
      }
      ApplyAllKeepsUnset(e, prefix, f);
      assert FieldKey(fields[n]) != FieldKey(f);
    }
  }

  /** No field addresses the position. */
  predicate SetsNoPosition(fields: seq<ExerciseField>) {
    forall i :: 0 <= i < |fields| ==> !fields[i].PositionField?
  }

  /** Without a position field the position stays as it was. */
  lemma NoPositionFieldKeepsPosition(e: Exercise, fields: seq<ExerciseField>)
    requires SetsNoPosition(fields)
    ensures ApplyAll(e, fields).position == e.position
  {
    ApplyAllKeepsUnset(e, fields, PositionField(None));
  }

  /**
   * The integrity error the commit of row `i` replaced by `updated` raises: the unique
   * position constraint when another row of the plan sits at the new position. The plan and
   * the id cannot be updated, so no foreign key is at stake.
   */
  function UpdateViolation(es: seq<Exercise>, i: nat, updated: Exercise): (v: Option<Constraint>)
    requires i < |es|
    ensures v.Some? ==> v.value == UqExercisesPlanPosition
    ensures v.Some? <==> (updated.position.Some? &&
                          exists k :: 0 <= k < |es| && k != i && es[k].planId == updated.planId && es[k].position == updated.position)
  {
    if updated.position.Some? &&
       exists k :: 0 <= k < |es| && k != i && es[k].planId == updated.planId && es[k].position == updated.position
    then Some(UqExercisesPlanPosition)
    else None
  }

  /** An update that passes the commit, and keeps id and plan, keeps the table valid. */
  lemma UpdateKeepsValid(es: seq<Exercise>, i: nat, updated: Exercise)
    requires ExercisesValid(es) && i < |es|
    requires updated.id == es[i].id && updated.planId == es[i].planId
    requires UpdateViolation(es, i, updated).None?
    ensures ExercisesValid(es[i := updated])
  {
    var r := es[i := updated];
    forall a, b | 0 <= a < |r| && 0 <= b < |r| && a != b
      ensures ExerciseId(r[a]) != ExerciseId(r[b])
    {
      assert ExerciseId(r[a]) == ExerciseId(es[a]) && ExerciseId(r[b]) == ExerciseId(es[b]);
    }
  }

  /** An update that sets no position cannot collide: the row keeps its free position. */
  lemma NoPositionNoViolation(es: seq<Exercise>, i: nat, fields: seq<ExerciseField>)
    requires ExercisesValid(es) && i < |es| && SetsNoPosition(fields)
    ensures UpdateViolation(es, i, ApplyAll(es[i], fields)).None?
  {
    NoPositionFieldKeepsPosition(es[i], fields);
  }

  /**
   * `update_in_plan`'s mapping of a failed commit: a unique violation is a
   * `PositionConflictError` only when the position was among the updated keys; every other
   * failure is a `ConflictError`.
   */
  function RepositoryUpdateFault(c: Constraint, fields: seq<ExerciseField>): (f: Fault)
    ensures f == Domain(PositionConflict) <==> IsUniqueViolation(c) && !SetsNoPosition(fields)
    ensures f != Domain(PositionConflict) ==> f == Domain(Conflict)
  {
    if IsUniqueViolation(c) && exists i :: 0 <= i < |fields| && fields[i].PositionField? then Domain(PositionConflict)
    else Domain(Conflict)
  }

  /**
   * `if updates.get("position") is None: updates.pop("position", None)`: a position supplied
   * as NULL is dropped; every other field stays, in order.
   */
  function DropNullPosition(fields: seq<ExerciseField>): (r: seq<ExerciseField>)
    ensures PositionField(None) !in r
    ensures forall f :: f != PositionField(None) ==> multiset(r)[f] == multiset(fields)[f]
    ensures |r| <= |fields|
  {
    Filter(fields, (f: ExerciseField) => f != PositionField(None))
  }

  /** After the filter, a position key always carries a value. */
  lemma DroppedPositionHasValue(fields: seq<ExerciseField>, i: nat)
    requires i < |DropNullPosition(fields)| && DropNullPosition(fields)[i].PositionField?
    ensures DropNullPosition(fields)[i].position.Some?
  {
    var r := DropNullPosition(fields);
    assert r[i] in r;
  }

  /** A body whose only position is a NULL one leaves the stored position untouched. */
  lemma NullPositionKeepsStored(e: Exercise, fields: seq<ExerciseField>)
    requires forall i :: 0 <= i < |fields| && fields[i].PositionField? ==> fields[i] == PositionField(None)
    ensures ApplyAll(e, DropNullPosition(fields)).position == e.position
  {
    var r := DropNullPosition(fields);
    forall i | 0 <= i < |r| ensures !r[i].PositionField? {
      assert r[i] in r;
      assert r[i] in fields;
    }
    NoPositionFieldKeepsPosition(e, r);
  }

  /** Deleting an exercise keeps the table valid. */
  lemma RemoveKeepsValid(es: seq<Exercise>, i: nat)
    requires ExercisesValid(es) && i < |es|
    ensures ExercisesValid(RemoveAt(es, i))
  {
    RemoveKeepsDistinct(es, i, ExerciseId);
    var r := RemoveAt(es, i);
    forall a, b | 0 <= a < |r| && 0 <= b < |r| && a != b && r[a].position.Some?
      ensures !(r[a].planId == r[b].planId && r[a].position == r[b].position)
    {
      var a' := if a < i then a else a + 1;
      var b' := if b < i then b else b + 1;
      assert r[a] == es[a'] && r[b] == es[b'];
    }
  }
}
