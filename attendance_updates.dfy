/**
 * Partial updates of an attendance record, shared by app/repositories/attendance.py and
 * app/crud/attendance.py: the fields a client set (`model_dump(exclude_unset=True)`), the
 * removal of the keys that must never change (`changes.pop(k, None)`), the `setattr` loop
 * and the time-range rules of the attendance service and the crud function. Times are
 * integers (instants); `None` is an absent time.
 */
module AttendanceUpdates {
  import opened Wrappers
  import opened Models
  import opened Errors
  import opened Rows
  import opened Database

  /** One key of the change dict with its value. The declared `AttendanceUpdate` sets only the first four. */
  datatype AttendanceField =
    | StatusField(status: Option<AttendanceStatus>)
    | CheckedInField(checkedIn: Option<int>)
    | CheckedOutField(checkedOut: Option<int>)
    | NoteField(note: Option<string>)
    | RecordedByField(recordedBy: Option<int>)
    | IdField(id: int)
    | CreatedAtField(createdAt: int)
    | UpdatedAtField(updatedAt: int)
    | SessionIdField(sessionId: int)
    | UserIdField(userId: int)

  /** A column of `attendances`: the key of a change dict entry. */
  datatype AttendanceColumn =
    | StatusColumn | CheckedInColumn | CheckedOutColumn | NoteColumn | RecordedByColumn
    | IdColumn | CreatedAtColumn | UpdatedAtColumn | SessionIdColumn | UserIdColumn

  /** The dict key of a field. */
  function AttendanceKey(f: AttendanceField): AttendanceColumn {
    match f
    case StatusField(_) => StatusColumn
    case CheckedInField(_) => CheckedInColumn
    case CheckedOutField(_) => CheckedOutColumn
    case NoteField(_) => NoteColumn
    case RecordedByField(_) => RecordedByColumn
    case IdField(_) => IdColumn
    case CreatedAtField(_) => CreatedAtColumn
    case UpdatedAtField(_) => UpdatedAtColumn
    case SessionIdField(_) => SessionIdColumn
    case UserIdField(_) => UserIdColumn
  }

  /** The keys the repository's `update` pops. */
  const RepositoryImmutable: set<AttendanceColumn> := {IdColumn, CreatedAtColumn, UpdatedAtColumn, SessionIdColumn, UserIdColumn}

  /** The keys `update_attendance` of the crud module pops (`updated_at` is not among them). */
  const CrudImmutable: set<AttendanceColumn> := {IdColumn, CreatedAtColumn, SessionIdColumn, UserIdColumn}

  /** `for k in keys: changes.pop(k, None)`: the fields whose key is not popped, in order. */
  function WithoutKeys(fields: seq<AttendanceField>, keys: set<AttendanceColumn>): (r: seq<AttendanceField>)
    ensures forall i :: 0 <= i < |r| ==> AttendanceKey(r[i]) !in keys
    ensures forall f :: AttendanceKey(f) !in keys ==> multiset(r)[f] == multiset(fields)[f]
  {
    var r := Filter(fields, (f: AttendanceField) => AttendanceKey(f) !in keys);
    assert forall i :: 0 <= i < |r| ==> AttendanceKey(r[i]) !in keys by {
      forall i | 0 <= i < |r| ensures AttendanceKey(r[i]) !in keys {
        assert r[i] in r;
      }
    }
    r
  }

  /** The column of `a` that `f` addresses, read back as a field. */
  function AttendanceFieldOf(a: Attendance, f: AttendanceField): AttendanceField {
    match f
    case StatusField(_) => StatusField(a.status)
    case CheckedInField(_) => CheckedInField(a.checkedInAt)
    case CheckedOutField(_) => CheckedOutField(a.checkedOutAt)
    case NoteField(_) => NoteField(a.note)
    case RecordedByField(_) => RecordedByField(a.recordedById)
    case IdField(_) => IdField(a.id)
    case CreatedAtField(_) => CreatedAtField(a.createdAt)
    case UpdatedAtField(_) => UpdatedAtField(a.updatedAt)
    case SessionIdField(_) => SessionIdField(a.sessionId)
    case UserIdField(_) => UserIdField(a.userId)
  }

  /** `setattr(attendance, field, value)`: that column takes the value, every other column stays. */
  function SetAttendanceField(a: Attendance, f: AttendanceField): (r: Attendance)
    ensures AttendanceFieldOf(r, f) == f
    ensures forall g :: AttendanceKey(g) != AttendanceKey(f) ==> AttendanceFieldOf(r, g) == AttendanceFieldOf(a, g)
  {
    match f
    case StatusField(v) => a.(status := v)
    case CheckedInField(v) => a.(checkedInAt := v)
    case CheckedOutField(v) => a.(checkedOutAt := v)
    case NoteField(v) => a.(note := v)
    case RecordedByField(v) => a.(recordedById := v)
    case IdField(v) => a.(id := v)
    case CreatedAtField(v) => a.(createdAt := v)
    case UpdatedAtField(v) => a.(updatedAt := v)
    case SessionIdField(v) => a.(sessionId := v)
    case UserIdField(v) => a.(userId := v)
  }

  /** The `setattr` loop as a whole, field by field in order. */
  function SetAttendanceFields(a: Attendance, fields: seq<AttendanceField>): Attendance
    decreases |fields|
  {
    if fields == [] then a
    else SetAttendanceField(SetAttendanceFields(a, fields[..|fields| - 1]), fields[|fields| - 1])
  }

  /** A column whose key no field carries keeps its value through the loop. */
  lemma {:induction false} UnsetColumnKept(a: Attendance, fields: seq<AttendanceField>, probe: AttendanceField)
    requires forall i :: 0 <= i < |fields| ==> AttendanceKey(fields[i]) != AttendanceKey(probe)
    ensures AttendanceFieldOf(SetAttendanceFields(a, fields), probe) == AttendanceFieldOf(a, probe)
    decreases |fields|
  {
    if fields != [] {
      var n := |fields| - 1;
      assert forall i :: 0 <= i < n ==> fields[..n][i] == fields[i];
      UnsetColumnKept(a, fields[..n], probe);
    }
  }

  /** A popped column keeps its value through the loop. */
  lemma PoppedColumnKept(a: Attendance, fields: seq<AttendanceField>, keys: set<AttendanceColumn>, probe: AttendanceField)
    requires AttendanceKey(probe) in keys
    ensures AttendanceFieldOf(SetAttendanceFields(a, WithoutKeys(fields, keys)), probe) == AttendanceFieldOf(a, probe)
  {
    UnsetColumnKept(a, WithoutKeys(fields, keys), probe);
  }

  /**
   * After the pops, the `setattr` loop never changes the popped columns: `id`, `created_at`,
   * `session_id`, `user_id`, and `updated_at` when it is popped too (the repository pops it,
   * the crud function does not). The flush may still stamp `updated_at` (OnUpdateStamp).
   */
  lemma ImmutableColumnsKept(a: Attendance, fields: seq<AttendanceField>, keys: set<AttendanceColumn>)
    requires CrudImmutable <= keys
    ensures var r := SetAttendanceFields(a, WithoutKeys(fields, keys));
      r.id == a.id && r.createdAt == a.createdAt && r.sessionId == a.sessionId && r.userId == a.userId
    ensures UpdatedAtColumn in keys ==> SetAttendanceFields(a, WithoutKeys(fields, keys)).updatedAt == a.updatedAt
  {
    assert IdColumn in keys && CreatedAtColumn in keys;
    assert SessionIdColumn in keys && UserIdColumn in keys;
    IdentityColumnsKept(a, fields, keys);
    OwnerColumnsKept(a, fields, keys);
    if UpdatedAtColumn in keys {
      var r := SetAttendanceFields(a, WithoutKeys(fields, keys));
      PoppedColumnKept(a, fields, keys, UpdatedAtField(0));
      assert UpdatedAtField(r.updatedAt) == UpdatedAtField(a.updatedAt);
    }
  }

  lemma IdentityColumnsKept(a: Attendance, fields: seq<AttendanceField>, keys: set<AttendanceColumn>)
    requires IdColumn in keys && CreatedAtColumn in keys
    ensures var r := SetAttendanceFields(a, WithoutKeys(fields, keys)); r.id == a.id && r.createdAt == a.createdAt
  {
    var r := SetAttendanceFields(a, WithoutKeys(fields, keys));
    PoppedColumnKept(a, fields, keys, IdField(0));
    assert IdField(r.id) == IdField(a.id);
    PoppedColumnKept(a, fields, keys, CreatedAtField(0));
    assert CreatedAtField(r.createdAt) == CreatedAtField(a.createdAt);
  }

  lemma OwnerColumnsKept(a: Attendance, fields: seq<AttendanceField>, keys: set<AttendanceColumn>)
    requires SessionIdColumn in keys && UserIdColumn in keys
    ensures var r := SetAttendanceFields(a, WithoutKeys(fields, keys)); r.sessionId == a.sessionId && r.userId == a.userId
  {
    var r := SetAttendanceFields(a, WithoutKeys(fields, keys));
    PoppedColumnKept(a, fields, keys, SessionIdField(0));
    assert SessionIdField(r.sessionId) == SessionIdField(a.sessionId);
    PoppedColumnKept(a, fields, keys, UserIdField(0));
    assert UserIdField(r.userId) == UserIdField(a.userId);
  }

  /**
   * The flush after the `setattr` loop, with `updated_at`'s `onupdate` (app/db/models.py):
   * an UPDATE is emitted only when some column differs from the stored row, and it stamps
   * `updated_at` with the clock `now` unless the change set `updated_at` itself.
   */
  function OnUpdateStamp(before: Attendance, after: Attendance, now: int): (r: Attendance)
    ensures r == after || r == after.(updatedAt := now)
    ensures after == before ==> r == before
    ensures after.updatedAt != before.updatedAt ==> r == after
    ensures after != before && after.updatedAt == before.updatedAt ==> r.updatedAt == now
  {
    if after == before || after.updatedAt != before.updatedAt then after else after.(updatedAt := now)
  }

  /**
   * Read back against the stored row: when the change left `updated_at` alone, the stamped
   * record differs from the stored one in some other column exactly when it carries `now`.
   */
  lemma StampAgainstStored(before: Attendance, after: Attendance, now: int)
    ensures var r := OnUpdateStamp(before, after, now);
      after.updatedAt == before.updatedAt ==>
        r.(updatedAt := before.updatedAt) == after &&
        (r.(updatedAt := before.updatedAt) == before ==> r == before) &&
        (r.(updatedAt := before.updatedAt) != before ==> r.updatedAt == now)
  {
    var r := OnUpdateStamp(before, after, now);
    if after.updatedAt != before.updatedAt {
    } else if after == before {
      assert r.(updatedAt := before.updatedAt) == before;
    } else {
      assert r == after.(updatedAt := now);
    }
  }

  /** `changes.get(key, default)`: the value of the last field with that key, the default without one. */
  function GetOr(fields: seq<AttendanceField>, probe: AttendanceField, default: AttendanceField): (r: AttendanceField)
    ensures (forall i :: 0 <= i < |fields| ==> AttendanceKey(fields[i]) != AttendanceKey(probe)) ==> r == default
    ensures AttendanceKey(default) == AttendanceKey(probe) ==> AttendanceKey(r) == AttendanceKey(probe)
    decreases |fields|
  {
    if fields == [] then default
    else if AttendanceKey(fields[|fields| - 1]) == AttendanceKey(probe) then fields[|fields| - 1]
    else GetOr(fields[..|fields| - 1], probe, default)
  }

  /** The value `get` reads for a key is the value the `setattr` loop leaves in that column. */
  lemma {:induction false} GetOrIsApplied(a: Attendance, fields: seq<AttendanceField>, probe: AttendanceField)
    ensures GetOr(fields, probe, AttendanceFieldOf(a, probe)) == AttendanceFieldOf(SetAttendanceFields(a, fields), probe)
    decreases |fields|
  {
    if fields != [] {
      GetOrIsApplied(a, fields[..|fields| - 1], probe);
    }
  }

  lemma LoopCarriesUpdatedAt(a: Attendance, changes: seq<AttendanceField>)
    ensures UpdatedAtField(SetAttendanceFields(a, changes).updatedAt) == GetOr(changes, UpdatedAtField(0), UpdatedAtField(a.updatedAt))
  {
    GetOrIsApplied(a, changes, UpdatedAtField(0));
  }

  /** `_validate_time_range` of the service: a check-out before the check-in, both given, is refused; equal times pass. */
  function ValidateTimeRange(checkedIn: Option<int>, checkedOut: Option<int>): (r: Option<Fault>)
    ensures r.Some? <==> checkedIn.Some? && checkedOut.Some? && checkedOut.value < checkedIn.value
    ensures r.Some? ==> r.value == Domain(InvalidTimeRange)
  {
    if checkedIn.Some? && checkedOut.Some? && checkedOut.value < checkedIn.value then Some(Domain(InvalidTimeRange))
    else None
  }

  /** The times of a row are in order: no check-out before its check-in. */
  predicate TimesOrdered(a: Attendance) {
    ValidateTimeRange(a.checkedInAt, a.checkedOutAt).None?
  }

  /** The payload's own times (`data.checked_in_at`, `data.checked_out_at`; `None` when unset). */
  function PayloadTimes(fields: seq<AttendanceField>): (Option<int>, Option<int>) {
    (GetOr(fields, CheckedInField(None), CheckedInField(None)).checkedIn,
     GetOr(fields, CheckedOutField(None), CheckedOutField(None)).checkedOut)
  }

  /**
   * `update_attendance`'s merged check: the effective times are the payload's where set and
   * the stored ones otherwise; a check-out before the check-in is a ValueError.
   */
  function MergedTimeCheck(a: Attendance, changes: seq<AttendanceField>): (r: Option<Fault>)
    ensures r.Some? <==> !TimesOrdered(SetAttendanceFields(a, changes))
    ensures r.Some? ==> r.value.Value?
  {
    var ci := GetOr(changes, CheckedInField(None), CheckedInField(a.checkedInAt)).checkedIn;
    var co := GetOr(changes, CheckedOutField(None), CheckedOutField(a.checkedOutAt)).checkedOut;
    GetOrIsApplied(a, changes, CheckedInField(None));
    GetOrIsApplied(a, changes, CheckedOutField(None));
    if ci.Some? && co.Some? && co.value < ci.value then Some(Value("checked_out_at cannot be before checked_in_at"))
    else None
  }

  /** The service's own check sees only the payload: an update that sets no time passes it whatever is stored. */
  lemma PayloadCheckIgnoresStored(a: Attendance, fields: seq<AttendanceField>)
    requires forall i :: 0 <= i < |fields| ==> !fields[i].CheckedInField? && !fields[i].CheckedOutField?
    ensures ValidateTimeRange(PayloadTimes(fields).0, PayloadTimes(fields).1).None?
    ensures SetAttendanceFields(a, fields).checkedInAt == a.checkedInAt
    ensures SetAttendanceFields(a, fields).checkedOutAt == a.checkedOutAt
  {
    UnsetColumnKept(a, fields, CheckedInField(None));
    UnsetColumnKept(a, fields, CheckedOutField(None));
  }

  /** The fields `AttendanceUpdate` declares: status, the two times and the note; anything else is dropped by the schema. */
  predicate DeclaredUpdate(fields: seq<AttendanceField>) {
    forall i :: 0 <= i < |fields| ==>
      fields[i].StatusField? || fields[i].CheckedInField? || fields[i].CheckedOutField? || fields[i].NoteField?
  }

  /** For a payload of the declared schema the pops of either module remove nothing. */
  lemma PopsRemoveNothingDeclared(fields: seq<AttendanceField>, keys: set<AttendanceColumn>)
    requires DeclaredUpdate(fields)
    requires keys <= RepositoryImmutable
    ensures WithoutKeys(fields, keys) == fields
  {
    FilterKeepsAll(fields, (f: AttendanceField) => AttendanceKey(f) !in keys);
  }

  /**
   * The integrity error a commit of the updated row raises: a NULL status breaks the NOT NULL
   * column, a recording user who does not exist breaks its foreign key. The unique pair and
   * the other foreign keys are popped columns and never change.
   */
  function AttendanceUpdateViolation(users: seq<User>, updated: Attendance): (v: Option<Constraint>)
    ensures v == Some(NotNull) <==> updated.status.None?
    ensures v.None? <==>
      updated.status.Some? && (updated.recordedById.Some? ==> exists u :: u in users && u.id == updated.recordedById.value)
    ensures v.Some? ==> v.value in {NotNull, ForeignKey}
  {
    if updated.status.None? then Some(NotNull)
    else if updated.recordedById.Some? && forall u :: u in users ==> u.id != updated.recordedById.value then Some(ForeignKey)
    else None
  }

  /** An update that keeps the id and the unique pair and passes the commit keeps the table valid. */
  lemma AttendanceUpdateKeepsValid(ats: seq<Attendance>, users: seq<User>, i: nat, updated: Attendance)
    requires AttendancesValid(ats) && i < |ats|
    requires updated.id == ats[i].id && updated.sessionId == ats[i].sessionId && updated.userId == ats[i].userId
    requires AttendanceUpdateViolation(users, updated).None?
    ensures AttendancesValid(ats[i := updated])
  {
    var r := ats[i := updated];
    forall a, b | 0 <= a < |r| && 0 <= b < |r| && a != b ensures AttendanceId(r[a]) != AttendanceId(r[b]) {
      assert AttendanceId(r[a]) == AttendanceId(ats[a]) && AttendanceId(r[b]) == AttendanceId(ats[b]);
    }
  }
}
