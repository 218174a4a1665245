/**
 * The attendance functions of app/crud/attendance.py. Unlike the repository they are not
 * scoped to a club, re-raise a failed commit unmapped, and `update_attendance` checks the
 * time range on the merged record (payload over stored values) before it writes.
 */
module AttendanceCrud {
  import opened Wrappers
  import opened Models
  import opened Errors
  import opened Rows
  import opened Database
  import opened AttendanceUpdates
  import opened AttendanceRepository

  /** The object after the crud pops (which leave `updated_at` in) and the `setattr` loop, before the flush. */
  function CrudChanges(att: Attendance, fields: seq<AttendanceField>): (r: Attendance)
    ensures r.id == att.id && r.sessionId == att.sessionId && r.userId == att.userId && r.createdAt == att.createdAt
  {
    ImmutableColumnsKept(att, fields, CrudImmutable);
    SetAttendanceFields(att, WithoutKeys(fields, CrudImmutable))
  }

  /** The `updated_at` of that object is the last one the changes carry, the stored one without. */
  lemma CrudChangesCarryUpdatedAt(att: Attendance, fields: seq<AttendanceField>)
    ensures var changes := WithoutKeys(fields, CrudImmutable);
      UpdatedAtField(CrudChanges(att, fields).updatedAt) == GetOr(changes, UpdatedAtField(0), UpdatedAtField(att.updatedAt))
  {
    LoopCarriesUpdatedAt(att, WithoutKeys(fields, CrudImmutable));
  }

  /**
   * The record the commit stores at clock `now`. An `updated_at` the changes set to a new
   * value is written as given; otherwise `onupdate` stamps `now` when some other column
   * changed, and an update that changes nothing leaves the record as it was.
   */
  function CrudUpdated(att: Attendance, fields: seq<AttendanceField>, now: int): (r: Attendance)
    ensures r.id == att.id && r.sessionId == att.sessionId && r.userId == att.userId && r.createdAt == att.createdAt
    ensures var given := CrudChanges(att, fields);
      (given.updatedAt != att.updatedAt ==> r == given) &&
      (given.updatedAt == att.updatedAt ==> r.(updatedAt := att.updatedAt) == given) &&
      (given.updatedAt == att.updatedAt && r.(updatedAt := att.updatedAt) == att ==> r == att) &&
      (given.updatedAt == att.updatedAt && r.(updatedAt := att.updatedAt) != att ==> r.updatedAt == now)
    ensures TimesOrdered(r) == TimesOrdered(CrudChanges(att, fields))
  {
    StampAgainstStored(att, CrudChanges(att, fields), now);
    OnUpdateStamp(att, CrudChanges(att, fields), now)
  }

  /**
   * What `update_attendance` decides for record `att`: a `ValueError` when the merged times
   * are out of order, the unmapped integrity error of a failed commit, or the updated record.
   */
  function CrudUpdateOutcome(users: seq<User>, att: Attendance, fields: seq<AttendanceField>, now: int)
    : (r: Result<Attendance, Fault>)
    ensures r.Ok? ==> r.value == CrudUpdated(att, fields, now) && TimesOrdered(r.value) && r.value.status.Some?
    ensures r.Err? <==>
      !TimesOrdered(CrudUpdated(att, fields, now)) || AttendanceUpdateViolation(users, CrudUpdated(att, fields, now)).Some?
    ensures r.Err? && r.error.Value? <==> !TimesOrdered(CrudUpdated(att, fields, now))
  {
    var check := MergedTimeCheck(att, WithoutKeys(fields, CrudImmutable));
    if check.Some? then Err(check.value)
    else
      var updated := CrudUpdated(att, fields, now);
      var v := AttendanceUpdateViolation(users, updated);
      if v.Some? then Err(Integrity(v.value)) else Ok(updated)
  }

  /**
   * Only the times the payload sets enter the merged check: for a declared payload that
   * sets just one of them, the stored other time takes part.
   */
  lemma StoredTimeTakesPart(users: seq<User>, att: Attendance, checkedOut: int, now: int)
    requires att.checkedInAt.Some? && checkedOut < att.checkedInAt.value
    ensures CrudUpdateOutcome(users, att, [CheckedOutField(Some(checkedOut))], now).Err?
  {
    var fields := [CheckedOutField(Some(checkedOut))];
    assert WithoutKeys(fields, CrudImmutable) == fields by {
      PopsRemoveNothingDeclared(fields, CrudImmutable);
    }
    assert SetAttendanceFields(att, fields[..0]) == att;
  }

  /** `create_attendance`: one insert; a failed commit is rolled back and re-raised as it is. */
  method CreateAttendance(db: Db, userId: int, sessionId: int, status: AttendanceStatus, recordedBy: Option<int>,
                          checkedInAt: Option<int>, checkedOutAt: Option<int>, note: Option<string>, now: int)
    returns (r: Result<Attendance, Fault>)
    requires AttendancesValid(db.attendances)
    modifies db`attendances
    ensures AttendancesValid(db.attendances)
    ensures var row := NewAttendance(old(db.attendances), sessionId, userId, status, recordedBy, checkedInAt, checkedOutAt, note, now);
      var v := AttendanceInsertViolation(old(db.attendances), db.sessions, db.users, row);
      (v.None? ==> r == Ok(row) && db.attendances == old(db.attendances) + [row]) &&
      (v.Some? ==> r == Err(Integrity(v.value)) && db.attendances == old(db.attendances))
  {
    var row := NewAttendance(db.attendances, sessionId, userId, status, recordedBy, checkedInAt, checkedOutAt, note, now);
    var v := AttendanceInsertViolation(db.attendances, db.sessions, db.users, row);
    if v.Some? {
      return Err(Integrity(v.value));
    }
    AttendanceInsertKeepsValid(db.attendances, db.sessions, db.users, row);
    db.attendances := db.attendances + [row];
    r := Ok(row);
  }

  /** `list_attendances_by_session`: no club scope; the records of the session by id, one page. */
  method ListAttendancesBySession(db: Db, sessionId: int, skip: nat, limit: nat) returns (r: seq<Attendance>)
    ensures r == SessionAttendances(db.attendances, sessionId, skip, limit)
    ensures forall a :: a in r ==> a in db.attendances && a.sessionId == sessionId
  {
    r := SessionAttendances(db.attendances, sessionId, skip, limit);
  }

  /** `get_attendance`: the record with that id, or `None`. */
  method GetAttendance(db: Db, attendanceId: int) returns (r: Option<Attendance>)
    ensures r.Some? ==> r.value in db.attendances && r.value.id == attendanceId
    ensures r.None? <==> forall a :: a in db.attendances ==> a.id != attendanceId
  {
    var i := AttendanceIndex(db.attendances, attendanceId);
    if i.None? {
      return None;
    }
    r := Some(db.attendances[i.value]);
  }

  /** `update_attendance`: the pops, the merged time check, the `setattr` loop, then one commit at clock `now`. */
  method UpdateAttendance(db: Db, att: Attendance, fields: seq<AttendanceField>, now: int) returns (r: Result<Attendance, Fault>)
    requires AttendancesValid(db.attendances) && att in db.attendances
    modifies db`attendances
    ensures AttendancesValid(db.attendances)
    ensures r == CrudUpdateOutcome(db.users, att, fields, now)
    ensures AttendanceIndex(old(db.attendances), att.id).Some?
    ensures r.Ok? ==> db.attendances == old(db.attendances)[AttendanceIndex(old(db.attendances), att.id).value := r.value]
    ensures r.Err? ==> db.attendances == old(db.attendances)
  {
    var k :| 0 <= k < |db.attendances| && db.attendances[k] == att;
    AttendanceIndexUnique(db.attendances, att.id, k);
    var check := MergedTimeCheck(att, WithoutKeys(fields, CrudImmutable));
    if check.Some? {
      return Err(check.value);
    }
    var updated := CrudUpdated(att, fields, now);
    var v := AttendanceUpdateViolation(db.users, updated);
    if v.Some? {
      return Err(Integrity(v.value));
    }
    AttendanceUpdateKeepsValid(db.attendances, db.users, k, updated);
    db.attendances := db.attendances[k := updated];
    r := Ok(updated);
  }
}
