/**
 * `AttendanceRepository` (app/repositories/attendance.py): attendance records scoped to a
 * club through their session's plan. A commit that fails for any reason is rolled back and
 * reported as `AttendanceExistsError`.
 */
module AttendanceRepository {
  import opened Wrappers
  import opened Models
  import opened Errors
  import opened Rows
  import opened Database
  import opened AttendanceUpdates

  /** `_session_in_club_exists`: the session exists and its plan belongs to the club. */
  predicate SessionInClub(sessions: seq<Session>, plans: seq<Plan>, clubId: int, sessionId: int) {
    exists s :: s in sessions && s.id == sessionId && exists p :: p in plans && p.id == s.planId && p.clubId == clubId
  }

  /** Whether some record already pairs the row's session with its user (`uq_attendance_session_user`). */
  predicate PairTaken(ats: seq<Attendance>, row: Attendance) {
    exists a :: a in ats && a.sessionId == row.sessionId && a.userId == row.userId
  }

  /** Whether a foreign key of `row` (session, user, recording user) points nowhere. */
  predicate AttendanceDangling(sessions: seq<Session>, users: seq<User>, row: Attendance) {
    (forall s :: s in sessions ==> s.id != row.sessionId) ||
    (forall u :: u in users ==> u.id != row.userId) ||
    (row.recordedById.Some? && forall u :: u in users ==> u.id != row.recordedById.value)
  }

  /** The integrity error a commit of the new `row` raises, if any: the unique pair first, then the foreign keys. */
  function AttendanceInsertViolation(ats: seq<Attendance>, sessions: seq<Session>, users: seq<User>, row: Attendance)
    : (r: Option<Constraint>)
    ensures r == Some(UqAttendanceSessionUser) <==> PairTaken(ats, row)
    ensures r.None? <==> !PairTaken(ats, row) && !AttendanceDangling(sessions, users, row)
    ensures r.Some? ==> r.value in {UqAttendanceSessionUser, ForeignKey}
  {
    if PairTaken(ats, row) then Some(UqAttendanceSessionUser)
    else if AttendanceDangling(sessions, users, row) then Some(ForeignKey)
    else None
  }

  /**
   * The row an insert adds: the next id, the given columns, and the database clock's `now()`
   * as both `created_at` and `updated_at`.
   */
  function NewAttendance(ats: seq<Attendance>, sessionId: int, userId: int, status: AttendanceStatus,
                         recordedById: Option<int>, checkedInAt: Option<int>, checkedOutAt: Option<int>,
                         note: Option<string>, now: int): (r: Attendance)
    ensures r.sessionId == sessionId && r.userId == userId && r.status == Some(status)
    ensures r.recordedById == recordedById && r.checkedInAt == checkedInAt && r.checkedOutAt == checkedOutAt
    ensures r.note == note && r.createdAt == now && r.updatedAt == now
    ensures forall a :: a in ats ==> a.id < r.id
  {
    Attendance(NextId(ats, AttendanceId), sessionId, userId, Some(status), checkedInAt, checkedOutAt, recordedById, note, now, now)
  }

  /** A row with a status that passes the commit, under a fresh id, keeps the table valid. */
  lemma AttendanceInsertKeepsValid(ats: seq<Attendance>, sessions: seq<Session>, users: seq<User>, row: Attendance)
    requires AttendancesValid(ats) && row.id == NextId(ats, AttendanceId) && row.status.Some?
    requires AttendanceInsertViolation(ats, sessions, users, row).None?
    ensures AttendancesValid(ats + [row])
  {
    AppendFreshId(ats, row, AttendanceId);
    var s := ats + [row];
    forall i, j | 0 <= i < |s| && 0 <= j < |s| && i != j
      ensures !(s[i].sessionId == s[j].sessionId && s[i].userId == s[j].userId)
    {
      if i == |ats| {
        assert s[j] in ats;
      } else if j == |ats| {
        assert s[i] in ats;
      }
    }
  }

  /**
   * What `create` does: the new record is committed, or the commit fails, is rolled back and
   * `AttendanceExistsError` is raised whatever the violation.
   */
  ghost predicate AttendanceCreated(before: seq<Attendance>, after: seq<Attendance>, sessions: seq<Session>,
                                    users: seq<User>, row: Attendance, r: Result<Attendance, Fault>) {
    var v := AttendanceInsertViolation(before, sessions, users, row);
    (v.None? ==> r == Ok(row) && after == before + [row]) &&
    (v.Some? ==> r == Err(Domain(AttendanceExists)) && after == before)
  }

  /** Deleting every record that fails `keep` (a cascade from a deleted parent) keeps the table valid. */
  lemma AttendanceFilterKeepsValid(ats: seq<Attendance>, keep: Attendance -> bool)
    requires AttendancesValid(ats)
    ensures AttendancesValid(Filter(ats, keep))
  {
    var sameId := (a: Attendance, b: Attendance) => a.id == b.id;
    var samePair := (a: Attendance, b: Attendance) => a.sessionId == b.sessionId && a.userId == b.userId;
    assert PairwiseApart(ats, sameId) by {
      forall i, j | 0 <= i < |ats| && 0 <= j < |ats| && i != j ensures !sameId(ats[i], ats[j]) {
        assert AttendanceId(ats[i]) != AttendanceId(ats[j]);
      }
    }
    assert PairwiseApart(ats, samePair);
    FilterKeepsApart(ats, keep, sameId);
    FilterKeepsApart(ats, keep, samePair);
    var r := Filter(ats, keep);
    forall i, j | 0 <= i < |r| && 0 <= j < |r| && i != j ensures AttendanceId(r[i]) != AttendanceId(r[j]) {
      assert !sameId(r[i], r[j]);
    }
    forall i | 0 <= i < |r| ensures r[i].status.Some? {
      assert r[i] in ats;
    }
  }

  /** `ORDER BY id ASC`. */
  function AttendanceIdKey(a: Attendance): seq<int> {
    [a.id]
  }

  /** Every record of a session, by id. */
  function SessionRows(ats: seq<Attendance>, sessionId: int): (r: seq<Attendance>)
    ensures forall a :: a in r <==> a in ats && a.sessionId == sessionId
    ensures forall a :: multiset(r)[a] == if a.sessionId == sessionId then multiset(ats)[a] else 0
    ensures SortedBy(r, AttendanceIdKey)
  {
    var matching := Filter(ats, (a: Attendance) => a.sessionId == sessionId);
    var sorted := SortBy(matching, AttendanceIdKey);
    assert forall a :: a in sorted <==> a in matching by {
      forall a ensures a in sorted <==> a in matching {
        assert a in sorted <==> a in multiset(sorted);
      }
    }
    sorted
  }

  /** The records of a session by id, then `OFFSET skip LIMIT limit`. */
  function SessionAttendances(ats: seq<Attendance>, sessionId: int, skip: nat, limit: nat): (r: seq<Attendance>)
    ensures |r| <= limit
    ensures forall a :: a in r ==> a in ats && a.sessionId == sessionId
    ensures SortedBy(r, AttendanceIdKey)
  {
    var all := SessionRows(ats, sessionId);
    PageKeepsSorted(all, skip, limit, AttendanceIdKey);
    Page(all, skip, limit)
  }

  /** Reading page after page lists every record of the session exactly once, in id order. */
  lemma SessionPagesCover(ats: seq<Attendance>, sessionId: int, skip: nat, n: nat, m: nat)
    ensures SessionAttendances(ats, sessionId, skip, n) + SessionAttendances(ats, sessionId, skip + n, m) ==
            SessionAttendances(ats, sessionId, skip, n + m)
    ensures forall a ::
      multiset(SessionAttendances(ats, sessionId, 0, |ats|))[a] == if a.sessionId == sessionId then multiset(ats)[a] else 0
  {
    var all := SessionRows(ats, sessionId);
    PagesConcatenate(all, skip, n, m);
    assert |all| <= |ats| by {
      assert |multiset(all)| <= |multiset(ats)| by {
        assert multiset(all) <= multiset(ats);
      }
    }
    assert Page(all, 0, |ats|) == all by {
      if 0 < |all| {
        assert all[0..|all|] == all;
      }
    }
  }

  /** `db.get(Attendance, id)`: the index of the record with that primary key. */
  function AttendanceIndex(ats: seq<Attendance>, attendanceId: int): (r: Option<nat>)
    ensures r.Some? ==> r.value < |ats| && ats[r.value].id == attendanceId
    ensures r.None? <==> forall a :: a in ats ==> a.id != attendanceId
  {
    FindFirst(ats, (a: Attendance) => a.id == attendanceId)
  }

  /** With distinct ids the record found by id is the only one with that id. */
  lemma AttendanceIndexUnique(ats: seq<Attendance>, attendanceId: int, k: nat)
    requires DistinctIds(ats, AttendanceId) && k < |ats| && ats[k].id == attendanceId
    ensures AttendanceIndex(ats, attendanceId) == Some(k)
  {
    var r := AttendanceIndex(ats, attendanceId);
    assert AttendanceId(ats[r.value]) == AttendanceId(ats[k]);
  }

  /** `get_in_club`: the record with that id, provided its session's plan belongs to the club. */
  function AttendanceInClub(ats: seq<Attendance>, sessions: seq<Session>, plans: seq<Plan>, clubId: int, attendanceId: int)
    : (r: Option<nat>)
    ensures r.Some? ==>
      r.value < |ats| && ats[r.value].id == attendanceId && SessionInClub(sessions, plans, clubId, ats[r.value].sessionId)
    ensures r.Some? ==> r == AttendanceIndex(ats, attendanceId)
  {
    var i := AttendanceIndex(ats, attendanceId);
    if i.Some? && SessionInClub(sessions, plans, clubId, ats[i.value].sessionId) then i else None
  }

  /** With distinct ids the lookup misses exactly when no record with that id lies in the club. */
  lemma AttendanceInClubMisses(ats: seq<Attendance>, sessions: seq<Session>, plans: seq<Plan>, clubId: int, attendanceId: int)
    requires DistinctIds(ats, AttendanceId)
    ensures AttendanceInClub(ats, sessions, plans, clubId, attendanceId).None? <==>
      forall k :: 0 <= k < |ats| && ats[k].id == attendanceId ==> !SessionInClub(sessions, plans, clubId, ats[k].sessionId)
  {
    if k :| 0 <= k < |ats| && ats[k].id == attendanceId && SessionInClub(sessions, plans, clubId, ats[k].sessionId) {
      AttendanceIndexUnique(ats, attendanceId, k);
    }
  }

  /** The object after the repository's pops and `setattr` loop, before the flush. */
  function RepositoryChanges(att: Attendance, fields: seq<AttendanceField>): (r: Attendance)
    ensures r.id == att.id && r.sessionId == att.sessionId && r.userId == att.userId
    ensures r.createdAt == att.createdAt && r.updatedAt == att.updatedAt
  {
    ImmutableColumnsKept(att, fields, RepositoryImmutable);
    SetAttendanceFields(att, WithoutKeys(fields, RepositoryImmutable))
  }

  /**
   * The record the commit stores at clock `now`: the loop's changes, and `updated_at`
   * stamped with `now` exactly when some other column changed (the payload cannot set it,
   * its key is popped); an update that changes nothing leaves the record as it was.
   */
  function RepositoryUpdated(att: Attendance, fields: seq<AttendanceField>, now: int): (r: Attendance)
    ensures r.id == att.id && r.sessionId == att.sessionId && r.userId == att.userId && r.createdAt == att.createdAt
    ensures r.(updatedAt := att.updatedAt) == RepositoryChanges(att, fields)
    ensures r.(updatedAt := att.updatedAt) == att ==> r == att
    ensures r.(updatedAt := att.updatedAt) != att ==> r.updatedAt == now
    ensures TimesOrdered(r) == TimesOrdered(RepositoryChanges(att, fields))
  {
    StampAgainstStored(att, RepositoryChanges(att, fields), now);
    OnUpdateStamp(att, RepositoryChanges(att, fields), now)
  }

  /**
   * A record stored with `updated_at` 1 whose status changes at clock 5 is stored with
   * `updated_at` 5; setting the status it already has changes nothing.
   */
  lemma StatusChangeIsStamped()
    ensures var a := Attendance(3, 5, 1, Some(Present), None, None, None, None, 0, 1);
      RepositoryUpdated(a, [StatusField(Some(Absent))], 5) == a.(status := Some(Absent), updatedAt := 5) &&
      RepositoryUpdated(a, [StatusField(Some(Present))], 5) == a
  {
    var a := Attendance(3, 5, 1, Some(Present), None, None, None, None, 0, 1);
    PopsRemoveNothingDeclared([StatusField(Some(Absent))], RepositoryImmutable);
    PopsRemoveNothingDeclared([StatusField(Some(Present))], RepositoryImmutable);
    assert [StatusField(Some(Absent))][..0] == [];
  }

  /**
   * What `update` does to record `att` at clock `now`: the updated record replaces it, or
   * the commit fails, is rolled back and `AttendanceExistsError` is raised.
   */
  ghost predicate AttendanceUpdated(before: seq<Attendance>, after: seq<Attendance>, users: seq<User>,
                                    att: Attendance, fields: seq<AttendanceField>, now: int, r: Result<Attendance, Fault>) {
    var updated := RepositoryUpdated(att, fields, now);
    var i := AttendanceIndex(before, att.id);
    i.Some? &&
    (AttendanceUpdateViolation(users, updated).None? ==> r == Ok(updated) && after == before[i.value := updated]) &&
    (AttendanceUpdateViolation(users, updated).Some? ==> r == Err(Domain(AttendanceExists)) && after == before)
  }

  class AttendanceRepository {
    const db: Db

    constructor (db: Db)
      ensures this.db == db
    {
      this.db := db;
    }

    /** `_session_in_club_exists`. */
    method SessionInClubExists(clubId: int, sessionId: int) returns (b: bool)
      ensures b <==> SessionInClub(db.sessions, db.plans, clubId, sessionId)
    {
      b := SessionInClub(db.sessions, db.plans, clubId, sessionId);
    }

    /** `create`: one insert attempt; `now` is the database clock. */
    method Create(sessionId: int, userId: int, status: AttendanceStatus, recordedById: Option<int>,
                  checkedInAt: Option<int>, checkedOutAt: Option<int>, note: Option<string>, now: int)
      returns (r: Result<Attendance, Fault>)
      requires AttendancesValid(db.attendances)
      modifies db`attendances
      ensures AttendancesValid(db.attendances)
      ensures AttendanceCreated(old(db.attendances), db.attendances, db.sessions, db.users,
        NewAttendance(old(db.attendances), sessionId, userId, status, recordedById, checkedInAt, checkedOutAt, note, now), r)
    {
      var row := NewAttendance(db.attendances, sessionId, userId, status, recordedById, checkedInAt, checkedOutAt, note, now);
      var v := AttendanceInsertViolation(db.attendances, db.sessions, db.users, row);
      if v.Some? {
        return Err(Domain(AttendanceExists));
      }
      AttendanceInsertKeepsValid(db.attendances, db.sessions, db.users, row);
      db.attendances := db.attendances + [row];
      r := Ok(row);
    }

    /** `list_by_session_in_club`: a session outside the club is `SessionNotFound`. */
    method ListBySessionInClub(clubId: int, sessionId: int, skip: nat, limit: nat) returns (r: Result<seq<Attendance>, Fault>)
      ensures r.Err? <==> !SessionInClub(db.sessions, db.plans, clubId, sessionId)
      ensures r.Err? ==> r.error == Domain(SessionNotFound)
      ensures r.Ok? ==> r.value == SessionAttendances(db.attendances, sessionId, skip, limit)
    {
      var exists_ := SessionInClubExists(clubId, sessionId);
      if !exists_ {
        return Err(Domain(SessionNotFound));
      }
      r := Ok(SessionAttendances(db.attendances, sessionId, skip, limit));
    }

    /** `get_in_club`: a record outside the club is `AttendanceNotFoundError`. */
    method GetInClub(clubId: int, attendanceId: int) returns (r: Result<Attendance, Fault>)
      ensures r.Err? <==> AttendanceInClub(db.attendances, db.sessions, db.plans, clubId, attendanceId).None?
      ensures r.Err? ==> r.error == Domain(AttendanceNotFound)
      ensures r.Ok? ==> r.value == db.attendances[AttendanceInClub(db.attendances, db.sessions, db.plans, clubId, attendanceId).value]
    {
      var i := AttendanceInClub(db.attendances, db.sessions, db.plans, clubId, attendanceId);
      if i.None? {
        return Err(Domain(AttendanceNotFound));
      }
      r := Ok(db.attendances[i.value]);
    }

    /** `update`: the pops, the `setattr` loop, then one commit; `now` is the clock `onupdate` reads. */
    method Update(att: Attendance, fields: seq<AttendanceField>, now: int) returns (r: Result<Attendance, Fault>)
      requires AttendancesValid(db.attendances) && att in db.attendances
      modifies db`attendances
      ensures AttendancesValid(db.attendances)
      ensures AttendanceUpdated(old(db.attendances), db.attendances, db.users, att, fields, now, r)
    {
      var k :| 0 <= k < |db.attendances| && db.attendances[k] == att;
      AttendanceIndexUnique(db.attendances, att.id, k);
      var updated := RepositoryUpdated(att, fields, now);
      var v := AttendanceUpdateViolation(db.users, updated);
      if v.Some? {
        return Err(Domain(AttendanceExists));
      }
      AttendanceUpdateKeepsValid(db.attendances, db.users, k, updated);
      db.attendances := db.attendances[k := updated];
      r := Ok(updated);
    }
  }
}
