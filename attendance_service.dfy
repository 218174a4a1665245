/**
 * `AttendanceService` (app/services/attendance.py). Every operation first requires the
 * acting user to be a coach or owner of the club. Creating also requires the target user to
 * be a member and the payload's times to be in order; the session's club is not checked on
 * create. Updating checks the payload's times, finds the record in the club and requires it
 * to belong to the session named in the request.
 */
module AttendanceService {
  import opened Wrappers
  import opened Models
  import opened Errors
  import opened Rows
  import opened Database
  import opened RoleGuards
  import opened AttendanceUpdates
  import opened AttendanceRepository

  /** `AttendanceCreate`: every field optional. */
  datatype AttendanceCreate = AttendanceCreate(
    status: Option<AttendanceStatus>, checkedInAt: Option<int>, checkedOutAt: Option<int>, note: Option<string>)

  /** `data.status or "present"`. */
  function StatusOrPresent(status: Option<AttendanceStatus>): AttendanceStatus {
    if status.Some? then status.value else Present
  }

  /** Every stored record has its times in order. */
  ghost predicate AllTimesOrdered(ats: seq<Attendance>) {
    forall i :: 0 <= i < |ats| ==> TimesOrdered(ats[i])
  }

  /**
   * The checks of `create`, in order: the actor is a coach or owner, the target user is a
   * member, the payload's times are in order. `None` means every check passed.
   */
  function CreateChecks(ms: seq<Membership>, clubId: int, userId: int, meId: int, data: AttendanceCreate): (r: Option<Fault>)
    ensures r.None? <==>
      RequireCoachOrOwnerOfClub(ms, meId, clubId).Ok? && RequireMemberOfClub(ms, userId, clubId).Ok? &&
      ValidateTimeRange(data.checkedInAt, data.checkedOutAt).None?
    ensures r.Some? ==> r.value in {Domain(NotClubMember), Domain(CoachOrOwnerRequired), Domain(InvalidTimeRange)}
    ensures r == Some(Domain(InvalidTimeRange)) <==>
      RequireCoachOrOwnerOfClub(ms, meId, clubId).Ok? && RequireMemberOfClub(ms, userId, clubId).Ok? &&
      ValidateTimeRange(data.checkedInAt, data.checkedOutAt).Some?
  {
    var actor := RequireCoachOrOwnerOfClub(ms, meId, clubId);
    if actor.Err? then Some(actor.error)
    else
      var target := RequireMemberOfClub(ms, userId, clubId);
      if target.Err? then Some(target.error)
      else ValidateTimeRange(data.checkedInAt, data.checkedOutAt)
  }

  /**
   * The session is never checked against the club on create: a coach of club 1 records
   * attendance of a club-1 member at session 5, whose plan belongs to club 2.
   */
  lemma CreateAcceptsForeignSession()
    ensures var ms := [Membership(1, 1, 1, Coach)];
      var plans := [Plan(9, 2, "p", ClubPlan, None, 7)];
      var sessions := [Session(5, 9, "s", None, 0, 1, "gym", None, 7)];
      var users := [User(1, "a@b")];
      var data := AttendanceCreate(None, None, None, None);
      var row := NewAttendance([], 5, 1, StatusOrPresent(data.status), Some(1), None, None, None, 0);
      CreateChecks(ms, 1, 1, 1, data).None? &&
      AttendanceInsertViolation([], sessions, users, row).None? &&
      !SessionInClub(sessions, plans, 1, 5)
  {
    var ms := [Membership(1, 1, 1, Coach)];
    var sessions := [Session(5, 9, "s", None, 0, 1, "gym", None, 7)];
    var users := [User(1, "a@b")];
    assert ms[0] in ms && sessions[0] in sessions && users[0] in users;
    assert RequireCoachOrOwnerOfClub(ms, 1, 1).Ok?;
  }

  /**
   * The checks of `update` as written: the actor, the payload's own times, the record in the
   * club, the record's session. Returns the index of the record to update.
   */
  function UpdateDecisionAsWritten(ms: seq<Membership>, ats: seq<Attendance>, sessions: seq<Session>, plans: seq<Plan>,
                                   clubId: int, attendanceId: int, sessionId: int, meId: int,
                                   fields: seq<AttendanceField>): (r: Result<nat, Fault>)
    ensures r.Ok? ==> r.value < |ats| && ats[r.value].id == attendanceId && ats[r.value].sessionId == sessionId
    ensures r.Ok? ==> ValidateTimeRange(PayloadTimes(fields).0, PayloadTimes(fields).1).None?
    ensures r.Err? ==> r.error in {Domain(NotClubMember), Domain(CoachOrOwnerRequired), Domain(InvalidTimeRange), Domain(AttendanceNotFound)}
  {
    var actor := RequireCoachOrOwnerOfClub(ms, meId, clubId);
    if actor.Err? then Err(actor.error)
    else
      var payload := ValidateTimeRange(PayloadTimes(fields).0, PayloadTimes(fields).1);
      if payload.Some? then Err(payload.value)
      else
        var i := AttendanceInClub(ats, sessions, plans, clubId, attendanceId);
        if i.None? || ats[i.value].sessionId != sessionId then Err(Domain(AttendanceNotFound))
        else Ok(i.value)
  }

  /**
   * As written, an update that sets only the check-out time is checked against nothing: a
   * record checked in at 10 takes a check-out at 5.
   */
  lemma UpdateAsWrittenStoresReversedTimes()
    ensures var ms := [Membership(1, 1, 1, Coach)];
      var plans := [Plan(9, 1, "p", ClubPlan, None, 1)];
      var sessions := [Session(5, 9, "s", None, 0, 1, "gym", None, 1)];
      var ats := [Attendance(3, 5, 1, Some(Present), Some(10), None, None, None, 0, 0)];
      var fields := [CheckedOutField(Some(5))];
      UpdateDecisionAsWritten(ms, ats, sessions, plans, 1, 3, 5, 1, fields) == Ok(0) &&
      TimesOrdered(ats[0]) && !TimesOrdered(RepositoryChanges(ats[0], fields))
  {
    var ms := [Membership(1, 1, 1, Coach)];
    var plans := [Plan(9, 1, "p", ClubPlan, None, 1)];
    var sessions := [Session(5, 9, "s", None, 0, 1, "gym", None, 1)];
    var ats := [Attendance(3, 5, 1, Some(Present), Some(10), None, None, None, 0, 0)];
    var fields := [CheckedOutField(Some(5))];
    ReversedTimesAdmitted(ms, plans, sessions, ats, fields);
    ReversedTimesStored();
  }

  lemma ReversedTimesAdmitted(ms: seq<Membership>, plans: seq<Plan>, sessions: seq<Session>,
                              ats: seq<Attendance>, fields: seq<AttendanceField>)
    requires ms == [Membership(1, 1, 1, Coach)] && plans == [Plan(9, 1, "p", ClubPlan, None, 1)]
    requires sessions == [Session(5, 9, "s", None, 0, 1, "gym", None, 1)]
    requires ats == [Attendance(3, 5, 1, Some(Present), Some(10), None, None, None, 0, 0)]
    requires fields == [CheckedOutField(Some(5))]
    ensures UpdateDecisionAsWritten(ms, ats, sessions, plans, 1, 3, 5, 1, fields) == Ok(0)
  {
    assert ms[0] in ms && plans[0] in plans && sessions[0] in sessions;
    assert RequireCoachOrOwnerOfClub(ms, 1, 1).Ok?;
    assert SessionInClub(sessions, plans, 1, 5);
    assert AttendanceIndex(ats, 3) == Some(0);
  }

  lemma ReversedTimesStored()
    ensures var a := Attendance(3, 5, 1, Some(Present), Some(10), None, None, None, 0, 0);
      TimesOrdered(a) && !TimesOrdered(RepositoryChanges(a, [CheckedOutField(Some(5))]))
  {
    var fields := [CheckedOutField(Some(5))];
    PopsRemoveNothingDeclared(fields, RepositoryImmutable);
    assert fields[..0] == [];
  }

  /**
   * The checks `update` evidently means: those as written, then the merged record's times,
   * as `update_attendance` of the crud module checks them.
   */
  function UpdateDecision(ms: seq<Membership>, ats: seq<Attendance>, sessions: seq<Session>, plans: seq<Plan>,
                          clubId: int, attendanceId: int, sessionId: int, meId: int,
                          fields: seq<AttendanceField>): (r: Result<nat, Fault>)
    ensures r.Ok? ==> r.value < |ats| && ats[r.value].id == attendanceId && ats[r.value].sessionId == sessionId
    ensures r.Ok? ==> TimesOrdered(RepositoryChanges(ats[r.value], fields))
  {
    var check := UpdateDecisionAsWritten(ms, ats, sessions, plans, clubId, attendanceId, sessionId, meId, fields);
    if check.Err? then check
    else if !TimesOrdered(RepositoryChanges(ats[check.value], fields)) then Err(Domain(InvalidTimeRange))
    else check
  }

  /** The correction only adds a refusal: it keeps every verdict as written except a time range out of order. */
  lemma UpdateDecisionRefinesAsWritten(ms: seq<Membership>, ats: seq<Attendance>, sessions: seq<Session>, plans: seq<Plan>,
                                       clubId: int, attendanceId: int, sessionId: int, meId: int, fields: seq<AttendanceField>)
    ensures var w := UpdateDecisionAsWritten(ms, ats, sessions, plans, clubId, attendanceId, sessionId, meId, fields);
      var c := UpdateDecision(ms, ats, sessions, plans, clubId, attendanceId, sessionId, meId, fields);
      (w.Err? ==> c == w) && (c.Ok? ==> c == w) &&
      (w.Ok? && c.Err? ==> c.error == Domain(InvalidTimeRange) && !TimesOrdered(RepositoryChanges(ats[w.value], fields)))
  {
  }

  class AttendanceService {
    const repo: AttendanceRepository

    constructor (repo: AttendanceRepository)
      ensures this.repo == repo
    {
      this.repo := repo;
    }

    /** `create`: the checks, then one insert recorded by the acting user, status `present` by default. */
    method Create(clubId: int, sessionId: int, userId: int, meId: int, data: AttendanceCreate, now: int)
      returns (r: Result<Attendance, Fault>)
      requires AttendancesValid(repo.db.attendances)
      modifies repo.db`attendances
      ensures AttendancesValid(repo.db.attendances)
      ensures AllTimesOrdered(old(repo.db.attendances)) ==> AllTimesOrdered(repo.db.attendances)
      ensures CreateChecks(repo.db.memberships, clubId, userId, meId, data).Some? ==>
        r == Err(CreateChecks(repo.db.memberships, clubId, userId, meId, data).value) &&
        repo.db.attendances == old(repo.db.attendances)
      ensures CreateChecks(repo.db.memberships, clubId, userId, meId, data).None? ==>
        AttendanceCreated(old(repo.db.attendances), repo.db.attendances, repo.db.sessions, repo.db.users,
          NewAttendance(old(repo.db.attendances), sessionId, userId, StatusOrPresent(data.status), Some(meId),
                        data.checkedInAt, data.checkedOutAt, data.note, now), r)
    {
      var actor := RequireCoachOrOwnerOfClub(repo.db.memberships, meId, clubId);
      if actor.Err? {
        return Err(actor.error);
      }
      var target := RequireMemberOfClub(repo.db.memberships, userId, clubId);
      if target.Err? {
        return Err(target.error);
      }
      var range := ValidateTimeRange(data.checkedInAt, data.checkedOutAt);
      if range.Some? {
        return Err(range.value);
      }
      r := repo.Create(sessionId, userId, StatusOrPresent(data.status), Some(meId), data.checkedInAt, data.checkedOutAt, data.note, now);
    }

    /** `list_by_session`: the actor check, then the repository's club-scoped listing. */
    method ListBySession(clubId: int, sessionId: int, meId: int, skip: nat, limit: nat)
      returns (r: Result<seq<Attendance>, Fault>)
      ensures RequireCoachOrOwnerOfClub(repo.db.memberships, meId, clubId).Err? ==>
        r == Err(RequireCoachOrOwnerOfClub(repo.db.memberships, meId, clubId).error)
      ensures RequireCoachOrOwnerOfClub(repo.db.memberships, meId, clubId).Ok? ==>
        (r.Err? <==> !SessionInClub(repo.db.sessions, repo.db.plans, clubId, sessionId)) &&
        (r.Err? ==> r.error == Domain(SessionNotFound)) &&
        (r.Ok? ==> r.value == SessionAttendances(repo.db.attendances, sessionId, skip, limit))
    {
      var actor := RequireCoachOrOwnerOfClub(repo.db.memberships, meId, clubId);
      if actor.Err? {
        return Err(actor.error);
      }
      r := repo.ListBySessionInClub(clubId, sessionId, skip, limit);
    }

    /** `get`: the actor check, then the record in the club. */
    method Get(clubId: int, attendanceId: int, meId: int) returns (r: Result<Attendance, Fault>)
      ensures RequireCoachOrOwnerOfClub(repo.db.memberships, meId, clubId).Err? ==>
        r == Err(RequireCoachOrOwnerOfClub(repo.db.memberships, meId, clubId).error)
      ensures RequireCoachOrOwnerOfClub(repo.db.memberships, meId, clubId).Ok? ==>
        var i := AttendanceInClub(repo.db.attendances, repo.db.sessions, repo.db.plans, clubId, attendanceId);
        (i.None? ==> r == Err(Domain(AttendanceNotFound))) && (i.Some? ==> r == Ok(repo.db.attendances[i.value]))
    {
      var actor := RequireCoachOrOwnerOfClub(repo.db.memberships, meId, clubId);
      if actor.Err? {
        return Err(actor.error);
      }
      r := repo.GetInClub(clubId, attendanceId);
    }

    /** `update` with the corrected checks: the checks, then the repository's update of the record found at clock `now`. */
    method Update(clubId: int, attendanceId: int, sessionId: int, meId: int, fields: seq<AttendanceField>, now: int)
      returns (r: Result<Attendance, Fault>)
      requires AttendancesValid(repo.db.attendances)
      modifies repo.db`attendances
      ensures AttendancesValid(repo.db.attendances)
      ensures AllTimesOrdered(old(repo.db.attendances)) ==> AllTimesOrdered(repo.db.attendances)
      ensures var d := UpdateDecision(repo.db.memberships, old(repo.db.attendances), repo.db.sessions, repo.db.plans,
                                      clubId, attendanceId, sessionId, meId, fields);
        (d.Err? ==> r == Err(d.error) && repo.db.attendances == old(repo.db.attendances)) &&
        (d.Ok? ==> AttendanceUpdated(old(repo.db.attendances), repo.db.attendances, repo.db.users,
                                     old(repo.db.attendances)[d.value], fields, now, r))
    {
      var actor := RequireCoachOrOwnerOfClub(repo.db.memberships, meId, clubId);
      if actor.Err? {
        return Err(actor.error);
      }
      var payload := ValidateTimeRange(PayloadTimes(fields).0, PayloadTimes(fields).1);
      if payload.Some? {
        return Err(payload.value);
      }
      var att := repo.GetInClub(clubId, attendanceId);
      if att.Err? {
        return Err(att.error);
      }
      if att.value.sessionId != sessionId {
        return Err(Domain(AttendanceNotFound));
      }
      if !TimesOrdered(RepositoryChanges(att.value, fields)) {
        return Err(Domain(InvalidTimeRange));
      }
      ghost var before := repo.db.attendances;
      r := repo.Update(att.value, fields, now);
      forall i | 0 <= i < |repo.db.attendances| && AllTimesOrdered(before) ensures TimesOrdered(repo.db.attendances[i]) {
        assert TimesOrdered(before[i]);
      }
    }
  }
}
