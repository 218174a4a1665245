/**
 * The session operations of app/services/session.py: finding a session of a plan of the
 * club, the partial update with its time-range checks, and the delete, which takes the
 * session's attendance records with it (`cascade="all, delete-orphan"`). The update and the
 * delete first require the acting user to be a coach or owner of the club.
 */
module SessionService {
  import opened Wrappers
  import opened Models
  import opened Errors
  import opened Rows
  import opened Database
  import opened RoleGuards
  import opened SessionSchema
  import opened AttendanceRepository

  /** Whether plan `planId` belongs to club `clubId`. */
  predicate PlanOfClub(plans: seq<Plan>, clubId: int, planId: int) {
    exists p :: p in plans && p.id == planId && p.clubId == clubId
  }

  /** `get_session_service`'s lookup: the session with that id, in that plan, whose plan belongs to the club. */
  function SessionInPlanAndClub(sessions: seq<Session>, plans: seq<Plan>, clubId: int, planId: int, sessionId: int)
    : (r: Option<nat>)
    ensures r.Some? ==>
      r.value < |sessions| && sessions[r.value].id == sessionId && sessions[r.value].planId == planId &&
      PlanOfClub(plans, clubId, planId)
    ensures r.None? <==>
      !PlanOfClub(plans, clubId, planId) || forall s :: s in sessions ==> !(s.id == sessionId && s.planId == planId)
  {
    var i := FindFirst(sessions, (s: Session) => s.id == sessionId && s.planId == planId);
    if i.Some? && PlanOfClub(plans, clubId, planId) then i else None
  }

  /**
   * The guard of `update_session_service` and `delete_session_service` as written: the club
   * id is passed as the user id, so the rule is checked for user `clubId`, whoever acts.
   */
  function SessionGuardAsWritten(ms: seq<Membership>, clubId: int, meId: int): (r: Result<Membership, Fault>)
    ensures r.Ok? ==> r.value in ms && r.value.userId == clubId && r.value.clubId == clubId && r.value.role in {Coach, Owner}
    ensures r.Err? ==> r.error in {Domain(NotClubMember), Domain(CoachOrOwnerRequired)}
  {
    RequireCoachOrOwnerOfClub(ms, clubId, clubId)
  }

  /**
   * As written, a stranger passes in club 1 as long as user 1 leads it, and the coach of a
   * club whose id is no leader's user id is refused.
   */
  lemma SessionGuardAsWrittenIgnoresActor()
    ensures var ms := [Membership(1, 1, 1, Owner)];
      SessionGuardAsWritten(ms, 1, 9).Ok? && RequireMemberOfClub(ms, 9, 1).Err?
    ensures var ms := [Membership(1, 1, 7, Coach)];
      SessionGuardAsWritten(ms, 1, 7).Err? && SessionGuard(ms, 1, 7).Ok?
  {
    var ms := [Membership(1, 1, 1, Owner)];
    assert ms[0] in ms;
    var ms' := [Membership(1, 1, 7, Coach)];
    assert ms'[0] in ms';
  }

  /** The guard evidently meant: the acting user must be a coach or owner of the club. */
  function SessionGuard(ms: seq<Membership>, clubId: int, meId: int): (r: Result<Membership, Fault>)
    ensures r.Ok? ==> r.value in ms && r.value.userId == meId && r.value.clubId == clubId && r.value.role in {Coach, Owner}
    ensures r.Err? ==> r.error in {Domain(NotClubMember), Domain(CoachOrOwnerRequired)}
  {
    RequireCoachOrOwnerOfClub(ms, meId, clubId)
  }

  /** With one membership per club and user, the corrected guard admits exactly the club's coaches and owners. */
  lemma SessionGuardAdmitsLeaders(ms: seq<Membership>, clubId: int, meId: int)
    requires UniqueMembershipPairs(ms)
    ensures SessionGuard(ms, clubId, meId).Ok? <==>
      exists k :: 0 <= k < |ms| && ms[k].userId == meId && ms[k].clubId == clubId && ms[k].role in {Coach, Owner}
  {
    if k :| 0 <= k < |ms| && ms[k].userId == meId && ms[k].clubId == clubId && ms[k].role in {Coach, Owner} {
      GuardsByRole(ms, k);
    }
  }

  /** The effective times: the payload's where set (even to `None`), the stored ones otherwise. */
  function EffectiveTimes(s: Session, u: SessionUpdate): (Option<int>, Option<int>) {
    (if u.startsAt.Put? then u.startsAt.value else Some(s.startsAt),
     if u.endsAt.Put? then u.endsAt.value else Some(s.endsAt))
  }

  /**
   * The two checks of `update_session_service`: the payload's own times, then the effective
   * ones. Both refuse `starts_at >= ends_at`, so equal times are refused too.
   */
  function SessionTimeCheck(s: Session, u: SessionUpdate): (r: Option<Fault>)
    ensures r.Some? ==> r.value == Domain(InvalidTimeRange)
    ensures r.None? <==>
      !(EffectiveTimes(s, u).0.Some? && EffectiveTimes(s, u).1.Some? && EffectiveTimes(s, u).0.value >= EffectiveTimes(s, u).1.value)
  {
    if Given(u.startsAt).Some? && Given(u.endsAt).Some? && Given(u.startsAt).value >= Given(u.endsAt).value then
      Some(Domain(InvalidTimeRange))
    else
      var (starts, ends) := EffectiveTimes(s, u);
      if starts.Some? && ends.Some? && starts.value >= ends.value then Some(Domain(InvalidTimeRange))
      else None
  }

  /**
   * The set fields written onto the session, then the commit. `None` is the commit's refusal:
   * a NULL written to `starts_at`, `ends_at` or `location`, which are NOT NULL.
   */
  function ApplySessionUpdate(s: Session, u: SessionUpdate): (r: Option<Session>)
    ensures r.None? <==> u.startsAt == Put(None) || u.endsAt == Put(None) || u.location == Put(None)
    ensures r.Some? ==>
      r.value.startsAt == (if u.startsAt.Put? then u.startsAt.value.value else s.startsAt) &&
      r.value.endsAt == (if u.endsAt.Put? then u.endsAt.value.value else s.endsAt) &&
      r.value.location == (if u.location.Put? then u.location.value.value else s.location) &&
      r.value.note == (if u.note.Put? then u.note.value else s.note)
    ensures r.Some? ==>
      r.value.id == s.id && r.value.planId == s.planId && r.value.name == s.name &&
      r.value.description == s.description && r.value.createdBy == s.createdBy
  {
    if u.startsAt == Put(None) || u.endsAt == Put(None) || u.location == Put(None) then None
    else
      Some(s.(startsAt := if u.startsAt.Put? then u.startsAt.value.value else s.startsAt,
              endsAt := if u.endsAt.Put? then u.endsAt.value.value else s.endsAt,
              location := if u.location.Put? then u.location.value.value else s.location,
              note := if u.note.Put? then u.note.value else s.note))
  }

  /** An update that passes the time checks and the commit leaves the start strictly before the end. */
  lemma CheckedUpdateKeepsOrder(s: Session, u: SessionUpdate)
    requires SessionTimeCheck(s, u).None? && ApplySessionUpdate(s, u).Some?
    ensures ApplySessionUpdate(s, u).value.startsAt < ApplySessionUpdate(s, u).value.endsAt
  {
  }

  /** An update that sets nothing changes nothing, and applying an update a second time changes nothing more. */
  lemma SessionUpdateIdempotent(s: Session, u: SessionUpdate)
    ensures ApplySessionUpdate(s, SessionUpdate(Unset, Unset, Unset, Unset)) == Some(s)
    ensures ApplySessionUpdate(s, u).Some? ==>
      ApplySessionUpdate(ApplySessionUpdate(s, u).value, u) == ApplySessionUpdate(s, u)
  {
  }

  /** Every session starts strictly before it ends, as `SessionCreate` demands. */
  ghost predicate SessionsOrdered(ss: seq<Session>) {
    forall i :: 0 <= i < |ss| ==> ss[i].startsAt < ss[i].endsAt
  }

  /** `get_session_service`: the session, or `SessionNotFound`. */
  method GetSessionService(db: Db, clubId: int, planId: int, sessionId: int, meId: int) returns (r: Result<Session, Fault>)
    ensures var i := SessionInPlanAndClub(db.sessions, db.plans, clubId, planId, sessionId);
      (i.None? ==> r == Err(Domain(SessionNotFound))) && (i.Some? ==> r == Ok(db.sessions[i.value]))
  {
    var i := SessionInPlanAndClub(db.sessions, db.plans, clubId, planId, sessionId);
    if i.None? {
      return Err(Domain(SessionNotFound));
    }
    r := Ok(db.sessions[i.value]);
  }

  /**
   * `update_session_service` with the corrected guard: the guard, the lookup, the two time
   * checks, then the write; a failed commit is rolled back and raises `Conflict`.
   */
  method UpdateSessionService(db: Db, clubId: int, planId: int, sessionId: int, meId: int, u: SessionUpdate)
    returns (r: Result<Session, Fault>)
    modifies db`sessions
    ensures SessionsOrdered(old(db.sessions)) ==> SessionsOrdered(db.sessions)
    ensures SessionGuard(db.memberships, clubId, meId).Err? ==>
      r == Err(SessionGuard(db.memberships, clubId, meId).error) && db.sessions == old(db.sessions)
    ensures SessionGuard(db.memberships, clubId, meId).Ok? ==>
      var i := SessionInPlanAndClub(old(db.sessions), db.plans, clubId, planId, sessionId);
      (i.None? ==> r == Err(Domain(SessionNotFound)) && db.sessions == old(db.sessions)) &&
      (i.Some? && SessionTimeCheck(old(db.sessions)[i.value], u).Some? ==>
        r == Err(Domain(InvalidTimeRange)) && db.sessions == old(db.sessions)) &&
      (i.Some? && SessionTimeCheck(old(db.sessions)[i.value], u).None? ==>
        var t := ApplySessionUpdate(old(db.sessions)[i.value], u);
        (t.None? ==> r == Err(Plain(Conflict)) && db.sessions == old(db.sessions)) &&
        (t.Some? ==> r == Ok(t.value) && db.sessions == old(db.sessions)[i.value := t.value]))
  {
    var guard := SessionGuard(db.memberships, clubId, meId);
    if guard.Err? {
      return Err(guard.error);
    }
    var i := SessionInPlanAndClub(db.sessions, db.plans, clubId, planId, sessionId);
    if i.None? {
      return Err(Domain(SessionNotFound));
    }
    var check := SessionTimeCheck(db.sessions[i.value], u);
    if check.Some? {
      return Err(check.value);
    }
    var t := ApplySessionUpdate(db.sessions[i.value], u);
    if t.None? {
      return Err(Plain(Conflict));
    }
    CheckedUpdateKeepsOrder(db.sessions[i.value], u);
    db.sessions := db.sessions[i.value := t.value];
    r := Ok(t.value);
  }

  /**
   * `delete_session_service` with the corrected guard: the guard, the lookup, then the
   * session goes and its attendance records with it.
   */
  method DeleteSessionService(db: Db, clubId: int, planId: int, sessionId: int, meId: int) returns (err: Option<Fault>)
    requires AttendancesValid(db.attendances)
    modifies db`sessions, db`attendances
    ensures AttendancesValid(db.attendances)
    ensures SessionGuard(db.memberships, clubId, meId).Err? ==>
      err == Some(SessionGuard(db.memberships, clubId, meId).error) && unchanged(db)
    ensures SessionGuard(db.memberships, clubId, meId).Ok? ==>
      var i := SessionInPlanAndClub(old(db.sessions), db.plans, clubId, planId, sessionId);
      (i.None? ==> err == Some(Domain(SessionNotFound)) && unchanged(db)) &&
      (i.Some? ==>
         err.None? && db.sessions == RemoveAt(old(db.sessions), i.value) &&
         (forall a :: a in db.attendances <==> a in old(db.attendances) && a.sessionId != sessionId))
  {
    var guard := SessionGuard(db.memberships, clubId, meId);
    if guard.Err? {
      return Some(guard.error);
    }
    var i := SessionInPlanAndClub(db.sessions, db.plans, clubId, planId, sessionId);
    if i.None? {
      return Some(Domain(SessionNotFound));
    }
    var keep := (a: Attendance) => a.sessionId != sessionId;
    AttendanceFilterKeepsValid(db.attendances, keep);
    db.attendances := Filter(db.attendances, keep);
    db.sessions := RemoveAt(db.sessions, i.value);
    err := None;
  }
}
