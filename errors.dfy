/**
 * The closed domain-error taxonomy of app/exceptions/base.py: each exception class with its
 * parent, its class-level `status_code` and `detail` attributes, and the instance that
 * `DomainError.__init__` builds from them. `Fault` is what an operation of the model raises.
 */
module Errors {
  import opened Wrappers

  /** One constructor per class declared in app/exceptions/base.py. */
  datatype ErrorKind =
    | DomainErrorBase
    | NotFound | PermissionDenied | Conflict
    | EmailExists | AuthError | IncorrectPassword
    | ClubNotFound | MembershipNotFound | DuplicateSlug
    | UserNotFound | MembershipExists | LastCoachViolation
    | CoachRequired | OwnerRequired | CoachOrOwnerRequired
    | NotCoachOfClub | PlanNotFound | PlanNameExists
    | NotClubMember | InvalidTimeRange | SessionNotFound
    | ExerciseNotFound | PositionConflict
    | PlanAssigneeNotFound | UserNotClubMember | PlanAssignmentExists
    | AttendanceNotFound | AttendanceExists
    | GroupNotFound | GroupNameExists | GroupMembershipNotFound | GroupMembershipExists

  /** The direct base class of each class (`DomainError` is its own root). */
  function Parent(k: ErrorKind): ErrorKind {
    match k
    case DomainErrorBase | NotFound | PermissionDenied | Conflict | AuthError => DomainErrorBase
    case IncorrectPassword => AuthError
    case EmailExists | DuplicateSlug | MembershipExists | LastCoachViolation | PlanNameExists
      | InvalidTimeRange | PositionConflict | PlanAssignmentExists | AttendanceExists
      | GroupNameExists | GroupMembershipExists => Conflict
    case ClubNotFound | MembershipNotFound | UserNotFound | PlanNotFound | SessionNotFound
      | ExerciseNotFound | PlanAssigneeNotFound | AttendanceNotFound | GroupNotFound
      | GroupMembershipNotFound => NotFound
    case CoachRequired | OwnerRequired | CoachOrOwnerRequired | NotCoachOfClub | NotClubMember
      | UserNotClubMember => PermissionDenied
  }

  /** How many inheritance steps separate a class from `DomainError`. */
  function Depth(k: ErrorKind): nat {
    if k == DomainErrorBase then 0
    else if Parent(k) == DomainErrorBase then 1
    else 2
  }

  lemma ParentIsShallower(k: ErrorKind)
    requires k != DomainErrorBase
    ensures Depth(Parent(k)) < Depth(k)
  {
  }

  /** `status_code` declared in the class body itself, if any. */
  function OwnStatus(k: ErrorKind): Option<int> {
    match k
    case DomainErrorBase => Some(500)
    case NotFound => Some(404)
    case PermissionDenied => Some(403)
    case Conflict => Some(409)
    case _ => None
  }

  /** `detail` declared in the class body itself, if any (`DomainError` declares only `default_detail`). */
  function OwnDetail(k: ErrorKind): Option<string> {
    match k
    case DomainErrorBase => None
    case NotFound => Some("Not found")
    case PermissionDenied => Some("Forbidden")
    case Conflict => Some("Conflict")
    case EmailExists => Some("Email already exists")
    case AuthError => Some("Authentication error")
    case IncorrectPassword => Some("Incorrect password")
    case ClubNotFound => Some("Club not found")
    case MembershipNotFound => Some("Membership not found")
    case DuplicateSlug => Some("Slug already exists")
    case UserNotFound => Some("User not found")
    case MembershipExists => Some("Membership already exists")
    case LastCoachViolation => Some("Last Coach Violation")
    case CoachRequired => Some("Coach role required")
    case OwnerRequired => Some("Owner role required")
    case CoachOrOwnerRequired => Some("Coach or Owner role required")
    case NotCoachOfClub => Some("Not Coach Club")
    case PlanNotFound => Some("Plan not found")
    case PlanNameExists => Some("Plan name already exists")
    case NotClubMember => Some("Not Club Member")
    case InvalidTimeRange => Some("Invalid time range")
    case SessionNotFound => Some("Session not found")
    case ExerciseNotFound => Some("Exercise not found.")
    case PositionConflict => Some("Position already taken.")
    case PlanAssigneeNotFound => Some("Plan assignee not found.")
    case UserNotClubMember => Some("User is not a member of this club.")
    case PlanAssignmentExists => Some("Plan assignment already exists.")
    case AttendanceNotFound => Some("Attendance record not found.")
    case AttendanceExists => Some("Attendance record already exists.")
    case GroupNotFound => Some("Group not found")
    case GroupNameExists => Some("Group name already exists in this club")
    case GroupMembershipNotFound => Some("Group membership not found")
    case GroupMembershipExists => Some("User is already in this group")
  }

  /** `DomainError.default_detail`, inherited unchanged by every class. */
  const DefaultDetail: string := "Internal error"

  /** The class attribute `status_code` as Python's attribute lookup finds it: own, else inherited. */
  function ClassStatus(k: ErrorKind): int
    decreases Depth(k)
  {
    if OwnStatus(k).Some? then OwnStatus(k).value
    else ParentIsShallower(k); ClassStatus(Parent(k))
  }

  /** The class attribute `detail` as attribute lookup finds it; `None` where `hasattr` is false. */
  function ClassDetail(k: ErrorKind): Option<string>
    decreases Depth(k)
  {
    if OwnDetail(k).Some? || k == DomainErrorBase then OwnDetail(k)
    else ParentIsShallower(k); ClassDetail(Parent(k))
  }

  /** The three families below `DomainError` and the root itself. */
  function Family(k: ErrorKind): ErrorKind
    decreases Depth(k)
  {
    if Parent(k) == DomainErrorBase then k
    else ParentIsShallower(k); Family(Parent(k))
  }

  /** An exception instance: its class and the two attributes read by callers. */
  datatype DomainError = DomainError(kind: ErrorKind, statusCode: int, detail: string)

  /**
   * `DomainError.__init__(detail, status_code)`: an explicit argument overrides the class
   * attribute; without one the class `detail` stays, and only a class lacking `detail`
   * falls back to `default_detail`.
   */
  function Raise(k: ErrorKind, detail: Option<string>, statusCode: Option<int>): (e: DomainError)
    ensures e.kind == k
    ensures statusCode.Some? ==> e.statusCode == statusCode.value
    ensures statusCode.None? ==> e.statusCode == ClassStatus(k)
    ensures detail.Some? ==> e.detail == detail.value
    ensures detail.None? && ClassDetail(k).Some? ==> e.detail == ClassDetail(k).value
    ensures detail.None? && ClassDetail(k).None? ==> e.detail == DefaultDetail
  {
    var status := if statusCode.Some? then statusCode.value else ClassStatus(k);
    var text :=
      if detail.Some? then detail.value
      else if ClassDetail(k).Some? then ClassDetail(k).value
      else DefaultDetail;
    DomainError(k, status, text)
  }

  /** `DomainError.__str__`. */
  function Str(e: DomainError): (s: string)
    ensures s == e.detail
  {
    e.detail
  }

  /** A bare `DomainError()` is a 500 with detail "Internal error". */
  lemma BareDomainError()
    ensures Raise(DomainErrorBase, None, None) == DomainError(DomainErrorBase, 500, "Internal error")
    ensures Str(Raise(DomainErrorBase, None, None)) == "Internal error"
  {
  }

  /**
   * Every subclass declares its own `detail`, so none is inherited, and raising a subclass
   * without arguments gives exactly that detail.
   */
  lemma EverySubclassHasDetail(k: ErrorKind)
    requires k != DomainErrorBase
    ensures ClassDetail(k).Some? && ClassDetail(k) == OwnDetail(k)
    ensures Str(Raise(k, None, None)) == ClassDetail(k).value
  {
    DeclaresDetail(k);
  }

  lemma DeclaresDetail(k: ErrorKind)
    requires k != DomainErrorBase
    ensures OwnDetail(k).Some?
  {
  }

  /** Every class inherits its family's status code: 404, 403, 409, or 500 outside the three families. */
  lemma {:induction false} StatusIsFamilyStatus(k: ErrorKind)
    ensures ClassStatus(k) == ClassStatus(Family(k))
    ensures Family(k) in {DomainErrorBase, NotFound, PermissionDenied, Conflict, AuthError}
    decreases Depth(k)
  {
    if Parent(k) != DomainErrorBase {
      ParentIsShallower(k);
      StatusIsFamilyStatus(Parent(k));
    }
  }

  /** The family codes of app/exceptions/base.py:17-27. */
  lemma FamilyCodes(k: ErrorKind)
    ensures Family(k) == NotFound ==> ClassStatus(k) == 404
    ensures Family(k) == PermissionDenied ==> ClassStatus(k) == 403
    ensures Family(k) == Conflict ==> ClassStatus(k) == 409
    ensures Family(k) in {DomainErrorBase, AuthError} ==> ClassStatus(k) == 500
  {
    StatusIsFamilyStatus(k);
  }

  /** The governance errors: conflicts are 409, permission errors 403, each with its own detail. */
  lemma GovernanceErrorCodes()
    ensures ClassStatus(MembershipExists) == 409 && ClassStatus(LastCoachViolation) == 409
    ensures ClassStatus(InvalidTimeRange) == 409 && ClassStatus(PositionConflict) == 409
    ensures ClassStatus(CoachRequired) == 403 && ClassStatus(OwnerRequired) == 403
    ensures ClassStatus(CoachOrOwnerRequired) == 403 && ClassStatus(NotClubMember) == 403
    ensures ClassStatus(UserNotClubMember) == 403
  {
    ConflictCodes();
    PermissionCodes();
  }

  lemma ConflictCodes()
    ensures ClassStatus(MembershipExists) == 409 && ClassStatus(LastCoachViolation) == 409
    ensures ClassStatus(InvalidTimeRange) == 409 && ClassStatus(PositionConflict) == 409
  {
  }

  lemma PermissionCodes()
    ensures ClassStatus(CoachRequired) == 403 && ClassStatus(OwnerRequired) == 403
    ensures ClassStatus(CoachOrOwnerRequired) == 403 && ClassStatus(NotClubMember) == 403
    ensures ClassStatus(UserNotClubMember) == 403
  {
  }

  /** The named database constraints (and foreign keys) whose violation surfaces as an IntegrityError. */
  datatype Constraint =
    | UqMembershipClubUser | UqExercisesPlanPosition | UqPlanAssigneesPlanUser | UqPlanAssigneesPlanGroup
    | CkPlanAssignmentOneTarget | UqAttendanceSessionUser | UqGroupNamePerClub | PkGroupMembership
    | ForeignKey | NotNull

  /** Whether an integrity error is a unique violation (Postgres code 23505). */
  predicate IsUniqueViolation(c: Constraint) {
    c != CkPlanAssignmentOneTarget && c != ForeignKey && c != NotNull
  }

  /**
   * What an operation raises. `Domain` is a class of app/exceptions/base.py; `Plain` is the
   * same-named bare `Exception` subclass that the crud modules and app/exceptions/membership.py
   * declare locally (no status code); `Http` is FastAPI's HTTPException; `Value` is a
   * ValueError; `Integrity` is a database IntegrityError re-raised without mapping.
   */
  datatype Fault =
    | Domain(kind: ErrorKind)
    | Plain(kind: ErrorKind)
    | Http(status: int, detail: string)
    | Value(message: string)
    | Integrity(constraint: Constraint)
}
