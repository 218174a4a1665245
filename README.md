# ClubConnect governance core, in Dafny

ClubConnect is a club-management back end: users belong to clubs with a role (`member`,
`coach`, `owner`), and clubs hold training plans with exercises, sessions with attendance
records, plan assignments to users or groups, and groups with their own members. Under the
HTTP and database plumbing sits a layer of governance and validation rules. This project
restates that layer over in-memory tables and proves what it promises.

- **Tables.** `Database.Db` is a class that holds every table as a sequence of records: clubs,
  users, memberships, plans, exercises, sessions, attendances, plan assignees, groups and
  group memberships. Each repository is a class over one `Db`, and each crud or service
  function is a method on it. Its `modifies` clause names the tables it may change, and its
  `ensures` states the whole new state.
- **Constraints.** The database constraints of the ORM models are "violation" functions: a
  unique pair, a foreign key pointing nowhere, the one-of-user-or-group rule of an
  assignment, a NOT NULL column. A commit succeeds exactly when the new state has no
  violation. Each module proves that a successful commit keeps its table valid.
- **Errors.** The domain errors form a closed hierarchy with HTTP status codes and details
  (`Errors`). Every operation returns a `Result`, and every refusal names its error.
- **Membership governance.** Guards decide pass or fail from a club, a user and a role. The
  leader count takes the set of leader roles as a parameter, because the files disagree on it:
  some count `coach` only, others `coach` and `owner`. The central property is that a club
  with a leader keeps one through every demotion or removal the checks allow.
- **Exercises.** The next position is one more than the plan's highest, or 0 for an empty
  plan. Auto-append retries up to three times. Losing a race to a concurrent writer is an
  oracle argument (`Race`): the retry loop and its exhaustion error are reachable, and every
  created exercise holds a position free in its plan.
- **Plan assignments, attendance, sessions, groups.** Each check chain runs in the source's
  order, and each method shows that a failed check changes nothing. Attendance and session
  updates keep the stored times ordered, the `setattr` loop never changes the popped columns,
  and the commit stamps `updated_at` with the clock exactly when a column changed. Group-membership
  upserts are idempotent, and removing a pair undoes adding it.
- **Validation and normalisation.** Slugs are well formed and idempotent. The schema
  validators strip, bound and idempotently re-validate their fields. The club listing clamps
  its paging.

Times are integers (instants). `None` is `Option.None`. Text is a sequence of characters, and
`strip`, `lower` and `\s` act on ASCII.

## Model

| member | source | states |
|---|---|---|
| Errors.ParentIsShallower | app/exceptions/base.py:17-137 | every class sits one inheritance step deeper than its base, so the hierarchy is a tree rooted at `DomainError` |
| Errors.Raise | app/exceptions/base.py:5-11 | an explicit `status_code` or `detail` argument overrides the class attribute; without a `detail` the class's own or inherited `detail` stays, and only a class without one falls back to `default_detail` |
| Errors.BareDomainError | app/exceptions/base.py:1-14 | `DomainError()` has status 500 and detail "Internal error" |
| Errors.EverySubclassHasDetail | app/exceptions/base.py:17-137 | every subclass declares its own `detail`, so none is inherited, and raising it without arguments gives exactly that detail |
| Errors.StatusIsFamilyStatus | app/exceptions/base.py:17-137 | every class inherits the status code of its family root, and every class belongs to one of the families |
| Errors.FamilyCodes | app/exceptions/base.py:17-27 | the not-found family answers 404, the permission family 403, the conflict family 409, everything else 500 |
| Errors.GovernanceErrorCodes | app/exceptions/base.py:59-93 | the governance conflicts (membership exists, last coach, invalid time range, position taken) are 409 and the role errors 403 |
| Models.ParseMembershipRole | app/db/models.py:28-31 | a parsed role's stored value is the parsed string |
| Models.MembershipRoleIsClosed | app/db/models.py:28-31 | exactly "member", "coach" and "owner" parse, and parsing inverts the stored value of every role |
| Models.ParsePlanAssigneeRole | app/db/models.py:49-51 | a parsed assignee role's stored value is the parsed string |
| Models.PlanAssigneeRoleIsClosed | app/db/models.py:49-51 | exactly "coach" and "athlete" parse, and parsing inverts every stored value |
| MembershipQueries.IndexById | app/repositories/membership.py:25-27 | the index found holds the row with that primary key, and no index is found exactly when no row has it |
| MembershipQueries.FindById | app/repositories/membership.py:25-27 | `get` returns a row with that id, and `None` exactly when no row has it |
| MembershipQueries.FindByClubAndUser | app/repositories/membership.py:29-35 | `get_by_club_and_user` returns a row of that club and user, and `None` exactly when there is none |
| MembershipQueries.FindByClubAndUserUnique | app/db/models.py:180-182 | under the unique `(club_id, user_id)` constraint the lookup by a row's club and user returns that very row |
| MembershipQueries.ListForUser | app/repositories/membership.py:37-40 | exactly the memberships of that user |
| MembershipQueries.ListForClub | app/repositories/membership.py:42-45 | exactly the memberships of that club |
| MembershipQueries.CountLeaders | app/repositories/membership.py:85-111 | the count of rows of the club whose role is in the leader set, minus the excluded user's rows, is a natural number no larger than the table |
| MembershipQueries.CountPositiveIff | app/repositories/membership.py:85-111 | the count is positive exactly when some row is a counted leader row |
| MembershipQueries.CountAppend | app/repositories/membership.py:98-111 | counting over two tables put together adds their counts |
| MembershipQueries.ExcludingNeverRaises | app/repositories/membership.py:107-108 | excluding a user never raises the count |
| MembershipQueries.ExcludingAbsentUser | app/repositories/membership.py:107-108 | excluding a user without a row in the club leaves the count unchanged |
| MembershipQueries.ExcludingRemovesAtMostOne | app/repositories/membership.py:107-108 | with one row per (club, user), excluding a user lowers the count by at most one |
| MembershipQueries.LargerLeaderSetCountsMore | app/repositories/membership.py:96 | counting `{coach}` never exceeds counting `{coach, owner}` |
| MembershipQueries.CountRemoveAt | app/repositories/membership.py:78-81 | deleting a row lowers the count by one exactly when that row was counted |
| MembershipQueries.CountUpdateAt | app/repositories/membership.py:67-76 | replacing a row swaps its contribution to the count for the new row's |
| MembershipQueries.LeadersAfterRemoval | app/repositories/membership.py:85-111 | the leaders left after deleting a row are at least the leaders counted with that row's user excluded |
| MembershipQueries.LeadersAfterRoleChange | app/repositories/membership.py:85-111 | the same for a role change of a row |
| MembershipQueries.OtherClubUntouched | app/repositories/membership.py:85-111 | a change to a row of another club leaves this club's count as it was |
| RoleGuards.RequireMemberOfClub | tests/unit/services/test_memberships_services.py:338-380 | passes with the caller's membership exactly when a row for (user, club) exists, whatever its role; otherwise `NotClubMember` |
| RoleGuards.RequireCoachOfClub | tests/unit/services/test_memberships_services.py:295-335 | passes only with a coach row; fails with `NotClubMember` exactly when there is no row, otherwise with `CoachRequiredError` |
| RoleGuards.RequireCoachOrOwnerOfClub | tests/unit/services/test_memberships_services.py:384-448 | passes only with a coach or owner row; fails with `NotClubMember` exactly when there is no row, otherwise with `CoachOrOwnerRequiredError` |
| RoleGuards.GuardsByRole | tests/unit/services/test_memberships_services.py:295-448 | with one row per (club, user) each guard's verdict is decided by that row's role alone |
| RoleGuards.GuardsAreNested | tests/unit/services/test_memberships_services.py:295-448 | passing the coach guard implies passing the coach-or-owner guard, which implies passing the member guard |
| MembershipDeps.AssertCanManageClub | app/auth/membership_deps.py:7-14 | passes exactly for an owner; member and coach get 403 "Not allowed to manage this club" |
| MembershipDeps.AssertIsMemberOfClub | app/auth/membership_deps.py:17-34 | returns a membership of that user and club exactly when one exists, whatever its role; otherwise 403 |
| MembershipDeps.AssertIsCoachOfClub | app/auth/membership_deps.py:37-56 | a returned membership has role coach; a missing row is refused with 403 |
| MembershipDeps.CoachCheckIsRoleCheck | app/auth/membership_deps.py:51-56 | with one row per (club, user) the coach check passes exactly when the row's role is coach, so member and owner are refused |
| MembershipDeps.AssertNotLastCoach | app/auth/membership_deps.py:59-77 | passes exactly when the club has two distinct coach rows; a club with one or no coach gets 400 |
| MembershipDeps.TwoLeadersIff | app/auth/membership_deps.py:67-74 | a count above one means two distinct counted rows, and two such rows give a count above one |
| MembershipDeps.AssertNotLastCoachExcluding | app/auth/membership_deps.py:80-104 | fails with 400 exactly when no coach row of the club belongs to a user other than the excluded one |
| MembershipDeps.ExcludingCheckKeepsACoach | app/auth/membership_deps.py:91-104 | when the check passes for a row's user, deleting that row leaves the club at least one coach |
| MembershipAsserts.AssertIsMemberOfClub | app/auth/membership_asserts.py:7-15 | returns exactly when the user has a row in the club; otherwise 403 "Not a member of this club" |
| MembershipAsserts.AssertIsCoachOfClub | app/auth/membership_asserts.py:17-25 | returns only when the user has a coach row in the club; without one, 403 "Coach role required for this club" |
| MembershipAsserts.CoachPassesMemberCheck | app/auth/membership_asserts.py:7-25 | whoever passes the coach check passes the member check |
| MembershipAsserts.CoachPasses | app/auth/membership_asserts.py:17-25 | with the (club, user) pair unique, a user whose row in the club has role coach passes the coach check |
| MembershipAsserts.OwnerIsNotCoach | app/auth/membership_asserts.py:17-25 | an owner passes the member check and fails the coach check |
| MembershipRepository.InsertViolation | app/db/models.py:164-182 | a new row violates `uq_membership_club_user` exactly when its (club, user) pair is already taken; otherwise it can only fail on a dangling club or user |
| MembershipRepository.InsertKeepsValid | app/db/models.py:180-182 | a row the database accepts keeps ids distinct and (club, user) pairs unique |
| MembershipRepository.CommitGuard | app/repositories/membership.py:115-133 | the unique-pair violation becomes `MembershipExistsError` and nothing else does; every other integrity error is re-raised as is |
| MembershipRepository.MembershipRepository.Get | app/repositories/membership.py:25-27 | returns a row with that id, or none exactly when no row has it |
| MembershipRepository.MembershipRepository.GetByClubAndUser | app/repositories/membership.py:29-35 | returns the row for the pair, or none exactly when there is none |
| MembershipRepository.MembershipRepository.ListForUser | app/repositories/membership.py:37-40 | exactly the user's rows |
| MembershipRepository.MembershipRepository.ListForClub | app/repositories/membership.py:42-45 | exactly the club's rows |
| MembershipRepository.MembershipRepository.Create | app/repositories/membership.py:49-65 | succeeds exactly when the insert violates nothing, then appends the new row with the next id; a duplicate pair gives `MembershipExistsError`, a dangling key the integrity error, and a failure leaves the table as it was; validity is kept |
| MembershipRepository.MembershipRepository.UpdateRole | app/repositories/membership.py:67-76 | only the role of that row changes; validity is kept |
| MembershipRepository.MembershipRepository.Delete | app/repositories/membership.py:78-81 | exactly that row leaves the table; validity is kept |
| MembershipRepository.MembershipRepository.CountCoachOwner | app/repositories/membership.py:85-111 | the number of the club's coach and owner rows, less the excluded user's; positive exactly when one such row exists |
| MembershipRepository.RoleChangeKeepsValid | app/repositories/membership.py:67-76 | a role change keeps ids distinct and pairs unique |
| MembershipRepository.RemoveKeepsValid | app/repositories/membership.py:78-81 | a delete keeps ids distinct and pairs unique |
| MembershipSchema.NormalizeEmail | app/schemas/membership.py:18-21 | the normalised address has no surrounding white space and no capitals, and is no longer than the input |
| MembershipSchema.NormalizeEmailIdempotent | app/schemas/membership.py:18-21 | normalising twice is normalising once |
| MembershipSchema.ValidateMembershipCreate | app/schemas/membership.py:14-21 | accepted exactly when the role is one of `member`, `coach`, `owner`; the accepted email is the normalised one and the role is the one given |
| MembershipSchema.ValidateMembershipUpdate | app/schemas/membership.py:24-25 | accepted exactly for the three role names, keeping the role given |
| MembershipCrud.UserByEmail | app/crud/user.py:7-11 | the user whose stored address equals the normalised one, or none exactly when there is no such user |
| MembershipCrud.ClubById | app/crud/club.py:16-19 | the club with that id, or none exactly when there is none |
| MembershipCrud.DeleteDecision | app/crud/membership.py:67-83 | `MembershipNotFoundError` exactly when the id is unknown or belongs to another club; `LastCoachViolationError` exactly when the row is a coach and no other user of the club is a coach; otherwise the row to delete |
| MembershipCrud.DeleteKeepsACoach | app/crud/membership.py:67-86 | any club that has a coach still has one after any delete the function allows |
| MembershipCrud.UpdateRoleDecision | app/crud/membership.py:88-105 | not-found exactly as for delete; `LastCoachViolationError` exactly when a coach is demoted and no other user of the club is a coach; setting the current role always succeeds |
| MembershipCrud.UpdateRoleKeepsACoach | app/crud/membership.py:88-114 | any club that has a coach still has one after any role change the function allows |
| MembershipCrud.CreateMembership | app/crud/membership.py:30-44 | an unknown email gives `UserNotFoundError`; it succeeds exactly when the user is found and the insert breaks no constraint (in particular when the club exists and the pair is new), appending the row for the found user with the next id; a duplicate pair gives `MembershipExistsError` and the table is as it was |
| MembershipCrud.GetMembershipsClub | app/crud/membership.py:60-65 | `ClubNotFoundError` exactly when the club is unknown; otherwise exactly the club's rows |
| MembershipCrud.DeleteMembership | app/crud/membership.py:67-86 | fails exactly when the decision does, with its error and the table unchanged; otherwise exactly the decided row is removed |
| MembershipCrud.UpdateMembershipRole | app/crud/membership.py:88-114 | fails exactly when the decision does, table unchanged; otherwise only the decided row's role becomes the new role, and setting the current role writes nothing |
| MembershipService.DeleteDecisionAsWritten | app/services/membership.py:72-80 | as written: not-found exactly when the id is unknown, in any club; the leader count is taken in the request's club |
| MembershipService.DeleteAsWrittenKeepsRequestClubLeader | app/services/membership.py:72-83 | even as written, the club named in the request keeps a coach or owner |
| MembershipService.DeleteAsWrittenRemovesOtherClubsLastLeader | app/services/membership.py:72-83 | as written, the only coach of another club can be deleted through a request naming a club that has an owner |
| MembershipService.DeleteDecision | app/services/membership.py:72-83 | corrected: not-found when the row is not in the request's club; `LastCoachViolationError` exactly when a coach or owner would leave the club with no other coach or owner; a plain member may always go |
| MembershipService.DeleteKeepsEveryClubsLeader | app/services/membership.py:72-83 | every club that has a coach or owner keeps one through any delete the corrected checks allow |
| MembershipService.DeleteMembershipService | app/services/membership.py:72-83 | fails exactly when the corrected decision does, table unchanged; otherwise exactly one row is removed |
| MembershipService.RoleCheckAsWritten | app/services/membership.py:60-67 | as written: not-found exactly for an unknown id; an owner's demotion is never checked |
| MembershipService.UpdateDecisionAsWritten | app/services/membership.py:60-69 | as written: whatever it allows, `update_membership_role` allows too |
| MembershipService.OwnerDemotionAsWrittenLeavesNoLeader | app/services/membership.py:60-69 | as written, a club's only owner with no coach can be demoted to member, leaving no coach or owner |
| MembershipService.RoleCheck | app/services/membership.py:60-67 | corrected: `LastCoachViolationError` exactly when a coach or owner leaves the leader roles and no other coach or owner of the club remains |
| MembershipService.UpdateDecision | app/services/membership.py:60-69 | corrected: the check's error when it fails; otherwise the crud update's decision |
| MembershipService.UpdateKeepsEveryClubsLeader | app/services/membership.py:60-69 | every club that has a coach or owner keeps one through any role change the corrected service allows |
| MembershipService.UpdateMembershipRoleService | app/services/membership.py:60-69 | fails exactly when the corrected decision does, table unchanged; otherwise only the decided row's role changes |
| MembershipService.CreateMembershipService | app/services/membership.py:16-31 | an unknown email gives `UserNotFoundError`, an existing pair `MembershipExistsError` with the table unchanged; it succeeds exactly when the user is found and the insert breaks no constraint (in particular when the club exists and the pair is new), appending the row for the found user with the next id |
| ExercisePositions.MaxPosition | app/repositories/exercise.py:55-60 | `max(position)` over the plan's rows: none exactly when the plan has no positioned row, otherwise a taken position no smaller than any other |
| ExercisePositions.NextPosition | app/repositories/exercise.py:55-60 | above every position of the plan, hence free; 0 for a plan without positions, otherwise exactly one past the largest |
| ExercisePositions.Rivalled | app/repositories/exercise.py:111-125 | a concurrent insert only adds: one rival row at the contested position exactly when the race is lost and that position was free |
| ExercisePositions.CommitViolation | app/db/models.py:226-233 | a commit fails on the foreign key exactly in the foreign-key race, and on `uq_exercises_plan_position` exactly when the row's position is already taken in its plan |
| ExercisePositions.AppendFreeKeepsValid | app/db/models.py:233 | a row with a fresh id at a free or NULL position keeps (plan, position) unique |
| ExercisePositions.RivalledKeepsValid | app/db/models.py:233 | the rival's committed row keeps (plan, position) unique |
| ExercisePositions.AppendStep | app/repositories/exercise.py:111-126 | one auto-append attempt commits at the next position of the table it started from: without interference it succeeds, a lost race is always a unique violation, the other failure never is |
| ExercisePositions.AppendStepKeepsValid | app/repositories/exercise.py:111-119 | an attempt keeps the table valid, and a successful one lands on a position free in that table |
| ExercisePositions.LeadingRivals | app/repositories/exercise.py:111-125 | the run of lost races an auto-append starts with, capped at the number of attempts |
| ExercisePositions.LeadingRivalsIsRun | app/repositories/exercise.py:111-125 | any run of exactly `n` lost races followed by a race not lost, or `n` reaching the cap, is that count |
| ExercisePositions.AttemptCreates | app/repositories/exercise.py:115-119 | an attempt that meets no race ends the create with its row, above every position the plan had at the start |
| ExercisePositions.AttemptFails | app/repositories/exercise.py:120-126 | an attempt that meets a non-unique error ends the create with the conflict error and adds no row |
| ExercisePositions.AttemptLost | app/repositories/exercise.py:120-125 | a lost race leaves only the rival's row and the loop goes on |
| ExercisePositions.AttemptsExhausted | app/repositories/exercise.py:128-129 | losing every attempt raises the exhaustion error and adds no row of its own |
| ExercisePositions.PlaceAt | app/repositories/exercise.py:131-143 | an explicit position gets one attempt: it creates the row at that position exactly when there is no race and the position is free; otherwise the taken-position or other error, and no row of its own |
| ExercisePositions.PlaceAtKeepsValid | app/db/models.py:233 | an explicit-position create keeps (plan, position) unique |
| ExerciseQueries.ExerciseIndex | app/repositories/exercise.py:38-53 | the index of the exercise with that id in that plan, whose plan belongs to the club; none exactly when no row qualifies |
| ExerciseQueries.ExerciseInPlan | app/repositories/exercise.py:38-53 | the exercise itself; none exactly when the plan is not in the club or has no such exercise |
| ExerciseQueries.RowsOfPlan | app/repositories/exercise.py:68-72 | exactly the plan's rows, each as often as in the table |
| ExerciseQueries.ListInPlan | app/repositories/exercise.py:64-73 | a permutation of the plan's rows, sorted by position, then id, NULL positions last |
| ExerciseQueries.ListByPosition | app/crud/exercise.py:85-91 | a permutation of the plan's rows, sorted by position only |
| ExerciseQueries.ListedPositionsAscend | app/repositories/exercise.py:71 | in the listing a positioned row never follows an unpositioned one, and positions ascend |
| ExerciseUpdates.ApplyField | app/repositories/exercise.py:157-158 | `setattr` of one field: that column takes the value, every other column, the id and the plan stay |
| ExerciseUpdates.ApplyAll | app/repositories/exercise.py:157-158 | the whole `setattr` loop keeps the id and the plan |
| ExerciseUpdates.ApplyAllLastWins | app/repositories/exercise.py:157-158 | each set key ends with the last value the body gives it |
| ExerciseUpdates.ApplyAllKeepsUnset | app/repositories/exercise.py:157-158 | every key the body does not set keeps its column |
| ExerciseUpdates.NoPositionFieldKeepsPosition | app/repositories/exercise.py:157-158 | a body without a position field leaves the position as it was |
| ExerciseUpdates.UpdateViolation | app/db/models.py:233 | an updated row violates only `uq_exercises_plan_position`, and exactly when another row of its plan holds its new position |
| ExerciseUpdates.UpdateKeepsValid | app/db/models.py:233 | an update the commit accepts keeps the table valid |
| ExerciseUpdates.NoPositionNoViolation | app/repositories/exercise.py:164-168 | an update that sets no position never collides |
| ExerciseUpdates.RepositoryUpdateFault | app/repositories/exercise.py:164-168 | `PositionConflictError` exactly for a unique violation when the body sets the position; `ConflictError` otherwise |
| ExerciseUpdates.DropNullPosition | app/services/exercise.py:54-56 | a position supplied as NULL is removed and every other field is kept |
| ExerciseUpdates.DroppedPositionHasValue | app/services/exercise.py:54-56 | after the filter, a position field always carries a value |
| ExerciseUpdates.NullPositionKeepsStored | app/crud/exercise.py:100-106 | a body whose position is NULL leaves the stored position untouched |
| ExerciseUpdates.RemoveKeepsValid | app/repositories/exercise.py:170-177 | a delete keeps the exercises table valid |
| ExerciseRepository.ExerciseRepository.GetPlanInClub | app/repositories/exercise.py:28-36 | the plan exactly when a plan with that id is in the club; otherwise `PlanNotFoundError` |
| ExerciseRepository.ExerciseRepository.GetInPlan | app/repositories/exercise.py:75-80 | the exercise exactly when the join finds it; otherwise `ExerciseNotFoundError` |
| ExerciseRepository.ExerciseRepository.ListInPlan | app/repositories/exercise.py:64-73 | `PlanNotFoundError` exactly for a plan outside the club; otherwise the ordered listing |
| ExerciseRepository.ExerciseRepository.CreateInPlan | app/repositories/exercise.py:82-143 | a plan outside the club is `PlanNotFoundError` before any insert; an explicit position is one attempt; auto-append retries lost races up to `_retries` times, then `PositionConflictError`, and a non-unique failure is `ConflictError` at once; a created row sits above every earlier position; the table stays valid |
| ExerciseRepository.ExerciseRepository.AppendInPlan | app/repositories/exercise.py:109-129 | the retry loop alone: the same outcome for auto-append, by a loop invariant over the lost races |
| ExerciseRepository.ExerciseRepository.UpdateInPlan | app/repositories/exercise.py:145-168 | a miss is `ExerciseNotFoundError`; otherwise the fields are applied and the row replaced, or a failed commit leaves the table as it was with the mapped error |
| ExerciseRepository.ExerciseRepository.DeleteInPlan | app/repositories/exercise.py:170-180 | a miss is `ExerciseNotFoundError`; otherwise exactly that row leaves the table |
| ExerciseCrud.GetPlanInClubOrRaise | app/crud/exercise.py:18-23 | the plan exactly when it is in the club; otherwise the module's `PlanNotFoundError` |
| ExerciseCrud.GetExercise | app/crud/exercise.py:25-41 | the exercise when the join finds it; a miss is reported as `PlanNotFoundError`, not as a missing exercise |
| ExerciseCrud.ListExercises | app/crud/exercise.py:85-91 | `PlanNotFoundError` exactly for a plan outside the club; otherwise the plan's rows ordered by position |
| ExerciseCrud.CreateExercise | app/crud/exercise.py:48-82 | at most three attempts; only an auto-append that meets a unique violation retries; an explicit position collision, any other failure and exhaustion are all `ConflictError`; the table stays valid |
| ExerciseCrud.UpdateExercise | app/crud/exercise.py:97-118 | a miss is `PlanNotFoundError`; a NULL position is dropped, the other fields applied; any failed commit is `ConflictError` with the table unchanged |
| ExerciseCrud.DeleteExercise | app/crud/exercise.py:121-129 | a miss is `PlanNotFoundError`; otherwise exactly that row is removed and nothing is raised |
| ExerciseService.CreateData | app/services/exercise.py:30-39 | the columns forwarded to the repository are the body's own |
| ExerciseService.ExerciseService.ListExercises | app/services/exercise.py:17-19 | a non-member gets `NotClubMember`; a member gets the repository's listing |
| ExerciseService.ExerciseService.GetExercise | app/services/exercise.py:21-25 | a non-member gets `NotClubMember`; a member gets the repository's lookup |
| ExerciseService.ExerciseService.CreateExercise | app/services/exercise.py:27-39 | a failed coach-or-owner guard returns its error with the table unchanged; otherwise the repository's create with the body's position and three attempts |
| ExerciseService.ExerciseService.UpdateExercise | app/services/exercise.py:41-63 | a failed guard changes nothing; otherwise the repository's update with a NULL position dropped |
| ExerciseService.ExerciseService.DeleteExercise | app/services/exercise.py:65-69 | a failed guard changes nothing; otherwise the repository's delete |
| ExerciseSchema.ValidateName | app/schemas/exercise.py:38-46 | accepted exactly when the stripped name has 1 to 100 characters; the result is the stripped name |
| ExerciseSchema.ValidateNameIdempotent | app/schemas/exercise.py:38-46 | a validated name validates again to itself |
| ExerciseSchema.ValidateDescription | app/schemas/exercise.py:48-57 | `None` or at most 1000 characters, returned unstripped |
| ExerciseSchema.ValidateNotNegative | app/schemas/exercise.py:59-66 | `None` and every non-negative value pass unchanged; negatives are rejected |
| ExerciseSchema.ValidateExerciseCreate | app/schemas/exercise.py:29-66 | accepted exactly when every validator passes and no key lies outside the schema; the name is stripped, the rest kept, a NULL position asking for auto-append |
| ExerciseSchema.ValidateField | app/schemas/exercise.py:69-70 | one set field of an update passes its inherited validator; a name is stripped, other values kept |
| ExerciseSchema.ValidateExerciseUpdate | app/schemas/exercise.py:69-70 | accepted exactly when the keys are in the schema and every set field validates; the fields keep their order |
| ExerciseSchema.ValidateFields | app/schemas/exercise.py:69-70 | the field validators over a body, failing exactly when one field fails |
| PlanQueries.PlanInClub | app/crud/plan.py:25-28 | the plan with that id when it belongs to the club, and `None` exactly when there is no such plan (returned, not raised) |
| PlanCrud.ResolveRole | app/crud/plan.py:45-53 | a falsy role applies no filter; an enum role is used as it is; the strings "member" and "athlete" mean athlete, "coach" means coach, and every other non-empty string is unrecognised |
| PlanCrud.ListAssignedPlans | app/crud/plan.py:38-56 | an unrecognised role string gives `[]`; otherwise exactly the plans of the club with an assignment of the caller under the role filter, ordered by name |
| PlanCrud.RoleFilterNarrows | app/crud/plan.py:45-54 | every plan listed under a role is listed without one |
| PlanCrud.MemberAliasIsAthlete | app/crud/plan.py:48-50 | the string "member" lists the same plans as the enum member `athlete` |
| PlanSchema.ValidatePlanName | app/schemas/plan.py:25-31 | accepted exactly when the stripped name has 1 to 100 characters; the result is the stripped name |
| PlanSchema.ValidatePlanNameIdempotent | app/schemas/plan.py:25-31 | a validated name validates again to itself |
| PlanSchema.ValidatePlanDescription | app/schemas/plan.py:33-38 | `None`, empty or at most 2000 characters pass, returned unstripped; longer ones are rejected |
| PlanAssignmentRepository.AssigneeInsertViolation | app/db/models.py:290-298 | the row violates `ck_plan_assignment_one_target` exactly when it has not exactly one target, `uq_plan_assignees_plan_user` exactly when (with one target) the user is already assigned to the plan; no violation exactly when all constraints and foreign keys hold |
| PlanAssignmentRepository.AssigneeInsertKeepsValid | app/db/models.py:290-298 | a row the database accepts, under a fresh id, keeps one target per row and both uniqueness rules |
| PlanAssignmentRepository.NewUserAssignee | app/repositories/plan_assignment.py:36-42 | the new row targets the user with `group_id` NULL, so it has exactly one target, and carries the plan, role, assigner and creation time |
| PlanAssignmentRepository.UserAssigneeViolation | app/repositories/plan_assignment.py:36-48 | a new user assignee can only fail on the (plan, user) uniqueness or a foreign key, and fails on the uniqueness exactly when the user is already assigned to the plan |
| PlanAssignmentRepository.AssigneesOfPlan | app/repositories/plan_assignment.py:20-26 | every row of the plan exactly once, ordered by creation time, then id |
| PlanAssignmentRepository.ListedByCreation | app/repositories/plan_assignment.py:24 | creation times never decrease along the listing, and equal times come in id order |
| PlanAssignmentRepository.AssigneeIndex | app/repositories/plan_assignment.py:52-53 | the index of the row with that primary key, or none exactly when no row has it |
| PlanAssignmentRepository.AssigneeIndexUnique | app/repositories/plan_assignment.py:52-53 | with distinct ids the lookup finds the only row with that id |
| PlanAssignmentRepository.AssigneeRemoveKeepsValid | app/repositories/plan_assignment.py:55-57 | a delete keeps the table valid |
| PlanAssignmentRepository.PlanAssignmentRepository.GetPlanInClub | app/repositories/plan_assignment.py:13-18 | the plan exactly when it is in the club; otherwise `PlanNotFoundError` |
| PlanAssignmentRepository.PlanAssignmentRepository.ListForPlan | app/repositories/plan_assignment.py:20-26 | exactly the plan's rows, in the listing order |
| PlanAssignmentRepository.PlanAssignmentRepository.CreateUserAssignee | app/repositories/plan_assignment.py:28-50 | the new user assignee is appended when the commit accepts it; any integrity error gives `PlanAssignmentExistsError` with the table unchanged; validity is kept |
| PlanAssignmentRepository.PlanAssignmentRepository.Get | app/repositories/plan_assignment.py:52-53 | the row with that id, or none exactly when there is none |
| PlanAssignmentRepository.PlanAssignmentRepository.Delete | app/repositories/plan_assignment.py:55-57 | exactly the given row leaves the table, as a multiset difference; validity is kept |
| PlanAssignmentService.AddAssigneeChecks | app/services/plan_assignment.py:18-26 | all checks pass exactly when the actor is coach or owner, the plan is in the club and the target has a row in the club; a missing target membership is reported as `UserNotClubMember` exactly when the earlier checks pass |
| PlanAssignmentService.AddAssigneeChecksInOrder | app/services/plan_assignment.py:19-20 | a failing actor check decides the error whatever the plan and target; a missing plan decides it whatever the target |
| PlanAssignmentService.AssigneeInPlan | app/services/plan_assignment.py:39-41 | the index of the assignee found by id when it belongs to the plan |
| PlanAssignmentService.AssigneeInPlanMisses | app/services/plan_assignment.py:39-41 | with distinct ids, the lookup misses exactly when no row of the plan has that id |
| PlanAssignmentService.PlanAssignmentService.ListAssignees | app/services/plan_assignment.py:13-16 | a non-member gets `NotClubMember`; then `PlanNotFoundError` exactly for a plan outside the club; otherwise the plan's listing |
| PlanAssignmentService.PlanAssignmentService.AddAssignee | app/services/plan_assignment.py:18-33 | a failed check returns its error and adds nothing; otherwise the user assignee is created with the acting user as assigner |
| PlanAssignmentService.PlanAssignmentService.RemoveAssignee | app/services/plan_assignment.py:35-43 | the actor check, then the plan; an unknown assignee or one of another plan is `PlanAssigneeNotFound` and nothing is deleted; otherwise exactly that row is removed |
| Slug.RemoveDisallowed | app/utils/slug.py:11 | every character left is in `[a-z0-9\s-]` |
| Slug.CollapseSeps | app/utils/slug.py:12 | every maximal run of `[\s-]` becomes one hyphen: the result never holds two hyphens in a row, is empty only for empty input, and keeps a leading non-separator |
| Slug.CollapseGivesSlugChars | app/utils/slug.py:11-12 | collapsing `[a-z0-9\s-]` text leaves only `[a-z0-9-]` |
| Slug.StripDashes | app/utils/slug.py:12 | `strip('-')` leaves a slice of its input with no hyphen at either end |
| Slug.SlugifyPartIsSlug | app/utils/slug.py:4-13 | the output of `slugify_part` holds only `a-z`, `0-9` and `-`, has no hyphen at either end and never two in a row |
| Slug.SlugIsFixpoint | app/utils/slug.py:10-12 | a well-formed slug passes `slugify_part` unchanged |
| Slug.SlugifyPartIdempotent | app/utils/slug.py:4-13 | `slugify_part` applied to its own output changes nothing |
| Slug.SlugifyPartKeepsAlnums | app/utils/slug.py:10-12 | the letters and digits of the lower-cased input all survive, in order, and nothing else but hyphens is added |
| Slug.CleanedParts | app/utils/slug.py:17-25 | the kept slugs: `None`, empty, non-string parts and parts with an empty slug are skipped, so there are never more than parts |
| Slug.CleanedPartsAreSlugs | app/utils/slug.py:18-25 | every kept part is a non-empty well-formed slug |
| Slug.JoinIsSlug | app/utils/slug.py:26 | joining non-empty slugs with `-` gives a slug: no empty segment and no `--` |
| Slug.ClubSlug | app/utils/slug.py:16-26 | what `generate_club_slug` returns is itself a well-formed slug |
| Slug.GenerateClubSlug | app/utils/slug.py:16-26 | the loop appending to `cleaned_parts` returns `ClubSlug` of the parts, a well-formed slug |
| Slug.SlugifyTestClub | tests/unit/services/test_clubs_services_create.py:51 | "Test Club" slugifies to "test-club" |
| Slug.ClubSlugExample | tests/unit/services/test_clubs_services_create.py:51 | `["Test Club", "DE", None, None]` gives "test-club-de" |
| ClubService.ClampSkip | app/services/club.py:37 | `max(0, skip)`: a negative skip becomes 0, any other stays |
| ClubService.ClampLimit | app/services/club.py:38 | `max(1, min(limit, 200))`: always in 1..200, unchanged inside that range, 1 below it and 200 above it |
| ClubService.NormalizeQuery | app/services/club.py:40-43 | a query is stripped and becomes `None` exactly when blank; a kept query is non-empty and stripped |
| ClubService.ClampIdempotent | app/services/club.py:37-43 | clamped and normalised values pass the clamps unchanged |
| ClubService.MatchingClubs | app/repositories/club.py:47-57 | exactly the clubs of the table whose name contains a non-empty query (all clubs otherwise), each as often as in the table |
| ClubService.ClubsPage | app/repositories/club.py:47-57 | at most `limit` clubs of the table, each containing a non-empty query in its name, ordered by name; from offset 0 with a limit spanning the table, exactly the matching clubs |
| ClubService.ClubPagesCover | app/repositories/club.py:47-57 | two consecutive pages are the page that spans both, so paging lists no club twice and skips none |
| ClubService.ListClubsService | app/services/club.py:36-45 | at most the clamped limit and never more than 200 clubs, all from the table, each matching the stripped query when it is not blank; from a non-positive skip with a clamped limit spanning the table, exactly the clubs matching the normalised query |
| ClubService.BlankQueryIsNoQuery | app/services/club.py:40-43 | a blank query lists the same page as no query |
| ClubService.SlugOf | app/services/club.py:15 | the slug computed from `[name, country, city, sport]` is well-formed |
| ClubService.ClubIndex | app/repositories/club.py:38-41 | the index of the club with that id, or none exactly when there is none |
| ClubService.NewClub | app/services/club.py:15-19 | the new club carries the body's fields, the slug of its name, country, city and sport, and an id above every existing one |
| ClubService.NewClubKeepsValid | app/repositories/club.py:26-32 | a club with a free slug under a fresh id keeps ids distinct and slugs unique |
| ClubService.Merge | app/services/club.py:69 | `{**current, **update}` for one key: the supplied value when set, the stored one otherwise |
| ClubService.MergedSlug | app/services/club.py:60-79 | the slug recomputed from the merged fields is well-formed |
| ClubService.ApplyClubUpdate | app/services/club.py:54-85 | the updated club keeps its id, takes every supplied field and keeps the others, and its slug is the slug of its merged name, country, city and sport |
| ClubService.EmptyUpdateKeepsFields | app/services/club.py:68-82 | an update that sets nothing keeps every field and only recomputes the slug |
| ClubService.UpdateIsIdempotent | app/services/club.py:54-85 | applying the same update twice is applying it once |
| ClubService.ReplaceClubKeepsValid | app/repositories/club.py:71-77 | replacing a club by one with the same id and a slug no other club holds keeps the table valid |
| ClubService.RemoveClubKeepsValid | app/repositories/club.py:82-86 | removing a club keeps the table valid |
| ClubService.ClubService.GetClub | app/services/club.py:29-33 | the club exactly when one has that id; otherwise `ClubNotFoundError` |
| ClubService.ClubService.ListClubs | app/services/club.py:36-45 | the clamped, normalised listing of `ListClubsService` over the stored clubs, never more than 200 of them; the state is unchanged |
| ClubService.ClubService.CreateClubAndOwner | app/services/club.py:14-27 | a taken slug is `DuplicateSlugError` and nothing is added; otherwise the club is added, then the owner's membership for the creating user with the requested role; a failing membership insert is `MembershipExistsError` and leaves both tables as they were |
| ClubService.ClubService.UpdateClub | app/services/club.py:54-87 | an unknown id is `ClubNotFoundError`; a recomputed slug held by another club is `DuplicateSlugError`; otherwise exactly that club is replaced by the merged one; the table stays valid |
| ClubService.ClubService.DeleteClub | app/services/club.py:89-96 | an unknown id is `ClubNotFoundError`; otherwise exactly that club leaves the table |
| AttendanceUpdates.WithoutKeys | app/repositories/attendance.py:93-95 | the fields left after the pops are, in order, exactly those whose key is not popped |
| AttendanceUpdates.SetAttendanceField | app/repositories/attendance.py:97-98 | `setattr` changes the addressed column to the given value and leaves every other column as it was |
| AttendanceUpdates.UnsetColumnKept | app/repositories/attendance.py:97-98 | a column no field of the change dict names keeps its stored value through the whole loop |
| AttendanceUpdates.PoppedColumnKept | app/repositories/attendance.py:93-98 | a popped column keeps its stored value through the loop |
| AttendanceUpdates.ImmutableColumnsKept | app/repositories/attendance.py:93-98 | after the pops the loop never changes `id`, `created_at`, `session_id`, `user_id`, nor `updated_at` when that key is popped too |
| AttendanceUpdates.GetOr | app/crud/attendance.py:60-61 | `changes.get(key, default)` is the value of the last field with that key, the default when there is none |
| AttendanceUpdates.GetOrIsApplied | app/crud/attendance.py:60-66 | the value `get` reads for a key is the value the `setattr` loop leaves in that column |
| AttendanceUpdates.ValidateTimeRange | app/services/attendance.py:19-22 | refused, with `InvalidTimeRange`, exactly when both times are given and check-out precedes check-in; equal times pass |
| AttendanceUpdates.MergedTimeCheck | app/crud/attendance.py:59-63 | a `ValueError` exactly when the record the loop would produce has its check-out before its check-in |
| AttendanceUpdates.PayloadCheckIgnoresStored | app/services/attendance.py:85 | the service's check of the payload alone passes every update that sets no time, whatever is stored |
| AttendanceUpdates.PopsRemoveNothingDeclared | app/repositories/attendance.py:91-95 | for a payload of the declared `AttendanceUpdate` fields the pops remove nothing |
| AttendanceUpdates.AttendanceUpdateViolation | app/db/models.py:307-332 | the commit of an updated record fails exactly when its status is NULL or its recording user does not exist |
| AttendanceUpdates.AttendanceUpdateKeepsValid | app/db/models.py:307-332 | an update that keeps the id and the session/user pair and passes the commit keeps ids distinct, the pair unique and every status set |
| AttendanceRepository.AttendanceInsertViolation | app/db/models.py:307-332 | the commit of a new record fails with `uq_attendance_session_user` exactly when its session/user pair is taken, and otherwise only on a dangling session, user or recording user |
| AttendanceRepository.NewAttendance | app/repositories/attendance.py:39-47 | the inserted record carries the given columns, the clock's `now` as both timestamps and an id above every existing one |
| AttendanceRepository.AttendanceInsertKeepsValid | app/repositories/attendance.py:48-50 | a committed insert keeps ids distinct and the session/user pair unique |
| AttendanceRepository.AttendanceFilterKeepsValid | app/db/models.py:307-332 | deleting the records of a deleted parent keeps the table valid |
| AttendanceRepository.SessionRows | app/repositories/attendance.py:69-72 | the records of the session, each as often as stored, in ascending id order |
| AttendanceRepository.SessionAttendances | app/repositories/attendance.py:69-76 | one page holds at most `limit` records, all of the session, in id order |
| AttendanceRepository.SessionPagesCover | app/repositories/attendance.py:69-76 | two consecutive pages are the page spanning both: paging lists every record of the session once |
| AttendanceRepository.AttendanceIndex | app/crud/attendance.py:51-52 | the lookup by primary key finds a record with that id, and misses exactly when there is none |
| AttendanceRepository.AttendanceIndexUnique | app/crud/attendance.py:51-52 | with distinct ids the lookup finds the one record that has the id |
| AttendanceRepository.AttendanceInClub | app/repositories/attendance.py:78-88 | a hit is the record with that id, whose session's plan belongs to the club |
| AttendanceRepository.AttendanceInClubMisses | app/repositories/attendance.py:78-88 | the lookup misses exactly when no record with that id has a session whose plan belongs to the club |
| AttendanceRepository.RepositoryChanges | app/repositories/attendance.py:90-98 | the object after the pops and the loop keeps its id, session, user and both timestamps |
| AttendanceRepository.RepositoryUpdated | app/repositories/attendance.py:90-106 | the stored record keeps its id, session, user and creation time, carries the loop's changes, and has `updated_at` set to the clock exactly when another column changed; an update that changes nothing leaves it as it was |
| AttendanceRepository.StatusChangeIsStamped | app/repositories/attendance.py:90-106 | a record stored with `updated_at` 1 whose status changes at clock 5 is stored with `updated_at` 5; re-setting its status changes nothing |
| AttendanceRepository.AttendanceRepository.SessionInClubExists | app/repositories/attendance.py:20-26 | true exactly when the session exists and its plan belongs to the club |
| AttendanceRepository.AttendanceRepository.Create | app/repositories/attendance.py:28-56 | the new record is appended when the commit passes; otherwise the table is unchanged and `AttendanceExistsError` is raised whatever the violation; the table stays valid |
| AttendanceRepository.AttendanceRepository.ListBySessionInClub | app/repositories/attendance.py:58-76 | `SessionNotFound` exactly when the session is not in the club, otherwise the page of the session's records |
| AttendanceRepository.AttendanceRepository.GetInClub | app/repositories/attendance.py:78-88 | `AttendanceNotFoundError` exactly when the club-scoped lookup misses, otherwise the record found |
| AttendanceRepository.AttendanceRepository.Update | app/repositories/attendance.py:90-106 | the updated record, `updated_at` stamped with the clock when a column changed, replaces the old one in place when the commit passes; otherwise nothing changes and `AttendanceExistsError` is raised; the table stays valid |
| AttendanceCrud.CrudChanges | app/crud/attendance.py:55-66 | the object after the crud pops and loop keeps its id, session, user and creation time |
| AttendanceCrud.CrudChangesCarryUpdatedAt | app/crud/attendance.py:55-66 | the `updated_at` after the crud loop is the last one the changes carry, the stored one when they carry none |
| AttendanceCrud.CrudUpdated | app/crud/attendance.py:55-74 | the stored record keeps its id, session, user and creation time and carries the loop's changes; an `updated_at` the loop set to a new value is written as given, otherwise `updated_at` becomes the clock exactly when another column changed, and an update that changes nothing leaves the record as it was |
| AttendanceCrud.CrudUpdateOutcome | app/crud/attendance.py:54-74 | fails with `ValueError` exactly when the merged times are out of order, with the unmapped integrity error exactly when the commit fails, and otherwise returns the updated record with its times in order |
| AttendanceCrud.StoredTimeTakesPart | app/crud/attendance.py:60-63 | a payload that sets only a check-out earlier than the stored check-in is refused |
| AttendanceCrud.CreateAttendance | app/crud/attendance.py:8-35 | one insert: appended when the commit passes, otherwise the table is unchanged and the integrity error itself is returned |
| AttendanceCrud.ListAttendancesBySession | app/crud/attendance.py:37-50 | the page of the session's records by id, with no club scope |
| AttendanceCrud.GetAttendance | app/crud/attendance.py:51-52 | a stored record with that id, `None` exactly when no record has it |
| AttendanceCrud.UpdateAttendance | app/crud/attendance.py:54-74 | returns the outcome `CrudUpdateOutcome` decides at the clock `now`; on success the record, `updated_at` stamped as `CrudUpdated` states, is replaced in place, on failure the table is unchanged |
| AttendanceService.CreateChecks | app/services/attendance.py:33-36 | the actor must be a coach or owner, then the target a member, then the payload's times in order; the first failure is reported and nothing else is refused |
| AttendanceService.CreateAcceptsForeignSession | app/services/attendance.py:24-46 | a session whose plan belongs to another club passes every check and the insert |
| AttendanceService.UpdateDecisionAsWritten | app/services/attendance.py:75-91 | as written: the actor, the payload's own times, the record in the club, then the record's session; an accepted record has the requested id and session |
| AttendanceService.UpdateAsWrittenStoresReversedTimes | app/services/attendance.py:85 | as written, a record checked in at 10 accepts a check-out at 5, and the stored record ends with its times reversed |
| AttendanceService.UpdateDecision | app/services/attendance.py:75-91 | corrected: an accepted update leaves the record with its times in order |
| AttendanceService.UpdateDecisionRefinesAsWritten | app/services/attendance.py:75-91 | the correction keeps every verdict as written except that it also refuses an update whose merged times are out of order |
| AttendanceService.AttendanceService.Create | app/services/attendance.py:24-46 | a failed check leaves the table unchanged and returns that error; otherwise one insert recorded by the actor, with status `present` by default; records with ordered times stay ordered |
| AttendanceService.AttendanceService.ListBySession | app/services/attendance.py:48-63 | the actor check, then `SessionNotFound` exactly when the session is outside the club, otherwise the page of its records |
| AttendanceService.AttendanceService.Get | app/services/attendance.py:65-73 | the actor check, then the record found in the club or `AttendanceNotFoundError` |
| AttendanceService.AttendanceService.Update | app/services/attendance.py:75-91 | a refusal by `UpdateDecision` leaves the table unchanged; otherwise the repository's update of the record found at the clock `now`, `updated_at` stamped when a column changed; stored times stay in order |
| SessionSchema.ValidateLocation | app/schemas/session.py:38-46 | accepted exactly when the stripped location has 1 to 100 characters; the result is the stripped text |
| SessionSchema.ValidateLocationIdempotent | app/schemas/session.py:38-46 | a validated location validates again to itself |
| SessionSchema.ValidateNote | app/schemas/session.py:48-56 | `None` passes; a note is accepted exactly when stripped it has at most 1000 characters, and becomes `None` exactly when it is blank |
| SessionSchema.ValidateNoteIdempotent | app/schemas/session.py:48-56 | a validated note validates again to itself |
| SessionSchema.ValidateSessionCreate | app/schemas/session.py:32-64 | accepted exactly when location and note validate, both times carry a time zone and the start is strictly before the end; the result carries the cleaned fields |
| SessionSchema.ValidateLocationPatch | app/schemas/session.py:74-84 | an unset or explicit `None` location passes as it is; a given string is accepted exactly when `ValidateLocation` accepts it and is replaced by the stripped text |
| SessionSchema.ValidateNotePatch | app/schemas/session.py:86-94 | an unset note passes; a set note is accepted exactly when `ValidateNote` accepts it and takes its result |
| SessionSchema.ValidateSessionUpdate | app/schemas/session.py:67-106 | accepted exactly when the set fields validate, every given time carries a time zone and, when both times are given, the start is strictly before the end; times pass unchanged |
| SessionSchema.ValidateSessionUpdateIdempotent | app/schemas/session.py:67-106 | a validated update validates again to itself |
| SessionService.SessionInPlanAndClub | app/crud/session.py:60-76 | a hit is a session with that id in that plan, and the plan belongs to the club; a miss exactly when the plan is outside the club or no such session exists |
| SessionService.SessionGuardAsWritten | app/services/session.py:42 | as written: passes only on a coach or owner membership of user `club_id` in the club, whoever acts |
| SessionService.SessionGuardAsWrittenIgnoresActor | app/services/session.py:42 | as written, a stranger passes in club 1 when user 1 owns it, and the coach of club 1 with user id 7 is refused |
| SessionService.SessionGuard | app/services/session.py:42 | corrected: passes only on a coach or owner membership of the acting user in the club |
| SessionService.SessionGuardAdmitsLeaders | app/services/session.py:42 | with one membership per club and user, the corrected guard passes exactly for the club's coaches and owners |
| SessionService.SessionTimeCheck | app/services/session.py:45-54 | passes exactly when the effective start (payload's, else stored) is not at or after the effective end |
| SessionService.ApplySessionUpdate | app/services/session.py:49-62 | the set fields replace the stored ones and everything else stays; the commit fails exactly when NULL is written to `starts_at`, `ends_at` or `location` |
| SessionService.CheckedUpdateKeepsOrder | app/services/session.py:45-58 | an update that passes the time checks and the commit leaves the start strictly before the end |
| SessionService.SessionUpdateIdempotent | app/services/session.py:49-58 | an empty update changes nothing, and applying an update twice is applying it once |
| SessionService.GetSessionService | app/services/session.py:34-38 | `SessionNotFound` exactly when the session is not in that plan of the club, otherwise the session |
| SessionService.UpdateSessionService | app/services/session.py:41-62 | the guard, then `SessionNotFound`, then `InvalidTimeRange`, then `Conflict` on a refused commit, each leaving the table unchanged; otherwise the session is replaced in place by the updated one; sessions with ordered times stay ordered |
| SessionService.DeleteSessionService | app/services/session.py:65-75 | the guard, then `SessionNotFound`, each leaving the database unchanged; otherwise the session is removed with exactly its attendance records, and the attendance table stays valid |
| GroupMemberships.GroupMembershipIndex | app/repositories/group_membership.py:10-14 | a hit is a row with key `(group_id, user_id)`; a miss exactly when no row has it |
| GroupMemberships.GroupMembershipIndexUnique | app/db/models.py:355-358 | with `(group_id, user_id)` as primary key, the row found is the only one with that key |
| GroupMemberships.GetGroupMembership | app/repositories/group_membership.py:10-14 | a stored row with that key, `None` exactly when there is none |
| GroupMemberships.ListGroupMemberships | app/repositories/group_membership.py:6-8 | exactly the group's rows, each as often as stored, ordered by user id |
| GroupMemberships.ListStrictlyByUser | app/repositories/group_membership.py:6-8 | with the primary key in force the list is strictly increasing in user id |
| GroupMemberships.PermutationKeyed | app/db/models.py:355-358 | any reordering of a table keyed by `(group_id, user_id)` is still keyed by it |
| GroupMemberships.GroupMembershipFilterApart | app/db/models.py:355-358 | deleting rows keeps the table keyed by `(group_id, user_id)` |
| GroupMemberships.OnceInApart | app/db/models.py:355-358 | a row of a keyed table occurs in it at most once |
| GroupMemberships.AddOutcome | app/repositories/group_membership.py:16-27 | a foreign-key error exactly when the pair is new and its group or user does not exist; otherwise the stored row with that key, carrying the given role when one is given and the stored row itself when the pair exists and no role is given |
| GroupMemberships.AddKeepsKeyed | app/repositories/group_membership.py:16-27 | after an add the table is still keyed, holds the pair, and keeps every row with another key |
| GroupMemberships.AddIdempotent | app/repositories/group_membership.py:16-27 | adding the same group, user and role a second time changes nothing further |
| GroupMemberships.AddExistingWithoutRoleKeeps | app/repositories/group_membership.py:18-22 | re-adding an existing pair with no role leaves the table unchanged |
| GroupMemberships.RemovedGroupMember | app/repositories/group_membership.py:29-33 | exactly the rows without that key remain |
| GroupMemberships.RemoveAbsentIsNoOp | app/repositories/group_membership.py:29-33 | removing a pair that is not there changes nothing |
| GroupMemberships.RemoveUndoesFreshAdd | app/repositories/group_membership.py:16-33 | removing a pair that an add has just inserted restores the table |
| GroupMemberships.AddGroupMember | app/crud/group_membership.py:16-27 | returns the outcome `AddOutcome` decides; on success the table is the upserted one, on failure unchanged; the key stays unique |
| GroupMemberships.RemoveGroupMember | app/crud/group_membership.py:29-33 | the table becomes `RemovedGroupMember` of the old one, keeps its key unique, and no longer holds the pair |
| GroupRepository.GroupViolation | app/db/models.py:335-352 | the commit fails with `uq_group_name_per_club` exactly when another group of the club has the name, and otherwise only on a dangling club or creator |
| GroupRepository.GroupCommitFault | app/repositories/group.py:36-41 | the name constraint becomes `GroupNameExistsError`; every other integrity error is re-raised as it is |
| GroupRepository.NewGroup | app/repositories/group.py:25-30 | the inserted group carries the given club, name, description and creator, and an id above every existing one |
| GroupRepository.GroupInsertKeepsValid | app/repositories/group.py:31-35 | a committed insert keeps ids distinct and names unique per club |
| GroupRepository.GroupInClub | app/repositories/group.py:43-48 | a hit is the group with that id in that club; a miss exactly when there is none |
| GroupRepository.UpdatedGroup | app/repositories/group.py:78-81 | a field takes the new value exactly when that value is not `None`; id, club and creator stay |
| GroupRepository.UpdatedGroupIdempotent | app/repositories/group.py:78-81 | an update with nothing set changes nothing, repeating an update changes nothing more, and a description can never be cleared |
| GroupRepository.GroupUpdateOutcome | app/repositories/group.py:68-91 | `GroupNotFoundError` exactly when the group is not in the club; otherwise `GroupNameExistsError` or the updated group, whose name clashes with no other group |
| GroupRepository.KeptNameNeverClashes | app/repositories/group.py:76-91 | in a valid table an update that leaves the name alone never fails on the name |
| GroupRepository.RenameClashes | app/repositories/group.py:78-91 | a rename fails with `GroupNameExistsError` exactly when another group of the club already has the new name |
| GroupRepository.GroupUpdateKeepsValid | app/repositories/group.py:83-86 | a committed update keeps ids distinct and names unique per club |
| GroupRepository.GroupQuery | app/repositories/group.py:60-63 | the query is the stripped `q`, empty when there is none |
| GroupRepository.ClubGroups | app/repositories/group.py:58-63 | exactly the club's groups, narrowed to names containing the query, ignoring letter case, when the stripped query is not empty |
| GroupRepository.GroupsPage | app/repositories/group.py:50-66 | at most `limit` groups of the club, all matching a non-blank query, in name order; from offset 0 with a large enough limit, every matching group |
| GroupRepository.BlankGroupQueryIsNoQuery | app/repositories/group.py:60-63 | a blank or whitespace-only query lists the same page as no query |
| GroupRepository.GroupRemoveKeepsValid | app/repositories/group.py:93-96 | removing a group keeps ids distinct and names unique per club |
| GroupRepository.AssigneeFilterKeepsValid | app/db/models.py:263-290 | deleting the assignments of a deleted group keeps the assignment table valid |
| GroupRepository.GroupRepository.Create | app/repositories/group.py:17-41 | the new group is appended when the commit passes; otherwise the table is unchanged and the fault is `GroupCommitFault` of the violation |
| GroupRepository.GroupRepository.GetById | app/repositories/group.py:43-48 | the group with that id in that club, `GroupNotFoundError` exactly when there is none |
| GroupRepository.GroupRepository.List | app/repositories/group.py:50-66 | returns `GroupsPage`: at most `limit` groups of the club, in name order |
| GroupRepository.GroupRepository.Update | app/repositories/group.py:68-91 | returns `GroupUpdateOutcome`; on success the group is replaced in place, on failure the table is unchanged; the table stays valid |
| GroupRepository.GroupRepository.Delete | app/repositories/group.py:93-96 | `GroupNotFoundError` with nothing changed exactly when the group is not in the club; otherwise the group goes, with its memberships and plan assignments, and every table stays valid |
| GroupMembershipService.MemberChangeGuard | app/services/group_membership.py:30-33 | passes exactly when the actor is a coach or owner of the club and the target user is a member; a refusal as non-leader is only given to a club member |
| GroupMembershipService.PlainMemberRefusedFirst | app/services/group_membership.py:30-33 | a plain member is refused with `CoachOrOwnerRequiredError`, whoever the target is |
| GroupMembershipService.LeaderMayChangeMembers | app/services/group_membership.py:30-33 | a coach or owner passes for any member of the club, themself included |
| GroupMembershipService.RoleSet | app/services/group_membership.py:48 | `GroupMembershipNotFound` exactly when the pair is absent; otherwise only that row's role changes |
| GroupMembershipService.RoleSetThenGet | app/services/group_membership.py:46-48 | after setting a role the pair reads back with that role, setting it again changes nothing, and the key stays unique |
| GroupMembershipService.GroupMembershipService.ListMembers | app/services/group_membership.py:17-19 | `NotClubMember` exactly when the actor is not a member of the club; otherwise exactly the group's rows by user id |
| GroupMembershipService.GroupMembershipService.AddMember | app/services/group_membership.py:21-35 | a failed check leaves the table unchanged and returns its error; otherwise the upsert's outcome and table |
| GroupMembershipService.GroupMembershipService.SetMemberRole | app/services/group_membership.py:37-48 | a failed check or an absent pair leaves the table unchanged; otherwise the row takes the role and is returned |
| GroupMembershipService.GroupMembershipService.RemoveMember | app/services/group_membership.py:50-52 | refused, with nothing changed, exactly when the actor is not a coach or owner; otherwise the pair is deleted |

## Left out

- HTTP routing, dependency injection, authentication, engine and session set-up, and migrations are not part of this model. Only the rules below the routers are modelled.
- Real concurrency and transaction isolation are left out. Another writer winning a race is an oracle argument of the exercise creation methods.
- Database error detection (pgcode `23505`, constraint-name substrings) is modelled as the kind of constraint a commit violates (`Errors.Constraint`).
- Time-zone conversion and the JSON serialiser of sessions are left out. Times are integers, and time-zone awareness is a boolean argument of the session schema validators.
- Python's Unicode `lower`, `strip` and `\s` are modelled on ASCII. Ordering by a text column is by code point, not by a database collation.
- Column length bounds of the ORM models (`String(32)`, `String(80)`, …) and the library `Field` bounds of the group, club, attendance and assignment schemas are not enforced.
- Clocks are a `now` argument. A plan assignment's `created_at` (`server_default now()`) and an attendance record's `created_at` and `updated_at` take it at insert, and the `onupdate` stamp of `updated_at` is modelled on attendance updates. The timestamps of users, clubs, memberships, plans, exercises and sessions, and `joined_at` of group memberships, are not modelled.
- `skip`, `limit` and `offset` are natural numbers; negative values, which SQL would reject, are not modelled.
- `MembershipService`: `membership_not_exists`, `get_membership_by_id` and `count_other_coaches`, and the guards that app/services/membership.py imports from app/auth/membership_deps.py, are not defined in the repository. They are modelled by their evident meaning.
- MembershipService.CreateMembershipService: the source calls `create_membership(db, club_id, user.id, role)` positionally. `create_membership` (app/crud/membership.py:30) takes its arguments after `db` as keyword-only, so the call raises `TypeError`; it would also pass `user.id` where an e-mail address is expected. The model inserts the membership for the user found, as evidently intended.
- MembershipService.DeleteMembershipService: the source calls `delete_membership(db, membership=m)` (app/services/membership.py:82), but `delete_membership` (app/crud/membership.py:67) takes `club_id` and `membership_id`, so the call raises `TypeError`. The model deletes the row found, as evidently intended.
- RoleGuards: the `MembershipService` class with `require_member_of_club`, `require_coach_of_club` and `require_coach_or_owner_of_club`, which app/services/attendance.py, exercise.py, group_membership.py and group.py import from app/services/membership.py, is not defined there. The three guards are modelled from what the unit tests of those services expect of them.
- `get_membership_service`, `get_memberships_club_service` and the two identical definitions of `get_memberships_user_service` are lookups with no rule of their own. Their queries are `MembershipQueries.FindByClubAndUser`, `ListForClub` and `ListForUser`; `get_membership` and `get_memberships_user` of app/crud/membership.py are covered by the same functions.
- SessionService.GetSessionService: it calls `get_session_in_plan_and_club` (app/services/session.py:35), which app/crud/session.py does not define. The model uses the evident club- and plan-scoped lookup (`SessionService.SessionInPlanAndClub`).
- SessionService.UpdateSessionService and SessionService.DeleteSessionService: the guard they import (`assert_is_coach_or_owner_of_club`) is not defined in app/auth/membership_deps.py, and the crud functions they call have other signatures. The model uses the intended guard and the intended club-scoped lookup, update and delete.
- `list_sessions_service` and `create_session_service` are not modelled: `SessionCreate` has no `name` or `description`, which `create_session` reads, and the list is a thin query.
- AttendanceCrud.CreateAttendance: a raw status string is not modelled; the status is always a member of `AttendanceStatus`.
- ExerciseSchema.ValidateExerciseUpdate: an explicit `null` name fails in the source with an `AttributeError` from `None.strip()`. The model allows only unset or string names.
- ExerciseCrud.DeleteExercise: the `ConflictError` that the source builds but never raises is not modelled. No foreign key refers to an exercise, so the delete cannot fail.
- `PlanUpdate`, `update_plan`, `create_plan`, `delete_plan`, `get_plans` and `get_plan` of app/crud/plan.py are plain table writes and reads. Only `_get_plan_in_club_or_404` (`PlanQueries.PlanInClub`) and `list_assigned_plans` are modelled.
- ClubService: the club's slug column, its uniqueness, and the `description`, `country`, `city` and `sport` fields of the create body are modelled as app/services/club.py and app/repositories/club.py use them. They do not come from the ORM or the schema: the `Club` model (app/db/models.py:147-161) has no slug column and no unique constraint, and `ClubCreate`/`ClubUpdate` (app/schemas/club.py:6-15) carry only `name`. As written, `create_club_and_owner` therefore fails with `AttributeError` at `club_create.country` (app/services/club.py:15), and a `Club` built with `slug=` would raise `TypeError`. The model follows the service's evident design; `ClubService.ClubsValid` (one club per slug) is that assumption.
- ClubService: the only integrity error modelled for clubs is a taken slug, which is `DuplicateSlugError` as in `create_club` and `update_club` of app/repositories/club.py. Their other branches are not modelled: `create_club` returning `None` for another error, and `update_club` and `delete_club` swallowing one. Cascading deletes from a deleted club are not modelled either.
- `get_my_clubs_service` and `get_clubs_by_user` are thin queries and are not modelled.
- Club listing's `contains(…, autoescape=True)` is modelled as a plain substring test. Group listing's `ilike` is modelled as an ASCII case-insensitive substring test, with `%` and `_` in the query taken literally.
- GroupMembershipService: the repository class it imports (`GroupMembershipRepository`, with `list_for_group`, `add`, `set_role`, `remove`) does not exist. Its calls are modelled by the group-membership table functions, which take no club. `set_role` is modelled as "set the role of an existing row, `GroupMembershipNotFound` otherwise".
- GroupMemberships.AddGroupMember: a duplicate pair never raises `GroupMembershipExistsError`, although a unit test expects one; the upsert reuses the existing row.
- app/services/group.py, the group and club schemas, and the thin repositories and crud modules for clubs, plans, sessions and users are not part of this model.

## Findings

| source | as written | input that shows it | evidently intended | confidence | as-written member | corrected member |
|---|---|---|---|---|---|---|
| app/services/membership.py:72-83 | `delete_membership_service` finds the membership by id in any club and counts the leaders of the club named in the request | memberships `(id 1, club 1, user 1, owner)` and `(id 2, club 2, user 2, coach)`; delete id 2 through club 1: club 2 loses its only leader | the membership must belong to the request's club, and its own club must keep a leader | not executed | MembershipService.DeleteAsWrittenRemovesOtherClubsLastLeader | MembershipService.DeleteKeepsEveryClubsLeader |
| app/services/membership.py:64-67 | `update_membership_role_service` checks only the demotion of a coach; an owner may be demoted freely | a club whose only membership is `(id 1, club 1, user 1, owner)`; set role `member`: the club has no coach or owner left | any change that takes a coach or owner out of the leader roles needs another coach or owner in the club, as the delete service checks | not executed | MembershipService.OwnerDemotionAsWrittenLeavesNoLeader | MembershipService.UpdateKeepsEveryClubsLeader |
| app/services/attendance.py:85 | the update checks only the times the payload carries | a record checked in at 10 with no check-out; update with check-out 5: accepted, and the stored record ends before it starts | the merged record's times are checked, as `update_attendance` of app/crud/attendance.py:60-63 does | not executed | AttendanceService.UpdateAsWrittenStoresReversedTimes | AttendanceService.UpdateDecisionRefinesAsWritten |
| app/services/session.py:42 | the guard is called with `user_id=club_id`, so it checks user `club_id`, whoever acts | club 1 owned by user 1: user 9, no member, passes; a club-1 coach with user id 7 is refused | the acting user must be a coach or owner of the club | not executed | SessionService.SessionGuardAsWrittenIgnoresActor | SessionService.SessionGuardAdmitsLeaders |
