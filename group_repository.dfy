/**
 * `GroupRepository` (app/repositories/group.py): the training groups of a club. Every access
 * is scoped to a club: a group of another club is as missing as an unknown one. A commit that
 * breaks `uq_group_name_per_club` is rolled back and reported as `GroupNameExistsError`; any
 * other integrity error is rolled back and re-raised as it is.
 */
module GroupRepository {
  import opened Wrappers
  import opened Models
  import opened Errors
  import opened Rows
  import opened Text
  import opened Database
  import opened GroupMemberships

  /** Whether another group of the same club already carries `row`'s name. */
  predicate NameTaken(gs: seq<Group>, row: Group) {
    exists g :: g in gs && g.id != row.id && g.clubId == row.clubId && g.name == row.name
  }

  /** Whether a foreign key of `row` (its club, its creator when set) points nowhere. */
  predicate GroupDangling(clubs: seq<Club>, users: seq<User>, row: Group) {
    (forall c :: c in clubs ==> c.id != row.clubId) ||
    (row.createdById.Some? && forall u :: u in users ==> u.id != row.createdById.value)
  }

  /** The integrity error a commit of `row` would raise, if any: the name constraint, then the foreign keys. */
  function GroupViolation(gs: seq<Group>, clubs: seq<Club>, users: seq<User>, row: Group): (r: Option<Constraint>)
    ensures r == Some(UqGroupNamePerClub) <==> NameTaken(gs, row)
    ensures r.None? <==> !NameTaken(gs, row) && !GroupDangling(clubs, users, row)
    ensures r.Some? ==> r.value == UqGroupNamePerClub || r.value == ForeignKey
  {
    if NameTaken(gs, row) then Some(UqGroupNamePerClub)
    else if GroupDangling(clubs, users, row) then Some(ForeignKey)
    else None
  }

  /** The `except IntegrityError` branch: the name constraint becomes `GroupNameExistsError`, the rest is re-raised. */
  function GroupCommitFault(c: Constraint): (f: Fault)
    ensures f == Domain(GroupNameExists) <==> c == UqGroupNamePerClub
    ensures c != UqGroupNamePerClub ==> f == Integrity(c)
  {
    if c == UqGroupNamePerClub then Domain(GroupNameExists) else Integrity(c)
  }

  /** The row `create` adds: the next id and the given club, name, description and creator. */
  function NewGroup(gs: seq<Group>, clubId: int, name: string, description: Option<string>, createdById: Option<int>)
    : (r: Group)
    ensures r.clubId == clubId && r.name == name && r.description == description && r.createdById == createdById
    ensures forall g :: g in gs ==> g.id < r.id
  {
    Group(NextId(gs, GroupId), clubId, name, description, createdById)
  }

  /** A new group that passes the commit keeps the table valid. */
  lemma GroupInsertKeepsValid(gs: seq<Group>, clubs: seq<Club>, users: seq<User>, row: Group)
    requires GroupsValid(gs) && row.id == NextId(gs, GroupId)
    requires GroupViolation(gs, clubs, users, row).None?
    ensures GroupsValid(gs + [row])
  {
    AppendFreshId(gs, row, GroupId);
    var s := gs + [row];
    forall i, j | 0 <= i < |s| && 0 <= j < |s| && i != j ensures !(s[i].clubId == s[j].clubId && s[i].name == s[j].name) {
      if i == |gs| {
        assert s[j] in gs && s[j].id < row.id;
      } else if j == |gs| {
        assert s[i] in gs && s[i].id < row.id;
      }
    }
  }

  /** `WHERE id = group_id AND club_id = club_id`: the index of that group of that club. */
  function GroupInClub(gs: seq<Group>, clubId: int, groupId: int): (r: Option<nat>)
    ensures r.Some? ==> r.value < |gs| && gs[r.value].id == groupId && gs[r.value].clubId == clubId
    ensures r.None? <==> forall g :: g in gs ==> !(g.id == groupId && g.clubId == clubId)
  {
    var r := FindFirst(gs, (g: Group) => g.id == groupId && g.clubId == clubId);
    assert r.None? ==> forall g :: g in gs ==> !(g.id == groupId && g.clubId == clubId) by {
      if r.None? {
        forall g | g in gs ensures !(g.id == groupId && g.clubId == clubId) {
          var k :| 0 <= k < |gs| && gs[k] == g;
        }
      }
    }
    r
  }

  /** The group after `update`: a field is assigned only when its new value is not `None`. */
  function UpdatedGroup(g: Group, name: Option<string>, description: Option<string>): (r: Group)
    ensures r.id == g.id && r.clubId == g.clubId && r.createdById == g.createdById
    ensures name.None? ==> r.name == g.name
    ensures description.None? ==> r.description == g.description
    ensures name.Some? ==> r.name == name.value
    ensures description.Some? ==> r.description == description
  {
    g.(name := if name.Some? then name.value else g.name,
       description := if description.Some? then description else g.description)
  }

  /** A partial update can never clear the description, and repeating it changes nothing further. */
  lemma UpdatedGroupIdempotent(g: Group, name: Option<string>, description: Option<string>)
    ensures UpdatedGroup(UpdatedGroup(g, name, description), name, description) == UpdatedGroup(g, name, description)
    ensures g.description.Some? ==> UpdatedGroup(g, name, description).description.Some?
    ensures UpdatedGroup(g, None, None) == g
  {
  }

  /** What `update` decides on the table `gs`: not found, a name clash at commit, or the updated group. */
  function GroupUpdateOutcome(gs: seq<Group>, clubId: int, groupId: int, name: Option<string>, description: Option<string>)
    : (r: Result<Group, Fault>)
    ensures r == Err(Domain(GroupNotFound)) <==> GroupInClub(gs, clubId, groupId).None?
    ensures r.Ok? ==> r.value.id == groupId && r.value.clubId == clubId && !NameTaken(gs, r.value)
    ensures r.Ok? ==> r.value == UpdatedGroup(gs[GroupInClub(gs, clubId, groupId).value], name, description)
    ensures r.Err? ==> r.error == Domain(GroupNotFound) || r.error == Domain(GroupNameExists)
  {
    var i := GroupInClub(gs, clubId, groupId);
    if i.None? then Err(Domain(GroupNotFound))
    else
      var updated := UpdatedGroup(gs[i.value], name, description);
      if NameTaken(gs, updated) then Err(Domain(GroupNameExists)) else Ok(updated)
  }

  /** In a valid table an update that leaves the name alone never clashes on the name. */
  lemma {:induction false} KeptNameNeverClashes(gs: seq<Group>, clubId: int, groupId: int, description: Option<string>)
    requires GroupsValid(gs)
    ensures GroupUpdateOutcome(gs, clubId, groupId, None, description) != Err(Domain(GroupNameExists))
  {
    var i := GroupInClub(gs, clubId, groupId);
    if i.Some? {
      forall g | g in gs && g.id != groupId && g.clubId == clubId ensures g.name != gs[i.value].name {
        var k :| 0 <= k < |gs| && gs[k] == g;
        assert GroupId(gs[k]) != GroupId(gs[i.value]);
      }
    }
  }

  /** A rename clashes exactly when another group of the club already has the new name. */
  lemma RenameClashes(gs: seq<Group>, clubId: int, groupId: int, name: string, description: Option<string>)
    requires GroupInClub(gs, clubId, groupId).Some?
    ensures GroupUpdateOutcome(gs, clubId, groupId, Some(name), description) == Err(Domain(GroupNameExists)) <==>
      exists g :: g in gs && g.clubId == clubId && g.id != groupId && g.name == name
  {
  }

  /** An update that passes the commit keeps the table valid. */
  lemma GroupUpdateKeepsValid(gs: seq<Group>, i: nat, updated: Group)
    requires GroupsValid(gs) && i < |gs| && updated.id == gs[i].id && !NameTaken(gs, updated)
    ensures GroupsValid(gs[i := updated])
  {
    var s := gs[i := updated];
    forall a, b | 0 <= a < |s| && 0 <= b < |s| && a != b
      ensures GroupId(s[a]) != GroupId(s[b]) && !(s[a].clubId == s[b].clubId && s[a].name == s[b].name)
    {
      if a == i {
        assert s[b] == gs[b] && GroupId(gs[b]) != GroupId(gs[i]);
      } else if b == i {
        assert s[a] == gs[a] && GroupId(gs[a]) != GroupId(gs[i]);
      }
    }
  }

  /** The sort key of `ORDER BY name ASC`. */
  function GroupNameKey(g: Group): seq<int> {
    Codes(g.name)
  }

  /** `q` stripped (`if q:` skips an empty string, which strips to itself), or nothing to search for. */
  function GroupQuery(q: Option<string>): (r: string)
    ensures IsStripped(r)
    ensures q.None? ==> r == []
    ensures q.Some? ==> r == Strip(q.value)
  {
    if q.Some? then Strip(q.value) else []
  }

  /** `Group.name.ilike('%q%')`: `q` occurs in the name, letters compared case-insensitively. */
  predicate NameMatches(name: string, q: string) {
    Contains(Lower(name), Lower(q))
  }

  /** The groups `list` selects before ordering: the club's, narrowed by a non-blank query. */
  function ClubGroups(gs: seq<Group>, clubId: int, q: Option<string>): (r: seq<Group>)
    ensures forall g :: g in r <==> g in gs && g.clubId == clubId && (GroupQuery(q) == [] || NameMatches(g.name, GroupQuery(q)))
    ensures |r| <= |gs|
  {
    var qc := GroupQuery(q);
    Filter(gs, (g: Group) => g.clubId == clubId && (qc == [] || NameMatches(g.name, qc)))
  }

  /** `list`: the club's groups matching the query, by name, one page. */
  function GroupsPage(gs: seq<Group>, clubId: int, q: Option<string>, offset: nat, limit: nat): (r: seq<Group>)
    ensures |r| <= limit
    ensures forall g :: g in r ==> g in gs && g.clubId == clubId
    ensures GroupQuery(q) != [] ==> forall g :: g in r ==> NameMatches(g.name, GroupQuery(q))
    ensures SortedBy(r, GroupNameKey)
    ensures offset == 0 && limit >= |gs| ==> multiset(r) == multiset(ClubGroups(gs, clubId, q))
  {
    var matching := ClubGroups(gs, clubId, q);
    PageOfSorted(matching, offset, limit, GroupNameKey);
    Page(SortBy(matching, GroupNameKey), offset, limit)
  }

  /** A blank or whitespace-only query lists the same page as no query. */
  lemma BlankGroupQueryIsNoQuery(gs: seq<Group>, clubId: int, q: string, offset: nat, limit: nat)
    requires Strip(q) == []
    ensures GroupsPage(gs, clubId, Some(q), offset, limit) == GroupsPage(gs, clubId, None, offset, limit)
  {
    assert GroupQuery(Some(q)) == GroupQuery(None);
  }

  /** Removing a group keeps the table valid. */
  lemma GroupRemoveKeepsValid(gs: seq<Group>, i: nat)
    requires GroupsValid(gs) && i < |gs|
    ensures GroupsValid(RemoveAt(gs, i))
  {
    RemoveKeepsDistinct(gs, i, GroupId);
    var r := RemoveAt(gs, i);
    forall a, b | 0 <= a < |r| && 0 <= b < |r| && a != b ensures !(r[a].clubId == r[b].clubId && r[a].name == r[b].name) {
      var a' := if a < i then a else a + 1;
      var b' := if b < i then b else b + 1;
      assert r[a] == gs[a'] && r[b] == gs[b'];
    }
  }

  /** Deleting rows never breaks the constraints of `plan_assignees`. */
  lemma AssigneeFilterKeepsValid(as_: seq<PlanAssignee>, keep: PlanAssignee -> bool)
    requires AssigneesValid(as_)
    ensures AssigneesValid(Filter(as_, keep))
  {
    var sameId := (a: PlanAssignee, b: PlanAssignee) => a.id == b.id;
    var sameTarget := (a: PlanAssignee, b: PlanAssignee) =>
      a.planId == b.planId && ((a.userId.Some? && a.userId == b.userId) || (a.groupId.Some? && a.groupId == b.groupId));
    assert PairwiseApart(as_, sameId) by {
      forall i, j | 0 <= i < |as_| && 0 <= j < |as_| && i != j ensures !sameId(as_[i], as_[j]) {
        assert AssigneeId(as_[i]) != AssigneeId(as_[j]);
      }
    }
    assert PairwiseApart(as_, sameTarget);
    FilterKeepsApart(as_, keep, sameId);
    FilterKeepsApart(as_, keep, sameTarget);
    var r := Filter(as_, keep);
    forall i, j | 0 <= i < |r| && 0 <= j < |r| && i != j ensures AssigneeId(r[i]) != AssigneeId(r[j]) {
      assert !sameId(r[i], r[j]);
    }
    forall i, j | 0 <= i < |r| && 0 <= j < |r| && i != j && r[i].planId == r[j].planId
      ensures (r[i].userId.Some? ==> r[i].userId != r[j].userId) && (r[i].groupId.Some? ==> r[i].groupId != r[j].groupId)
    {
      assert !sameTarget(r[i], r[j]);
    }
    forall i | 0 <= i < |r| ensures OneTarget(r[i]) {
      assert r[i] in as_;
    }
  }

  /** The tables after a group is deleted: the group, and through `ON DELETE CASCADE` its memberships and plan assignments. */
  ghost predicate GroupDeleted(db: Db, groups: seq<Group>, gms: seq<GroupMembership>, as_: seq<PlanAssignee>, i: nat)
    reads db
    requires i < |groups|
  {
    db.groups == RemoveAt(groups, i) &&
    db.groupMemberships == Filter(gms, (m: GroupMembership) => m.groupId != groups[i].id) &&
    db.assignees == Filter(as_, (a: PlanAssignee) => a.groupId != Some(groups[i].id))
  }

  class GroupRepository {
    const db: Db

    constructor (db: Db)
      ensures this.db == db
    {
      this.db := db;
    }

    /** `create`: one insert; a name clash is `GroupNameExistsError`, another integrity error is re-raised. */
    method Create(clubId: int, name: string, description: Option<string>, createdById: Option<int>)
      returns (r: Result<Group, Fault>)
      requires GroupsValid(db.groups)
      modifies db`groups
      ensures GroupsValid(db.groups)
      ensures var row := NewGroup(old(db.groups), clubId, name, description, createdById);
        var v := GroupViolation(old(db.groups), db.clubs, db.users, row);
        (v.None? ==> r == Ok(row) && db.groups == old(db.groups) + [row]) &&
        (v.Some? ==> r == Err(GroupCommitFault(v.value)) && db.groups == old(db.groups))
    {
      var row := NewGroup(db.groups, clubId, name, description, createdById);
      var v := GroupViolation(db.groups, db.clubs, db.users, row);
      if v.Some? {
        return Err(GroupCommitFault(v.value));
      }
      GroupInsertKeepsValid(db.groups, db.clubs, db.users, row);
      db.groups := db.groups + [row];
      r := Ok(row);
    }

    /** `get_by_id`: the group with that id in that club, or `GroupNotFoundError`. */
    method GetById(clubId: int, groupId: int) returns (r: Result<Group, Fault>)
      ensures r.Ok? ==> r.value in db.groups && r.value.id == groupId && r.value.clubId == clubId
      ensures r.Err? <==> forall g :: g in db.groups ==> !(g.id == groupId && g.clubId == clubId)
      ensures r.Err? ==> r.error == Domain(GroupNotFound)
    {
      var i := GroupInClub(db.groups, clubId, groupId);
      if i.None? {
        return Err(Domain(GroupNotFound));
      }
      r := Ok(db.groups[i.value]);
    }

    /** `list`: the club's groups whose name contains the stripped query, by name, one page. */
    method List(clubId: int, q: Option<string>, offset: nat, limit: nat) returns (r: seq<Group>)
      ensures r == GroupsPage(db.groups, clubId, q, offset, limit)
      ensures |r| <= limit && SortedBy(r, GroupNameKey)
      ensures forall g :: g in r ==> g in db.groups && g.clubId == clubId
    {
      r := GroupsPage(db.groups, clubId, q, offset, limit);
    }

    /** `update`: the lookup, the non-`None` assignments, then one commit. */
    method Update(clubId: int, groupId: int, name: Option<string>, description: Option<string>)
      returns (r: Result<Group, Fault>)
      requires GroupsValid(db.groups)
      modifies db`groups
      ensures GroupsValid(db.groups)
      ensures r == GroupUpdateOutcome(old(db.groups), clubId, groupId, name, description)
      ensures r.Ok? ==> db.groups == old(db.groups)[GroupInClub(old(db.groups), clubId, groupId).value := r.value]
      ensures r.Err? ==> db.groups == old(db.groups)
    {
      var i := GroupInClub(db.groups, clubId, groupId);
      if i.None? {
        return Err(Domain(GroupNotFound));
      }
      var updated := UpdatedGroup(db.groups[i.value], name, description);
      if NameTaken(db.groups, updated) {
        return Err(Domain(GroupNameExists));
      }
      GroupUpdateKeepsValid(db.groups, i.value, updated);
      db.groups := db.groups[i.value := updated];
      r := Ok(updated);
    }

    /** `delete`: the lookup, then the delete, which cascades to the group's memberships and assignments. */
    method Delete(clubId: int, groupId: int) returns (r: Result<(), Fault>)
      requires GroupsValid(db.groups) && UniqueGroupMemberships(db.groupMemberships) && AssigneesValid(db.assignees)
      modifies db`groups, db`groupMemberships, db`assignees
      ensures GroupsValid(db.groups) && UniqueGroupMemberships(db.groupMemberships) && AssigneesValid(db.assignees)
      ensures r.Err? <==> GroupInClub(old(db.groups), clubId, groupId).None?
      ensures r.Err? ==> r == Err(Domain(GroupNotFound)) && unchanged(db)
      ensures r.Ok? ==> GroupDeleted(db, old(db.groups), old(db.groupMemberships), old(db.assignees),
                                     GroupInClub(old(db.groups), clubId, groupId).value)
      ensures r.Ok? ==> forall g :: g in db.groups ==> g.id != groupId
    {
      var i := GroupInClub(db.groups, clubId, groupId);
      if i.None? {
        return Err(Domain(GroupNotFound));
      }
      GroupRemoveKeepsValid(db.groups, i.value);
      forall g | g in RemoveAt(db.groups, i.value) ensures g.id != groupId {
        var k :| 0 <= k < |db.groups| - 1 && RemoveAt(db.groups, i.value)[k] == g;
        var k' := if k < i.value then k else k + 1;
        assert GroupId(db.groups[k']) != GroupId(db.groups[i.value]);
      }
      GroupMembershipFilterApart(db.groupMemberships, (m: GroupMembership) => m.groupId != groupId);
      AssigneeFilterKeepsValid(db.assignees, (a: PlanAssignee) => a.groupId != Some(groupId));
      db.groups := RemoveAt(db.groups, i.value);
      db.groupMemberships := Filter(db.groupMemberships, (m: GroupMembership) => m.groupId != groupId);
      db.assignees := Filter(db.assignees, (a: PlanAssignee) => a.groupId != Some(groupId));
      r := Ok(());
    }
  }
}
