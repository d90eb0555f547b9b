/**
  Access grants (models/access_grants.py): evaluating them for one user and for all users, finding
  who lost access when they change, and the legacy dictionary form.
 */
module AccessGrants {
  import opened Prelude

  type UserId = string
  type GroupId = string

  datatype PrincipalType = User | Group | Anyone

  datatype Grant = Grant(principalType: PrincipalType, principalId: string, permission: string)

  const WILDCARD := "*"

  /** Accounts with their pending flag, and the members of every group, inherited ones included. */
  datatype Directory = Directory(pending: map<UserId, bool>, members: map<GroupId, set<UserId>>) {
    predicate InGroup(u: UserId, g: GroupId) {
      g in members && u in members[g]
    }

    predicate NonPending(u: UserId) {
      u in pending && !pending[u]
    }

    function NonPendingUsers(): set<UserId> {
      set u | u in pending && !pending[u]
    }
  }

  // ---------- One user ----------

  predicate Reaches(dir: Directory, g: Grant, u: UserId) {
    match g.principalType
    case User => g.principalId == WILDCARD || g.principalId == u
    case Group => dir.InGroup(u, g.principalId)
    case Anyone => false
  }

  /** `has_access` on the grants of one resource. */
  ghost predicate HasAccess(dir: Directory, u: UserId, grants: seq<Grant>, permission: string) {
    exists g :: g in grants && g.permission == permission && Reaches(dir, g, u)
  }

  /** A grant that makes the resource public for this permission. */
  predicate IsPublic(g: Grant, permission: string) {
    g == Grant(User, WILDCARD, permission)
  }

  // ---------- All users ----------

  /** `get_user_ids_by_access_grants`: a public grant answers with the non-pending users at once. */
  method UserIds(dir: Directory, grants: seq<Grant>, permission: string) returns (ids: set<UserId>)
    ensures forall u :: u in ids <==>
              if Grant(User, WILDCARD, permission) in grants then dir.NonPending(u)
              else HasAccess(dir, u, grants, permission)
  {
    ids := {};
    var groupIds: seq<GroupId> := [];
    for k := 0 to |grants|
      invariant Grant(User, WILDCARD, permission) !in grants[..k]
      invariant forall u :: u in ids <==> Grant(User, u, permission) in grants[..k]
      invariant forall g :: g in groupIds <==> Grant(Group, g, permission) in grants[..k]
    {
      var grant := grants[k];
      assert grants[..k + 1] == grants[..k] + [grant];
      if grant.permission == permission {
        if grant.principalType == User {
          if grant.principalId == WILDCARD {
            return dir.NonPendingUsers();
          }
          ids := ids + {grant.principalId};
        } else if grant.principalType == Group {
          groupIds := groupIds + [grant.principalId];
        }
      }
    }
    assert grants[..|grants|] == grants;
    ghost var direct := ids;
    for k := 0 to |groupIds|
      invariant forall u :: u in ids <==> u in direct || exists j :: 0 <= j < k && dir.InGroup(u, groupIds[j])
    {
      if groupIds[k] in dir.members {
        ids := ids + dir.members[groupIds[k]];
      }
    }
    forall u
      ensures u in ids <==> HasAccess(dir, u, grants, permission)
    {
      if u in ids {
        if u in direct {
          assert Reaches(dir, Grant(User, u, permission), u);
        } else {
          var j :| 0 <= j < |groupIds| && dir.InGroup(u, groupIds[j]);
          assert groupIds[j] in groupIds;
          assert Reaches(dir, Grant(Group, groupIds[j], permission), u);
        }
      }
      if HasAccess(dir, u, grants, permission) {
        var g :| g in grants && g.permission == permission && Reaches(dir, g, u);
        if g.principalType == User {
          assert g == Grant(User, u, permission);
        } else {
          assert g == Grant(Group, g.principalId, permission);
          var j :| 0 <= j < |groupIds| && groupIds[j] == g.principalId;
        }
      }
    }
  }

  /** More grants reach more users. */
  lemma HasAccessMonotone(dir: Directory, u: UserId, grants: seq<Grant>, more: seq<Grant>, permission: string)
    requires forall g :: g in grants && g.permission == permission ==> g in more
    ensures HasAccess(dir, u, grants, permission) ==> HasAccess(dir, u, more, permission)
  {
  }

  // ---------- Who lost access ----------

  /**
    `get_revoked_user_ids_by_resource` on the grants before and after.  The result is exactly the
    users who lost access, except that after a public grant only non-pending users are looked at.
   */
  method RevokedUserIds(dir: Directory, previous: seq<Grant>, current: seq<Grant>, permission: string)
    returns (revoked: set<UserId>)
    ensures forall u :: u in revoked <==>
              HasAccess(dir, u, previous, permission) && !HasAccess(dir, u, current, permission) &&
              (Grant(User, WILDCARD, permission) in previous ==> dir.NonPending(u))
  {
    var previousPrincipals := set g | g in previous && g.permission == permission :: (g.principalType, g.principalId);
    var principals := set g | g in current && g.permission == permission :: (g.principalType, g.principalId);
    ghost var open := Grant(User, WILDCARD, permission);
    if previousPrincipals <= principals || (User, WILDCARD) in principals {
      forall u | HasAccess(dir, u, previous, permission)
        ensures HasAccess(dir, u, current, permission)
      {
        if (User, WILDCARD) in principals {
          assert open in current && Reaches(dir, open, u);
        } else {
          forall g | g in previous && g.permission == permission
            ensures g in current
          {
            assert (g.principalType, g.principalId) in previousPrincipals;
            var g' :| g' in current && g'.permission == permission &&
                      (g'.principalType, g'.principalId) == (g.principalType, g.principalId);
          }
          HasAccessMonotone(dir, u, previous, current, permission);
        }
      }
      return {};
    }
    var before := UserIds(dir, previous, permission);
    var after := UserIds(dir, current, permission);
    assert open in current ==> (open.principalType, open.principalId) in principals;
    assert open in previous ==> forall u :: Reaches(dir, open, u) && HasAccess(dir, u, previous, permission);
    revoked := before - after;
  }

  /**
    Leaving early never changes the answer for a non-pending user: the full set difference differs
    only in pending users of a resource that is public now.
   */
  method RevokedAgreesWithDifference(dir: Directory, previous: seq<Grant>, current: seq<Grant>, permission: string)
    returns (revoked: set<UserId>, difference: set<UserId>)
    ensures forall u :: u in revoked <==>
              HasAccess(dir, u, previous, permission) && !HasAccess(dir, u, current, permission) &&
              (Grant(User, WILDCARD, permission) in previous ==> dir.NonPending(u))
    ensures forall u :: u in difference <==>
              u in revoked ||
              (Grant(User, WILDCARD, permission) in current && !dir.NonPending(u) &&
               Grant(User, WILDCARD, permission) !in previous && HasAccess(dir, u, previous, permission))
  {
    revoked := RevokedUserIds(dir, previous, current, permission);
    var before := UserIds(dir, previous, permission);
    var after := UserIds(dir, current, permission);
    difference := before - after;
    ghost var open := Grant(User, WILDCARD, permission);
    assert open in current ==> forall u :: Reaches(dir, open, u) && HasAccess(dir, u, current, permission);
    assert open in previous ==> forall u :: Reaches(dir, open, u) && HasAccess(dir, u, previous, permission);
  }

  /** A pending user whose own grant gives way to a public one is in the difference and not reported. */
  method PendingUserIsMissed() returns (revoked: set<UserId>, difference: set<UserId>)
    ensures "ann" in difference && "ann" !in revoked
  {
    var dir := Directory(map["ann" := true], map[]);
    var own := Grant(User, "ann", "read");
    var previous, current := [own], [Grant(User, "*", "read")];
    assert own in previous && Reaches(dir, own, "ann");
    assert HasAccess(dir, "ann", previous, "read");
    assert current[0] in current && Reaches(dir, current[0], "ann");
    assert HasAccess(dir, "ann", current, "read");
    revoked, difference := RevokedAgreesWithDifference(dir, previous, current, "read");
  }

  // ---------- Query filters ----------

  /** The grant part of `has_permission_filter`; a missing (or empty) user or group list adds no condition. */
  ghost predicate GrantExists(userId: Option<UserId>, groupIds: seq<GroupId>, grants: seq<Grant>, permission: string) {
    exists g :: g in grants && g.permission == permission &&
      (g == Grant(User, WILDCARD, permission) ||
       (userId.Some? && g == Grant(User, userId.value, permission)) ||
       (groupIds != [] && g.principalType == Group && g.principalId in groupIds))
  }

  /** Rows of documents that `has_permission_filter` keeps. */
  ghost predicate Visible(userId: Option<UserId>, groupIds: seq<GroupId>, owner: UserId, grants: seq<Grant>, permission: string) {
    (userId.None? && groupIds == []) ||
    GrantExists(userId, groupIds, grants, permission) ||
    (userId.Some? && owner == userId.value)
  }

  ghost predicate VisibleReadOnly(userId: Option<UserId>, groupIds: seq<GroupId>, owner: UserId, grants: seq<Grant>) {
    GrantExists(userId, groupIds, grants, "read") && !GrantExists(userId, groupIds, grants, "write") &&
    (userId.Some? ==> owner != userId.value)
  }

  /** With a user's own groups the filter is ownership or `has_access`. */
  lemma FilterIsAccess(dir: Directory, u: UserId, groupIds: seq<GroupId>, owner: UserId, grants: seq<Grant>, permission: string)
    requires u != "" && forall g :: g in groupIds <==> dir.InGroup(u, g)
    ensures Visible(Some(u), groupIds, owner, grants, permission) <==>
            owner == u || HasAccess(dir, u, grants, permission)
  {
    forall g | g in grants && g.permission == permission
      ensures Reaches(dir, g, u) <==>
              g == Grant(User, WILDCARD, permission) || g == Grant(User, u, permission) ||
              (groupIds != [] && g.principalType == Group && g.principalId in groupIds)
    {
    }
  }

  /** The read-only filter is reading without writing, and without owning. */
  lemma ReadOnlyFilterIsAccess(dir: Directory, u: UserId, groupIds: seq<GroupId>, owner: UserId, grants: seq<Grant>)
    requires u != "" && forall g :: g in groupIds <==> dir.InGroup(u, g)
    ensures VisibleReadOnly(Some(u), groupIds, owner, grants) <==>
            owner != u && HasAccess(dir, u, grants, "read") && !HasAccess(dir, u, grants, "write")
  {
    if owner != u {
      FilterIsAccess(dir, u, groupIds, owner, grants, "read");
      FilterIsAccess(dir, u, groupIds, owner, grants, "write");
    }
  }

  // ---------- The legacy dictionary ----------

  datatype Members = Members(groupIds: seq<GroupId>, userIds: seq<UserId>)

  /** Null, or rules per permission; `{}` is rules with neither. */
  datatype AccessControl = Null | Rules(read: Option<Members>, write: Option<Members>)

  ghost predicate Lists(dir: Directory, members: Option<Members>, u: UserId) {
    members.Some? &&
    (u in members.value.userIds || WILDCARD in members.value.userIds ||
     exists g :: g in members.value.groupIds && dir.InGroup(u, g))
  }

  /** Who a legacy dictionary lets in: null is public reading, except for files. */
  ghost predicate LegacyAccess(dir: Directory, resourceType: string, ac: AccessControl, u: UserId, permission: string) {
    match ac
    case Null => permission == "read" && resourceType != "file"
    case Rules(read, write) =>
      (permission == "read" && Lists(dir, read, u)) || (permission == "write" && Lists(dir, write, u))
  }

  method GrantsOf(members: Option<Members>, permission: string) returns (grants: seq<Grant>)
    ensures forall g :: g in grants <==>
              members.Some? && g.permission == permission &&
              ((g.principalType == Group && g.principalId in members.value.groupIds) ||
               (g.principalType == User && g.principalId in members.value.userIds))
  {
    grants := [];
    if members.None? {
      return;
    }
    var groupIds, userIds := members.value.groupIds, members.value.userIds;
    for k := 0 to |groupIds|
      invariant forall g :: g in grants <==> g.permission == permission && g.principalType == Group && g.principalId in groupIds[..k]
    {
      assert groupIds[..k + 1] == groupIds[..k] + [groupIds[k]];
      grants := grants + [Grant(Group, groupIds[k], permission)];
    }
    assert groupIds[..|groupIds|] == groupIds;
    for k := 0 to |userIds|
      invariant forall g :: g in grants <==>
        g.permission == permission &&
        ((g.principalType == Group && g.principalId in groupIds) || (g.principalType == User && g.principalId in userIds[..k]))
    {
      assert userIds[..k + 1] == userIds[..k] + [userIds[k]];
      grants := grants + [Grant(User, userIds[k], permission)];
    }
    assert userIds[..|userIds|] == userIds;
  }

  /** The converted grants let in exactly whom the dictionary let in. */
  method AccessControlToGrants(resourceType: string, ac: AccessControl) returns (grants: seq<Grant>)
    ensures forall dir, u, permission ::
              HasAccess(dir, u, grants, permission) <==> LegacyAccess(dir, resourceType, ac, u, permission)
  {
    if ac.Null? {
      grants := if resourceType != "file" then [Grant(User, WILDCARD, "read")] else [];
      assert resourceType != "file" ==> grants[0] in grants;
      assert forall dir, u :: resourceType != "file" ==> Reaches(dir, grants[0], u);
      return;
    }
    var read := GrantsOf(ac.read, "read");
    var write := GrantsOf(ac.write, "write");
    grants := read + write;
    forall dir, u, permission
      ensures HasAccess(dir, u, grants, permission) <==> LegacyAccess(dir, resourceType, ac, u, permission)
    {
      ListedHaveGrant(dir, u, ac.read, "read", grants);
      ListedHaveGrant(dir, u, ac.write, "write", grants);
    }
  }

  lemma ListedHaveGrant(dir: Directory, u: UserId, members: Option<Members>, permission: string, grants: seq<Grant>)
    requires forall g: Grant :: g.permission == permission && g.principalType != Anyone ==>
               (g in grants <==>
                members.Some? &&
                ((g.principalType == Group && g.principalId in members.value.groupIds) ||
                 (g.principalType == User && g.principalId in members.value.userIds)))
    ensures HasAccess(dir, u, grants, permission) <==> Lists(dir, members, u)
  {
    if Lists(dir, members, u) {
      if u in members.value.userIds {
        assert Grant(User, u, permission) in grants && Reaches(dir, Grant(User, u, permission), u);
      } else if WILDCARD in members.value.userIds {
        assert Grant(User, WILDCARD, permission) in grants && Reaches(dir, Grant(User, WILDCARD, permission), u);
      } else {
        var g :| g in members.value.groupIds && dir.InGroup(u, g);
        assert Grant(Group, g, permission) in grants && Reaches(dir, Grant(Group, g, permission), u);
      }
    }
  }

  function AddOnce(ids: seq<string>, id: string): (r: seq<string>)
    ensures forall x :: x in r <==> x in ids || x == id
  {
    if id in ids then ids else ids + [id]
  }

  /**
    Back to the dictionary.  It lets in exactly whom the grants let in, except that public reading
    collapses it to null, which forgets every write grant and closes a file to everybody.
   */
  method GrantsToAccessControl(grants: seq<Grant>) returns (ac: AccessControl)
    ensures grants == [] ==> ac == Rules(None, None)
    ensures ac.Null? <==> Grant(User, WILDCARD, "read") in grants
    ensures ac.Rules? && grants != [] ==>
              ac.read.Some? && ac.write.Some? && NoRepeats(ac.read.value) && NoRepeats(ac.write.value)
    ensures forall dir, resourceType, u, permission :: permission == "read" || permission == "write" ==>
              (LegacyAccess(dir, resourceType, ac, u, permission) <==>
               HasAccess(dir, u, grants, permission) && !(ac.Null? && (permission == "write" || resourceType == "file")))
  {
    if grants == [] {
      return Rules(None, None);
    }
    var read, write := Members([], []), Members([], []);
    var isPublic := false;
    for k := 0 to |grants|
      invariant isPublic <==> Grant(User, WILDCARD, "read") in grants[..k]
      invariant WILDCARD !in read.userIds && NoRepeats(read) && NoRepeats(write)
      invariant ListedIn(read, "read", grants[..k]) && ListedIn(write, "write", grants[..k])
    {
      var grant := grants[k];
      assert grants[..k + 1] == grants[..k] + [grant];
      AddMemberLists(read, "read", grants[..k], grant);
      AddMemberLists(write, "write", grants[..k], grant);
      if IsPublic(grant, "read") {
        isPublic := true;
      } else if grant.permission == "read" {
        read := AddMember(read, grant);
      } else if grant.permission == "write" {
        write := AddMember(write, grant);
      }
    }
    assert grants[..|grants|] == grants;
    ac := if isPublic then Null else Rules(Some(read), Some(write));
    CollectedAccess(read, write, grants);
  }

  /** What the collected lists say of everybody. */
  lemma CollectedAccess(read: Members, write: Members, grants: seq<Grant>)
    requires ListedIn(read, "read", grants) && ListedIn(write, "write", grants) && WILDCARD !in read.userIds
    ensures forall dir, u ::
              (Grant(User, WILDCARD, "read") in grants ==> HasAccess(dir, u, grants, "read")) &&
              (Grant(User, WILDCARD, "read") !in grants ==>
                 (HasAccess(dir, u, grants, "read") <==> Lists(dir, Some(read), u))) &&
              (HasAccess(dir, u, grants, "write") <==> Lists(dir, Some(write), u))
  {
    var open := Grant(User, WILDCARD, "read");
    forall dir, u
      ensures open in grants ==> HasAccess(dir, u, grants, "read")
      ensures open !in grants ==> (HasAccess(dir, u, grants, "read") <==> Lists(dir, Some(read), u))
      ensures HasAccess(dir, u, grants, "write") <==> Lists(dir, Some(write), u)
    {
      assert Reaches(dir, open, u);
      if open !in grants {
        ListedHaveGrant(dir, u, Some(read), "read", grants);
      }
      ListedHaveGrant(dir, u, Some(write), "write", grants);
    }
  }

  function AddMember(members: Members, grant: Grant): Members {
    match grant.principalType
    case Group => members.(groupIds := AddOnce(members.groupIds, grant.principalId))
    case User => members.(userIds := AddOnce(members.userIds, grant.principalId))
    case Anyone => members
  }

  /** The members are the principals of the grants, the public reading grant aside. */
  ghost predicate ListedIn(members: Members, permission: string, grants: seq<Grant>) {
    forall g: Grant :: g.permission == permission && !IsPublic(g, "read") ==>
      (g in grants && g.principalType != Anyone <==>
       (g.principalType == Group && g.principalId in members.groupIds) ||
       (g.principalType == User && g.principalId in members.userIds))
  }

  predicate NoRepeats(members: Members) {
    Distinct(members.groupIds) && Distinct(members.userIds)
  }

  lemma AddMemberLists(members: Members, permission: string, grants: seq<Grant>, grant: Grant)
    requires ListedIn(members, permission, grants) && NoRepeats(members)
    ensures NoRepeats(AddMember(members, grant))
    ensures grant.permission == permission ==> ListedIn(AddMember(members, grant), permission, grants + [grant])
    ensures grant.permission != permission || IsPublic(grant, "read") ==> ListedIn(members, permission, grants + [grant])
  {
  }

  /** A public resource that one user may write: the dictionary lets nobody write. */
  method WriteGrantIsForgotten() returns (ac: AccessControl)
    ensures var grants := [Grant(User, "*", "read"), Grant(User, "ann", "write")];
            forall dir :: HasAccess(dir, "ann", grants, "write") && !LegacyAccess(dir, "note", ac, "ann", "write")
  {
    var grants := [Grant(User, "*", "read"), Grant(User, "ann", "write")];
    assert grants[0] in grants && grants[1] in grants;
    ac := GrantsToAccessControl(grants);
    assert forall dir :: Reaches(dir, grants[1], "ann");
  }
}
