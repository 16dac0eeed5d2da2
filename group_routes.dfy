/**
 * The group endpoints of the Express router: create, list my groups, add and
 * remove members (admins only), promote and demote (owner only). Each handler
 * fetches the group, checks in a fixed order, edits the fetched document and
 * saves it back; a failed check answers before anything is written.
 */
module GroupRoutes {
  import opened Basics
  import opened GroupModel
  import opened Store

  /**
   * POST /: the caller becomes owner and sole member, as admin, so the owner
   * is an admin right after creation; no preview pointer yet. A missing or
   * empty name fails schema validation (500) and creates nothing.
   */
  method CreateGroup(db: Db, caller: UserId, name: string) returns (status: int, id: Option<GroupId>)
    requires db.Valid()
    modifies db
    ensures db.Valid()
    ensures db.messages == old(db.messages) && db.users == old(db.users)
    ensures name == [] ==> status == StatusServerError && id == None && db.groups == old(db.groups)
    ensures name != [] ==> status == StatusOk && id.Some? && id.value !in old(db.groups)
    ensures name != [] ==>
      db.groups == old(db.groups)[id.value := Group(name, caller, [MemberEntry(caller, Admin)], None)]
    ensures name != [] ==> IsAdmin(db.groups[id.value].members, caller) && db.groups[id.value].owner == caller
  {
    if name == [] {
      return StatusServerError, None;
    }
    var gid := db.NewGroupId();
    db.SaveGroup(gid, Group(name, caller, [MemberEntry(caller, Admin)], None));
    return StatusOk, Some(gid);
  }

  /** GET /: exactly the groups in which the caller has an entry (the `updatedAt` order is not modelled). */
  method MyGroups(db: Db, caller: UserId) returns (status: int, r: map<GroupId, Group>)
    ensures status == StatusOk
    ensures forall id :: id in r <==> id in db.groups && HasMember(db.groups[id].members, caller)
    ensures forall id :: id in r ==> r[id] == db.groups[id]
  {
    return StatusOk, GroupsOf(db.groups, caller);
  }

  /**
   * POST /:id/members. Checks, in order: group missing (404), caller not an
   * admin (403), target already has an entry (400), target not a registered
   * user (404). On success exactly one entry {userId, "member"} is appended;
   * so a list without repeated users keeps that property. Any failure leaves
   * the store unchanged.
   */
  method AddMember(db: Db, caller: UserId, id: GroupId, userId: UserId) returns (status: int)
    requires db.Valid()
    modifies db
    ensures db.Valid()
    ensures db.messages == old(db.messages) && db.users == old(db.users)
    ensures id !in old(db.groups) ==> status == StatusNotFound
    ensures id in old(db.groups) ==> var ms := old(db.groups)[id].members;
      && (!IsAdmin(ms, caller) ==> status == StatusForbidden)
      && (IsAdmin(ms, caller) && HasMember(ms, userId) ==> status == StatusBadRequest)
      && (IsAdmin(ms, caller) && !HasMember(ms, userId) && userId !in db.users ==> status == StatusNotFound)
      && (IsAdmin(ms, caller) && !HasMember(ms, userId) && userId in db.users ==> status == StatusOk)
    ensures status != StatusOk ==> db.groups == old(db.groups)
    ensures status == StatusOk ==> id in old(db.groups)
    ensures status == StatusOk ==>
      var g := old(db.groups)[id];
      db.groups == old(db.groups)[id := g.(members := g.members + [MemberEntry(userId, Member)])]
    ensures status == StatusOk ==>
      NoDuplicateUsers(old(db.groups)[id].members) ==> NoDuplicateUsers(db.groups[id].members)
  {
    if id !in db.groups {
      return StatusNotFound;
    }
    var group := db.groups[id];
    if !IsAdmin(group.members, caller) {
      return StatusForbidden;
    }
    if HasMember(group.members, userId) {
      return StatusBadRequest;
    }
    if userId !in db.users {
      return StatusNotFound;
    }
    var entry := MemberEntry(userId, Member);
    if NoDuplicateUsers(group.members) {
      AppendNewKeepsNoDuplicates(group.members, entry);
    }
    db.SaveGroup(id, group.(members := group.members + [entry]));
    return StatusOk;
  }

  /**
   * DELETE /:id/members/:userId. Group missing (404), caller not an admin
   * (403); otherwise every entry of the target goes and the others keep their
   * order. Removing a non-member succeeds and changes nothing; nothing stops
   * an admin from removing the owner, or the last admin.
   */
  method RemoveMember(db: Db, caller: UserId, id: GroupId, userId: UserId) returns (status: int)
    requires db.Valid()
    modifies db
    ensures db.Valid()
    ensures db.messages == old(db.messages) && db.users == old(db.users)
    ensures id !in old(db.groups) ==> status == StatusNotFound
    ensures id in old(db.groups) && !IsAdmin(old(db.groups)[id].members, caller) ==> status == StatusForbidden
    ensures id in old(db.groups) && IsAdmin(old(db.groups)[id].members, caller) ==> status == StatusOk
    ensures status != StatusOk ==> db.groups == old(db.groups)
    ensures status == StatusOk ==>
      var g := old(db.groups)[id];
      db.groups == old(db.groups)[id := g.(members := WithoutUser(g.members, userId))]
    ensures status == StatusOk ==> !HasMember(db.groups[id].members, userId)
    ensures status == StatusOk && !HasMember(old(db.groups)[id].members, userId) ==> db.groups == old(db.groups)
    ensures status == StatusOk ==>
      NoDuplicateUsers(old(db.groups)[id].members) ==> NoDuplicateUsers(db.groups[id].members)
  {
    if id !in db.groups {
      return StatusNotFound;
    }
    var group := db.groups[id];
    if !IsAdmin(group.members, caller) {
      return StatusForbidden;
    }
    var kept := WithoutUser(group.members, userId);
    assert NoDuplicateUsers(group.members) ==> NoDuplicateUsers(kept) by {
      if NoDuplicateUsers(group.members) {
        WithoutUserKeepsNoDuplicates(group.members, userId);
      }
    }
    assert !HasMember(group.members, userId) ==> group.(members := kept) == group;
    db.SaveGroup(id, group.(members := kept));
    return StatusOk;
  }

  /**
   * The shared shape of promote and demote: group missing (404), caller not
   * the owner (403), target without an entry (404); otherwise the role of the
   * target's first entry becomes `role`, and nothing else in the store moves.
   */
  method ChangeRole(db: Db, caller: UserId, id: GroupId, userId: UserId, role: Role) returns (status: int)
    requires db.Valid()
    modifies db
    ensures db.Valid()
    ensures db.messages == old(db.messages) && db.users == old(db.users)
    ensures id !in old(db.groups) ==> status == StatusNotFound
    ensures id in old(db.groups) && old(db.groups)[id].owner != caller ==> status == StatusForbidden
    ensures id in old(db.groups) && old(db.groups)[id].owner == caller ==>
      status == (if HasMember(old(db.groups)[id].members, userId) then StatusOk else StatusNotFound)
    ensures status != StatusOk ==> db.groups == old(db.groups)
    ensures status == StatusOk ==>
      var g := old(db.groups)[id];
      db.groups == old(db.groups)[id := g.(members := SetRole(g.members, userId, role))]
  {
    if id !in db.groups {
      return StatusNotFound;
    }
    var group := db.groups[id];
    if group.owner != caller {
      return StatusForbidden;
    }
    var found := FindMember(group.members, userId);
    if found.None? {
      return StatusNotFound;
    }
    db.SaveGroup(id, group.(members := SetRole(group.members, userId, role)));
    return StatusOk;
  }

  /**
   * POST /:id/admins (owner only): the target's entry becomes "admin"; the
   * member list keeps its length, its users and every other entry.
   * Promoting someone who already is an admin (no repeated users) changes
   * nothing.
   */
  method PromoteAdmin(db: Db, caller: UserId, id: GroupId, userId: UserId) returns (status: int)
    requires db.Valid()
    modifies db
    ensures db.Valid()
    ensures db.messages == old(db.messages) && db.users == old(db.users)
    ensures id !in old(db.groups) ==> status == StatusNotFound
    ensures id in old(db.groups) && old(db.groups)[id].owner != caller ==> status == StatusForbidden
    ensures id in old(db.groups) && old(db.groups)[id].owner == caller ==>
      status == (if HasMember(old(db.groups)[id].members, userId) then StatusOk else StatusNotFound)
    ensures status != StatusOk ==> db.groups == old(db.groups)
    ensures status == StatusOk ==>
      var g := old(db.groups)[id];
      db.groups == old(db.groups)[id := g.(members := SetRole(g.members, userId, Admin))]
      && IsAdmin(db.groups[id].members, userId)
    ensures (status == StatusOk && NoDuplicateUsers(old(db.groups)[id].members)
             && IsAdmin(old(db.groups)[id].members, userId)) ==> db.groups == old(db.groups)
  {
    if id in db.groups && db.groups[id].owner == caller && HasMember(db.groups[id].members, userId) {
      var ms := db.groups[id].members;
      assert SetRole(ms, userId, Admin)[FindMember(ms, userId).value] == MemberEntry(userId, Admin);
      if NoDuplicateUsers(ms) && IsAdmin(ms, userId) {
        PromoteAdminIsNoOp(ms, userId);
        assert db.groups[id := db.groups[id].(members := ms)] == db.groups;
      }
    }
    status := ChangeRole(db, caller, id, userId, Admin);
  }

  /**
   * DELETE /:id/admins/:userId (owner only): the target's entry becomes
   * "member", whoever the target is (the owner may demote themself). Demoting
   * someone who is not an admin changes nothing.
   */
  method DemoteAdmin(db: Db, caller: UserId, id: GroupId, userId: UserId) returns (status: int)
    requires db.Valid()
    modifies db
    ensures db.Valid()
    ensures db.messages == old(db.messages) && db.users == old(db.users)
    ensures id !in old(db.groups) ==> status == StatusNotFound
    ensures id in old(db.groups) && old(db.groups)[id].owner != caller ==> status == StatusForbidden
    ensures id in old(db.groups) && old(db.groups)[id].owner == caller ==>
      status == (if HasMember(old(db.groups)[id].members, userId) then StatusOk else StatusNotFound)
    ensures status != StatusOk ==> db.groups == old(db.groups)
    ensures status == StatusOk ==>
      var g := old(db.groups)[id];
      db.groups == old(db.groups)[id := g.(members := SetRole(g.members, userId, Member))]
    ensures status == StatusOk && NoDuplicateUsers(old(db.groups)[id].members) ==>
      !IsAdmin(db.groups[id].members, userId)
    ensures status == StatusOk && !IsAdmin(old(db.groups)[id].members, userId) ==> db.groups == old(db.groups)
  {
    if id in db.groups && db.groups[id].owner == caller && HasMember(db.groups[id].members, userId) {
      var ms := db.groups[id].members;
      if NoDuplicateUsers(ms) {
        DemotedIsNotAdmin(ms, userId);
      }
      if !IsAdmin(ms, userId) {
        DemoteMemberIsNoOp(ms, userId);
        assert db.groups[id := db.groups[id].(members := ms)] == db.groups;
      }
    }
    status := ChangeRole(db, caller, id, userId, Member);
  }

  /** With no repeated users, a demoted user has no admin entry left. */
  lemma DemotedIsNotAdmin(ms: seq<MemberEntry>, u: UserId)
    requires NoDuplicateUsers(ms) && HasMember(ms, u)
    ensures !IsAdmin(SetRole(ms, u, Member), u)
  {
    var r := SetRole(ms, u, Member);
    var k := FindMember(ms, u).value;
    SetRoleKeepsUsers(ms, u, Member, u);
    forall i | 0 <= i < |r| ensures r[i] != MemberEntry(u, Admin) {
      if i != k {
        assert ms[i].user != ms[k].user;
      }
    }
  }
}
