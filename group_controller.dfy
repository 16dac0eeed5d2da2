/**
 * The controller version of the group operations. It differs from the router:
 * creation accepts extra member entries from the client and answers 201,
 * adding a member neither checks for an existing entry nor looks the user up,
 * and there is a delete operation (owner only).
 */
module GroupController {
  import opened Basics
  import opened GroupModel
  import opened Store

  /**
   * createGroup: the caller is owner, and the member list is the caller's
   * admin entry FIRST, followed by the supplied entries in order (a missing
   * list counts as empty; an entry without a role gets "member"). A missing
   * or empty name fails validation (500) and creates nothing.
   */
  method CreateGroup(db: Db, caller: UserId, name: string, supplied: Option<seq<MemberInput>>)
    returns (status: int, id: Option<GroupId>)
    requires db.Valid()
    modifies db
    ensures db.Valid()
    ensures db.messages == old(db.messages) && db.users == old(db.users)
    ensures name == [] ==> status == StatusServerError && id == None && db.groups == old(db.groups)
    ensures name != [] ==> status == StatusCreated && id.Some? && id.value !in old(db.groups)
    ensures name != [] ==>
      var extra := if supplied.Some? then supplied.value else [];
      db.groups == old(db.groups)[id.value := Group(name, caller, [MemberEntry(caller, Admin)] + ToEntries(extra), None)]
    ensures name != [] ==>
      var ms := db.groups[id.value].members;
      ms != [] && ms[0] == MemberEntry(caller, Admin) && IsAdmin(ms, caller) && db.groups[id.value].owner == caller
  {
    if name == [] {
      return StatusServerError, None;
    }
    var extra := if supplied.Some? then supplied.value else [];
    var members := [MemberEntry(caller, Admin)] + ToEntries(extra);
    assert members[0] == MemberEntry(caller, Admin);
    var gid := db.NewGroupId();
    db.SaveGroup(gid, Group(name, caller, members, None));
    return StatusCreated, Some(gid);
  }

  /**
   * addMember: group missing (404), caller not an admin (403); otherwise the
   * entry {userId, "member"} is appended unconditionally, so the list grows by
   * exactly one even when the user already has an entry (which then repeats).
   */
  method AddMember(db: Db, caller: UserId, id: GroupId, userId: UserId) returns (status: int)
    requires db.Valid()
    modifies db
    ensures db.Valid()
    ensures db.messages == old(db.messages) && db.users == old(db.users)
    ensures id !in old(db.groups) ==> status == StatusNotFound
    ensures id in old(db.groups) && !IsAdmin(old(db.groups)[id].members, caller) ==> status == StatusForbidden
    ensures id in old(db.groups) && IsAdmin(old(db.groups)[id].members, caller) ==> status == StatusOk
    ensures status != StatusOk ==> db.groups == old(db.groups)
    ensures status == StatusOk ==>
      var g := old(db.groups)[id];
      db.groups == old(db.groups)[id := g.(members := g.members + [MemberEntry(userId, Member)])]
    ensures status == StatusOk ==> |db.groups[id].members| == |old(db.groups)[id].members| + 1
    ensures status == StatusOk && HasMember(old(db.groups)[id].members, userId) ==>
      !NoDuplicateUsers(db.groups[id].members)
  {
    if id !in db.groups {
      return StatusNotFound;
    }
    var group := db.groups[id];
    if !IsAdmin(group.members, caller) {
      return StatusForbidden;
    }
    var entry := MemberEntry(userId, Member);
    if HasMember(group.members, userId) {
      AppendExistingMakesDuplicate(group.members, entry);
    }
    db.SaveGroup(id, group.(members := group.members + [entry]));
    return StatusOk;
  }

  /** getUserGroups: exactly the groups in which the caller has an entry. */
  method GetUserGroups(db: Db, caller: UserId) returns (status: int, r: map<GroupId, Group>)
    ensures status == StatusOk
    ensures forall id :: id in r ==> id in db.groups && r[id] == db.groups[id]
    ensures forall id :: id in db.groups ==> (id in r <==> HasMember(db.groups[id].members, caller))
  {
    return StatusOk, GroupsOf(db.groups, caller);
  }

  /**
   * deleteGroup: group missing (404), caller not the owner (403, even if an
   * admin); otherwise only that group is removed. Its messages stay behind.
   */
  method DeleteGroup(db: Db, caller: UserId, id: GroupId) returns (status: int)
    requires db.Valid()
    modifies db
    ensures db.Valid()
    ensures db.messages == old(db.messages) && db.users == old(db.users)
    ensures id !in old(db.groups) ==> status == StatusNotFound
    ensures id in old(db.groups) && old(db.groups)[id].owner != caller ==> status == StatusForbidden
    ensures id in old(db.groups) && old(db.groups)[id].owner == caller ==> status == StatusOk
    ensures status != StatusOk ==> db.groups == old(db.groups)
    ensures status == StatusOk ==> db.groups == old(db.groups) - {id} && id !in db.groups
  {
    if id !in db.groups {
      return StatusNotFound;
    }
    if db.groups[id].owner != caller {
      return StatusForbidden;
    }
    db.groups := db.groups - {id};
    return StatusOk;
  }
}
