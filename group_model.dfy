/**
 * The group record: its member sub-documents, the role enumeration and the
 * `isAdmin` test, with the pure list operations the handlers perform on the
 * member list (`some`, `find`, `filter`, `push`, setting one entry's role).
 */
module GroupModel {
  import opened Basics

  /** The schema's role enumeration: "admin" or "member". */
  datatype Role = Admin | Member

  /** A member sub-document: `user` is required, `role` always holds a value of the enumeration. */
  datatype MemberEntry = MemberEntry(user: UserId, role: Role)

  /** A member sub-document as a client supplies it, before the schema fills in the default role. */
  datatype MemberInput = MemberInput(user: UserId, role: Option<Role>)

  /** A stored group. `lastMessage` is the optional pointer to the latest message (the preview). */
  datatype Group = Group(name: string, owner: UserId, members: seq<MemberEntry>, lastMessage: Option<MessageId>)

  /** The schema's `required: true` on `name`: Mongoose refuses a missing or empty string. */
  predicate WellFormed(g: Group)
  {
    g.name != []
  }

  /** `members.some(m => m.user.equals(u))`: some entry belongs to `u`, whatever its role. */
  function HasMember(ms: seq<MemberEntry>, u: UserId): (r: bool)
    ensures r <==> exists i :: 0 <= i < |ms| && ms[i].user == u
  {
    if ms == [] then false
    else if ms[0].user == u then true
    else
      var r := HasMember(ms[1..], u);
      assert r ==> exists i :: 0 <= i < |ms| && ms[i].user == u by {
        if r {
          var i :| 0 <= i < |ms[1..]| && ms[1..][i].user == u;
          assert ms[i + 1].user == u;
        }
      }
      r
  }

  /**
   * `isAdmin(u)`: some entry belongs to `u` AND carries the role "admin".
   * An entry for `u` whose role is "member" does not count.
   */
  function IsAdmin(ms: seq<MemberEntry>, u: UserId): (r: bool)
    ensures r <==> exists i :: 0 <= i < |ms| && ms[i] == MemberEntry(u, Admin)
  {
    if ms == [] then false
    else if ms[0] == MemberEntry(u, Admin) then true
    else
      var r := IsAdmin(ms[1..], u);
      assert r ==> exists i :: 0 <= i < |ms| && ms[i] == MemberEntry(u, Admin) by {
        if r {
          var i :| 0 <= i < |ms[1..]| && ms[1..][i] == MemberEntry(u, Admin);
          assert ms[i + 1] == MemberEntry(u, Admin);
        }
      }
      r
  }

  /** Every admin is a member. */
  lemma AdminIsMember(ms: seq<MemberEntry>, u: UserId)
    requires IsAdmin(ms, u)
    ensures HasMember(ms, u)
  {
    var i :| 0 <= i < |ms| && ms[i] == MemberEntry(u, Admin);
    assert ms[i].user == u;
  }

  /** `members.find(m => m.user.equals(u))`: the index of the FIRST entry of `u`, if any. */
  function FindMember(ms: seq<MemberEntry>, u: UserId): (r: Option<nat>)
    ensures r.None? <==> !HasMember(ms, u)
    ensures r.Some? ==> r.value < |ms| && ms[r.value].user == u
    ensures r.Some? ==> forall j :: 0 <= j < r.value ==> ms[j].user != u
  {
    if ms == [] then None
    else if ms[0].user == u then Some(0)
    else
      match FindMember(ms[1..], u)
      case None => None
      case Some(i) => Some(i + 1)
  }

  /**
   * `member.role = role` on the entry `find` returned (none: the list is
   * unchanged). Only that one entry's role changes: the length, every user
   * and every other entry stay as they were.
   */
  function SetRole(ms: seq<MemberEntry>, u: UserId, role: Role): (r: seq<MemberEntry>)
    ensures |r| == |ms|
    ensures forall j :: 0 <= j < |ms| ==> r[j].user == ms[j].user
    ensures !HasMember(ms, u) ==> r == ms
    ensures HasMember(ms, u) ==>
      var k := FindMember(ms, u).value;
      r[k].role == role && forall j :: 0 <= j < |ms| && j != k ==> r[j] == ms[j]
  {
    match FindMember(ms, u)
    case None => ms
    case Some(k) => ms[k := MemberEntry(u, role)]
  }

  /** Setting the same role twice is the same as setting it once. */
  lemma {:induction false} SetRoleIdempotent(ms: seq<MemberEntry>, u: UserId, role: Role)
    ensures SetRole(SetRole(ms, u, role), u, role) == SetRole(ms, u, role)
  {
    var once := SetRole(ms, u, role);
    if HasMember(ms, u) {
      var k := FindMember(ms, u).value;
      FindMemberSameUsers(ms, once, u);
      assert FindMember(once, u) == Some(k);
      assert once[k := MemberEntry(u, role)] == once;
    } else {
      assert once == ms;
    }
  }

  /** `find` depends on the users of the entries only, not on their roles. */
  lemma {:induction false} FindMemberSameUsers(a: seq<MemberEntry>, b: seq<MemberEntry>, u: UserId)
    requires |a| == |b|
    requires forall j :: 0 <= j < |a| ==> a[j].user == b[j].user
    ensures FindMember(a, u) == FindMember(b, u)
  {
    if a != [] && a[0].user != u {
      FindMemberSameUsers(a[1..], b[1..], u);
    }
  }

  /** No user has two entries. */
  predicate NoDuplicateUsers(ms: seq<MemberEntry>)
  {
    forall i, j :: 0 <= i < j < |ms| ==> ms[i].user != ms[j].user
  }

  /**
   * Promoting an admin is a no-op provided no user has two entries (with
   * duplicates, `find` may pick a "member" entry of a user who is admin
   * through a later one).
   */
  lemma PromoteAdminIsNoOp(ms: seq<MemberEntry>, u: UserId)
    requires NoDuplicateUsers(ms)
    requires IsAdmin(ms, u)
    ensures SetRole(ms, u, Admin) == ms
  {
    var i :| 0 <= i < |ms| && ms[i] == MemberEntry(u, Admin);
    AdminIsMember(ms, u);
    var k := FindMember(ms, u).value;
    assert k == i;
    assert ms[k := MemberEntry(u, Admin)] == ms;
  }

  /** Demoting a member who is not an admin is a no-op, duplicates or not. */
  lemma DemoteMemberIsNoOp(ms: seq<MemberEntry>, u: UserId)
    requires HasMember(ms, u) && !IsAdmin(ms, u)
    ensures SetRole(ms, u, Member) == ms
  {
    var k := FindMember(ms, u).value;
    var e := ms[k];
    assert e.user == u && e != MemberEntry(u, Admin);
    assert e.role == Member;
  }

  /** Changing a role never changes who is a member or whether users repeat. */
  lemma SetRoleKeepsUsers(ms: seq<MemberEntry>, u: UserId, role: Role, v: UserId)
    ensures HasMember(SetRole(ms, u, role), v) == HasMember(ms, v)
    ensures NoDuplicateUsers(SetRole(ms, u, role)) == NoDuplicateUsers(ms)
  {
    var r := SetRole(ms, u, role);
    if HasMember(ms, v) {
      var i :| 0 <= i < |ms| && ms[i].user == v;
      assert r[i].user == v;
    }
    if HasMember(r, v) {
      var i :| 0 <= i < |r| && r[i].user == v;
      assert ms[i].user == v;
    }
  }

  /**
   * `members.filter(m => !m.user.equals(u))`: every entry of `u` goes, the
   * others stay. Removing a non-member gives back the same list.
   */
  function WithoutUser(ms: seq<MemberEntry>, u: UserId): (r: seq<MemberEntry>)
    ensures forall e :: e in r <==> e in ms && e.user != u
    ensures !HasMember(r, u)
    ensures |r| <= |ms|
    ensures !HasMember(ms, u) ==> r == ms
  {
    if ms == [] then []
    else if ms[0].user == u then WithoutUser(ms[1..], u)
    else [ms[0]] + WithoutUser(ms[1..], u)
  }

  /** The filter keeps the survivors in their original order: it distributes over concatenation. */
  lemma {:induction false} WithoutUserAppend(a: seq<MemberEntry>, b: seq<MemberEntry>, u: UserId)
    ensures WithoutUser(a + b, u) == WithoutUser(a, u) + WithoutUser(b, u)
  {
    if a == [] {
      assert a + b == b;
    } else {
      var ab := a + b;
      assert ab[0] == a[0];
      assert ab[1..] == a[1..] + b;
      WithoutUserAppend(a[1..], b, u);
      if a[0].user == u {
        calc {
          WithoutUser(ab, u);
          WithoutUser(a[1..] + b, u);
          WithoutUser(a[1..], u) + WithoutUser(b, u);
        }
      } else {
        calc {
          WithoutUser(ab, u);
          [a[0]] + WithoutUser(a[1..] + b, u);
          [a[0]] + (WithoutUser(a[1..], u) + WithoutUser(b, u));
          ([a[0]] + WithoutUser(a[1..], u)) + WithoutUser(b, u);
        }
      }
    }
  }

  /** Removing a user keeps every other user's entries distinct. */
  lemma {:induction false} WithoutUserKeepsNoDuplicates(ms: seq<MemberEntry>, u: UserId)
    requires NoDuplicateUsers(ms)
    ensures NoDuplicateUsers(WithoutUser(ms, u))
  {
    if ms != [] {
      WithoutUserKeepsNoDuplicates(ms[1..], u);
      var rest := WithoutUser(ms[1..], u);
      if ms[0].user != u {
        forall e | e in rest ensures e.user != ms[0].user {
          assert e in ms[1..];
        }
      }
    }
  }

  /** Appending an entry for a user who has none keeps users distinct (the route's duplicate check). */
  lemma AppendNewKeepsNoDuplicates(ms: seq<MemberEntry>, e: MemberEntry)
    requires NoDuplicateUsers(ms)
    requires !HasMember(ms, e.user)
    ensures NoDuplicateUsers(ms + [e])
  {
  }

  /** Appending an entry for a user who already has one creates a duplicate (the controller's missing check). */
  lemma AppendExistingMakesDuplicate(ms: seq<MemberEntry>, e: MemberEntry)
    requires HasMember(ms, e.user)
    ensures !NoDuplicateUsers(ms + [e])
  {
    var i :| 0 <= i < |ms| && ms[i].user == e.user;
    assert (ms + [e])[i].user == (ms + [e])[|ms|].user;
  }

  /** The schema default: a supplied entry without a role becomes a "member". */
  function RoleOrDefault(role: Option<Role>): (r: Role)
    ensures r == Admin <==> role == Some(Admin)
  {
    if role.Some? then role.value else Member
  }

  /** Casting the supplied sub-documents: same users, same order, default role where none was given. */
  function ToEntries(ms: seq<MemberInput>): (r: seq<MemberEntry>)
    ensures |r| == |ms|
    ensures forall i :: 0 <= i < |ms| ==> r[i].user == ms[i].user
    ensures forall i :: 0 <= i < |ms| && ms[i].role == None ==> r[i].role == Member
    ensures forall i :: 0 <= i < |ms| && ms[i].role.Some? ==> r[i].role == ms[i].role.value
  {
    if ms == [] then [] else [MemberEntry(ms[0].user, RoleOrDefault(ms[0].role))] + ToEntries(ms[1..])
  }

  /**
   * `Group.find({ "members.user": u })`: exactly the stored groups that have
   * an entry for `u`, with their stored contents.
   */
  function GroupsOf(groups: map<GroupId, Group>, u: UserId): (r: map<GroupId, Group>)
    ensures forall id :: id in r <==> id in groups && exists i :: 0 <= i < |groups[id].members| && groups[id].members[i].user == u
    ensures forall id :: id in r ==> r[id] == groups[id]
  {
    map id | id in groups && HasMember(groups[id].members, u) :: groups[id]
  }
}
