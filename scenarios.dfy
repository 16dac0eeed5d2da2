/**
 * Properties that span several requests, proved from the handlers'
 * contracts alone.
 */
module Scenarios {
  import opened Basics
  import opened GroupModel
  import opened MessageModel
  import opened Store
  import GroupRoutes
  import MessageRoutes
  import MessageController

  /**
   * A user removed from a group can no longer post to it through the router,
   * even one who posted before: membership is re-checked on every request.
   */
  method RemovedMemberCannotPost(db: Db, admin: UserId, id: GroupId, u: UserId, text: Option<string>)
    returns (removed: int, posted: int)
    requires db.Valid() && id in db.groups && IsAdmin(db.groups[id].members, admin)
    modifies db
    ensures removed == StatusOk && posted == StatusForbidden
    ensures db.messages == old(db.messages)
  {
    removed := GroupRoutes.RemoveMember(db, admin, id, u);
    var m;
    posted, m := MessageRoutes.PostText(db, u, id, text);
  }

  /** Marking a message as read a second time changes nothing more. */
  method MarkAsReadTwice(db: Db, caller: UserId, mid: MessageId) returns (first: int, second: int)
    requires db.Valid()
    modifies db
    ensures first == second
    ensures FindMessage(old(db.messages), mid).Some? ==>
      var i := FindMessage(old(db.messages), mid).value;
      var m := old(db.messages)[i];
      db.messages == old(db.messages)[i := m.(readBy := AddReader(m.readBy, caller))]
    ensures FindMessage(old(db.messages), mid).None? ==> db.messages == old(db.messages)
  {
    first := MessageController.MarkAsRead(db, caller, mid);
    if FindMessage(old(db.messages), mid).Some? {
      ghost var i := FindMessage(old(db.messages), mid).value;
      ghost var m := old(db.messages)[i];
      FindMessageAfterUpdate(old(db.messages), i, m.(readBy := AddReader(m.readBy, caller)), mid);
      AddReaderIdempotent(m.readBy, caller);
    }
    second := MessageController.MarkAsRead(db, caller, mid);
    if FindMessage(old(db.messages), mid).Some? {
      ghost var i := FindMessage(old(db.messages), mid).value;
      assert db.messages[i := db.messages[i]] == db.messages;
    }
  }

  /** Replacing a message by one with the same id does not move it. */
  lemma {:induction false} FindMessageAfterUpdate(ms: seq<Message>, i: nat, m: Message, mid: MessageId)
    requires FindMessage(ms, mid) == Some(i) && m.id == mid
    ensures FindMessage(ms[i := m], mid) == Some(i)
  {
    if i > 0 {
      assert ms[i := m][1..] == ms[1..][i - 1 := m];
      FindMessageAfterUpdate(ms[1..], i - 1, m, mid);
    }
  }

  /**
   * The walk-through: A creates "Team"; B, not a member, is refused; A adds
   * B; B's post is stored and becomes the group's preview.
   */
  method Walkthrough() returns (db: Db, team: GroupId, msg: Message)
    ensures fresh(db) && db.Valid() && team in db.groups
    ensures db.groups[team].members == [MemberEntry(UserId(1), Admin), MemberEntry(UserId(2), Member)]
    ensures db.messages == [msg] && msg.sender == UserId(2) && msg.group == team
    ensures db.groups[team].lastMessage == Some(msg.id)
  {
    db, team := NewTeam();
    OutsiderThenMember(db, team);
    var b := UserId(2);
    var status, m := MessageRoutes.PostText(db, b, team, Some("hi"));
    assert HasMember(db.groups[team].members, b) by {
      assert db.groups[team].members[1].user == b;
    }
    msg := m.value;
  }

  /** Users 1, 2 and 3 are registered; user 1 creates "Team" and is its only member, as admin. */
  method NewTeam() returns (db: Db, team: GroupId)
    ensures fresh(db) && db.Valid() && db.messages == [] && UserId(2) in db.users
    ensures db.groups == map[team := Group("Team", UserId(1), [MemberEntry(UserId(1), Admin)], None)]
  {
    db := new Db({UserId(1), UserId(2), UserId(3)});
    var status, id := GroupRoutes.CreateGroup(db, UserId(1), "Team");
    team := id.value;
  }

  /** User 2 may not post to "Team" before user 1 adds them, and then joins as a member. */
  method OutsiderThenMember(db: Db, team: GroupId)
    requires db.Valid() && db.messages == [] && UserId(2) in db.users
    requires db.groups == map[team := Group("Team", UserId(1), [MemberEntry(UserId(1), Admin)], None)]
    modifies db
    ensures db.Valid() && db.messages == []
    ensures db.groups == map[team := Group("Team", UserId(1),
      [MemberEntry(UserId(1), Admin), MemberEntry(UserId(2), Member)], None)]
  {
    var a, b := UserId(1), UserId(2);
    var status, m := MessageRoutes.PostText(db, b, team, Some("hi"));
    assert !HasMember([MemberEntry(a, Admin)], b);
    assert status == StatusForbidden && db.messages == [];

    status := GroupRoutes.AddMember(db, a, team, b);
    assert IsAdmin([MemberEntry(a, Admin)], a);
    assert status == StatusOk;
    assert [MemberEntry(a, Admin)] + [MemberEntry(b, Member)] == [MemberEntry(a, Admin), MemberEntry(b, Member)];
  }

  /**
   * Continuing the walk-through: C, neither sender nor admin, may not delete
   * B's message; A, an admin, may, and afterwards the message is gone.
   */
  method DeletionRights() returns (refused: int, allowed: int)
    ensures refused == StatusForbidden && allowed == StatusOk
  {
    var db, team, msg := Walkthrough();
    var a, c := UserId(1), UserId(3);
    assert FindMessage([msg], msg.id) == Some(0);

    refused := MessageController.DeleteMessage(db, c, msg.id);
    assert !IsAdmin(db.groups[team].members, c);

    allowed := MessageController.DeleteMessage(db, a, msg.id);
    assert IsAdmin(db.groups[team].members, a) by {
      assert db.groups[team].members[0] == MemberEntry(a, Admin);
    }
    assert db.messages == [];
  }
}
