/**
 * The controller version of the message operations. Unlike the router it
 * performs no membership check before sending or reading, and it adds
 * marking as read and deleting a message.
 */
module MessageController {
  import opened Basics
  import opened GroupModel
  import opened MessageModel
  import opened Store

  /**
   * sendMessage: appends one message with the caller as sender, whether or
   * not the group exists and whether or not the caller belongs to it. The
   * request's `type` and `mediaUrl` are not schema paths and are dropped, so
   * the message carries only the (trimmed) text. If the group exists its
   * pointer moves to the new message; otherwise no group changes.
   */
  method SendMessage(db: Db, caller: UserId, id: GroupId, text: Option<string>) returns (status: int, m: Message)
    requires db.Valid()
    modifies db
    ensures db.Valid()
    ensures db.users == old(db.users)
    ensures status == StatusCreated
    ensures m.group == id && m.sender == caller && m.text == TrimText(text)
    ensures m.imageUrl == None && m.voiceUrl == None && m.readBy == []
    ensures db.messages == old(db.messages) + [m]
    ensures forall x :: x in old(db.messages) ==> x.createdAt < m.createdAt && x.id != m.id
    ensures id in old(db.groups) ==> db.groups == old(db.groups)[id := old(db.groups)[id].(lastMessage := Some(m.id))]
    ensures id !in old(db.groups) ==> db.groups == old(db.groups)
  {
    m := db.CreateMessage(id, caller, text, None, None);
    if id in db.groups {
      db.SaveGroup(id, db.groups[id].(lastMessage := Some(m.id)));
    }
    status := StatusCreated;
  }

  /**
   * getGroupMessages: every message of the group, oldest first, for any
   * caller (there is no membership check). On the store, which keeps
   * messages in `createdAt` order, that is the group's messages in store
   * order.
   */
  method GetGroupMessages(db: Db, id: GroupId) returns (status: int, r: seq<Message>)
    requires db.Valid()
    ensures status == StatusOk
    ensures SortedByCreated(r)
    ensures multiset(r) == multiset(InGroup(db.messages, id))
    ensures r == InGroup(db.messages, id)
  {
    var mine := InGroup(db.messages, id);
    StoreOrderIsSorted(db.messages);
    InGroupKeepsOrder(db.messages, id);
    SortSorted(mine);
    return StatusOk, SortByCreated(mine);
  }

  /** A strictly increasing order is in particular non-decreasing. */
  lemma StoreOrderIsSorted(ms: seq<Message>)
    requires StrictlyByCreated(ms)
    ensures SortedByCreated(ms)
  {
  }

  /**
   * markAsRead: unknown message (404, nothing changes); otherwise the caller
   * is added to that message's `readBy` if absent, and no other message nor
   * any group changes.
   */
  method MarkAsRead(db: Db, caller: UserId, mid: MessageId) returns (status: int)
    requires db.Valid()
    modifies db
    ensures db.Valid()
    ensures db.groups == old(db.groups) && db.users == old(db.users)
    ensures FindMessage(old(db.messages), mid).None? ==> status == StatusNotFound && db.messages == old(db.messages)
    ensures FindMessage(old(db.messages), mid).Some? ==>
      var i := FindMessage(old(db.messages), mid).value;
      var m := old(db.messages)[i];
      && status == StatusOk
      && db.messages == old(db.messages)[i := m.(readBy := AddReader(m.readBy, caller))]
  {
    var found := FindMessage(db.messages, mid);
    if found.None? {
      return StatusNotFound;
    }
    var i := found.value;
    var m := db.messages[i];
    if caller !in m.readBy {
      m := m.(readBy := m.readBy + [caller]);
      db.messages := db.messages[i := m];
    } else {
      assert db.messages[i := m] == db.messages;
    }
    return StatusOk;
  }

  /**
   * deleteMessage: unknown message (404). The message's group is loaded
   * first; if it no longer exists `isAdmin` is called on nothing and the
   * request fails (500), even for the sender. Otherwise 403 unless the
   * caller is the sender or an admin of the group; on success exactly that
   * message is removed, the others keep their order, and no group changes
   * (a preview pointer to it is left dangling).
   */
  method DeleteMessage(db: Db, caller: UserId, mid: MessageId) returns (status: int)
    requires db.Valid()
    modifies db
    ensures db.Valid()
    ensures db.groups == old(db.groups) && db.users == old(db.users)
    ensures FindMessage(old(db.messages), mid).None? ==> status == StatusNotFound
    ensures FindMessage(old(db.messages), mid).Some? ==>
      var m := old(db.messages)[FindMessage(old(db.messages), mid).value];
      && (m.group !in db.groups ==> status == StatusServerError)
      && (m.group in db.groups && m.sender != caller && !IsAdmin(db.groups[m.group].members, caller) ==>
            status == StatusForbidden)
      && (m.group in db.groups && (m.sender == caller || IsAdmin(db.groups[m.group].members, caller)) ==>
            status == StatusOk)
    ensures status != StatusOk ==> db.messages == old(db.messages)
    ensures status == StatusOk ==> FindMessage(old(db.messages), mid).Some?
    ensures status == StatusOk && FindMessage(old(db.messages), mid).Some? ==>
      var i := FindMessage(old(db.messages), mid).value;
      db.messages == old(db.messages)[..i] + old(db.messages)[i + 1..]
    ensures status == StatusOk ==> FindMessage(db.messages, mid).None?
  {
    var found := FindMessage(db.messages, mid);
    if found.None? {
      return StatusNotFound;
    }
    var i := found.value;
    var m := db.messages[i];
    if m.group !in db.groups {
      return StatusServerError;
    }
    var isAdmin := IsAdmin(db.groups[m.group].members, caller);
    if m.sender != caller && !isAdmin {
      return StatusForbidden;
    }
    db.RemoveMessage(i);
    return StatusOk;
  }
}
