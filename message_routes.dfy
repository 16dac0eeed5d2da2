/**
 * The message endpoints of the Express router: the recent-history query and
 * the three ways to post (text, image, voice note). Every one of them first
 * checks that the group exists (404) and that the caller has an entry in it
 * (403); a post then appends one message and moves the group's preview
 * pointer to it.
 */
module MessageRoutes {
  import opened Basics
  import opened GroupModel
  import opened MessageModel
  import opened Store

  /** How many messages the history endpoint returns at most. */
  const HistoryLimit: nat := 50

  /** Where uploaded files are served from. */
  const UploadsPrefix: string := "/uploads/"

  /**
   * The history query: the group's messages sorted newest first (the reverse
   * of the stable oldest-first sort), the first 50 of those, turned back to
   * oldest first. The result is the group's 50 latest messages, oldest first:
   * no message of the group that is left out is younger than one returned.
   */
  function Recent(ms: seq<Message>, g: GroupId): (r: seq<Message>)
    ensures var n := |InGroup(ms, g)|;
      |r| == if n < HistoryLimit then n else HistoryLimit
    ensures forall m :: m in r ==> m in ms && m.group == g
    ensures SortedByCreated(r)
    ensures multiset(r) <= multiset(InGroup(ms, g))
    ensures forall m, x :: m in InGroup(ms, g) && m !in r && x in r ==> m.createdAt <= x.createdAt
  {
    var sorted := SortByCreated(InGroup(ms, g));
    assert |sorted| == |InGroup(ms, g)| by {
      assert |multiset(sorted)| == |sorted| && |multiset(InGroup(ms, g))| == |InGroup(ms, g)|;
    }
    RecentIsSuffix(sorted, HistoryLimit);
    SameElements(sorted, InGroup(ms, g));
    var r := Reverse(Take(Reverse(sorted), HistoryLimit));
    SuffixIsLatest(sorted, |sorted| - |r|);
    r
  }

  /** Two sequences with the same multiset have the same elements. */
  lemma SameElements<T>(a: seq<T>, b: seq<T>)
    requires multiset(a) == multiset(b)
    ensures forall x :: x in a <==> x in b
  {
    forall x ensures x in a <==> x in b {
      assert x in a <==> x in multiset(a);
      assert x in b <==> x in multiset(b);
    }
  }

  /** In an oldest-first list, a suffix is oldest-first and holds the youngest elements. */
  lemma SuffixIsLatest(s: seq<Message>, lo: nat)
    requires SortedByCreated(s) && lo <= |s|
    ensures SortedByCreated(s[lo..])
    ensures multiset(s[lo..]) <= multiset(s)
    ensures forall m, x :: m in s && m !in s[lo..] && x in s[lo..] ==> m.createdAt <= x.createdAt
  {
    var r := s[lo..];
    assert s == s[..lo] + r;
    forall k | lo <= k < |s| ensures s[k] in r {
      assert r[k - lo] == s[k];
    }
    forall m, x | m in s && m !in r && x in r ensures m.createdAt <= x.createdAt {
      var i :| 0 <= i < |s| && s[i] == m;
      var j :| 0 <= j < |r| && r[j] == x;
      assert s[lo + j] == x;
    }
  }

  /** Reversing, keeping the first `k` and reversing back keeps the last `k`. */
  lemma RecentIsSuffix<T>(s: seq<T>, k: nat)
    ensures var r := Reverse(Take(Reverse(s), k));
      |r| <= |s| && r == s[|s| - |r|..]
  {
    var t := Take(Reverse(s), k);
    var r := Reverse(t);
    var lo := |s| - |r|;
    forall i | 0 <= i < |r| ensures r[i] == s[lo + i] {
      calc {
        r[i];
        t[|t| - 1 - i];
        Reverse(s)[|t| - 1 - i];
        s[|s| - 1 - (|t| - 1 - i)];
      }
    }
  }

  /**
   * On a store kept in `createdAt` order, the history is simply the last
   * (at most) 50 messages of the group, in store order.
   */
  lemma RecentOfOrderedStore(ms: seq<Message>, g: GroupId)
    requires SortedByCreated(ms)
    ensures var f := InGroup(ms, g);
      Recent(ms, g) == f[|f| - |Recent(ms, g)|..]
  {
    InGroupKeepsOrder(ms, g);
    SortSorted(InGroup(ms, g));
    RecentIsSuffix(InGroup(ms, g), HistoryLimit);
  }

  /** GET /:groupId: group missing (404), caller without an entry (403), else the recent history. */
  method RecentHistory(db: Db, caller: UserId, id: GroupId) returns (status: int, r: seq<Message>)
    ensures id !in db.groups ==> status == StatusNotFound && r == []
    ensures id in db.groups && !HasMember(db.groups[id].members, caller) ==> status == StatusForbidden && r == []
    ensures id in db.groups && HasMember(db.groups[id].members, caller) ==>
      status == StatusOk && r == Recent(db.messages, id)
    ensures |r| <= HistoryLimit && SortedByCreated(r)
    ensures forall m :: m in r ==> m in db.messages && m.group == id
  {
    if id !in db.groups {
      return StatusNotFound, [];
    }
    var group := db.groups[id];
    if !HasMember(group.members, caller) {
      return StatusForbidden, [];
    }
    return StatusOk, Recent(db.messages, id);
  }

  /**
   * The common tail of the three posts, once the checks passed:
   * `Message.create`, `group.lastMessage = msg._id`, `group.save()`. Exactly
   * one message is appended, younger than every stored one, and the group's
   * pointer moves to it; name, owner and member list stay as they were.
   */
  method PostChecked(db: Db, caller: UserId, id: GroupId, text: Option<string>,
                     imageUrl: Option<string>, voiceUrl: Option<string>) returns (m: Message)
    requires db.Valid() && id in db.groups
    modifies db
    ensures db.Valid()
    ensures db.users == old(db.users)
    ensures m.group == id && m.sender == caller && m.text == TrimText(text)
    ensures m.imageUrl == imageUrl && m.voiceUrl == voiceUrl && m.readBy == []
    ensures FindMessage(old(db.messages), m.id).None?
    ensures forall x :: x in old(db.messages) ==> x.createdAt < m.createdAt
    ensures db.messages == old(db.messages) + [m]
    ensures db.groups == old(db.groups)[id := old(db.groups)[id].(lastMessage := Some(m.id))]
  {
    var group := db.groups[id];
    m := db.CreateMessage(id, caller, text, imageUrl, voiceUrl);
    db.SaveGroup(id, group.(lastMessage := Some(m.id)));
  }

  /** POST /:groupId: a text message (the text may be absent; when present it is stored trimmed). */
  method PostText(db: Db, caller: UserId, id: GroupId, text: Option<string>) returns (status: int, m: Option<Message>)
    requires db.Valid()
    modifies db
    ensures db.Valid()
    ensures db.users == old(db.users)
    ensures id !in old(db.groups) ==> status == StatusNotFound
    ensures id in old(db.groups) && !HasMember(old(db.groups)[id].members, caller) ==> status == StatusForbidden
    ensures status != StatusOk ==> m == None && db.messages == old(db.messages) && db.groups == old(db.groups)
    ensures id in old(db.groups) && HasMember(old(db.groups)[id].members, caller) ==> status == StatusOk
    ensures status == StatusOk ==> m.Some?
    ensures status == StatusOk && m.Some? ==>
      var msg := m.value;
      && msg.group == id && msg.sender == caller && msg.text == TrimText(text)
      && msg.imageUrl == None && msg.voiceUrl == None && msg.readBy == []
      && db.messages == old(db.messages) + [msg]
      && (forall x :: x in old(db.messages) ==> x.createdAt < msg.createdAt)
      && db.groups == old(db.groups)[id := old(db.groups)[id].(lastMessage := Some(msg.id))]
  {
    if id !in db.groups {
      return StatusNotFound, None;
    }
    if !HasMember(db.groups[id].members, caller) {
      return StatusForbidden, None;
    }
    var msg := PostChecked(db, caller, id, text, None, None);
    return StatusOk, Some(msg);
  }

  /**
   * The upload posts: after the same two checks, a request that carried no
   * file fails on `req.file.filename` (500) and stores nothing; otherwise the
   * stored URL is "/uploads/" followed by the file name. `image` selects the
   * image route (`imageUrl`), otherwise the voice route (`voiceUrl`).
   */
  method PostUpload(db: Db, caller: UserId, id: GroupId, filename: Option<string>, image: bool)
    returns (status: int, m: Option<Message>)
    requires db.Valid()
    modifies db
    ensures db.Valid()
    ensures db.users == old(db.users)
    ensures id !in old(db.groups) ==> status == StatusNotFound
    ensures id in old(db.groups) && !HasMember(old(db.groups)[id].members, caller) ==> status == StatusForbidden
    ensures id in old(db.groups) && HasMember(old(db.groups)[id].members, caller) ==>
      status == (if filename.Some? then StatusOk else StatusServerError)
    ensures status != StatusOk ==> m == None && db.messages == old(db.messages) && db.groups == old(db.groups)
    ensures status == StatusOk ==> m.Some? && filename.Some?
    ensures status == StatusOk && m.Some? && filename.Some? ==>
      var msg := m.value;
      var url := Some(UploadsPrefix + filename.value);
      && msg.group == id && msg.sender == caller && msg.text == None && msg.readBy == []
      && msg.imageUrl == (if image then url else None)
      && msg.voiceUrl == (if image then None else url)
      && db.messages == old(db.messages) + [msg]
      && (forall x :: x in old(db.messages) ==> x.createdAt < msg.createdAt)
      && db.groups == old(db.groups)[id := old(db.groups)[id].(lastMessage := Some(msg.id))]
  {
    if id !in db.groups {
      return StatusNotFound, None;
    }
    if !HasMember(db.groups[id].members, caller) {
      return StatusForbidden, None;
    }
    if filename.None? {
      return StatusServerError, None;
    }
    var url := Some(UploadsPrefix + filename.value);
    var msg;
    if image {
      msg := PostChecked(db, caller, id, None, url, None);
    } else {
      msg := PostChecked(db, caller, id, None, None, url);
    }
    return StatusOk, Some(msg);
  }

  /** POST /:groupId/image. */
  method PostImage(db: Db, caller: UserId, id: GroupId, filename: Option<string>) returns (status: int, m: Option<Message>)
    requires db.Valid()
    modifies db
    ensures db.Valid()
    ensures db.users == old(db.users)
    ensures id !in old(db.groups) ==> status == StatusNotFound
    ensures id in old(db.groups) && !HasMember(old(db.groups)[id].members, caller) ==> status == StatusForbidden
    ensures status != StatusOk ==> m == None && db.messages == old(db.messages) && db.groups == old(db.groups)
    ensures status == StatusOk ==> m.Some? && filename.Some?
    ensures id in old(db.groups) && HasMember(old(db.groups)[id].members, caller) ==>
      status == (if filename.Some? then StatusOk else StatusServerError)
    ensures status == StatusOk && m.Some? && filename.Some? ==>
      var msg := m.value;
      && msg.imageUrl == Some(UploadsPrefix + filename.value) && msg.voiceUrl == None && msg.text == None
      && msg.group == id && msg.sender == caller && msg.readBy == []
      && db.messages == old(db.messages) + [msg]
      && (forall x :: x in old(db.messages) ==> x.createdAt < msg.createdAt)
      && db.groups == old(db.groups)[id := old(db.groups)[id].(lastMessage := Some(msg.id))]
  {
    status, m := PostUpload(db, caller, id, filename, true);
  }

  /** POST /:groupId/voice. */
  method PostVoice(db: Db, caller: UserId, id: GroupId, filename: Option<string>) returns (status: int, m: Option<Message>)
    requires db.Valid()
    modifies db
    ensures db.Valid()
    ensures db.users == old(db.users)
    ensures id !in old(db.groups) ==> status == StatusNotFound
    ensures id in old(db.groups) && !HasMember(old(db.groups)[id].members, caller) ==> status == StatusForbidden
    ensures status != StatusOk ==> m == None && db.messages == old(db.messages) && db.groups == old(db.groups)
    ensures status == StatusOk ==> m.Some? && filename.Some?
    ensures id in old(db.groups) && HasMember(old(db.groups)[id].members, caller) ==>
      status == (if filename.Some? then StatusOk else StatusServerError)
    ensures status == StatusOk && m.Some? && filename.Some? ==>
      var msg := m.value;
      && msg.voiceUrl == Some(UploadsPrefix + filename.value) && msg.imageUrl == None && msg.text == None
      && msg.group == id && msg.sender == caller && msg.readBy == []
      && db.messages == old(db.messages) + [msg]
      && (forall x :: x in old(db.messages) ==> x.createdAt < msg.createdAt)
      && db.groups == old(db.groups)[id := old(db.groups)[id].(lastMessage := Some(msg.id))]
  {
    status, m := PostUpload(db, caller, id, filename, false);
  }
}
