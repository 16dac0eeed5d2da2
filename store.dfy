/**
 * The database the handlers talk to: the `groups`, `messages` and `users`
 * collections, plus the two generators the server relies on (ObjectIds and
 * the `createdAt` timestamps). Every `save()`, `create` and `deleteOne` is
 * one atomic reassignment of a field; requests run one after another.
 */
module Store {
  import opened Basics
  import opened GroupModel
  import opened MessageModel

  class Db {
    /** The group collection, by ObjectId. */
    var groups: map<GroupId, Group>
    /** The message collection, in insertion order. */
    var messages: seq<Message>
    /** The ids of registered users (what `User.findById` can find). */
    var users: set<UserId>
    /** The next `createdAt` timestamp: strictly above every stored one. */
    var clock: nat
    /** The next ObjectId: strictly above every stored group and message id. */
    var nextId: nat

    /**
     * The store invariant: stored groups pass schema validation; messages
     * sit in strictly increasing `createdAt` and id order (each is younger
     * than every message stored before it); generators are ahead of every
     * stored value; no read-set holds a user twice.
     */
    ghost predicate Valid()
      reads this
    {
      && (forall id :: id in groups ==> id.raw < nextId && WellFormed(groups[id]))
      && StrictlyByCreated(messages)
      && (forall i, j :: 0 <= i < j < |messages| ==> messages[i].id.raw < messages[j].id.raw)
      && (forall i :: 0 <= i < |messages| ==>
            messages[i].createdAt < clock && messages[i].id.raw < nextId && NoDuplicates(messages[i].readBy))
    }

    /** An empty database whose user collection holds `registered`. */
    constructor (registered: set<UserId>)
      ensures Valid()
      ensures groups == map[] && messages == [] && users == registered
    {
      groups := map[];
      messages := [];
      users := registered;
      clock := 0;
      nextId := 0;
    }

    /**
     * `Message.create(...)` with `timestamps: true`: a fresh id, `createdAt`
     * later than every stored message, `text` trimmed, `readBy` empty; the
     * message is appended and nothing else changes.
     */
    method CreateMessage(group: GroupId, sender: UserId, text: Option<string>,
                         imageUrl: Option<string>, voiceUrl: Option<string>) returns (m: Message)
      requires Valid()
      modifies this
      ensures Valid()
      ensures m.group == group && m.sender == sender && m.text == TrimText(text)
      ensures m.imageUrl == imageUrl && m.voiceUrl == voiceUrl && m.readBy == []
      ensures FindMessage(old(messages), m.id).None?
      ensures forall x :: x in old(messages) ==> x.createdAt < m.createdAt
      ensures messages == old(messages) + [m]
      ensures groups == old(groups) && users == old(users)
    {
      m := Message(MessageId(nextId), group, sender, TrimText(text), imageUrl, voiceUrl, [], clock);
      messages := messages + [m];
      nextId := nextId + 1;
      clock := clock + 1;
    }

    /**
     * `group.save()`: the edited document `g` replaces the stored one under
     * `id` (or is inserted, for an id just drawn). A document that fails
     * validation is never passed here; the callers answer 500 before.
     */
    method SaveGroup(id: GroupId, g: Group)
      requires Valid() && WellFormed(g) && id.raw < nextId
      modifies this
      ensures Valid()
      ensures groups == old(groups)[id := g]
      ensures messages == old(messages) && users == old(users)
    {
      groups := groups[id := g];
    }

    /**
     * `message.deleteOne()`: the message at position `i` goes, the others keep
     * their order, and no message with its id is left.
     */
    method RemoveMessage(i: nat)
      requires Valid() && i < |messages|
      modifies this
      ensures Valid()
      ensures messages == old(messages)[..i] + old(messages)[i + 1..]
      ensures FindMessage(messages, old(messages)[i].id).None?
      ensures groups == old(groups) && users == old(users)
    {
      var rest := messages[..i] + messages[i + 1..];
      RemoveAtDropsId(messages, i, rest);
      messages := rest;
    }

    /** A fresh ObjectId for a new group. */
    method NewGroupId() returns (id: GroupId)
      requires Valid()
      modifies this
      ensures Valid()
      ensures id !in groups && id.raw < nextId
      ensures groups == old(groups) && messages == old(messages) && users == old(users)
    {
      id := GroupId(nextId);
      nextId := nextId + 1;
    }
  }

  /**
   * Removing position `i` of a list with increasing ids: every later message
   * moves up by one, none carries the removed id, and the order is kept.
   */
  lemma RemoveAtDropsId(ms: seq<Message>, i: nat, r: seq<Message>)
    requires i < |ms| && r == ms[..i] + ms[i + 1..]
    requires forall a, b :: 0 <= a < b < |ms| ==> ms[a].id.raw < ms[b].id.raw
    ensures |r| == |ms| - 1
    ensures forall k :: 0 <= k < i ==> r[k] == ms[k]
    ensures forall k :: i <= k < |r| ==> r[k] == ms[k + 1]
    ensures FindMessage(r, ms[i].id).None?
    ensures StrictlyByCreated(ms) ==> StrictlyByCreated(r)
  {
    forall k | 0 <= k < |r| ensures r[k].id != ms[i].id {
      if k < i { assert r[k] == ms[k]; } else { assert r[k] == ms[k + 1]; }
    }
    if StrictlyByCreated(ms) {
      forall a, b | 0 <= a < b < |r| ensures r[a].createdAt < r[b].createdAt {
        var a' := if a < i then a else a + 1;
        var b' := if b < i then b else b + 1;
        assert r[a] == ms[a'] && r[b] == ms[b'];
      }
    }
  }
}
