/**
 * The message record: the `trim` transform on `text`, the read-set `readBy`,
 * lookup by id and the per-group ordering by `createdAt` that the schema's
 * index `{ group: 1, createdAt: -1 }` serves.
 */
module MessageModel {
  import opened Basics

  /**
   * A stored message. `group` and `sender` are required; `text`, `imageUrl`
   * and `voiceUrl` are each optional; `readBy` starts empty; `createdAt` is
   * the creation timestamp the store assigns.
   */
  datatype Message = Message(
    id: MessageId,
    group: GroupId,
    sender: UserId,
    text: Option<string>,
    imageUrl: Option<string>,
    voiceUrl: Option<string>,
    readBy: seq<UserId>,
    createdAt: nat)

  /** The characters JavaScript's `String.prototype.trim` removes: white space and line terminators. */
  predicate IsWhitespace(c: char)
  {
    c in {'\t', '\n', '\U{000B}', '\U{000C}', '\r', ' ', '\U{00A0}', '\U{1680}',
          '\U{2028}', '\U{2029}', '\U{202F}', '\U{205F}', '\U{3000}', '\U{FEFF}'}
    || '\U{2000}' <= c <= '\U{200A}'
  }

  /** The first position at or after `i` that is not white space (`|s|` if there is none). */
  function SkipSpace(s: string, i: nat): (lo: nat)
    requires i <= |s|
    ensures i <= lo <= |s|
    ensures forall k :: i <= k < lo ==> IsWhitespace(s[k])
    ensures lo < |s| ==> !IsWhitespace(s[lo])
    decreases |s| - i
  {
    if i < |s| && IsWhitespace(s[i]) then SkipSpace(s, i + 1) else i
  }

  /** The end of `s[lo..hi]` once its trailing white space is dropped. */
  function SkipSpaceBack(s: string, lo: nat, hi: nat): (end: nat)
    requires lo <= hi <= |s|
    ensures lo <= end <= hi
    ensures forall k :: end <= k < hi ==> IsWhitespace(s[k])
    ensures lo < end ==> !IsWhitespace(s[end - 1])
    decreases hi
  {
    if lo < hi && IsWhitespace(s[hi - 1]) then SkipSpaceBack(s, lo, hi - 1) else hi
  }

  /**
   * The schema's `trim: true`: the result is the slice of `s` between its
   * leading and trailing white space; it neither starts nor ends with white
   * space, and everything cut away is white space.
   */
  function Trim(s: string): (r: string)
    ensures r != [] ==> !IsWhitespace(r[0]) && !IsWhitespace(r[|r| - 1])
    ensures var lo := SkipSpace(s, 0);
      && lo + |r| <= |s| && r == s[lo..lo + |r|]
      && (forall k :: 0 <= k < lo ==> IsWhitespace(s[k]))
      && (forall k :: lo + |r| <= k < |s| ==> IsWhitespace(s[k]))
  {
    var lo := SkipSpace(s, 0);
    s[lo..SkipSpaceBack(s, lo, |s|)]
  }

  /** A string that neither starts nor ends with white space is left as it is. */
  lemma TrimKeepsTrimmed(s: string)
    requires s != [] ==> !IsWhitespace(s[0]) && !IsWhitespace(s[|s| - 1])
    ensures Trim(s) == s
  {
  }

  /** Trimming twice is trimming once. */
  lemma TrimIdempotent(s: string)
    ensures Trim(Trim(s)) == Trim(s)
  {
    TrimKeepsTrimmed(Trim(s));
  }

  /** The trim setter applies only when a text is present; an absent text stays absent. */
  function TrimText(text: Option<string>): (r: Option<string>)
    ensures r.None? <==> text.None?
    ensures text.Some? ==> r.value == Trim(text.value)
    ensures text.Some? ==> var v := r.value;
      v != [] ==> !IsWhitespace(v[0]) && !IsWhitespace(v[|v| - 1])
    ensures text.Some? ==> var t, v := text.value, r.value;
      var lo := SkipSpace(t, 0);
      && lo + |v| <= |t| && v == t[lo..lo + |v|]
      && (forall k :: 0 <= k < lo ==> IsWhitespace(t[k]))
      && (forall k :: lo + |v| <= k < |t| ==> IsWhitespace(t[k]))
  {
    if text.Some? then
      var lo := SkipSpace(text.value, 0);
      assert Trim(text.value) == text.value[lo..lo + |Trim(text.value)|];
      Some(Trim(text.value))
    else None
  }

  /**
   * `if (!readBy.includes(u)) readBy.push(u)`: afterwards `u` has read the
   * message, every earlier reader keeps its place (the list only grows, by at
   * most one, at its end) and no reader is recorded twice.
   */
  function AddReader(readBy: seq<UserId>, u: UserId): (r: seq<UserId>)
    ensures u in r
    ensures readBy <= r && |r| <= |readBy| + 1
    ensures u in readBy ==> r == readBy
    ensures forall v :: v in r ==> v in readBy || v == u
    ensures NoDuplicates(readBy) ==> NoDuplicates(r)
  {
    if u in readBy then readBy else readBy + [u]
  }

  /** Marking as read twice gives the same read-set as marking once. */
  lemma AddReaderIdempotent(readBy: seq<UserId>, u: UserId)
    ensures AddReader(AddReader(readBy, u), u) == AddReader(readBy, u)
  {
  }

  /** `Message.findById(id)`: the position of the message with that id, if stored. */
  function FindMessage(ms: seq<Message>, id: MessageId): (r: Option<nat>)
    ensures r.None? <==> forall i :: 0 <= i < |ms| ==> ms[i].id != id
    ensures r.Some? ==> r.value < |ms| && ms[r.value].id == id
  {
    if ms == [] then None
    else if ms[0].id == id then Some(0)
    else
      match FindMessage(ms[1..], id)
      case None => None
      case Some(i) => Some(i + 1)
  }

  /** `Message.find({ group: g })`: the messages of group `g`, in store order. */
  function InGroup(ms: seq<Message>, g: GroupId): (r: seq<Message>)
    ensures forall m :: m in r <==> m in ms && m.group == g
    ensures forall m :: multiset(r)[m] == if m.group == g then multiset(ms)[m] else 0
    ensures |r| <= |ms|
  {
    assert ms == [] || ms == [ms[0]] + ms[1..];
    if ms == [] then []
    else if ms[0].group == g then [ms[0]] + InGroup(ms[1..], g)
    else InGroup(ms[1..], g)
  }

  /** The selection keeps the store order: it distributes over concatenation. */
  lemma {:induction false} InGroupAppend(a: seq<Message>, b: seq<Message>, g: GroupId)
    ensures InGroup(a + b, g) == InGroup(a, g) + InGroup(b, g)
  {
    if a == [] {
      assert a + b == b;
    } else {
      var ab := a + b;
      assert ab[0] == a[0];
      assert ab[1..] == a[1..] + b;
      InGroupAppend(a[1..], b, g);
      if a[0].group == g {
        calc {
          InGroup(ab, g);
          [a[0]] + InGroup(a[1..] + b, g);
          [a[0]] + (InGroup(a[1..], g) + InGroup(b, g));
          ([a[0]] + InGroup(a[1..], g)) + InGroup(b, g);
        }
      } else {
        calc {
          InGroup(ab, g);
          InGroup(a[1..] + b, g);
          InGroup(a[1..], g) + InGroup(b, g);
        }
      }
    }
  }

  /** Keeping one group's messages keeps their order. */
  lemma {:induction false} InGroupKeepsOrder(ms: seq<Message>, g: GroupId)
    requires SortedByCreated(ms)
    ensures SortedByCreated(InGroup(ms, g))
  {
    if ms != [] {
      InGroupKeepsOrder(ms[1..], g);
      forall x | x in InGroup(ms[1..], g) ensures ms[0].createdAt <= x.createdAt {
        assert x in ms[1..];
      }
    }
  }

  /** Non-decreasing `createdAt` (oldest first). */
  predicate SortedByCreated(ms: seq<Message>)
  {
    forall i, j :: 0 <= i < j < |ms| ==> ms[i].createdAt <= ms[j].createdAt
  }

  /** Strictly increasing `createdAt`: the order in which the store keeps messages. */
  predicate StrictlyByCreated(ms: seq<Message>)
  {
    forall i, j :: 0 <= i < j < |ms| ==> ms[i].createdAt < ms[j].createdAt
  }

  /** Inserts `m` into an oldest-first list, before the first message that is not older than it. */
  function Insert(m: Message, ms: seq<Message>): (r: seq<Message>)
    requires SortedByCreated(ms)
    ensures SortedByCreated(r)
    ensures multiset(r) == multiset(ms) + multiset{m}
  {
    if ms == [] || m.createdAt <= ms[0].createdAt then
      assert forall j :: 0 <= j < |ms| ==> m.createdAt <= ms[j].createdAt;
      [m] + ms
    else
      var rest := Insert(m, ms[1..]);
      InsertBehindHead(m, ms, rest);
      [ms[0]] + rest
  }

  /** The step of `Insert` that keeps the head: the head stays oldest and nothing is lost. */
  lemma InsertBehindHead(m: Message, ms: seq<Message>, rest: seq<Message>)
    requires ms != [] && SortedByCreated(ms) && ms[0].createdAt < m.createdAt
    requires SortedByCreated(rest) && multiset(rest) == multiset(ms[1..]) + multiset{m}
    ensures SortedByCreated([ms[0]] + rest)
    ensures multiset([ms[0]] + rest) == multiset(ms) + multiset{m}
  {
    assert ms == [ms[0]] + ms[1..];
    forall j | 0 <= j < |rest| ensures ms[0].createdAt <= rest[j].createdAt {
      assert rest[j] in multiset(rest);
      assert rest[j] == m || rest[j] in multiset(ms[1..]);
    }
  }

  /** `.sort({ createdAt: 1 })`: a permutation of `ms`, oldest first. */
  function SortByCreated(ms: seq<Message>): (r: seq<Message>)
    ensures SortedByCreated(r)
    ensures multiset(r) == multiset(ms)
  {
    if ms == [] then []
    else
      assert ms == [ms[0]] + ms[1..];
      Insert(ms[0], SortByCreated(ms[1..]))
  }

  /** Sorting a list that is already oldest-first changes nothing: the sort is stable. */
  lemma {:induction false} SortSorted(ms: seq<Message>)
    requires SortedByCreated(ms)
    ensures SortByCreated(ms) == ms
  {
    if ms != [] {
      SortSorted(ms[1..]);
      assert ms == [ms[0]] + ms[1..];
    }
  }

  /** The elements of a sequence, last first. */
  function Reverse<T>(s: seq<T>): (r: seq<T>)
    ensures |r| == |s|
    ensures forall i :: 0 <= i < |s| ==> r[i] == s[|s| - 1 - i]
  {
    if s == [] then [] else Reverse(s[1..]) + [s[0]]
  }

  /** `.limit(n)`: the first `n` elements, or all of them when there are fewer. */
  function Take<T>(s: seq<T>, n: nat): (r: seq<T>)
    ensures |r| == if |s| < n then |s| else n
    ensures r == s[..|r|]
  {
    if |s| <= n then s else s[..n]
  }
}
