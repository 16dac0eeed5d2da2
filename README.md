# Group chat server: membership and message-store rules

This project models, in Dafny, the rule set of the chat server's REST layer:
who may create, join, leave, administer and delete a group, and how messages
are stored, listed, marked as read and deleted. Both copies of these rules are
modelled. The first is the Express routers in `server/src/routes`, which are
mounted by the application. The second is the controllers in
`server/src/controllers`, which differ from the routers in several checks.

## Layout

- `basics.dfy` (`Basics`): identifiers, `Option`, and the HTTP status codes
  the handlers answer with.
- `group_model.dfy` (`GroupModel`): the group document and its member
  sub-documents (`server/src/models/Group.js`). It holds `isAdmin` and the
  pure list operations the handlers apply to the member list: `some`, `find`,
  `filter`, `push`, and setting one entry's role.
- `message_model.dfy` (`MessageModel`): the message document
  (`server/src/models/Message.js`). It holds the `trim` setter with
  JavaScript's whitespace set, the `readBy` update, lookup by id, selection
  by group, and the `createdAt` sort.
- `store.dfy` (`Store`): class `Db`, the three MongoDB collections plus the
  two generators the database supplies (ObjectIds and `createdAt`
  timestamps).
  - `Db.Valid()` is the store invariant:
    - stored groups have a name;
    - messages are kept in strictly increasing `createdAt` and id order;
    - the generators are ahead of every stored value;
    - no `readBy` holds a user twice.
  - `save()`, `create` and `deleteOne` are one atomic reassignment of a field.
- `group_routes.dfy`, `message_routes.dfy`, `group_controller.dfy`,
  `message_controller.dfy`: one method per request handler, each with
  `modifies db`. Each method returns the HTTP status and states the whole new
  store state for every status.
- `scenarios.dfy` (`Scenarios`): properties that span several requests,
  proved from the handlers' contracts alone:
  - a removed member can no longer post;
  - marking as read twice is the same as marking once;
  - the create → refuse → add → post walk-through;
  - who may delete a message.

Modelling choices that follow the code:

- **Documents are values.** A document fetched with `findById` is a copy of
  the stored record. The handler edits the copy and writes it back with
  `save`, so a failed check writes nothing.
- **Generators.** `createdAt` is a strictly increasing counter and ObjectIds
  come from a fresh-id counter.
- **Missing or empty group name.** The schema's `required: true` rejects it,
  so creation answers 500 and stores nothing.
- **Upload without a file.** Reading `req.file.filename` throws, so the image
  and voice routes answer 500 after the membership check.
- **Deleting a message whose group is gone.** `populate("group")` yields
  `null` and `isAdmin` throws, so the answer is 500, even for the sender.
- **Controller `sendMessage`.** It passes `type` and `mediaUrl`, which the
  strict schema drops. It checks neither the group nor membership.
  `findByIdAndUpdate` on a missing group changes nothing.

Behaviour of the code a reader may not expect:

- No post rejects an empty message: text is optional and only trimmed.
- An admin may remove the owner, or the last admin.
- Promote and demote touch only the first entry of the target.
- The `lastMessage` pointer is a blind overwrite, not a conditional update.
- The controllers add members without a duplicate check. They send and list
  messages without a membership check.

The controllers are not mounted by `server/src/app.js`. They also import the
models by a named binding (`const { Group } = require(...)`), which the model
files do not export. The model describes the controllers' handler logic as if
that binding resolved. The controllers take the caller from `req.user._id`
and the routers from `req.user.id`; the model treats both as the same caller.

## Model

| member | source | states |
|---|---|---|
| GroupModel.HasMember | server/src/routes/groupRoutes.js:39 | true exactly when some entry of the list belongs to the user, whatever its role |
| GroupModel.IsAdmin | server/src/models/Group.js:25-27 | true exactly when some entry is the user with role "admin"; an entry with role "member" does not count |
| GroupModel.AdminIsMember | server/src/models/Group.js:25-27 | every admin has an entry in the member list |
| GroupModel.FindMember | server/src/routes/groupRoutes.js:76 | none exactly when the user has no entry; otherwise the index of the user's first entry, with no earlier entry of that user |
| GroupModel.SetRole | server/src/routes/groupRoutes.js:76-78 | only the first entry of the user gets the new role; length, every user and every other entry are kept; a non-member leaves the list unchanged |
| GroupModel.SetRoleIdempotent | server/src/routes/groupRoutes.js:76-79 | setting the same role twice equals setting it once |
| GroupModel.FindMemberSameUsers | server/src/routes/groupRoutes.js:76 | `find` depends only on the users of the entries, not on their roles |
| GroupModel.PromoteAdminIsNoOp | server/src/routes/groupRoutes.js:76-78 | with no repeated users, promoting an admin leaves the list unchanged |
| GroupModel.DemoteMemberIsNoOp | server/src/routes/groupRoutes.js:93-95 | demoting a member who is not an admin leaves the list unchanged |
| GroupModel.SetRoleKeepsUsers | server/src/routes/groupRoutes.js:76-78 | a role change neither adds nor removes members, nor creates or removes repeated users |
| GroupModel.WithoutUser | server/src/routes/groupRoutes.js:58-60 | the survivors are exactly the entries of other users; the user has no entry left; removing a non-member gives the same list |
| GroupModel.WithoutUserAppend | server/src/routes/groupRoutes.js:58-60 | the filter keeps the survivors' order: it distributes over concatenation |
| GroupModel.WithoutUserKeepsNoDuplicates | server/src/routes/groupRoutes.js:58-60 | removing a user keeps the other users distinct |
| GroupModel.AppendNewKeepsNoDuplicates | server/src/routes/groupRoutes.js:39-43 | appending an entry for a user without one keeps users distinct |
| GroupModel.AppendExistingMakesDuplicate | server/src/controllers/groupController.js:36 | appending an entry for a user who already has one creates a repeated user |
| GroupModel.WellFormed | server/src/models/Group.js:13 | the schema's `required: true` on `name`: a missing or empty name fails validation |
| GroupModel.RoleOrDefault | server/src/models/Group.js:6 | the schema default: the role is "admin" exactly when "admin" was supplied; otherwise "member" |
| GroupModel.ToEntries | server/src/controllers/groupController.js:12-15 | supplied entries keep their users and order; an entry without a role gets "member", one with a role keeps it |
| GroupModel.GroupsOf | server/src/routes/groupRoutes.js:25 | exactly the stored groups having an entry for the user, with their stored contents |
| MessageModel.IsWhitespace | server/src/models/Message.js:15 | exactly the characters JavaScript's `trim` removes: white space and line terminators |
| MessageModel.SkipSpace | server/src/models/Message.js:15 | the first non-whitespace position at or after `i`; everything skipped is whitespace |
| MessageModel.SkipSpaceBack | server/src/models/Message.js:15 | the end of the range once trailing whitespace is dropped; everything dropped is whitespace |
| MessageModel.Trim | server/src/models/Message.js:15 | the result is the slice of the input between its leading and trailing whitespace, neither starts nor ends with whitespace, and everything cut away is whitespace |
| MessageModel.TrimKeepsTrimmed | server/src/models/Message.js:15 | a string that neither starts nor ends with whitespace is unchanged |
| MessageModel.TrimIdempotent | server/src/models/Message.js:15 | trimming twice equals trimming once |
| MessageModel.TrimText | server/src/models/Message.js:15 | an absent text stays absent; a present one is stored as the slice of it between its leading and trailing whitespace, neither starting nor ending with whitespace, with only whitespace cut away |
| MessageModel.AddReader | server/src/controllers/messageController.js:50-53 | the user is afterwards a reader; earlier readers keep their places; at most one reader is added; nothing changes if already present; no reader repeats |
| MessageModel.AddReaderIdempotent | server/src/controllers/messageController.js:50-53 | marking as read twice gives the same read-set as once |
| MessageModel.FindMessage | server/src/controllers/messageController.js:47-48 | none exactly when no stored message has the id; otherwise a position holding that id |
| MessageModel.InGroup | server/src/routes/messageRoutes.js:32 | exactly the stored messages of the group, each as often as it is stored |
| MessageModel.InGroupAppend | server/src/routes/messageRoutes.js:32 | the selection keeps the store order: it distributes over concatenation |
| MessageModel.InGroupKeepsOrder | server/src/controllers/messageController.js:32-34 | selecting one group's messages keeps `createdAt` order |
| MessageModel.Insert | server/src/controllers/messageController.js:34 | inserting into an oldest-first list gives an oldest-first list with one more copy of the message |
| MessageModel.InsertBehindHead | server/src/controllers/messageController.js:34 | the step of the insertion that keeps the head keeps order and contents |
| MessageModel.SortByCreated | server/src/controllers/messageController.js:34 | the result is oldest first and a permutation of the input |
| MessageModel.SortSorted | server/src/controllers/messageController.js:34 | sorting an oldest-first list returns it unchanged |
| MessageModel.Reverse | server/src/routes/messageRoutes.js:36 | same length; element `i` is the input's element `n - 1 - i` |
| MessageModel.Take | server/src/routes/messageRoutes.js:34 | the first `min(n, length)` elements |
| Store.Db.CreateMessage | server/src/routes/messageRoutes.js:51-55 | appends a message with a fresh id, younger than every stored one, trimmed text and empty `readBy`; groups and users unchanged; the invariant is kept |
| Store.Db.SaveGroup | server/src/routes/groupRoutes.js:44 | the edited group replaces the stored one; messages and users unchanged; the invariant is kept |
| Store.Db.RemoveMessage | server/src/controllers/messageController.js:74 | the message at the position goes, the others keep their order, no message with its id remains; the invariant is kept |
| Store.Db.NewGroupId | server/src/routes/groupRoutes.js:12-16 | an id no stored group has |
| Store.RemoveAtDropsId | server/src/controllers/messageController.js:74 | after removing a position, later messages move up by one, the removed id is gone and the order is kept |
| GroupRoutes.CreateGroup | server/src/routes/groupRoutes.js:9-21 | empty name: 500 and no change; otherwise 200 and a new group with the caller as owner and only member, as admin, and no preview |
| GroupRoutes.MyGroups | server/src/routes/groupRoutes.js:24-29 | exactly the groups with an entry for the caller |
| GroupRoutes.AddMember | server/src/routes/groupRoutes.js:32-49 | 404 / 403 / 400 / 404 in the source's order, each without change; on 200 exactly `{userId, member}` is appended and distinct users stay distinct |
| GroupRoutes.RemoveMember | server/src/routes/groupRoutes.js:52-66 | 404 / 403 without change; on 200 every entry of the user goes, the others stay; a non-member: no change; distinct users stay distinct |
| GroupRoutes.ChangeRole | server/src/routes/groupRoutes.js:69-101 | 404 / 403 / 404 without change; on 200 only the target's first entry gets the role |
| GroupRoutes.PromoteAdmin | server/src/routes/groupRoutes.js:69-84 | as ChangeRole with "admin"; the target is then an admin; promoting an admin (no repeated users) changes nothing |
| GroupRoutes.DemoteAdmin | server/src/routes/groupRoutes.js:87-101 | as ChangeRole with "member"; the target (no repeated users) is then no admin; demoting a non-admin changes nothing |
| GroupRoutes.DemotedIsNotAdmin | server/src/routes/groupRoutes.js:93-95 | with no repeated users, the demoted user has no admin entry left |
| MessageRoutes.Recent | server/src/routes/messageRoutes.js:32-36 | `min(n, 50)` messages of the group, none repeated beyond its stored copies, oldest first, and no message of the group left out is younger than one returned |
| MessageRoutes.SuffixIsLatest | server/src/routes/messageRoutes.js:32-36 | a suffix of an oldest-first list is oldest first, a sub-multiset of the list, and holds its youngest elements |
| MessageRoutes.RecentIsSuffix | server/src/routes/messageRoutes.js:33-36 | reversing, keeping `k` and reversing back yields the last (at most) `k` elements |
| MessageRoutes.RecentOfOrderedStore | server/src/routes/messageRoutes.js:32-36 | on a store in `createdAt` order, the history is the group's last (at most) 50 messages in store order |
| MessageRoutes.RecentHistory | server/src/routes/messageRoutes.js:25-40 | 404 / 403 with nothing returned; otherwise the recent history; never more than 50, always of the group, oldest first |
| MessageRoutes.PostChecked | server/src/routes/messageRoutes.js:51-57 | one message appended, younger than all, and the group's preview moves to it; name, owner and members unchanged |
| MessageRoutes.PostText | server/src/routes/messageRoutes.js:43-62 | 404 / 403 without change; on 200 one message with the trimmed text is appended and becomes the preview |
| MessageRoutes.PostUpload | server/src/routes/messageRoutes.js:65-118 | 404 / 403, then 500 without a file, each without change; otherwise the URL "/uploads/" + file name in the image or voice field |
| MessageRoutes.PostImage | server/src/routes/messageRoutes.js:65-90 | 404 / 403, then 500 without a file, each without change; a member with a file gets 200 and one message with the URL in `imageUrl`, empty `readBy`, younger than every stored one, which becomes the preview |
| MessageRoutes.PostVoice | server/src/routes/messageRoutes.js:93-118 | 404 / 403, then 500 without a file, each without change; a member with a file gets 200 and one message with the URL in `voiceUrl`, empty `readBy`, younger than every stored one, which becomes the preview |
| GroupController.CreateGroup | server/src/controllers/groupController.js:5-22 | empty name: 500; otherwise 201 and members = the caller's admin entry first, then the supplied entries |
| GroupController.AddMember | server/src/controllers/groupController.js:25-43 | 404 / 403 without change; on 200 the list grows by exactly one entry, repeating a user already present |
| GroupController.GetUserGroups | server/src/controllers/groupController.js:46-56 | exactly the groups with an entry for the caller |
| GroupController.DeleteGroup | server/src/controllers/groupController.js:59-74 | 404 / 403 (admins too) without change; on 200 only that group goes and its messages remain |
| MessageController.SendMessage | server/src/controllers/messageController.js:5-25 | always 201: one message appended with no membership check; a stored group's preview moves to it, a missing group changes nothing |
| MessageController.GetGroupMessages | server/src/controllers/messageController.js:28-40 | the group's messages oldest first, a permutation of the group's stored messages, equal to them in store order |
| MessageController.MarkAsRead | server/src/controllers/messageController.js:43-59 | 404 without change; otherwise only that message's `readBy` gets the caller added if absent |
| MessageController.DeleteMessage | server/src/controllers/messageController.js:62-79 | 404; 500 when the group is gone; 403 unless sender or admin; on 200 exactly that message is removed and no group changes |
| Scenarios.RemovedMemberCannotPost | server/src/routes/messageRoutes.js:49-50 | after an admin removes a user, that user's post is refused with 403 and stores nothing |
| Scenarios.MarkAsReadTwice | server/src/controllers/messageController.js:50-53 | two marks answer the same and leave the store as one mark does |
| Scenarios.FindMessageAfterUpdate | server/src/controllers/messageController.js:47-52 | replacing a message by one with the same id does not move it |
| Scenarios.Walkthrough | server/src/routes/messageRoutes.js:43-62 | create, refused outsider, add, post: two members and one message that is the preview |
| Scenarios.NewTeam | server/src/routes/groupRoutes.js:9-21 | a fresh store with one group whose only member is its creator, as admin |
| Scenarios.OutsiderThenMember | server/src/routes/groupRoutes.js:32-49 | a non-member's post is refused; after the admin adds the user, the user is the second member |
| Scenarios.DeletionRights | server/src/controllers/messageController.js:62-79 | neither sender nor admin: 403; an admin: 200 |

## Left out

- Authentication (the `auth` middleware and its 401 answers) is left out.
  The caller's identity is a parameter of every handler.
- The socket.io layer is not part of this model: presence, rooms, broadcast
  fan-out and JWT checks on connect.
- File storage is reduced to its result. The multer disk storage and its
  random file name are not modelled; the stored file name is an input string.
- `server/src/models/User.js` (password hashing) is not part of this model.
  The user collection is reduced to the set of registered ids.
- Express and HTTP wiring, the database connection and the React client are
  not part of this model.
- The JSON bodies of responses are not modelled. The same goes for
  `populate` of sender, owner and preview, which only adds display fields.
- The `updatedAt` order of the group list is not modelled. The list is a map
  from group id to group.
- Concurrency is left out. Requests run one after another, so the
  read-modify-write race on `lastMessage` across concurrent posts does not
  arise in the model.
- Exceptions thrown by the database (500 on a failed write or a malformed id)
  are not modelled. The only 500s modelled are those that follow from the
  code itself: validation of the name, a missing upload, and a deleted group
  on message deletion.
- Supplied member entries in the controller's `createGroup` are assumed well
  typed: a known role or none. A malformed entry, which Mongoose would reject
  with a 500, is not represented.
- Documents are values, so two handlers never hold aliases of the same
  document.
- MessageModel.SortByCreated: ties in `createdAt` keep their input order. The
  database's order for ties is unspecified; the store's timestamps are
  distinct, so ties never arise in it.
