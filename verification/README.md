# Friend workflow of a social-network backend, in Dafny

This project models the friend-relationship logic of the backend's user
controller (`controllers/user.js`). That logic covers:

- the send-or-cancel friend-request handler (`friendRequestHandler`);
- accepting and declining a request (`friendRequestAccepted`,
  `friendRequestDeclined`);
- the `isFriend` / `isRequested` flags of `getUserProfile`;
- the id lists that `getAllMutualFriends` and `getAllFriendSuggestions`
  compute.

The Express handlers and Mongoose calls are lifted out as pure functions
over an immutable user store, `map<Id, User>`. A `User` keeps only its id
and its two relationship arrays, `friends` and `requests`. `findById` is a
map lookup. `save()` writes the whole record back under its own id.

Layout:

- `arrays.dfy` (module `Arrays`): the JavaScript array operations the
  handlers use, over sequences. It has `indexOf`, `pop`, `splice(start, 1)`
  with ECMAScript start clamping, `filter`, and `[].concat.apply`. It also
  has the first-occurrence de-duplication loop, both as a function and as
  the loop itself.
- `users.dfy` (module `Users`): ids, user records, the store, errors,
  replies, `save()`, and the relationship invariants.
- `requests.dfy` (module `Requests`): the three request handlers and the
  profile flags, as the code writes them.
- `request_laws.dfy` (module `RequestLaws`): what the handlers keep and
  what they break across calls.
- `queries.dfy` (module `Queries`): the mutual-friend and suggestion id
  lists.
- `query_laws.dfy` (module `QueryLaws`): commutativity and ordering of the
  queries.
- `intended.dfy` (module `Intended`): the corrected workflow the Findings
  below call for. It is kept separate and nothing else uses it.

The arrays are modelled as sequences, not sets, because the code's
behaviour depends on their order.

- A cancel calls `requests.pop(loggedInUser._id)`. `pop` ignores its
  argument, so the last pending request is removed, whoever sent it.
- Accept and decline call `requests.splice(index._id, 1)`. Here `index` is
  a number, so `index._id` is `undefined` and the splice starts at 0. The
  first pending request is removed, whoever sent it.
- Accept appends to both friends lists without checking that a request
  was pending, and without de-duplicating.
- Suggestions exclude only the caller's own id, not existing friends.

A design description of this system says the engine works on sets:
- cancel removes the requester;
- accept requires a pending request;
- suggestions exclude friends.

The code does none of this. Where the two disagree, the model follows the
code, and the set-based behaviour appears only in `Intended`.

Errors:

- A missing target user is answered with NotFound (404).
- A missing record for the caller makes the handler dereference null,
  which the catch block turns into a ServerError (500).
- `getAllMutualFriends` and `getAllFriendSuggestions` never check their
  lookups. A missing user there is therefore a ServerError, not a
  NotFound.

Saves: a record that was not modified writes nothing. So the second save
in decline, of the untouched declined user, is a no-op. When the two ids
of accept coincide, the handler loads one record as two documents. The
first save pushes onto `friends` and bumps the document's version. The
second save also replaces the spliced `requests`, so Mongoose filters
that update on the version it loaded. The update matches nothing and
fails with a version error. The reply is a ServerError, the user is
listed once as their own friend, and `requests` keep the request. This
relies on the User schema keeping Mongoose's default version key.
models/User.js is not part of this model.

## Model

| member | source | states |
|---|---|---|
| Arrays.IndexOf | controllers/user.js:220 | `indexOf` returns -1 exactly when the value is absent, and otherwise a position holding the value with no earlier occurrence |
| Arrays.Pop | controllers/user.js:181 | `pop` removes the last element whatever argument is passed; appending that element back gives the original list |
| Arrays.SpliceStart | controllers/user.js:221 | `splice` clamps its start into the array: a negative start counts from the end, and a start past the end is the length |
| Arrays.SpliceOne | controllers/user.js:221 | `splice(start, 1)` removes exactly the element at the clamped start, leaving the elements before and after it in place; when the start is at the end nothing changes |
| Requests.DropRequestAtUndefined | controllers/user.js:220-221 | `splice(index._id, 1)` with `index` a number drops the first request of a non-empty list and leaves an empty list alone |
| Arrays.Filter | controllers/user.js:586 | `filter` keeps each kept value exactly as often as it occurs and drops the rest; the result is a subsequence of the input and stays duplicate-free |
| Arrays.Flatten | controllers/user.js:450 | `[].concat.apply([], lists)` holds exactly the values that occur in some list |
| Arrays.FlattenSingle | controllers/user.js:450 | concatenating a single list gives that list back |
| Arrays.FlattenConcat | controllers/user.js:450 | concatenating `a + b` gives the concatenation of `a` followed by that of `b`, which fixes the order and multiplicity of every value |
| Arrays.Dedup | controllers/user.js:453-458 | the de-duplicated list has no repeats and holds exactly the values of its input |
| Arrays.UniqueInOrder | controllers/user.js:453-458 | the source's `forEach`/`includes`/`push` loop produces the duplicate-free list in first-occurrence order |
| Arrays.DedupKeepsFirstOccurrenceOrder | controllers/user.js:453-458 | the de-duplicated values appear in the order of their first occurrence in the input |
| Arrays.DedupIsUnique | controllers/user.js:453-458 | no repeats, same values and first-occurrence order together determine the de-duplicated list completely |
| Users.Save | controllers/user.js:182 | `save()` stores the record under its own id and leaves every other user untouched |
| Requests.Toggle | controllers/user.js:162-203 | a missing target is NotFound and a missing caller a ServerError, with nothing saved; if either user lists the other, the reply is "Already friends" with nothing saved; otherwise a pending request from the caller is cancelled by dropping the target's last request, and failing that the caller is appended to the target's requests; only the target's requests ever change |
| Requests.Accept | controllers/user.js:205-236 | a missing target is NotFound and a missing caller a ServerError. Between two distinct users, each id is appended to the other's friends, so the pair is symmetric. The accepter loses its first pending request, whoever sent it, and no other user changes. A self-accept answers with a ServerError: only the first save lands, so the user's friends gain their own id and their requests stay as they were |
| Requests.Decline | controllers/user.js:238-266 | a missing target is NotFound and a missing caller a ServerError; otherwise no friends list changes, the decliner loses its first pending request whoever sent it, and no other record changes |
| Requests.ProfileFlags | controllers/user.js:487-504 | a missing viewed user is NotFound; otherwise `isFriend` holds exactly when the viewed user lists the caller as a friend, and `isRequested` exactly when the caller has a request pending with them |
| RequestLaws.ToggleDecidedByProfile | controllers/user.js:174-194 | the profile's `isFriend` flag (or the caller listing the target) means "Already friends"; otherwise `isRequested` means a cancel, and otherwise a send |
| RequestLaws.ProfileAfterSend | controllers/user.js:189-190 | after a send, the target's profile shows the caller as requested and not as a friend |
| RequestLaws.ProfileAfterAccept | controllers/user.js:217-224 | after an accept, each of the two profiles shows the other as a friend |
| RequestLaws.SendThenCancelRestores | controllers/user.js:180-194 | a send followed by a second call restores the store exactly, because `push` then `pop` undo each other |
| RequestLaws.CancelDropsLatestRequest | controllers/user.js:180-182 | when the caller's request is followed by another user's, a cancel leaves the caller's request pending and loses the other one |
| RequestLaws.ToggleKeepsSymmetry | controllers/user.js:174-195 | send and cancel keep friendship symmetric |
| RequestLaws.DeclineKeepsSymmetry | controllers/user.js:250-254 | decline keeps friendship symmetric |
| RequestLaws.AcceptKeepsSymmetry | controllers/user.js:217-224 | accept keeps friendship symmetric |
| RequestLaws.ToggleKeepsNoRequestFromFriend | controllers/user.js:174-195 | send and cancel never leave a pending request from a friend |
| RequestLaws.DeclineKeepsNoRequestFromFriend | controllers/user.js:250-254 | decline never leaves a pending request from a friend |
| RequestLaws.AcceptCanLeaveRequestFromFriend | controllers/user.js:217-221 | when the accepted request is not the first pending one, the accepted user becomes a friend while their request stays pending, and the first requester's request is lost |
| RequestLaws.DeclineDropsFirstRequest | controllers/user.js:250-251 | when the declined request is not the first pending one, it stays pending and the first requester's request is lost |
| RequestLaws.SelfFriendshipReachable | controllers/user.js:174-194 | a user can send a request to themself and then accept it. They become their own friend, while the accept answers with a ServerError and the request stays pending |
| RequestLaws.AcceptTwiceDuplicatesFriend | controllers/user.js:217-218 | accepting twice succeeds both times and puts the other user into the friends list twice |
| RequestLaws.SendThenAccept | controllers/user.js:174-224 | a send to a user with no requests, accepted by them, makes the two friends, leaves the accepter with no request, and changes no other user |
| RequestLaws.SendThenDecline | controllers/user.js:174-254 | a send to a user with no requests, declined by them, leaves them with no request and no friend, and changes no other user |
| RequestLaws.SendAcceptSendDecline | controllers/user.js:162-266 | between three fresh users: a send and an accept make a symmetric friendship with no requests left; a send and a decline leave no request and no friendship |
| Queries.MutualFriends | controllers/user.js:576-586 | a missing other user is a ServerError; otherwise the result holds exactly the caller's friends that the other user lists, each as often as in the caller's list, in the caller's order |
| Queries.FriendLists | controllers/user.js:444-449 | fetching succeeds exactly when every friend exists, and then yields each friend's friends list in order; otherwise it is a ServerError |
| Queries.SuggestionIds | controllers/user.js:439-461 | succeeds exactly when every friend exists; the list has no repeats, never holds the caller, and holds exactly the friends-of-friends other than the caller |
| QueryLaws.SuggestionsInFirstOccurrenceOrder | controllers/user.js:444-461 | the suggestions appear in the order each id is first met in the concatenated friends' friend lists |
| QueryLaws.SuggestionsIncludeFriends | controllers/user.js:461 | a user who is already the caller's friend is still suggested when another friend lists them |
| QueryLaws.MutualFriendsCommuteAsSets | controllers/user.js:586 | the mutual friends of A and B are those of B and A, as sets |
| QueryLaws.MutualFriendsOrderFollowsCaller | controllers/user.js:586 | as lists, the mutual friends follow the caller's order, so (A, B) and (B, A) can differ |
| QueryLaws.SingleCommonFriend | controllers/user.js:586 | two users whose only friend is C have exactly C in common |
| QueryLaws.SubsequenceKeepsOrder | controllers/user.js:454-461 | removing the caller's id after de-duplication keeps first-occurrence order |
| Intended.Toggle | controllers/user.js:174-194 | corrected: a request to oneself is refused. Between non-friends, a pending request from the caller is cancelled and anything else is a send. A cancel removes the caller's request and keeps every other one. A send appends the caller to the target's requests |
| Intended.Accept | controllers/user.js:217-221 | corrected: a pending request between distinct users is accepted, and anything else is refused. The pair become friends and neither keeps a request from the other. Every other pending request is kept, as often as it was pending |
| Intended.Decline | controllers/user.js:250-251 | corrected: the declined user's request is removed, and every other request is kept |
| Intended.SuggestionIds | controllers/user.js:460-461 | corrected: the suggestions are exactly the friends-of-friends who are neither the caller nor already the caller's friends, with no repeats |
| Intended.ToggleKeepsConsistent | controllers/user.js:174-195 | the corrected send-or-cancel keeps friendship symmetric, keeps users from being their own friend, and keeps requests from friends out |
| Intended.AcceptKeepsConsistent | controllers/user.js:217-221 | the corrected accept keeps the same three invariants |
| Intended.DeclineKeepsConsistent | controllers/user.js:250-251 | the corrected decline keeps the same three invariants |
| Intended.AcceptTwiceRefused | controllers/user.js:217-218 | with the correction, a second accept of the same user is refused with InvalidState |
| Intended.SendThenCancelRestores | controllers/user.js:180-194 | with the correction, a send followed by a cancel still restores the store exactly |

## Left out

- register, login, logout, updatePassword, forgotPassword and resetPassword are left out. They consist of credential hashing, JWT issuing, SHA-256 and email delivery, all of them foreign calls.
- updateProfile and deleteMyProfile are left out. They are Cloudinary uploads and cascading database deletes.
- myProfile, getMyPosts, getUserPosts, getAllFriends, getAllFriendsOfOthers, getAllFriendRequests and getAllUsers are left out. Each is a database `$in` or regex query plus trivial filtering.
- The `User.find({ _id: { $in: … } })` fetches at the end of both queries are database reads. They are left out, so the model stops at the id list.
- The `_.shuffle` of the suggestions is random and only affects presentation, so it is left out.
- The `populate("posts")` of getUserProfile is left out. It only attaches documents.
- routes/user.js and app.js are Express wiring. middlewares/auth.js verifies a JWT through an external library. The model takes the caller's id, or for the two queries the caller's record, as a parameter.
- Async/await and the race between the two `save()` calls of accept are not modelled. The model runs each handler atomically. Concurrent requests on the same pair of users are last-write-wins at the database, with no transaction.
- Requests.Accept: saves are modelled as whole-record writes, not as Mongoose's `$push` and `$set` updates. The two agree for every save these handlers make in sequence. The version error of a self-accept is modelled directly, on the assumption that the User schema keeps the default version key.
- Mongoose's document versioning is otherwise not modelled. Under concurrent requests it can reject a save of a stale array with a VersionError.
- The JSON reply bodies are not modelled: the `success` flag and the message strings. The model names each reply by its Outcome or Error. NotFound stands for status 404 and ServerError for 500.
- A null `req.user` is not modelled. It happens when the middleware finds no user for the token, and the handler then throws a ServerError before its target check. The model starts from the caller's id.
- Exceptions from the database driver are not modelled. Neither are casting errors for malformed ids, which the handlers' catch blocks would also turn into a 500.

## Findings

| source | as written | input that shows it | evidently intended | confidence | as-written member | corrected member |
|---|---|---|---|---|---|---|
| controllers/user.js:181 | `requests.pop(loggedInUser._id)` ignores its argument and drops the last pending request | target's requests `[me, later]`, not friends: a cancel leaves `[me]` | remove the caller's own request | high, not executed | RequestLaws.CancelDropsLatestRequest | Intended.Toggle |
| controllers/user.js:220-221 | `splice(index._id, 1)` gets an undefined start, so accept drops the first pending request | accepter's requests `[first, other]`, accept `other`: `other` becomes a friend and stays pending, and `first` is lost | remove the accepted user's request | high, not executed | RequestLaws.AcceptCanLeaveRequestFromFriend | Intended.Accept |
| controllers/user.js:250-251 | the same `splice(index._id, 1)` in decline drops the first pending request | decliner's requests `[first, other]`, decline `other`: `other` stays pending and `first` is lost | remove the declined user's request | high, not executed | RequestLaws.DeclineDropsFirstRequest | Intended.Decline |
| controllers/user.js:217-218 | accept appends to both friends lists without checking for a pending request | two accepts of the same user: that user is in the friends list twice | refuse an accept without a pending request | medium, not executed | RequestLaws.AcceptTwiceDuplicatesFriend | Intended.AcceptTwiceRefused |
| controllers/user.js:174-194 | no check that the target differs from the caller | a user sends a request to themself and accepts it: they are their own friend, although the reply is a ServerError | refuse a request to oneself | medium, not executed | RequestLaws.SelfFriendshipReachable | Intended.ToggleKeepsConsistent |
| controllers/user.js:461 | only the caller's own id is removed from the suggestions | caller with friends B and C, and B lists C: C is suggested though already a friend | suggest only users who are not yet friends | medium, not executed | QueryLaws.SuggestionsIncludeFriends | Intended.SuggestionIds |
