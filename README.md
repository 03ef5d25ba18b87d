# Janvo core in Dafny

A model of the logic of its own in a language-exchange chat application. It
covers the backend's friend-request controller, auth controller and chat
controller, and the two frontend pages that derive and invert the id of a
two-user chat channel.

- **Store** (`database.dfy`, module `Database`). There are two tables: users and
  friend requests. `Consistent` is the invariant every modelled backend operation keeps:
  - emails are unique;
  - friend lists have no duplicates and name only stored users;
  - a request joins two distinct stored users;
  - there is at most one request per unordered pair;
  - two users are friends exactly when an accepted request joins them.

  Onboarding as written breaks it (see Findings), and a crash between accept's
  writes can leave it broken until the accept is re-run (`AcceptRerunRepairs`).
  From this invariant friendship is mutual (`FriendshipSymmetric`). The class
  `Store` holds both tables. The controllers' methods update it in place.
- **Friend requests** (`user_controller.dfy`, module `UserController`):
  - send and accept, each as a method on the `Store` proved against a function
    of the old tables;
  - the read-side filters;
  - the shaping of the latest-chats list.
- **Auth** (`auth_controller.dfy`, module `AuthController`):
  - signup's ordered checks, including an executable email test proved equal to
    the regular expression;
  - login's single failure reply;
  - onboarding's missing-field list and profile update.
- **Chat bridge** (`chat_controller.dfy`, module `ChatController`): the token
  endpoint's failure paths, and the notification endpoint's checks, channel,
  members and default message type.
- **Channel ids** (`channel_ids.dfy`, module `ChannelIds`): `[a, b].sort().join("-")`.
- **Pages** (`chat_page.dfy`, `messages_page.dfy`):
  - the chat page's channel;
  - its `typingUsers` and `notifications` lists, as the class `ChatView` with
    one method per event handler;
  - the search guard and the typing indicator;
  - the messages page's recovery of the friend's id from a channel id.
- **JavaScript text semantics** (`js_text.dfy`, module `JsText`): `\s` and
  `trim`, string `<`, and `split`/`join` on one character.

Conventions:
- An absent or falsy request field is the empty string.
- A friend request's id is its position in the request table.
- The authenticated user that the route middleware loads is a precondition
  (`me in db.users`).
- Calls the code cannot see are parameters: the password comparison, the
  provider's success or failure, the generated token, the random avatar index
  and the new record's id.

Two behaviours of the code worth knowing:
- sendFriendRequest's already-friends check asks whether the sender is in the
  recipient's friend list. In a consistent store this agrees with the reverse
  question (`FriendshipSymmetric`), and `SendSucceedsIff` shows the check never
  decides on its own.
- A second accept by the recipient succeeds again and changes nothing, since
  there is no pending-status check (`AcceptIdempotent`). An accept by the sender
  is always 403 (`SenderCannotAccept`).

## Model

| member | source | states |
|---|---|---|
| ChannelIds.SortPair | frontend/src/pages/ChatPage.jsx:74 | the sorted pair is a permutation of the two ids and is in `<` order |
| ChannelIds.ChannelIdSymmetric | frontend/src/pages/ChatPage.jsx:74 | both users derive the same channel id, whichever computes it |
| ChannelIds.ChannelIdSplits | frontend/src/pages/MessagesPage.jsx:16-19 | for ids without '-', splitting the channel id on '-' gives back exactly the sorted pair |
| JsText.Trim | frontend/src/pages/ChatPage.jsx:121 | `trim()` is empty exactly when every character is JavaScript white space |
| JsText.LessIsStrictTotal | frontend/src/pages/ChatPage.jsx:74 | string `<` is trichotomous and irreflexive, so the two-element sort is determined |
| JsText.LessTransitive | frontend/src/pages/ChatPage.jsx:74 | string `<` is transitive; with LessIsStrictTotal it is a strict total order |
| JsText.Split | frontend/src/pages/MessagesPage.jsx:18 | `split` gives at least one part, no part contains the separator, and joining the parts restores the string |
| JsText.SplitJoin | frontend/src/pages/MessagesPage.jsx:16-19 | splitting a join gives the parts back when no part contains the separator |
| AuthController.MirrorCallFor | backend/src/lib/stream.js:24-41 | the intended upsert carries the user's own id, name and picture |
| Database.FriendshipSymmetric | backend/src/controllers/user.controller.js:100-108 | in a consistent store, if u lists v then v is stored, v lists u, and u ≠ v |
| UserController.SendFriendRequest | backend/src/controllers/user.controller.js:38-75 | keeps the store consistent; the new tables and the reply are those of the four ordered checks and the single pending record |
| UserController.SendKeepsConsistency | backend/src/controllers/user.controller.js:57-73 | a send keeps every invariant, in particular one request per unordered pair |
| UserController.SendSucceedsIff | backend/src/controllers/user.controller.js:43-67 | a send succeeds iff it is not to oneself, the recipient exists and no request of any status or direction joins the two |
| UserController.SendChangesIffCreated | backend/src/controllers/user.controller.js:69-75 | the tables change iff a request is created, and then by exactly that one pending request at the reported id, with no user record changed |
| UserController.SendThenReverseRefused | backend/src/controllers/user.controller.js:58-67 | after send(A,B) succeeds, both send(A,B) and send(B,A) are refused as duplicates |
| UserController.AcceptedPairRefused | backend/src/controllers/user.controller.js:52-55 | a pair joined by an accepted request is refused as already friends and nothing changes |
| UserController.AcceptWrites | backend/src/controllers/user.controller.js:97-108 | accept's writes touch only the request at the id, flip it to accepted with the first write, keep the set of users and every other user's record, give the sender the `$addToSet` of the recipient with the second write and the recipient that of the sender with the third, and after all three writes each party lists the other |
| UserController.AcceptFriendRequest | backend/src/controllers/user.controller.js:82-110 | keeps the store consistent; the new tables and reply are those of the two checks and the three writes |
| UserController.AddToSet | backend/src/controllers/user.controller.js:101-107 | `$addToSet` adds exactly the value and never creates a duplicate |
| UserController.AddFriendPresent | backend/src/controllers/user.controller.js:101-104 | an `$addToSet` of a value already present writes nothing |
| UserController.FriendsAfterAccept | backend/src/controllers/user.controller.js:102-108 | the two insertions add exactly sender↔recipient, keep lists duplicate-free and keep the set of users |
| UserController.AcceptedAfterFlip | backend/src/controllers/user.controller.js:97-98 | after the status flip a pair is joined by an accepted request iff it was before or it is the flipped request's pair |
| UserController.AcceptKeepsConsistency | backend/src/controllers/user.controller.js:97-108 | an accept keeps every invariant, in particular mutual friendship |
| UserController.AcceptMakesFriends | backend/src/controllers/user.controller.js:97-108 | after a successful accept the request is accepted and each party lists the other |
| UserController.AcceptRefusals | backend/src/controllers/user.controller.js:86-95 | 404 iff the id is unknown, 403 iff the actor is not the recipient, and a refusal changes nothing |
| UserController.RequestsOnlyAdvance | backend/src/controllers/user.controller.js:70-98 | requests are never removed or re-addressed and accepted never reverts to pending |
| UserController.SenderCannotAccept | backend/src/controllers/user.controller.js:92-95 | the sender of a request is always refused with 403 and nothing changes |
| UserController.AcceptRerunRepairs | backend/src/controllers/user.controller.js:97-108 | re-running accept after any number of its three writes ends in the state of one complete accept |
| UserController.AcceptIdempotent | backend/src/controllers/user.controller.js:97-110 | accepting twice gives the same tables and reply as accepting once |
| UserController.Select | backend/src/controllers/user.controller.js:117-141 | a request is listed iff it is stored and matches the filter |
| UserController.SelectConcat | backend/src/controllers/user.controller.js:117-141 | the listing of two runs of requests is their listings concatenated, so matches keep the stored order |
| UserController.IncomingRequests | backend/src/controllers/user.controller.js:119-122 | listed iff a stored pending request addressed to me |
| UserController.AcceptedRequests | backend/src/controllers/user.controller.js:124-127 | listed iff a stored accepted request sent by me |
| UserController.OutgoingRequests | backend/src/controllers/user.controller.js:138-141 | listed iff a stored pending request sent by me |
| UserController.RecommendedUsers | backend/src/controllers/user.controller.js:9-20 | never me, only stored onboarded users who are not my friends, and every such user |
| UserController.SentRequestListed | backend/src/controllers/user.controller.js:117-141 | a new request appears in the recipient's incoming list and the sender's outgoing list |
| UserController.AcceptMovesRequest | backend/src/controllers/user.controller.js:117-141 | after accept the request is in the sender's accepted list and out of both pending lists |
| UserController.AcceptEndsRecommendation | backend/src/controllers/user.controller.js:14-20 | after accept neither party is recommended to the other |
| UserController.RecommendedCanBeAsked | backend/src/controllers/user.controller.js:14-20 | a recommended user passes the self, existence and friendship checks of a send |
| UserController.OtherMember | backend/src/controllers/user.controller.js:173-175 | the first member other than me, every earlier member being me; none iff every member is me |
| UserController.Summarize | backend/src/controllers/user.controller.js:170-191 | a summary exists iff `find` gives a non-empty other member; it keeps the channel id; its friend card is present iff that member is stored, and then carries their id, name, picture and presence (offline when unknown); its last message is the last text or ""; its time is the state's, else the channel's |
| UserController.LatestChats | backend/src/controllers/user.controller.js:171-194 | every entry is the summary of a channel, every channel's summary is listed, and none is dropped when every channel has one |
| UserController.LatestChatsConcat | backend/src/controllers/user.controller.js:171-194 | the reply for two runs of channels is their replies concatenated, so summaries keep the channels' order |
| UserController.LatestChatsAppend | backend/src/controllers/user.controller.js:171-194 | one more channel appends its summary, or nothing when it is dropped, at the end |
| AuthController.IndexOf | backend/src/controllers/auth.controller.js:17 | the first occurrence of a character, or none iff it is absent |
| AuthController.IndexOfFirst | backend/src/controllers/auth.controller.js:17 | a position holding the character with none before it is the first occurrence |
| AuthController.ValidEmailHasPattern | backend/src/controllers/auth.controller.js:17-18 | every email the scan accepts matches the regular expression |
| AuthController.PatternIsValidEmail | backend/src/controllers/auth.controller.js:17-18 | every match of the regular expression is accepted by the scan |
| AuthController.EmailCheckMatchesPattern | backend/src/controllers/auth.controller.js:17-20 | the email test accepts exactly the strings `^[^\s@]+@[^\s@]+\.[^\s@]+$` matches |
| AuthController.Signup | backend/src/controllers/auth.controller.js:5-61 | keeps the store consistent; the new tables and reply are those of the four ordered checks and the created user |
| AuthController.SignupKeepsConsistency | backend/src/controllers/auth.controller.js:22-35 | a signup keeps every invariant, in particular unique emails |
| AuthController.PasswordLengthBoundary | backend/src/controllers/auth.controller.js:13-15 | a 5-character password fails the length check and a 6-character one passes it |
| AuthController.DuplicateEmailCreatesNoUser | backend/src/controllers/auth.controller.js:22-25 | a taken email gives 400 'Email already exists' and creates no user |
| AuthController.FindByEmail | backend/src/controllers/auth.controller.js:76 | finds the user holding the email, and none iff no user does |
| AuthController.Login | backend/src/controllers/auth.controller.js:68-99 | 400 iff a field is missing, otherwise every refusal is the one 401; a login names the user holding the email whose credential matches, with the session cookie |
| AuthController.LoginFailureIsGeneric | backend/src/controllers/auth.controller.js:76-84 | an unknown email and a wrong password get the identical 401 reply |
| AuthController.LoginSucceedsIff | backend/src/controllers/auth.controller.js:68-99 | login succeeds for a user iff both fields are given, that user holds the email, and the password matches its credential |
| AuthController.SignupThenLogin | backend/src/controllers/auth.controller.js:30-35 | after a signup, logging in with the same email and password reaches the new user when the credential matches |
| AuthController.MissingFields | backend/src/controllers/auth.controller.js:119-125 | lists exactly the empty profile fields, each once, in the order fullName, bio, nativeLanguage, learningLanguage, location |
| AuthController.OnboardRefusedIffMissing | backend/src/controllers/auth.controller.js:116-127 | the 400 reply is given iff the missing-field list is non-empty, and then nothing changes |
| AuthController.OnlyBioMissing | backend/src/controllers/auth.controller.js:116-126 | a body missing only bio is answered with exactly the one field bio |
| AuthController.Onboard | backend/src/controllers/auth.controller.js:111-153 | keeps the store consistent; the user gets the five fields and isOnboarded, or 400 / 404 leaves the tables unchanged |
| AuthController.OnboardKeepsConsistency | backend/src/controllers/auth.controller.js:129-135 | updating the profile fields and the onboarding flag keeps every invariant |
| AuthController.OnboardedUserIsRecommended | backend/src/controllers/auth.controller.js:129-135 | once onboarded, a user is recommended to every other user who is not a friend |
| AuthController.OnboardAsWrittenBreaksFriendship | backend/src/controllers/auth.controller.js:129-135 | with the body spread into the update, a `friends` key naming a stranger makes friendship one-sided |
| AuthController.MirrorCallAsWritten | backend/src/controllers/auth.controller.js:38-42 | the upsert as called passes no name and no image |
| AuthController.MirrorAsWrittenLosesUser | backend/src/controllers/auth.controller.js:38-42 | as called, the upsert never carries the user's id, and all users map to one identity |
| AuthController.MirrorCallSeparatesUsers | backend/src/controllers/auth.controller.js:143-147 | called positionally, distinct users get distinct provider identities |
| ChatController.GetStreamToken | backend/src/controllers/chat.controller.js:4-24 | 404 iff the user is missing; a token is issued iff the upsert succeeds and a non-empty token is generated, and it is that token; every other failure is 500 |
| ChatController.TokenMirrorCall | backend/src/controllers/chat.controller.js:6-12 | an upsert happens iff the user exists; it carries the user's own id, full name and profile picture, and differs from the object-argument call of signup and onboarding |
| ChatController.TokenMirrorSeparatesUsers | backend/src/controllers/chat.controller.js:12 | two distinct users fetching tokens are mirrored as distinct provider users |
| ChatController.MessageKind | backend/src/controllers/chat.controller.js:50 | the type is never empty: the given type, or "notification" when none is given |
| ChatController.NotificationFor | backend/src/controllers/chat.controller.js:41-56 | the channel id is the symmetric sorted pair, the members are exactly sender and recipient, and the message is the sender's text |
| ChatController.SendNotification | backend/src/controllers/chat.controller.js:26-62 | sender checked before recipient, each absence 404; a provider failure 500 "Failed to send notification"; sent iff both exist and the provider succeeds, posting the sender's text as the sender into the symmetric channel of exactly the two users with the defaulted type |
| ChatController.SendNotificationAsWritten | backend/src/controllers/chat.controller.js:40-44 | as written no notification is ever sent |
| ChatController.NotificationNeverSentAsWritten | backend/src/controllers/chat.controller.js:40-44 | when both users exist the code as written answers 500 where the provider would have accepted the notification |
| ChatController.AsWrittenAgreesOnLookups | backend/src/controllers/chat.controller.js:29-38 | on a missing sender or recipient, the code as written and the corrected code answer alike |
| ChatController.NotificationsShareChannel | backend/src/controllers/chat.controller.js:41-45 | notifications either way between two users go to the same channel with the same members |
| ChatPage.OpenChannel | frontend/src/pages/ChatPage.jsx:74-80 | a "messaging" channel whose id is the symmetric sorted pair and whose members are exactly me and the target |
| ChatPage.BothSidesOpenSameChannel | frontend/src/pages/ChatPage.jsx:74-78 | the two users open the same channel with the same members |
| ChatPage.PageWatchesNotificationChannel | frontend/src/pages/ChatPage.jsx:74 | the page watches the channel into which the other user's notification is posted |
| ChatPage.WithTyper | frontend/src/pages/ChatPage.jsx:86-90 | the old list is kept as a prefix; it changes iff the typer is someone else, who is then appended at the end |
| ChatPage.WithoutTyper | frontend/src/pages/ChatPage.jsx:92-94 | exactly the entries with another id remain |
| ChatPage.WithoutTyperDistributes | frontend/src/pages/ChatPage.jsx:92-94 | removal works piece by piece, so the remaining entries keep their order |
| ChatPage.StopAfterStart | frontend/src/pages/ChatPage.jsx:86-94 | a stop after a start of the same user leaves the list as the stop alone would |
| ChatPage.StopIdempotent | frontend/src/pages/ChatPage.jsx:92-94 | stopping twice is stopping once |
| ChatPage.TypingIndicator | frontend/src/pages/ChatPage.jsx:202-206 | nothing is shown iff nobody types |
| ChatPage.IndicatorAgreement | frontend/src/pages/ChatPage.jsx:204 | the text ends in " is typing..." iff exactly one user types, and in " are typing..." otherwise |
| ChatPage.WithNotification | frontend/src/pages/ChatPage.jsx:97-100 | the old list is kept as a prefix; it changes iff the message is of type "notification", which is then appended at the end |
| ChatPage.OnlyNotifications | frontend/src/pages/ChatPage.jsx:97-100 | keeps exactly the messages of type "notification" |
| ChatPage.ReplayKeepsNotifications | frontend/src/pages/ChatPage.jsx:97-100 | after a run of events the list is the old list followed by exactly their notification messages, in arrival order |
| ChatPage.DefaultNotificationListed | frontend/src/pages/ChatPage.jsx:97-100 | a notification posted without a type is listed by the receiving page |
| ChatPage.SearchRuns | frontend/src/pages/ChatPage.jsx:120-121 | a search runs iff a channel exists and the query is not white space alone |
| ChatPage.ChatView.constructor | frontend/src/pages/ChatPage.jsx:33-37 | both lists start empty |
| ChatPage.ChatView.OnTypingStart | frontend/src/pages/ChatPage.jsx:86-90 | another user is appended at the end, duplicates allowed; my own event changes nothing; I never appear among the typers |
| ChatPage.ChatView.OnTypingStop | frontend/src/pages/ChatPage.jsx:92-94 | every entry with that id is removed, the rest kept in order |
| ChatPage.ChatView.OnMessageNew | frontend/src/pages/ChatPage.jsx:96-105 | only notification messages are appended; typing state is untouched |
| MessagesPage.FriendIdFromChannel | frontend/src/pages/MessagesPage.jsx:15-19 | undefined iff the id has no '-' and is my id; the first part unless it is me; the second part when the first is me; my own id only for a "me-me" channel |
| MessagesPage.HandleChatClick | frontend/src/pages/MessagesPage.jsx:15-21 | navigates to "/chat/" followed by the first part of the id unless it is me, else the second part, else "undefined" |
| MessagesPage.FriendIdRoundTrip | frontend/src/pages/MessagesPage.jsx:16-20 | for ids without '-', clicking the channel of me and f recovers f and navigates to "/chat/" + f |
| MessagesPage.OutsiderGetsFirstMember | frontend/src/pages/MessagesPage.jsx:19 | a user not in the channel gets its first (smaller) member |
| MessagesPage.DashedIdBreaksRoundTrip | frontend/src/pages/MessagesPage.jsx:16-19 | with a '-' inside an id the round trip fails ("a" and "b-c" recover "b") |
| MessagesPage.ClickOpensShownFriend | frontend/src/pages/MessagesPage.jsx:40-44 | clicking a latest-chats entry opens the chat of the friend the entry shows |

## Left out

- Process failures and concurrency: the catch-all 500 for unexpected exceptions (store unreachable, a malformed id that the store cannot cast) is not modelled. Interleavings of concurrent requests are not modelled either.
- Crash points: only the three writes of accept are modelled one by one (`AcceptWrites`). Every other handler is one atomic step.
- JSON values that are not strings (numbers, arrays) in request bodies are left out. Falsy fields are the empty string. Lengths and `<` are counted in characters, not UTF-16 code units.
- `getMyFriends` and `logout` are left out: one is a populate query, the other only clears the cookie. The route files and the auth middleware are left out too, except that the latter loads `req.user` (a precondition).
- Password hashing, token signing, cookie transport and the store's `populate` are left out. Login takes the password comparison as a parameter. Signup and login return the token as given. The cookie options are a value (`Session`).
- `backend/src/lib/stream.js` and the provider's SDK are not part of this model, except the positional argument binding of `upsertStreamUser` (`MirrorCall`). Each provider call is a success-or-failure parameter.
- Signup's and onboarding's mirror failures: these calls' failures are caught. The reply functions therefore take no provider parameter: the replies cannot depend on a mirror's outcome.
- getLatestChats: the channel and presence queries, their limits and sort order, and the `Promise.all` fan-out are left out. Only the shaping of each channel is modelled. The presence map is an input. The member list is one sequence, whichever of `state.members` and `data.members` provides it.
- React rendering is left out: toasts, the loading state, search results, scrolling, date formatting, the video-call link and the `useEffect` lifecycle. Navigation is modelled as the path string.
- AuthController.Signup: the random avatar index is a parameter in [1, 100] (a precondition), not the floating-point expression.
- AuthController.MissingFields: the list holds the fields as a datatype. `FieldName` gives the names the reply sends.
- AuthController.Onboard: the update writes only the five profile fields and the onboarding flag. The code as written also copies any other body key. Only a `friends` key is modelled, in `AfterOnboardAsWritten` (see Findings).
- ChatController.SendNotification: models the handler with the provider client in scope. The code as written is `SendNotificationAsWritten` (see Findings).

## Findings

| source | as written | input that shows it | evidently intended | confidence | as-written member | corrected member |
|---|---|---|---|---|---|---|
| backend/src/controllers/chat.controller.js:42 | `streamClient` is used but never imported into the controller, so the handler throws there and answers 500 | any request whose sender and recipient both exist | create the channel, add both users and post the message | high; not executed | ChatController.NotificationNeverSentAsWritten | ChatController.SendNotification |
| backend/src/controllers/auth.controller.js:38-42 | one object is passed to `upsertStreamUser(userId, name, image)`, so the id becomes "[object Object]" and name and image are undefined (also at lines 143-147) | any successful signup or onboarding | pass the id, name and picture positionally, as getStreamToken does | high; not executed | AuthController.MirrorAsWrittenLosesUser | AuthController.MirrorCallSeparatesUsers |
| backend/src/controllers/auth.controller.js:129-135 | the whole request body is spread into the update, so a client-supplied `friends` replaces the stored friend list | user a onboarding with body friends ["b"] while b is not a's friend | update only the five profile fields and the onboarding flag | medium; not executed | AuthController.OnboardAsWrittenBreaksFriendship | AuthController.OnboardKeepsConsistency |
