/** The friend-request controller: sending and accepting requests, the
    read-side filters (recommended users, incoming, accepted and outgoing
    requests) and the shaping of the latest-chats list. */
module UserController {
  import opened JsText
  import opened Database

  // ---------------------------------------------------------------------
  // sendFriendRequest

  datatype SendError = SelfRequest | RecipientNotFound | AlreadyFriends | RequestExists

  datatype SendReply = RequestCreated(id: nat, request: FriendRequest) | SendRefused(status: int, message: string)

  function SendRefusal(e: SendError): SendReply {
    match e
    case SelfRequest => SendRefused(400, "You cannot send a friend request to yourself.")
    case RecipientNotFound => SendRefused(404, "Recipient not found.")
    case AlreadyFriends => SendRefused(400, "You are already friends with this user.")
    case RequestExists => SendRefused(400, "Friend request already exists.")
  }

  /** The four checks of sendFriendRequest, in the order the code makes them;
      the first that fails decides the reply. */
  function SendCheck(db: Db, me: Id, target: Id): Option<SendError> {
    if me == target then Some(SelfRequest)
    else if target !in db.users then Some(RecipientNotFound)
    else if me in db.users[target].friends then Some(AlreadyFriends)
    else if RequestBetween(db.requests, me, target) then Some(RequestExists)
    else None
  }

  /** The tables after sendFriendRequest: one new pending request, or nothing changed. */
  function AfterSend(db: Db, me: Id, target: Id): Db {
    if SendCheck(db, me, target) == None then
      db.(requests := db.requests + [FriendRequest(me, target, Pending)])
    else
      db
  }

  function SendReplyFor(db: Db, me: Id, target: Id): SendReply {
    match SendCheck(db, me, target)
    case Some(e) => SendRefusal(e)
    case None => RequestCreated(|db.requests|, FriendRequest(me, target, Pending))
  }

  /** sendFriendRequest; `me` is the authenticated user, whom the route's
      middleware has loaded from the store. */
  method SendFriendRequest(db: Store, me: Id, target: Id) returns (reply: SendReply)
    requires db.Valid() && me in db.users
    modifies db
    ensures db.Valid()
    ensures db.State() == AfterSend(old(db.State()), me, target)
    ensures reply == SendReplyFor(old(db.State()), me, target)
  {
    SendKeepsConsistency(db.State(), me, target);
    if me == target {
      return SendRefusal(SelfRequest);
    }
    if target !in db.users {
      return SendRefusal(RecipientNotFound);
    }
    var recipient := db.users[target];
    if me in recipient.friends {
      return SendRefusal(AlreadyFriends);
    }
    if RequestBetween(db.requests, me, target) {
      return SendRefusal(RequestExists);
    }
    var request := FriendRequest(me, target, Pending);
    db.requests := db.requests + [request];
    reply := RequestCreated(|db.requests| - 1, request);
  }

  lemma AcceptedAfterAppendPending(requests: seq<FriendRequest>, q: FriendRequest, u: Id, v: Id)
    requires q.status == Pending
    ensures AcceptedBetween(requests + [q], u, v) == AcceptedBetween(requests, u, v)
  {
    var r := requests + [q];
    if AcceptedBetween(r, u, v) {
      var i :| 0 <= i < |r| && r[i].status == Accepted && Between(r[i], u, v);
      assert i < |requests| && r[i] == requests[i];
    }
    if AcceptedBetween(requests, u, v) {
      var i :| 0 <= i < |requests| && requests[i].status == Accepted && Between(requests[i], u, v);
      assert r[i] == requests[i];
    }
  }

  /** Sending keeps the store consistent; in particular a pair never gets a second request. */
  lemma SendKeepsConsistency(db: Db, me: Id, target: Id)
    requires Consistent(db) && me in db.users
    ensures Consistent(AfterSend(db, me, target))
  {
    if SendCheck(db, me, target) == None {
      var q := FriendRequest(me, target, Pending);
      var after := AfterSend(db, me, target);
      assert after.users == db.users;
      assert after.requests == db.requests + [q];
      assert forall i :: 0 <= i < |db.requests| ==> after.requests[i] == db.requests[i];
      forall i, j | 0 <= i < j < |after.requests|
        ensures !Between(after.requests[j], after.requests[i].sender, after.requests[i].recipient)
      {
        if j == |db.requests| {
          assert !Between(db.requests[i], me, target);
        }
      }
      forall u, v | u in after.users && v in after.users
        ensures v in after.users[u].friends <==> AcceptedBetween(after.requests, u, v)
      {
        AcceptedAfterAppendPending(db.requests, q, u, v);
      }
    }
  }

  /** After a successful send(A, B), both send(A, B) and send(B, A) are refused as duplicates. */
  lemma SendThenReverseRefused(db: Db, me: Id, target: Id)
    requires Consistent(db) && me in db.users
    requires SendCheck(db, me, target) == None
    ensures SendCheck(AfterSend(db, me, target), me, target) == Some(RequestExists)
    ensures SendCheck(AfterSend(db, me, target), target, me) == Some(RequestExists)
  {
    var after := AfterSend(db, me, target);
    var n := |db.requests|;
    assert Between(after.requests[n], me, target) && Between(after.requests[n], target, me);
    assert !AcceptedBetween(db.requests, me, target);
    assert target !in db.users[me].friends;
  }

  /** A pair joined by an accepted request can never be re-requested, in either direction. */
  lemma AcceptedPairRefused(db: Db, a: Id, b: Id)
    requires Consistent(db) && a in db.users
    requires AcceptedBetween(db.requests, a, b)
    ensures SendCheck(db, a, b) == Some(AlreadyFriends)
    ensures AfterSend(db, a, b) == db
  {
    var i :| 0 <= i < |db.requests| && db.requests[i].status == Accepted && Between(db.requests[i], a, b);
    assert b in db.users && a != b;
    AcceptedBetweenSymmetric(db.requests, a, b);
    assert a in db.users[b].friends;
  }

  /** In a consistent store the friendship check never decides on its own: a send
      succeeds exactly when it is not to oneself, the recipient exists, and no
      request of any status or direction joins the two. */
  lemma SendSucceedsIff(db: Db, me: Id, target: Id)
    requires FriendsExactlyAccepted(db) && me in db.users
    ensures SendCheck(db, me, target) == None
        <==> me != target && target in db.users && !RequestBetween(db.requests, me, target)
  {
    if me != target && target in db.users && me in db.users[target].friends {
      assert AcceptedBetween(db.requests, target, me);
      var i :| 0 <= i < |db.requests| && db.requests[i].status == Accepted && Between(db.requests[i], target, me);
      assert Between(db.requests[i], me, target);
    }
  }

  /** A send changes the tables exactly when it creates a request, and then by exactly
      that one request at the reported id, with every user record untouched. */
  lemma SendChangesIffCreated(db: Db, me: Id, target: Id)
    ensures AfterSend(db, me, target) != db <==> SendReplyFor(db, me, target).RequestCreated?
    ensures var reply := SendReplyFor(db, me, target);
      var after := AfterSend(db, me, target);
      reply.RequestCreated? ==>
        && after.users == db.users
        && |after.requests| == |db.requests| + 1
        && after.requests[..|db.requests|] == db.requests
        && reply.id == |db.requests|
        && after.requests[reply.id] == reply.request == FriendRequest(me, target, Pending)
  {
    if SendCheck(db, me, target) == None {
      assert |AfterSend(db, me, target).requests| != |db.requests|;
    }
  }

  // ---------------------------------------------------------------------
  // acceptFriendRequest

  datatype AcceptError = RequestNotFound | NotRecipient

  datatype AcceptReply = RequestAccepted | AcceptRefused(status: int, message: string)

  function AcceptRefusal(e: AcceptError): AcceptReply {
    match e
    case RequestNotFound => AcceptRefused(404, "Friend request not found")
    case NotRecipient => AcceptRefused(403, "You are not authorized to accept this request")
  }

  /** The two checks of acceptFriendRequest: the request exists, and the acting user is its recipient. */
  function AcceptCheck(db: Db, id: nat, actor: Id): Option<AcceptError> {
    if id >= |db.requests| then Some(RequestNotFound)
    else if db.requests[id].recipient != actor then Some(NotRecipient)
    else None
  }

  /** `$addToSet`: add `x` to the array unless it is already there. */
  function AddToSet(s: seq<Id>, x: Id): (r: seq<Id>)
    ensures forall y :: y in r <==> y in s || y == x
    ensures NoDuplicates(s) ==> NoDuplicates(r)
  {
    if x in s then s else s + [x]
  }

  /** `User.findByIdAndUpdate(u, {$addToSet: {friends: v}})`; an id that
      matches no user updates nothing. */
  function AddFriend(users: map<Id, User>, u: Id, v: Id): map<Id, User> {
    if u in users then users[u := users[u].(friends := AddToSet(users[u].friends, v))] else users
  }

  /** The tables after the first `writes` of accept's three separate writes:
      the status flip, then the sender's `$addToSet`, then the recipient's.
      `AcceptWrites(db, id, 3)` is a completed accept. */
  function AcceptWrites(db: Db, id: nat, writes: nat): (w: Db)
    requires id < |db.requests|
    ensures w.users.Keys == db.users.Keys && |w.requests| == |db.requests|
    ensures forall j :: 0 <= j < |db.requests| && j != id ==> w.requests[j] == db.requests[j]
    ensures w.requests[id] == if writes >= 1 then db.requests[id].(status := Accepted) else db.requests[id]
    ensures var q := db.requests[id];
      writes >= 3 && q.sender in db.users && q.recipient in db.users ==>
        q.recipient in w.users[q.sender].friends && q.sender in w.users[q.recipient].friends
    ensures var q := db.requests[id];
      forall u :: u in db.users && u != q.sender && u != q.recipient ==> w.users[u] == db.users[u]
    ensures var q := db.requests[id];
      q.sender != q.recipient && q.sender in db.users ==>
        w.users[q.sender] == if writes >= 2 then db.users[q.sender].(friends := AddToSet(db.users[q.sender].friends, q.recipient)) else db.users[q.sender]
    ensures var q := db.requests[id];
      q.sender != q.recipient && q.recipient in db.users ==>
        w.users[q.recipient] == if writes >= 3 then db.users[q.recipient].(friends := AddToSet(db.users[q.recipient].friends, q.sender)) else db.users[q.recipient]
  {
    var q := db.requests[id];
    var requests := if writes >= 1 then db.requests[id := q.(status := Accepted)] else db.requests;
    var users := if writes >= 2 then AddFriend(db.users, q.sender, q.recipient) else db.users;
    var users' := if writes >= 3 then AddFriend(users, q.recipient, q.sender) else users;
    Db(users', requests)
  }

  function AfterAccept(db: Db, id: nat, actor: Id): Db {
    if AcceptCheck(db, id, actor) == None then AcceptWrites(db, id, 3) else db
  }

  function AcceptReplyFor(db: Db, id: nat, actor: Id): AcceptReply {
    match AcceptCheck(db, id, actor)
    case Some(e) => AcceptRefusal(e)
    case None => RequestAccepted
  }

  /** acceptFriendRequest: no check of the current status, so the recipient may accept again. */
  method AcceptFriendRequest(db: Store, id: nat, actor: Id) returns (reply: AcceptReply)
    requires db.Valid()
    modifies db
    ensures db.Valid()
    ensures db.State() == AfterAccept(old(db.State()), id, actor)
    ensures reply == AcceptReplyFor(old(db.State()), id, actor)
  {
    AcceptKeepsConsistency(db.State(), id, actor);
    if id >= |db.requests| {
      return AcceptRefusal(RequestNotFound);
    }
    var request := db.requests[id];
    if request.recipient != actor {
      return AcceptRefusal(NotRecipient);
    }
    db.requests := db.requests[id := request.(status := Accepted)];
    if request.sender in db.users {
      var sender := db.users[request.sender];
      db.users := db.users[request.sender := sender.(friends := AddToSet(sender.friends, request.recipient))];
    }
    if request.recipient in db.users {
      var recipient := db.users[request.recipient];
      db.users := db.users[request.recipient := recipient.(friends := AddToSet(recipient.friends, request.sender))];
    }
    reply := RequestAccepted;
  }

  lemma AcceptedAfterFlip(requests: seq<FriendRequest>, id: nat, u: Id, v: Id)
    requires id < |requests|
    ensures AcceptedBetween(requests[id := requests[id].(status := Accepted)], u, v)
        <==> AcceptedBetween(requests, u, v) || Between(requests[id], u, v)
  {
    var r := requests[id := requests[id].(status := Accepted)];
    if AcceptedBetween(r, u, v) {
      var i :| 0 <= i < |r| && r[i].status == Accepted && Between(r[i], u, v);
      if i != id {
        assert r[i] == requests[i];
      }
    }
    if AcceptedBetween(requests, u, v) {
      var i :| 0 <= i < |requests| && requests[i].status == Accepted && Between(requests[i], u, v);
      assert r[i].status == Accepted && Between(r[i], u, v);
    }
    if Between(requests[id], u, v) {
      assert r[id].status == Accepted && Between(r[id], u, v);
    }
  }

  /** What the two `$addToSet` writes of an accept do to the user table. */
  lemma FriendsAfterAccept(users: map<Id, User>, s: Id, r: Id)
    requires s in users && r in users && s != r
    requires FriendListsWellFormed(users)
    ensures var after := AddFriend(AddFriend(users, s, r), r, s);
      && after.Keys == users.Keys
      && FriendListsWellFormed(after)
      && (forall w :: w in users ==> after[w].email == users[w].email)
      && (forall w, x :: w in users ==>
            (x in after[w].friends <==> x in users[w].friends || (w == s && x == r) || (w == r && x == s)))
  {
    var mid := AddFriend(users, s, r);
    var after := AddFriend(mid, r, s);
    assert mid[s].friends == AddToSet(users[s].friends, r);
    assert after[r].friends == AddToSet(users[r].friends, s);
    assert after[s] == mid[s];
    assert forall w :: w in users && w != s && w != r ==> after[w] == users[w];
  }

  /** Accepting keeps the store consistent; in particular friendship stays mutual
      and stays exactly the pairs with an accepted request. */
  lemma AcceptKeepsConsistency(db: Db, id: nat, actor: Id)
    requires Consistent(db)
    ensures Consistent(AfterAccept(db, id, actor))
  {
    if AcceptCheck(db, id, actor) == None {
      var q := db.requests[id];
      var s, r := q.sender, q.recipient;
      var after := AfterAccept(db, id, actor);
      assert s in db.users && r in db.users && s != r;
      FriendsAfterAccept(db.users, s, r);
      assert after.users == AddFriend(AddFriend(db.users, s, r), r, s);
      assert after.requests == db.requests[id := q.(status := Accepted)];
      assert forall i :: 0 <= i < |db.requests| ==>
        after.requests[i].sender == db.requests[i].sender && after.requests[i].recipient == db.requests[i].recipient;
      forall u, v | u in after.users && v in after.users
        ensures v in after.users[u].friends <==> AcceptedBetween(after.requests, u, v)
      {
        AcceptedAfterFlip(db.requests, id, u, v);
      }
    }
  }

  /** After a successful accept the request is accepted and each party lists the other. */
  lemma AcceptMakesFriends(db: Db, id: nat, actor: Id)
    requires Consistent(db) && AcceptCheck(db, id, actor) == None
    ensures var q := db.requests[id];
      var after := AfterAccept(db, id, actor);
      && after.requests[id] == q.(status := Accepted)
      && q.sender in after.users && q.recipient in after.users
      && q.sender in after.users[q.recipient].friends
      && q.recipient in after.users[q.sender].friends
  {
    var q := db.requests[id];
    assert q.sender in db.users && q.recipient in db.users && q.sender != q.recipient;
    FriendsAfterAccept(db.users, q.sender, q.recipient);
  }

  /** An unknown id gets 404, anyone but the recipient 403, and a refused accept changes nothing. */
  lemma AcceptRefusals(db: Db, id: nat, actor: Id)
    ensures AcceptReplyFor(db, id, actor) == AcceptRefused(404, "Friend request not found") <==> id >= |db.requests|
    ensures AcceptReplyFor(db, id, actor) == AcceptRefused(403, "You are not authorized to accept this request")
        <==> id < |db.requests| && db.requests[id].recipient != actor
    ensures AcceptReplyFor(db, id, actor).AcceptRefused? ==> AfterAccept(db, id, actor) == db
  {
  }

  /** Requests are never removed or re-addressed, and an accepted request never becomes
      pending again, through either a send or an accept. */
  lemma RequestsOnlyAdvance(db: Db, me: Id, target: Id, id: nat, actor: Id)
    ensures var sent := AfterSend(db, me, target).requests;
      var accepted := AfterAccept(db, id, actor).requests;
      && |db.requests| <= |sent| && |accepted| == |db.requests|
      && forall i :: 0 <= i < |db.requests| ==>
           && sent[i] == db.requests[i]
           && accepted[i].sender == db.requests[i].sender
           && accepted[i].recipient == db.requests[i].recipient
           && (db.requests[i].status == Accepted ==> accepted[i].status == Accepted)
  {
  }

  /** Only the recipient may accept: the sender is always refused with 403. */
  lemma SenderCannotAccept(db: Db, id: nat)
    requires Consistent(db) && id < |db.requests|
    ensures AcceptCheck(db, id, db.requests[id].sender) == Some(NotRecipient)
    ensures AfterAccept(db, id, db.requests[id].sender) == db
  {
    assert db.requests[id].sender != db.requests[id].recipient;
  }

  /** An `$addToSet` of a value already present writes nothing. */
  lemma AddFriendPresent(users: map<Id, User>, u: Id, v: Id)
    requires u in users ==> v in users[u].friends
    ensures AddFriend(users, u, v) == users
  {
    if u in users {
      assert users[u].(friends := users[u].friends) == users[u];
    }
  }

  /** Re-running accept after it stopped part-way (after any number of its three
      writes) ends in the same tables as one uninterrupted accept. */
  lemma AcceptRerunRepairs(db: Db, id: nat, actor: Id, writes: nat)
    requires AcceptCheck(db, id, actor) == None && writes <= 3
    ensures AcceptCheck(AcceptWrites(db, id, writes), id, actor) == None
    ensures AfterAccept(AcceptWrites(db, id, writes), id, actor) == AfterAccept(db, id, actor)
  {
    var q := db.requests[id];
    var s, r := q.sender, q.recipient;
    var partial := AcceptWrites(db, id, writes);
    assert partial.requests[id].sender == s && partial.requests[id].recipient == r;
    var mid := AddFriend(db.users, s, r);
    var done := AddFriend(mid, r, s);
    if writes == 2 {
      AddFriendPresent(mid, s, r);
    } else if writes == 3 {
      assert s in done ==> r in done[s].friends;
      AddFriendPresent(done, s, r);
      AddFriendPresent(done, r, s);
    }
    assert partial.requests[id := partial.requests[id].(status := Accepted)] == db.requests[id := q.(status := Accepted)];
  }

  /** Accepting twice is the same as accepting once. */
  lemma AcceptIdempotent(db: Db, id: nat, actor: Id)
    ensures AfterAccept(AfterAccept(db, id, actor), id, actor) == AfterAccept(db, id, actor)
    ensures AcceptReplyFor(AfterAccept(db, id, actor), id, actor) == AcceptReplyFor(db, id, actor)
  {
    if AcceptCheck(db, id, actor) == None {
      AcceptRerunRepairs(db, id, actor, 3);
    }
  }

  // ---------------------------------------------------------------------
  // Read-side filters

  /** `FriendRequest.find(filter)`: the matching requests in stored order. */
  function Select(requests: seq<FriendRequest>, keep: FriendRequest -> bool): (r: seq<FriendRequest>)
    ensures forall q :: q in r <==> q in requests && keep(q)
    ensures |r| <= |requests|
  {
    if requests == [] then []
    else (if keep(requests[0]) then [requests[0]] else []) + Select(requests[1..], keep)
  }

  /** Selecting works run by run, so the matches keep their stored order. */
  lemma {:induction false} SelectConcat(a: seq<FriendRequest>, b: seq<FriendRequest>, keep: FriendRequest -> bool)
    ensures Select(a + b, keep) == Select(a, keep) + Select(b, keep)
  {
    if a == [] {
      assert a + b == b;
    } else {
      assert (a + b)[0] == a[0];
      assert (a + b)[1..] == a[1..] + b;
      SelectConcat(a[1..], b, keep);
    }
  }

  /** getFriendRequests' `incomingReqs`: pending requests addressed to `me`. */
  function IncomingRequests(requests: seq<FriendRequest>, me: Id): (r: seq<FriendRequest>)
    ensures forall q :: q in r <==> q in requests && q.recipient == me && q.status == Pending
  {
    Select(requests, (q: FriendRequest) => q.recipient == me && q.status == Pending)
  }

  /** getFriendRequests' `acceptedReqs`: requests `me` sent that were accepted. */
  function AcceptedRequests(requests: seq<FriendRequest>, me: Id): (r: seq<FriendRequest>)
    ensures forall q :: q in r <==> q in requests && q.sender == me && q.status == Accepted
  {
    Select(requests, (q: FriendRequest) => q.sender == me && q.status == Accepted)
  }

  /** getOutgoingFriendReqs: pending requests `me` sent. */
  function OutgoingRequests(requests: seq<FriendRequest>, me: Id): (r: seq<FriendRequest>)
    ensures forall q :: q in r <==> q in requests && q.sender == me && q.status == Pending
  {
    Select(requests, (q: FriendRequest) => q.sender == me && q.status == Pending)
  }

  /** getRecommandedUsers: onboarded users other than `me` and not among `me`'s friends. */
  function RecommendedUsers(db: Db, me: Id): (r: set<Id>)
    requires me in db.users
    ensures me !in r && r <= db.users.Keys
    ensures forall u :: u in r ==> db.users[u].isOnboarded && u !in db.users[me].friends
    ensures forall u :: u in db.users && u != me && u !in db.users[me].friends && db.users[u].isOnboarded ==> u in r
  {
    set u | u in db.users && u != me && u !in db.users[me].friends && db.users[u].isOnboarded
  }

  /** A new request shows up in the recipient's incoming list and in the sender's outgoing list. */
  lemma SentRequestListed(db: Db, me: Id, target: Id)
    requires SendCheck(db, me, target) == None
    ensures var after := AfterSend(db, me, target).requests;
      && FriendRequest(me, target, Pending) in IncomingRequests(after, target)
      && FriendRequest(me, target, Pending) in OutgoingRequests(after, me)
  {
    var after := AfterSend(db, me, target).requests;
    assert after[|db.requests|] == FriendRequest(me, target, Pending);
  }

  /** After an accept the request leaves the recipient's incoming list and the sender's
      outgoing list, and appears in the sender's accepted list. */
  lemma AcceptMovesRequest(db: Db, id: nat, actor: Id)
    requires Consistent(db) && AcceptCheck(db, id, actor) == None
    ensures var q := db.requests[id];
      var after := AfterAccept(db, id, actor).requests;
      && q.(status := Accepted) in AcceptedRequests(after, q.sender)
      && (forall x :: x in IncomingRequests(after, q.recipient) ==> x.sender != q.sender)
      && (forall x :: x in OutgoingRequests(after, q.sender) ==> x.recipient != q.recipient)
  {
    var q := db.requests[id];
    var s, r := q.sender, q.recipient;
    var after := AfterAccept(db, id, actor).requests;
    assert after == db.requests[id := q.(status := Accepted)];
    assert after[id] == q.(status := Accepted);
    forall j | 0 <= j < |after| && j != id
      ensures !Between(after[j], s, r)
    {
      assert after[j] == db.requests[j];
      if j < id {
        assert !Between(db.requests[id], db.requests[j].sender, db.requests[j].recipient);
      }
    }
    forall x | x in after && x.status == Pending
      ensures !Between(x, s, r)
    {
      var j :| 0 <= j < |after| && after[j] == x;
    }
  }

  /** Once two users are friends, neither is recommended to the other. */
  lemma AcceptEndsRecommendation(db: Db, id: nat, actor: Id)
    requires Consistent(db) && AcceptCheck(db, id, actor) == None
    ensures var q := db.requests[id];
      var after := AfterAccept(db, id, actor);
      && q.sender in after.users && q.recipient in after.users
      && q.sender !in RecommendedUsers(after, q.recipient)
      && q.recipient !in RecommendedUsers(after, q.sender)
  {
    AcceptMakesFriends(db, id, actor);
  }

  /** A recommended user passes the self, existence and friendship checks of a send;
      only an earlier request between the two can still refuse it. */
  lemma RecommendedCanBeAsked(db: Db, me: Id, u: Id)
    requires Consistent(db) && me in db.users
    requires u in RecommendedUsers(db, me)
    ensures SendCheck(db, me, u) == None || SendCheck(db, me, u) == Some(RequestExists)
  {
    assert !AcceptedBetween(db.requests, me, u);
    AcceptedBetweenSymmetric(db.requests, me, u);
    assert me !in db.users[u].friends;
  }

  // ---------------------------------------------------------------------
  // getLatestChats: shaping of the channels the chat provider returns

  /** A channel as the chat provider returns it: its id, member ids, the texts
      of its messages (oldest first) and its two last-message timestamps. */
  datatype ChannelSnapshot = ChannelSnapshot(
    id: string,
    members: seq<Id>,
    messageTexts: seq<string>,
    stateLastMessageAt: Option<string>,
    lastMessageAt: Option<string>)

  datatype FriendCard = FriendCard(id: Id, fullName: string, profilePic: string, isOnline: bool)

  datatype ChatSummary = ChatSummary(id: string, friend: Option<FriendCard>, lastMessage: string, lastMessageAt: Option<string>)

  /** `members.find(id => id !== me)`: the first member who is not `me`. */
  function OtherMember(members: seq<Id>, me: Id): (other: Option<Id>)
    ensures other.None? <==> forall m :: m in members ==> m == me
    ensures other.Some? ==> other.value != me
    ensures other.Some? ==>
      exists k :: 0 <= k < |members| && members[k] == other.value && forall j :: 0 <= j < k ==> members[j] == me
  {
    if members == [] then None
    else if members[0] != me then
      assert members[0] in members;
      Some(members[0])
    else
      assert forall m :: m in members <==> m == members[0] || m in members[1..];
      var rest := OtherMember(members[1..], me);
      assert rest.Some? ==> exists k :: 1 <= k < |members| && members[k] == rest.value && forall j :: 0 <= j < k ==> members[j] == me by {
        if rest.Some? {
          var k :| 0 <= k < |members[1..]| && members[1..][k] == rest.value && forall j :: 0 <= j < k ==> members[1..][j] == me;
          assert members[k + 1] == rest.value;
          assert forall j :: 0 <= j < k + 1 ==> members[j] == me by {
            forall j | 0 <= j < k + 1 ensures members[j] == me {
              if j > 0 { assert members[j] == members[1..][j - 1]; }
            }
          }
        }
      }
      rest
  }

  /** One channel's summary, or None (dropped by `filter(Boolean)`) when `find` gives
      no other member or a falsy one; `online` is the presence map, a missing entry
      counting as offline. */
  function Summarize(c: ChannelSnapshot, me: Id, users: map<Id, User>, online: map<Id, bool>): (s: Option<ChatSummary>)
    ensures s.Some? <==> OtherMember(c.members, me).Some? && OtherMember(c.members, me).value != ""
    ensures s.Some? ==> s.value.id == c.id
    ensures s.Some? ==> (s.value.friend.Some? <==> OtherMember(c.members, me).value in users)
    ensures s.Some? && s.value.friend.Some? ==>
      var other := OtherMember(c.members, me).value;
      var f := s.value.friend.value;
      && f.id == other && other in users
      && f.fullName == users[other].fullName && f.profilePic == users[other].profilePic
      && (f.isOnline <==> other in online && online[other])
    ensures s.Some? ==> s.value.lastMessage == (if c.messageTexts == [] then "" else c.messageTexts[|c.messageTexts| - 1])
    ensures s.Some? && c.stateLastMessageAt.Some? ==> s.value.lastMessageAt == c.stateLastMessageAt
    ensures s.Some? && c.stateLastMessageAt.None? ==> s.value.lastMessageAt == c.lastMessageAt
  {
    match OtherMember(c.members, me)
    case None => None
    case Some(other) =>
      if other == "" then None
      else
        var friend :=
          if other in users then
            Some(FriendCard(other, users[other].fullName, users[other].profilePic, other in online && online[other]))
          else None;
        var last := if |c.messageTexts| > 0 then c.messageTexts[|c.messageTexts| - 1] else "";
        var at := if c.stateLastMessageAt.Some? then c.stateLastMessageAt else c.lastMessageAt;
        Some(ChatSummary(c.id, friend, last, at))
  }

  /** A channel's contribution to the reply: its summary, or nothing. */
  function SummaryList(c: ChannelSnapshot, me: Id, users: map<Id, User>, online: map<Id, bool>): seq<ChatSummary> {
    match Summarize(c, me, users, online)
    case Some(s) => [s]
    case None => []
  }

  /** The summaries in channel order, channels without a peer dropped (`filter(Boolean)`). */
  function LatestChats(channels: seq<ChannelSnapshot>, me: Id, users: map<Id, User>, online: map<Id, bool>): (r: seq<ChatSummary>)
    ensures |r| <= |channels|
    ensures forall s :: s in r ==> exists c :: c in channels && Summarize(c, me, users, online) == Some(s)
    ensures forall c :: c in channels && Summarize(c, me, users, online).Some? ==> Summarize(c, me, users, online).value in r
    ensures (forall c :: c in channels ==> Summarize(c, me, users, online).Some?) ==> |r| == |channels|
  {
    if channels == [] then []
    else
      assert channels == [channels[0]] + channels[1..];
      SummaryList(channels[0], me, users, online) + LatestChats(channels[1..], me, users, online)
  }

  /** The reply for two runs of channels is the two replies one after the other:
      each channel's summary sits in the position of its channel. */
  lemma {:induction false} LatestChatsConcat(a: seq<ChannelSnapshot>, b: seq<ChannelSnapshot>, me: Id, users: map<Id, User>, online: map<Id, bool>)
    ensures LatestChats(a + b, me, users, online) == LatestChats(a, me, users, online) + LatestChats(b, me, users, online)
  {
    if a == [] {
      assert a + b == b;
    } else {
      assert (a + b)[0] == a[0];
      assert (a + b)[1..] == a[1..] + b;
      LatestChatsConcat(a[1..], b, me, users, online);
    }
  }

  /** In particular one more channel appends its summary, if any, at the end. */
  lemma LatestChatsAppend(cs: seq<ChannelSnapshot>, c: ChannelSnapshot, me: Id, users: map<Id, User>, online: map<Id, bool>)
    ensures LatestChats(cs + [c], me, users, online) == LatestChats(cs, me, users, online) + SummaryList(c, me, users, online)
  {
    LatestChatsConcat(cs, [c], me, users, online);
    assert [c][1..] == [];
  }
}
