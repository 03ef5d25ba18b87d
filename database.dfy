/** The two collections the backend keeps: users and friend requests.
    Ids are strings (the text of the store's object ids); a friend
    request's id is its position in the request table. */
module Database {
  import opened JsText

  type Id = string

  datatype Status = Pending | Accepted

  /** A friend request; a new record is `Pending` (the schema default). */
  datatype FriendRequest = FriendRequest(sender: Id, recipient: Id, status: Status)

  /** A user record. `credential` is the value handed to the store on signup;
      `friends` is the stored array of friend ids. */
  datatype User = User(
    email: string,
    credential: string,
    fullName: string,
    profilePic: string,
    bio: string,
    nativeLanguage: string,
    learningLanguage: string,
    location: string,
    isOnboarded: bool,
    friends: seq<Id>)

  /** Both tables as one value. */
  datatype Db = Db(users: map<Id, User>, requests: seq<FriendRequest>)

  /** `q` links `u` and `v`, in either direction. */
  predicate Between(q: FriendRequest, u: Id, v: Id) {
    (q.sender == u && q.recipient == v) || (q.sender == v && q.recipient == u)
  }

  /** Some request of any status links `u` and `v` (what the `$or` lookup of sendFriendRequest finds). */
  predicate RequestBetween(requests: seq<FriendRequest>, u: Id, v: Id) {
    exists i :: 0 <= i < |requests| && Between(requests[i], u, v)
  }

  /** Some accepted request links `u` and `v`. */
  predicate AcceptedBetween(requests: seq<FriendRequest>, u: Id, v: Id) {
    exists i :: 0 <= i < |requests| && requests[i].status == Accepted && Between(requests[i], u, v)
  }

  predicate NoDuplicates(s: seq<Id>) {
    forall i, j :: 0 <= i < j < |s| ==> s[i] != s[j]
  }

  /** Some user has this email. */
  predicate EmailInUse(users: map<Id, User>, email: string) {
    exists id :: id in users && users[id].email == email
  }

  ghost predicate UniqueEmails(users: map<Id, User>) {
    forall u, v :: u in users && v in users && users[u].email == users[v].email ==> u == v
  }

  /** Friend arrays hold no duplicate and name only stored users. */
  ghost predicate FriendListsWellFormed(users: map<Id, User>) {
    forall u :: u in users ==>
      NoDuplicates(users[u].friends) && forall v :: v in users[u].friends ==> v in users
  }

  /** Every request joins two distinct stored users. */
  ghost predicate RequestsWellFormed(db: Db) {
    forall i :: 0 <= i < |db.requests| ==>
      && db.requests[i].sender in db.users
      && db.requests[i].recipient in db.users
      && db.requests[i].sender != db.requests[i].recipient
  }

  /** At most one request per unordered pair of users, whatever its status. */
  ghost predicate OneRequestPerPair(requests: seq<FriendRequest>) {
    forall i, j :: 0 <= i < j < |requests| ==>
      !Between(requests[j], requests[i].sender, requests[i].recipient)
  }

  /** Two users are friends exactly when an accepted request links them. */
  ghost predicate FriendsExactlyAccepted(db: Db) {
    forall u, v :: u in db.users && v in db.users ==>
      (v in db.users[u].friends <==> AcceptedBetween(db.requests, u, v))
  }

  /** The invariant every modelled operation of the backend keeps; onboarding as written
      breaks it, and a crash inside accept leaves it broken until the accept is re-run. */
  ghost predicate Consistent(db: Db) {
    && UniqueEmails(db.users)
    && FriendListsWellFormed(db.users)
    && RequestsWellFormed(db)
    && OneRequestPerPair(db.requests)
    && FriendsExactlyAccepted(db)
  }

  lemma AcceptedBetweenSymmetric(requests: seq<FriendRequest>, u: Id, v: Id)
    ensures AcceptedBetween(requests, u, v) == AcceptedBetween(requests, v, u)
  {
    if AcceptedBetween(requests, u, v) {
      var i :| 0 <= i < |requests| && requests[i].status == Accepted && Between(requests[i], u, v);
      assert Between(requests[i], v, u);
    }
    if AcceptedBetween(requests, v, u) {
      var i :| 0 <= i < |requests| && requests[i].status == Accepted && Between(requests[i], v, u);
      assert Between(requests[i], u, v);
    }
  }

  /** Friendship is mutual: if `u` lists `v`, then `v` lists `u`, and nobody lists themself. */
  lemma FriendshipSymmetric(db: Db, u: Id, v: Id)
    requires Consistent(db)
    requires u in db.users && v in db.users[u].friends
    ensures v in db.users && u in db.users[v].friends
    ensures u != v
  {
    assert v in db.users;
    assert AcceptedBetween(db.requests, u, v);
    AcceptedBetweenSymmetric(db.requests, u, v);
    var i :| 0 <= i < |db.requests| && db.requests[i].status == Accepted && Between(db.requests[i], u, v);
    assert db.requests[i].sender != db.requests[i].recipient;
  }

  /** The database: both collections, updated in place by the controllers. */
  class Store {
    var users: map<Id, User>
    var requests: seq<FriendRequest>

    function State(): Db
      reads this
    {
      Db(users, requests)
    }

    ghost predicate Valid()
      reads this
    {
      Consistent(State())
    }

    constructor ()
      ensures users == map[] && requests == []
      ensures Valid()
    {
      users := map[];
      requests := [];
    }
  }
}
