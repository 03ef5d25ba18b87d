/** The auth controller: signup's ordered checks (among them the email
    pattern), login's single failure message, and onboarding's list of
    missing fields and profile update. */
module AuthController {
  import opened JsText
  import opened Database
  import UserController

  const MinPasswordLength := 6

  /** Seven days in milliseconds, the cookie's `maxAge` (the token itself expires in '7d'). */
  const SessionMaxAgeMs := 7 * 24 * 60 * 60 * 1000

  datatype SessionCookie = SessionCookie(name: string, token: string, httpOnly: bool, secure: bool, sameSite: string, maxAgeMs: int)

  /** The cookie signup and login set: `token` is the signed session token,
      `production` whether the server runs with NODE_ENV "production". */
  function Session(token: string, production: bool): SessionCookie {
    SessionCookie("token", token, true, production, "strict", SessionMaxAgeMs)
  }

  // ---------------------------------------------------------------------
  // The email pattern /^[^\s@]+@[^\s@]+\.[^\s@]+$/

  /** A character the class `[^\s@]` matches. */
  predicate EmailChar(c: char) {
    c != '@' && !IsWhitespace(c)
  }

  predicate EmailChars(s: string) {
    forall i :: 0 <= i < |s| ==> EmailChar(s[i])
  }

  /** The pattern with its '@' at `at` and the '.' it needs at `dot`. */
  predicate PatternAt(s: string, at: int, dot: int) {
    && 0 < at && at + 1 < dot && dot + 1 < |s|
    && s[at] == '@' && s[dot] == '.'
    && EmailChars(s[..at]) && EmailChars(s[at + 1..dot]) && EmailChars(s[dot + 1..])
  }

  /** The pattern read off directly: `s` is a non-empty run of `[^\s@]`, an '@',
      a non-empty run, a '.', and a non-empty run, with nothing else around. */
  ghost predicate MatchesEmailPattern(s: string) {
    exists at, dot :: PatternAt(s, at, dot)
  }

  /** The position of the first `c` in `s`. */
  function IndexOf(s: string, c: char): (r: Option<nat>)
    ensures r.None? <==> c !in s
    ensures r.Some? ==> r.value < |s| && s[r.value] == c && c !in s[..r.value]
  {
    if s == [] then None
    else if s[0] == c then Some(0)
    else
      match IndexOf(s[1..], c)
      case None => None
      case Some(i) =>
        assert s[..i + 1] == [s[0]] + s[1..][..i];
        Some(i + 1)
  }

  /** The email test as one scan: no white space, exactly one '@' with text before
      it, and a '.' strictly inside the text after it. */
  predicate IsValidEmail(s: string) {
    match IndexOf(s, '@')
    case None => false
    case Some(at) =>
      var domain := s[at + 1..];
      && 0 < at
      && '@' !in domain
      && (forall i :: 0 <= i < |s| ==> !IsWhitespace(s[i]))
      && |domain| >= 3
      && '.' in domain[1..|domain| - 1]
  }

  lemma IndexOfFirst(s: string, c: char, k: nat)
    requires k < |s| && s[k] == c && c !in s[..k]
    ensures IndexOf(s, c) == Some(k)
  {
    var first := IndexOf(s, c).value;
    assert forall i :: 0 <= i < first ==> s[i] != c by {
      forall i | 0 <= i < first ensures s[i] != c {
        assert s[i] == s[..first][i];
      }
    }
    assert forall i :: 0 <= i < k ==> s[i] != c by {
      forall i | 0 <= i < k ensures s[i] != c {
        assert s[i] == s[..k][i];
      }
    }
  }

  lemma ValidEmailHasPattern(s: string)
    requires IsValidEmail(s)
    ensures MatchesEmailPattern(s)
  {
    var at := IndexOf(s, '@').value;
    var domain := s[at + 1..];
    var inner := domain[1..|domain| - 1];
    var k :| 0 <= k < |inner| && inner[k] == '.';
    var dot := at + 2 + k;
    assert s[dot] == inner[k];
    assert forall i :: at < i < |s| ==> s[i] == domain[i - at - 1];
    assert EmailChars(s[..at]);
    assert EmailChars(s[at + 1..dot]);
    assert EmailChars(s[dot + 1..]);
    assert PatternAt(s, at, dot);
  }

  lemma PatternIsValidEmail(s: string, at: int, dot: int)
    requires PatternAt(s, at, dot)
    ensures IsValidEmail(s)
  {
    assert forall i :: 0 <= i < |s| && i != at && i != dot ==> EmailChar(s[i]) by {
      forall i | 0 <= i < |s| && i != at && i != dot ensures EmailChar(s[i]) {
        if i < at {
          assert s[i] == s[..at][i];
        } else if i < dot {
          assert s[i] == s[at + 1..dot][i - at - 1];
        } else {
          assert s[i] == s[dot + 1..][i - dot - 1];
        }
      }
    }
    IndexOfFirst(s, '@', at);
    var domain := s[at + 1..];
    assert forall j :: 0 <= j < |domain| ==> domain[j] == s[at + 1 + j];
    assert domain[1..|domain| - 1][dot - at - 2] == '.';
  }

  /** The scan accepts exactly the strings the regular expression matches. */
  lemma EmailCheckMatchesPattern(s: string)
    ensures IsValidEmail(s) <==> MatchesEmailPattern(s)
  {
    if IsValidEmail(s) {
      ValidEmailHasPattern(s);
    }
    if MatchesEmailPattern(s) {
      var at, dot :| PatternAt(s, at, dot);
      PatternIsValidEmail(s, at, dot);
    }
  }

  // ---------------------------------------------------------------------
  // signup

  /** The request body; an absent field is the empty string (both are falsy). */
  datatype SignupBody = SignupBody(email: string, password: string, fullName: string)

  datatype SignupError = MissingField | PasswordTooShort | InvalidEmail | EmailTaken

  datatype SignupReply = SignedUp(userId: Id, user: User, cookie: SessionCookie) | SignupRefused(status: int, message: string)

  function SignupRefusal(e: SignupError): SignupReply {
    match e
    case MissingField => SignupRefused(400, "All fields are required")
    case PasswordTooShort => SignupRefused(400, "Password must be at least 6 characters long")
    case InvalidEmail => SignupRefused(400, "Invalid email format")
    case EmailTaken => SignupRefused(400, "Email already exists")
  }

  /** Signup's four checks in the order the code makes them; the first failure decides. */
  function SignupCheck(users: map<Id, User>, b: SignupBody): Option<SignupError> {
    if b.email == "" || b.password == "" || b.fullName == "" then Some(MissingField)
    else if |b.password| < MinPasswordLength then Some(PasswordTooShort)
    else if !IsValidEmail(b.email) then Some(InvalidEmail)
    else if EmailInUse(users, b.email) then Some(EmailTaken)
    else None
  }

  function DecimalString(n: nat): (s: string)
    ensures |s| > 0
  {
    var digit := ['0', '1', '2', '3', '4', '5', '6', '7', '8', '9'][n % 10];
    if n < 10 then [digit] else DecimalString(n / 10) + [digit]
  }

  /** The placeholder avatar picked by `Math.floor(Math.random() * 100) + 1`. */
  function AvatarUrl(index: nat): string {
    "https://avatar.iran.liara.run/public/" + DecimalString(index) + ".png"
  }

  /** The record `User.create` receives; bio, languages and location start empty
      and the user is not yet onboarded. */
  function NewUser(b: SignupBody, avatar: nat): User {
    User(b.email, b.password, b.fullName, AvatarUrl(avatar), "", "", "", "", false, [])
  }

  function AfterSignup(db: Db, b: SignupBody, newId: Id, avatar: nat): Db {
    if SignupCheck(db.users, b) == None then db.(users := db.users[newId := NewUser(b, avatar)]) else db
  }

  function SignupReplyFor(db: Db, b: SignupBody, newId: Id, avatar: nat, token: string, production: bool): SignupReply {
    match SignupCheck(db.users, b)
    case Some(e) => SignupRefusal(e)
    case None => SignedUp(newId, NewUser(b, avatar), Session(token, production))
  }

  /** signup. `newId` is the id the store assigns, `avatar` the random index,
      `token` the signed session token. The Stream mirror call that follows the
      create has its failures caught, so it has no say in the reply. */
  method Signup(db: Store, b: SignupBody, newId: Id, avatar: nat, token: string, production: bool) returns (reply: SignupReply)
    requires db.Valid() && newId !in db.users
    requires 1 <= avatar <= 100
    modifies db
    ensures db.Valid()
    ensures db.State() == AfterSignup(old(db.State()), b, newId, avatar)
    ensures reply == SignupReplyFor(old(db.State()), b, newId, avatar, token, production)
  {
    SignupKeepsConsistency(db.State(), b, newId, avatar);
    if b.email == "" || b.password == "" || b.fullName == "" {
      return SignupRefusal(MissingField);
    }
    if |b.password| < MinPasswordLength {
      return SignupRefusal(PasswordTooShort);
    }
    if !IsValidEmail(b.email) {
      return SignupRefusal(InvalidEmail);
    }
    if EmailInUse(db.users, b.email) {
      return SignupRefusal(EmailTaken);
    }
    var user := NewUser(b, avatar);
    db.users := db.users[newId := user];
    reply := SignedUp(newId, user, Session(token, production));
  }

  /** Signup keeps the store consistent: emails stay unique and the new user has no friends or requests. */
  lemma SignupKeepsConsistency(db: Db, b: SignupBody, newId: Id, avatar: nat)
    requires Consistent(db) && newId !in db.users
    ensures Consistent(AfterSignup(db, b, newId, avatar))
  {
    if SignupCheck(db.users, b) == None {
      var after := AfterSignup(db, b, newId, avatar);
      assert after.requests == db.requests;
      assert forall i :: 0 <= i < |db.requests| ==>
        db.requests[i].sender != newId && db.requests[i].recipient != newId;
      forall u, v | u in after.users && v in after.users
        ensures v in after.users[u].friends <==> AcceptedBetween(after.requests, u, v)
      {
        if u == newId || v == newId {
          assert !AcceptedBetween(db.requests, u, v);
          if u != newId {
            assert newId !in db.users[u].friends;
          }
        }
      }
    }
  }

  /** The length check sits exactly between 5 and 6 characters. */
  lemma PasswordLengthBoundary(users: map<Id, User>, b: SignupBody)
    requires b.email != "" && b.fullName != ""
    ensures |b.password| == 5 ==> SignupCheck(users, b) == Some(PasswordTooShort)
    ensures |b.password| == 6 ==> SignupCheck(users, b) != Some(PasswordTooShort)
  {
  }

  /** A taken email creates no user, even when everything else about the body is valid. */
  lemma DuplicateEmailCreatesNoUser(db: Db, b: SignupBody, newId: Id, avatar: nat, token: string, production: bool)
    requires b.email != "" && b.fullName != "" && |b.password| >= MinPasswordLength && IsValidEmail(b.email)
    requires exists id :: id in db.users && db.users[id].email == b.email
    ensures AfterSignup(db, b, newId, avatar) == db
    ensures SignupReplyFor(db, b, newId, avatar, token, production) == SignupRefused(400, "Email already exists")
  {
  }

  // ---------------------------------------------------------------------
  // login

  datatype LoginReply = LoggedIn(userId: Id, cookie: SessionCookie) | LoginRefused(status: int, message: string)

  const InvalidCredentials: LoginReply := LoginRefused(401, "Invalid email or password")

  /** `User.findOne({email})`; emails are unique, so the user found is determined. */
  function FindByEmail(users: map<Id, User>, email: string): (found: Option<Id>)
    requires UniqueEmails(users)
    ensures found.Some? ==> found.value in users && users[found.value].email == email
    ensures found.None? <==> !EmailInUse(users, email)
  {
    if EmailInUse(users, email) then
      var id :| id in users && users[id].email == email;
      Some(id)
    else
      None
  }

  /** login. `matches(credential, password)` is the model's password comparison. */
  function Login(users: map<Id, User>, email: string, password: string, matches: (string, string) -> bool, token: string, production: bool): (reply: LoginReply)
    requires UniqueEmails(users)
    ensures reply == LoginRefused(400, "Email and password are required") <==> email == "" || password == ""
    ensures reply.LoginRefused? && email != "" && password != "" ==> reply == InvalidCredentials
    ensures reply.LoggedIn? ==>
      && reply.userId in users && users[reply.userId].email == email
      && matches(users[reply.userId].credential, password)
      && reply.cookie == Session(token, production)
  {
    if email == "" || password == "" then LoginRefused(400, "Email and password are required")
    else
      match FindByEmail(users, email)
      case None => InvalidCredentials
      case Some(id) =>
        if matches(users[id].credential, password) then LoggedIn(id, Session(token, production))
        else InvalidCredentials
  }

  /** An unknown email and a wrong password get the very same reply, so the
      reply does not reveal whether an account exists. */
  lemma LoginFailureIsGeneric(
    unknown: map<Id, User>, known: map<Id, User>, id: Id,
    email: string, password: string, matches: (string, string) -> bool, token: string, production: bool)
    requires email != "" && password != ""
    requires UniqueEmails(unknown) && !EmailInUse(unknown, email)
    requires UniqueEmails(known) && id in known && known[id].email == email
    requires !matches(known[id].credential, password)
    ensures Login(unknown, email, password, matches, token, production) == InvalidCredentials
    ensures Login(known, email, password, matches, token, production) == InvalidCredentials
  {
  }

  /** Login succeeds exactly for the user holding the email, when the password matches that user's credential. */
  lemma LoginSucceedsIff(users: map<Id, User>, email: string, password: string, matches: (string, string) -> bool, token: string, production: bool, id: Id)
    requires UniqueEmails(users)
    ensures Login(users, email, password, matches, token, production) == LoggedIn(id, Session(token, production))
        <==> email != "" && password != "" && id in users && users[id].email == email && matches(users[id].credential, password)
  {
  }

  /** After a signup, logging in with the same email finds the new user. */
  lemma SignupThenLogin(db: Db, b: SignupBody, newId: Id, avatar: nat, matches: (string, string) -> bool, token: string, production: bool)
    requires Consistent(db) && newId !in db.users && SignupCheck(db.users, b) == None
    ensures var users := AfterSignup(db, b, newId, avatar).users;
      && UniqueEmails(users)
      && Login(users, b.email, b.password, matches, token, production)
         == if matches(b.password, b.password) then LoggedIn(newId, Session(token, production)) else InvalidCredentials
  {
    SignupKeepsConsistency(db, b, newId, avatar);
    var users := AfterSignup(db, b, newId, avatar).users;
    assert users[newId].email == b.email;
  }

  // ---------------------------------------------------------------------
  // onboard

  /** The onboarding body: the five profile fields (absent is ""), and the
      `friends` key a client may add, which the code's spread copies too. */
  datatype OnboardBody = OnboardBody(
    fullName: string,
    bio: string,
    nativeLanguage: string,
    learningLanguage: string,
    location: string,
    friends: Option<seq<Id>>)

  /** The five profile fields onboarding requires, in the order the code lists them. */
  datatype Field = FullName | Bio | NativeLanguage | LearningLanguage | Location

  /** The name under which the 400 reply lists a field. */
  function FieldName(f: Field): string {
    match f
    case FullName => "fullName"
    case Bio => "bio"
    case NativeLanguage => "nativeLanguage"
    case LearningLanguage => "learningLanguage"
    case Location => "location"
  }

  function FieldValue(b: OnboardBody, f: Field): string {
    match f
    case FullName => b.fullName
    case Bio => b.bio
    case NativeLanguage => b.nativeLanguage
    case LearningLanguage => b.learningLanguage
    case Location => b.location
  }

  /** The position of a field in the code's list. */
  function FieldRank(f: Field): nat {
    match f
    case FullName => 0
    case Bio => 1
    case NativeLanguage => 2
    case LearningLanguage => 3
    case Location => 4
  }

  /** Listed in the code's order, each field at most once. */
  predicate RankSorted(fs: seq<Field>) {
    forall i, j :: 0 <= i < j < |fs| ==> FieldRank(fs[i]) < FieldRank(fs[j])
  }

  /** One element of the list: `f` is appended when its value is empty. */
  function ListIfEmpty(b: OnboardBody, sofar: seq<Field>, f: Field): (r: seq<Field>)
    requires RankSorted(sofar) && forall x :: x in sofar ==> FieldRank(x) < FieldRank(f)
    ensures forall x :: x in r <==> x in sofar || (x == f && FieldValue(b, f) == "")
    ensures |r| == |sofar| + (if FieldValue(b, f) == "" then 1 else 0)
    ensures RankSorted(r) && forall x :: x in r ==> FieldRank(x) <= FieldRank(f)
  {
    if FieldValue(b, f) == "" then sofar + [f] else sofar
  }

  /** `[!fullName && 'fullName', …].filter(Boolean)`: the empty fields, in the order
      fullName, bio, nativeLanguage, learningLanguage, location. */
  function MissingFields(b: OnboardBody): (missing: seq<Field>)
    ensures forall f :: f in missing <==> FieldValue(b, f) == ""
    ensures RankSorted(missing)
  {
    var upToName := ListIfEmpty(b, [], FullName);
    var upToBio := ListIfEmpty(b, upToName, Bio);
    var upToNative := ListIfEmpty(b, upToBio, NativeLanguage);
    var upToLearning := ListIfEmpty(b, upToNative, LearningLanguage);
    ListIfEmpty(b, upToLearning, Location)
  }

  datatype OnboardReply = Onboarded(user: User) | FieldsMissing(missingFields: seq<Field>) | OnboardUserNotFound

  /** The profile the update writes: the five body fields and `isOnboarded = true`. */
  function OnboardedProfile(u: User, b: OnboardBody): User {
    u.(fullName := b.fullName, bio := b.bio, nativeLanguage := b.nativeLanguage,
       learningLanguage := b.learningLanguage, location := b.location, isOnboarded := true)
  }

  function AfterOnboard(db: Db, userId: Id, b: OnboardBody): Db {
    if MissingFields(b) == [] && userId in db.users then
      db.(users := db.users[userId := OnboardedProfile(db.users[userId], b)])
    else
      db
  }

  function OnboardReplyFor(db: Db, userId: Id, b: OnboardBody): OnboardReply {
    if MissingFields(b) != [] then
      FieldsMissing(MissingFields(b))
    else if userId !in db.users then OnboardUserNotFound
    else Onboarded(OnboardedProfile(db.users[userId], b))
  }

  /** onboard (with the update limited to the profile fields, see AfterOnboardAsWritten).
      The Stream mirror call that follows has its failures caught, so it has no say in the reply. */
  method Onboard(db: Store, userId: Id, b: OnboardBody) returns (reply: OnboardReply)
    requires db.Valid()
    modifies db
    ensures db.Valid()
    ensures db.State() == AfterOnboard(old(db.State()), userId, b)
    ensures reply == OnboardReplyFor(old(db.State()), userId, b)
  {
    OnboardKeepsConsistency(db.State(), userId, b);
    OnboardRefusedIffMissing(db.State(), userId, b);
    if b.fullName == "" || b.bio == "" || b.nativeLanguage == "" || b.learningLanguage == "" || b.location == "" {
      return FieldsMissing(MissingFields(b));
    }
    if userId !in db.users {
      return OnboardUserNotFound;
    }
    var updated := OnboardedProfile(db.users[userId], b);
    db.users := db.users[userId := updated];
    reply := Onboarded(updated);
  }

  /** The 400 reply is given exactly when the missing-field list is non-empty,
      and then it carries that list. */
  lemma OnboardRefusedIffMissing(db: Db, userId: Id, b: OnboardBody)
    ensures OnboardReplyFor(db, userId, b).FieldsMissing? <==> MissingFields(b) != []
    ensures MissingFields(b) != [] ==> AfterOnboard(db, userId, b) == db
  {
    if b.fullName == "" { assert FullName in MissingFields(b); }
    else if b.bio == "" { assert Bio in MissingFields(b); }
    else if b.nativeLanguage == "" { assert NativeLanguage in MissingFields(b); }
    else if b.learningLanguage == "" { assert LearningLanguage in MissingFields(b); }
    else if b.location == "" { assert Location in MissingFields(b); }
  }

  /** A body missing only `bio` is answered with exactly ["bio"]. */
  lemma OnlyBioMissing(db: Db, userId: Id, b: OnboardBody)
    requires b.bio == "" && b.fullName != "" && b.nativeLanguage != "" && b.learningLanguage != "" && b.location != ""
    ensures OnboardReplyFor(db, userId, b) == FieldsMissing([Bio])
  {
  }

  /** Onboarding (restricted to the profile fields) keeps the store consistent. */
  lemma OnboardKeepsConsistency(db: Db, userId: Id, b: OnboardBody)
    requires Consistent(db)
    ensures Consistent(AfterOnboard(db, userId, b))
  {
    var after := AfterOnboard(db, userId, b);
    if MissingFields(b) == [] && userId in db.users {
      assert after.requests == db.requests && after.users.Keys == db.users.Keys;
      assert forall u :: u in db.users ==>
        after.users[u].friends == db.users[u].friends && after.users[u].email == db.users[u].email;
      assert UniqueEmails(after.users);
      assert FriendListsWellFormed(after.users);
      assert RequestsWellFormed(after);
      assert FriendsExactlyAccepted(after);
    }
  }

  /** Once onboarded, a user is recommended to every other user who is not yet a friend. */
  lemma OnboardedUserIsRecommended(db: Db, userId: Id, b: OnboardBody, viewer: Id)
    requires Consistent(db) && MissingFields(b) == [] && userId in db.users
    requires viewer in db.users && viewer != userId && userId !in db.users[viewer].friends
    ensures viewer in AfterOnboard(db, userId, b).users
    ensures userId in UserController.RecommendedUsers(AfterOnboard(db, userId, b), viewer)
  {
  }

  /** The update onboard sends as written: `{...req.body, isOnboarded: true}`, so a
      `friends` key in the body replaces the stored friend list. */
  function OnboardedProfileAsWritten(u: User, b: OnboardBody): User {
    var p := OnboardedProfile(u, b);
    match b.friends
    case Some(fs) => p.(friends := fs)
    case None => p
  }

  function AfterOnboardAsWritten(db: Db, userId: Id, b: OnboardBody): Db {
    if MissingFields(b) == [] && userId in db.users then
      db.(users := db.users[userId := OnboardedProfileAsWritten(db.users[userId], b)])
    else
      db
  }

  /** As written, a body naming a stranger in `friends` makes `u` list `v`
      without `v` listing `u`: friendship stops being mutual. */
  lemma OnboardAsWrittenBreaksFriendship(db: Db, u: Id, v: Id, b: OnboardBody)
    requires Consistent(db) && u in db.users && v in db.users && u != v
    requires !AcceptedBetween(db.requests, u, v)
    requires MissingFields(b) == [] && b.friends == Some([v])
    ensures var after := AfterOnboardAsWritten(db, u, b);
      && v in after.users[u].friends && u !in after.users[v].friends
      && !Consistent(after)
  {
    var after := AfterOnboardAsWritten(db, u, b);
    AcceptedBetweenSymmetric(db.requests, u, v);
    assert u !in db.users[v].friends;
    assert after.users[v] == db.users[v];
    assert v in after.users[u].friends && !AcceptedBetween(after.requests, u, v);
  }

  // ---------------------------------------------------------------------
  // The Stream mirror call of signup and onboard

  /** The object `upsertStreamUser(userId, name, image)` hands to Stream's `upsertUser`:
      `{id: userId.toString(), name, image}`; `None` is `undefined`. */
  datatype MirrorCall = MirrorCall(id: string, name: Option<string>, image: Option<string>)

  /** The upsert intended for a user, with id, name and picture passed positionally:
      the user's own id, name and picture. */
  function MirrorCallFor(id: Id, u: User): (call: MirrorCall)
    ensures call.id == id
    ensures call.name == Some(u.fullName)
    ensures call.image == Some(u.profilePic)
  {
    MirrorCall(id, Some(u.fullName), Some(u.profilePic))
  }

  /** As written, signup and onboard pass one object where `upsertStreamUser(userId, name, image)`
      takes three arguments: the id becomes the object's string "[object Object]"
      and name and image are undefined. */
  function MirrorCallAsWritten(id: Id, u: User): (call: MirrorCall)
    ensures call.name.None? && call.image.None?
  {
    MirrorCall("[object Object]", None, None)
  }

  /** As written, the mirror never names the user: every user maps to one Stream identity. */
  lemma MirrorAsWrittenLosesUser(id: Id, u: User, other: Id, v: User)
    requires id != "[object Object]"
    ensures MirrorCallAsWritten(id, u).id != id
    ensures MirrorCallAsWritten(id, u) != MirrorCallFor(id, u)
    ensures MirrorCallAsWritten(id, u) == MirrorCallAsWritten(other, v)
  {
  }

  /** Called positionally, the mirror of a new or onboarded user carries that
      user's id, so distinct users get distinct Stream identities. */
  lemma MirrorCallSeparatesUsers(id: Id, u: User, other: Id, v: User)
    requires id != other
    ensures MirrorCallFor(id, u) != MirrorCallFor(other, v)
  {
  }
}
