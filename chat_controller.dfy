/** The chat controller: the endpoint that issues a chat-provider token and the
    endpoint that posts a notification into the two users' shared channel. */
module ChatController {
  import opened JsText
  import opened Database
  import opened ChannelIds
  import AuthController

  // ---------------------------------------------------------------------
  // getStreamToken

  datatype TokenReply = TokenIssued(token: string) | TokenFailed(status: int, message: string)

  /** getStreamToken. `upsertSucceeds` says whether the provider's user upsert
      resolves (a rejection propagates to the handler's catch); `generated` is what
      `generateStreamToken` returns, `None` for its `null`. */
  function GetStreamToken(users: map<Id, User>, userId: Id, upsertSucceeds: bool, generated: Option<string>): (reply: TokenReply)
    ensures reply == TokenFailed(404, "User not found") <==> userId !in users
    ensures reply.TokenIssued? <==> userId in users && upsertSucceeds && generated.Some? && generated.value != ""
    ensures reply.TokenIssued? ==> reply.token != "" && generated == Some(reply.token)
    ensures reply.TokenFailed? && userId in users ==> reply == TokenFailed(500, "Internal Server Error")
  {
    if userId !in users then TokenFailed(404, "User not found")
    else if !upsertSucceeds then TokenFailed(500, "Internal Server Error")
    else
      match generated
      case None => TokenFailed(500, "Internal Server Error")
      case Some(t) => if t == "" then TokenFailed(500, "Internal Server Error") else TokenIssued(t)
  }

  /** The upsert getStreamToken makes before issuing a token: it passes id, name and
      picture positionally, so unlike signup's and onboarding's call the provider sees
      the user's own identity, name and picture. */
  function TokenMirrorCall(users: map<Id, User>, userId: Id): (call: Option<AuthController.MirrorCall>)
    ensures call.Some? <==> userId in users
    ensures call.Some? ==> call.value.id == userId
    ensures call.Some? ==>
      call.value.name == Some(users[userId].fullName) && call.value.image == Some(users[userId].profilePic)
    ensures call.Some? && userId != "[object Object]" ==>
      call.value != AuthController.MirrorCallAsWritten(userId, users[userId])
  {
    if userId in users then Some(AuthController.MirrorCallFor(userId, users[userId])) else None
  }

  /** Two users who fetch a token are mirrored as two distinct provider users. */
  lemma TokenMirrorSeparatesUsers(users: map<Id, User>, a: Id, b: Id)
    requires a in users && b in users && a != b
    ensures TokenMirrorCall(users, a).value != TokenMirrorCall(users, b).value
  {
  }

  // ---------------------------------------------------------------------
  // sendNotification

  /** The request body; an absent `type` is "". */
  datatype NotifyBody = NotifyBody(recipientId: Id, message: string, kind: string)

  /** A message as posted to the provider, with its author. */
  datatype StreamMessage = StreamMessage(text: string, kind: string, authorId: Id, authorName: string, authorImage: string)

  /** What the handler asks the provider to do: create the "messaging" channel
      `channelId`, add `members`, post `message`. */
  datatype Notification = Notification(channelId: string, members: seq<Id>, message: StreamMessage)

  datatype NotifyReply = NotificationSent(sent: Notification) | NotifyFailed(status: int, message: string)

  /** `type || "notification"`. */
  function MessageKind(kind: string): (k: string)
    ensures k != ""
    ensures kind != "" ==> k == kind
    ensures kind == "" ==> k == "notification"
  {
    if kind == "" then "notification" else kind
  }

  /** The channel, members and message for a notification from `senderId`. */
  function NotificationFor(senderId: Id, sender: User, b: NotifyBody): (n: Notification)
    ensures n.channelId == ChannelId(senderId, b.recipientId) == ChannelId(b.recipientId, senderId)
    ensures multiset(n.members) == multiset{senderId, b.recipientId}
    ensures n.message.authorId == senderId && n.message.text == b.message
  {
    ChannelIdSymmetric(senderId, b.recipientId);
    Notification(
      ChannelId(senderId, b.recipientId),
      [senderId, b.recipientId],
      StreamMessage(b.message, MessageKind(b.kind), senderId, sender.fullName, sender.profilePic))
  }

  /** sendNotification, with the provider client in scope. `streamSucceeds` says
      whether channel creation, adding the members and posting the message all resolve. */
  function SendNotification(users: map<Id, User>, senderId: Id, b: NotifyBody, streamSucceeds: bool): (reply: NotifyReply)
    ensures senderId !in users ==> reply == NotifyFailed(404, "Sender not found")
    ensures senderId in users && b.recipientId !in users ==> reply == NotifyFailed(404, "Recipient not found")
    ensures reply.NotificationSent? <==> senderId in users && b.recipientId in users && streamSucceeds
    ensures senderId in users && b.recipientId in users && !streamSucceeds ==>
      reply == NotifyFailed(500, "Failed to send notification")
    ensures reply.NotificationSent? ==> reply.sent.message.text == b.message && reply.sent.message.authorId == senderId
    ensures reply.NotificationSent? ==>
      && reply.sent.channelId == ChannelId(b.recipientId, senderId)
      && multiset(reply.sent.members) == multiset{senderId, b.recipientId}
      && reply.sent.message.kind == MessageKind(b.kind)
  {
    if senderId !in users then NotifyFailed(404, "Sender not found")
    else if b.recipientId !in users then NotifyFailed(404, "Recipient not found")
    else if !streamSucceeds then NotifyFailed(500, "Failed to send notification")
    else NotificationSent(NotificationFor(senderId, users[senderId], b))
  }

  /** sendNotification as written: the provider client is never imported into the
      controller, so evaluating `streamClient.channel(...)` throws and the catch answers 500. */
  function SendNotificationAsWritten(users: map<Id, User>, senderId: Id, b: NotifyBody): (reply: NotifyReply)
    ensures reply.NotifyFailed?
  {
    if senderId !in users then NotifyFailed(404, "Sender not found")
    else if b.recipientId !in users then NotifyFailed(404, "Recipient not found")
    else NotifyFailed(500, "Failed to send notification")
  }

  /** As written, no notification is ever posted: once both users exist the
      answer is 500 even when the provider would have accepted every call. */
  lemma NotificationNeverSentAsWritten(users: map<Id, User>, senderId: Id, b: NotifyBody)
    requires senderId in users && b.recipientId in users
    ensures SendNotification(users, senderId, b, true).NotificationSent?
    ensures SendNotificationAsWritten(users, senderId, b) == NotifyFailed(500, "Failed to send notification")
  {
  }

  /** The defect only concerns the provider calls: up to the two lookups the code as
      written and the corrected code answer alike. */
  lemma AsWrittenAgreesOnLookups(users: map<Id, User>, senderId: Id, b: NotifyBody, streamSucceeds: bool)
    requires senderId !in users || b.recipientId !in users
    ensures SendNotificationAsWritten(users, senderId, b) == SendNotification(users, senderId, b, streamSucceeds)
  {
  }

  /** Either user sending a notification to the other posts into the same channel. */
  lemma NotificationsShareChannel(users: map<Id, User>, a: Id, b: Id, textA: string, textB: string, kindA: string, kindB: string)
    requires a in users && b in users
    ensures var ra := SendNotification(users, a, NotifyBody(b, textA, kindA), true);
      var rb := SendNotification(users, b, NotifyBody(a, textB, kindB), true);
      && ra.NotificationSent? && rb.NotificationSent?
      && ra.sent.channelId == rb.sent.channelId
      && multiset(ra.sent.members) == multiset(rb.sent.members)
  {
  }
}
