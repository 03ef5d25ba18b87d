/** The chat page: the channel it opens with the target user, the two lists
    its event handlers keep (who is typing, which notifications arrived), the
    guard in front of message search, and the typing indicator's text. */
module ChatPage {
  import opened JsText
  import opened ChannelIds
  import ChatController
  import Database

  datatype ChatUser = ChatUser(id: string, name: string)

  /** A message delivered by a `message.new` event; `kind` is its `type`. */
  datatype ChatMessage = ChatMessage(text: string, kind: string)

  /** The channel the page opens: its type, id and initial members. */
  datatype ChannelSetup = ChannelSetup(kind: string, id: string, members: seq<string>)

  /** The "messaging" channel of the signed-in user `me` with `target`. */
  function OpenChannel(me: string, target: string): (c: ChannelSetup)
    ensures c.kind == "messaging"
    ensures c.id == ChannelId(me, target) == ChannelId(target, me)
    ensures c.members == [me, target]
  {
    ChannelIdSymmetric(me, target);
    ChannelSetup("messaging", ChannelId(me, target), [me, target])
  }

  /** The two users open the same channel, with the same members. */
  lemma BothSidesOpenSameChannel(a: string, b: string)
    ensures OpenChannel(a, b).id == OpenChannel(b, a).id
    ensures multiset(OpenChannel(a, b).members) == multiset(OpenChannel(b, a).members)
  {
  }

  /** The page's channel is the one the notification endpoint posts into. */
  lemma PageWatchesNotificationChannel(users: map<string, Database.User>, me: string, target: string, text: string, kind: string)
    requires me in users && target in users
    ensures var r := ChatController.SendNotification(users, target, ChatController.NotifyBody(me, text, kind), true);
      r.NotificationSent? && r.sent.channelId == OpenChannel(me, target).id
  {
  }

  // ---------------------------------------------------------------------
  // typingUsers

  /** `typing.start`: another user is appended (even if already listed); the
      signed-in user's own event is ignored. */
  function WithTyper(typers: seq<ChatUser>, me: string, u: ChatUser): (r: seq<ChatUser>)
    ensures |typers| <= |r| && r[..|typers|] == typers
    ensures r == typers <==> u.id == me
    ensures u.id != me ==> r[|typers|..] == [u]
  {
    if u.id != me then typers + [u] else typers
  }

  /** `typing.stop`: every entry with the user's id removed, the rest in order. */
  function WithoutTyper(typers: seq<ChatUser>, id: string): (r: seq<ChatUser>)
    ensures forall x :: x in r <==> x in typers && x.id != id
    ensures |r| <= |typers|
  {
    if typers == [] then []
    else if typers[|typers| - 1].id == id then WithoutTyper(typers[..|typers| - 1], id)
    else
      assert typers == typers[..|typers| - 1] + [typers[|typers| - 1]];
      WithoutTyper(typers[..|typers| - 1], id) + [typers[|typers| - 1]]
  }

  /** Removing works piece by piece, which is what keeps the others' order. */
  lemma {:induction false} WithoutTyperDistributes(a: seq<ChatUser>, b: seq<ChatUser>, id: string)
    ensures WithoutTyper(a + b, id) == WithoutTyper(a, id) + WithoutTyper(b, id)
  {
    if b != [] {
      var b' := b[..|b| - 1];
      assert (a + b)[..|a + b| - 1] == a + b';
      assert (a + b)[|a + b| - 1] == b[|b| - 1];
      WithoutTyperDistributes(a, b', id);
    } else {
      assert a + b == a;
    }
  }

  /** A stop right after a start of the same other user leaves the list as a stop alone would. */
  lemma StopAfterStart(typers: seq<ChatUser>, me: string, u: ChatUser)
    ensures WithoutTyper(WithTyper(typers, me, u), u.id) == WithoutTyper(typers, u.id)
  {
    if u.id != me {
      WithoutTyperDistributes(typers, [u], u.id);
      assert WithoutTyper([u], u.id) == WithoutTyper([], u.id);
    }
  }

  /** Stopping twice is stopping once. */
  lemma {:induction false} StopIdempotent(typers: seq<ChatUser>, id: string)
    ensures WithoutTyper(WithoutTyper(typers, id), id) == WithoutTyper(typers, id)
  {
    if typers != [] {
      var init := typers[..|typers| - 1];
      var last := typers[|typers| - 1];
      StopIdempotent(init, id);
      if last.id != id {
        WithoutTyperDistributes(WithoutTyper(init, id), [last], id);
        assert WithoutTyper([last], id) == WithoutTyper([], id) + [last];
      }
    }
  }

  /** Names joined with ", ", then "is" for exactly one typer and "are" otherwise;
      nothing is shown while nobody types. */
  function TypingIndicator(typers: seq<ChatUser>): (shown: Option<string>)
    ensures shown.None? <==> typers == []
  {
    if typers == [] then None
    else
      var names := seq(|typers|, i requires 0 <= i < |typers| => typers[i].name);
      Some(Join(names, ", ") + " " + (if |typers| == 1 then "is" else "are") + " typing...")
  }

  /** The indicator reads "… is typing..." exactly when one user types, "… are typing..." otherwise. */
  lemma IndicatorAgreement(typers: seq<ChatUser>)
    requires typers != []
    ensures var shown := TypingIndicator(typers).value;
      && (|typers| == 1 <==> |shown| >= 13 && shown[|shown| - 13..] == " is typing...")
      && (|typers| != 1 <==> |shown| >= 14 && shown[|shown| - 14..] == " are typing...")
  {
    var names := seq(|typers|, i requires 0 <= i < |typers| => typers[i].name);
    var head := Join(names, ", ");
    var shown := TypingIndicator(typers).value;
    if |typers| == 1 {
      assert shown == head + " is typing...";
      assert |shown| == |head| + 13;
      assert shown[|shown| - 13..] == " is typing...";
      assert |shown| >= 14 ==> shown[|shown| - 14..][1] == ' ';
    } else {
      assert shown == head + " are typing...";
      assert shown[|shown| - 14..] == " are typing...";
      assert shown[|shown| - 13..][0] == 'a';
    }
  }

  // ---------------------------------------------------------------------
  // notifications

  /** `message.new`: only messages of type "notification" are appended. */
  function WithNotification(notes: seq<ChatMessage>, m: ChatMessage): (r: seq<ChatMessage>)
    ensures |notes| <= |r| && r[..|notes|] == notes
    ensures r == notes <==> m.kind != "notification"
    ensures m.kind == "notification" ==> r[|notes|..] == [m]
  {
    if m.kind == "notification" then notes + [m] else notes
  }

  /** The notification-type messages of `ms`, in order. */
  function OnlyNotifications(ms: seq<ChatMessage>): (r: seq<ChatMessage>)
    ensures forall m :: m in r <==> m in ms && m.kind == "notification"
  {
    if ms == [] then []
    else
      assert ms == [ms[0]] + ms[1..];
      (if ms[0].kind == "notification" then [ms[0]] else []) + OnlyNotifications(ms[1..])
  }

  /** The list after the handler has seen `ms` one event at a time. */
  function Replay(notes: seq<ChatMessage>, ms: seq<ChatMessage>): seq<ChatMessage>
    decreases |ms|
  {
    if ms == [] then notes else Replay(WithNotification(notes, ms[0]), ms[1..])
  }

  /** Replaying events appends exactly their notification-type messages, in arrival order. */
  lemma {:induction false} ReplayKeepsNotifications(notes: seq<ChatMessage>, ms: seq<ChatMessage>)
    ensures Replay(notes, ms) == notes + OnlyNotifications(ms)
    decreases |ms|
  {
    if ms != [] {
      ReplayKeepsNotifications(WithNotification(notes, ms[0]), ms[1..]);
      if ms[0].kind == "notification" {
        assert notes + [ms[0]] + OnlyNotifications(ms[1..]) == notes + ([ms[0]] + OnlyNotifications(ms[1..]));
      }
    }
  }

  /** A notification the endpoint posts without a type is listed by the page that receives it. */
  lemma DefaultNotificationListed(notes: seq<ChatMessage>, text: string)
    ensures WithNotification(notes, ChatMessage(text, ChatController.MessageKind(""))) == notes + [ChatMessage(text, "notification")]
  {
  }

  // ---------------------------------------------------------------------
  // search

  /** `handleSearch`'s guard: a query runs only when it is not white space alone and a channel exists. */
  function SearchRuns(query: string, hasChannel: bool): (runs: bool)
    ensures runs <==> hasChannel && !Blank(query)
  {
    Trim(query) != [] && hasChannel
  }

  // ---------------------------------------------------------------------
  // The page's list state

  /** The state the event handlers update. `me` is the signed-in user's id. */
  class ChatView {
    const me: string
    var typingUsers: seq<ChatUser>
    var notifications: seq<ChatMessage>

    /** The signed-in user never appears among the typers. */
    ghost predicate Valid()
      reads this
    {
      forall i :: 0 <= i < |typingUsers| ==> typingUsers[i].id != me
    }

    constructor (me: string)
      ensures this.me == me && typingUsers == [] && notifications == []
      ensures Valid()
    {
      this.me := me;
      typingUsers := [];
      notifications := [];
    }

    method OnTypingStart(u: ChatUser)
      requires Valid()
      modifies this
      ensures Valid()
      ensures typingUsers == WithTyper(old(typingUsers), me, u)
      ensures notifications == old(notifications)
    {
      if u.id != me {
        typingUsers := typingUsers + [u];
      }
    }

    method OnTypingStop(u: ChatUser)
      requires Valid()
      modifies this
      ensures Valid()
      ensures typingUsers == WithoutTyper(old(typingUsers), u.id)
      ensures forall x :: x in typingUsers ==> x.id != u.id
      ensures notifications == old(notifications)
    {
      var kept := WithoutTyper(typingUsers, u.id);
      assert forall i :: 0 <= i < |kept| ==> kept[i] in typingUsers;
      typingUsers := kept;
    }

    method OnMessageNew(m: ChatMessage)
      requires Valid()
      modifies this
      ensures Valid()
      ensures notifications == WithNotification(old(notifications), m)
      ensures typingUsers == old(typingUsers)
    {
      if m.kind == "notification" {
        notifications := notifications + [m];
      }
    }
  }
}
