/** The messages page: clicking a conversation recovers the friend's id from
    the channel id and opens the chat page for that friend. */
module MessagesPage {
  import opened JsText
  import opened ChannelIds
  import UserController
  import Database

  /** `const [id1, id2] = chatId.split("-")` then `id1 === me ? id2 : id1`.
      `None` is `undefined`: the id has no '-' and equals `me`. Parts after the
      second are ignored. */
  function FriendIdFromChannel(chatId: string, me: string): (friend: Option<string>)
    ensures friend.None? <==> Split(chatId, '-') == [me]
    ensures Split(chatId, '-')[0] != me ==> friend == Some(Split(chatId, '-')[0])
    ensures Split(chatId, '-')[0] == me && |Split(chatId, '-')| >= 2 ==> friend == Some(Split(chatId, '-')[1])
    ensures friend == Some(me) ==> |Split(chatId, '-')| >= 2 && Split(chatId, '-')[..2] == [me, me]
  {
    var parts := Split(chatId, '-');
    if parts[0] == me then
      if |parts| >= 2 then Some(parts[1]) else None
    else
      Some(parts[0])
  }

  /** The path navigated to: `/chat/${friendId}` (an undefined id prints as "undefined"). */
  function ChatRoute(friend: Option<string>): string {
    "/chat/" + match friend case Some(f) => f case None => "undefined"
  }

  /** handleChatClick: the path opened for a click on the conversation `chatId`. */
  function HandleChatClick(chatId: string, me: string): (route: string)
    ensures var parts := Split(chatId, '-');
      && (parts[0] != me ==> route == "/chat/" + parts[0])
      && (parts[0] == me && |parts| >= 2 ==> route == "/chat/" + parts[1])
      && (parts == [me] ==> route == "/chat/undefined")
  {
    ChatRoute(FriendIdFromChannel(chatId, me))
  }

  /** Round trip: for ids without '-', the channel id of `me` and `f` gives back `f`. */
  lemma FriendIdRoundTrip(me: string, f: string)
    requires '-' !in me && '-' !in f
    ensures FriendIdFromChannel(ChannelId(me, f), me) == Some(f)
    ensures HandleChatClick(ChannelId(me, f), me) == "/chat/" + f
  {
    ChannelIdSplits(me, f);
  }

  /** A user who is not in the channel is sent to its first (smaller) member. */
  lemma OutsiderGetsFirstMember(a: string, b: string, me: string)
    requires '-' !in a && '-' !in b
    requires me != a && me != b
    ensures FriendIdFromChannel(ChannelId(a, b), me) == Some(SortPair(a, b)[0])
  {
    ChannelIdSplits(a, b);
  }

  /** Without the no-'-' condition the round trip fails: with `me` = "a" and a friend
      "b-c" the channel id is "a-b-c" and the page opens a chat with "b". */
  lemma DashedIdBreaksRoundTrip(me: string, f: string)
    requires me == "a" && f == "b-c"
    ensures ChannelId(me, f) == "a-b-c"
    ensures FriendIdFromChannel(ChannelId(me, f), me) == Some("b")
  {
    assert !Less(f, me);
    assert SortPair(me, f) == [me, f];
    assert [me, f][1..] == [f];
    assert Join([f], "-") == f;
    assert Join([me, f], "-") == me + "-" + Join([f], "-");
    assert ChannelId(me, f) == "a" + "-" + "b-c";
    SplitWithoutSeparator("c", '-');
    SplitAfterPart("b", '-', "c");
    assert "b" + ['-'] + "c" == "b-c";
    SplitAfterPart("a", '-', "b-c");
    assert "a" + ['-'] + "b-c" == "a-b-c";
  }

  /** Clicking a summary of the latest-chats list opens the chat with the friend it shows,
      when the channel id is the canonical id of `me` and that friend. */
  lemma ClickOpensShownFriend(
    c: UserController.ChannelSnapshot, me: string, f: string,
    users: map<string, Database.User>, online: map<string, bool>)
    requires '-' !in me && '-' !in f && me != f && f != ""
    requires c.members == [me, f] && c.id == ChannelId(me, f)
    requires f in users
    ensures var s := UserController.Summarize(c, me, users, online);
      && s.Some? && s.value.friend.Some?
      && HandleChatClick(s.value.id, me) == "/chat/" + s.value.friend.value.id
  {
    FriendIdRoundTrip(me, f);
    assert c.members[1..] == [f];
    assert UserController.OtherMember(c.members, me) == Some(f);
  }
}
