/** The canonical id of the one-to-one messaging channel of two users,
    computed as `[a, b].sort().join("-")` by the chat page and by the
    notification endpoint, so that both sides derive it without a lookup. */
module ChannelIds {
  import opened JsText

  /** `[a, b].sort()`: the default sort compares with `<` on strings and
      leaves equal elements where they are. */
  function SortPair(a: string, b: string): (r: seq<string>)
    ensures r == [a, b] || r == [b, a]
    ensures !Less(r[1], r[0])
  {
    LessIsStrictTotal(a, b);
    if Less(b, a) then [b, a] else [a, b]
  }

  /** `[a, b].sort().join("-")`. */
  function ChannelId(a: string, b: string): string {
    Join(SortPair(a, b), "-")
  }

  /** Both users compute the same id, whichever of them is `a`. */
  lemma ChannelIdSymmetric(a: string, b: string)
    ensures ChannelId(a, b) == ChannelId(b, a)
  {
    LessIsStrictTotal(a, b);
  }

  /** For ids without '-', splitting the channel id on '-' gives back the sorted pair. */
  lemma ChannelIdSplits(a: string, b: string)
    requires '-' !in a && '-' !in b
    ensures Split(ChannelId(a, b), '-') == SortPair(a, b)
  {
    var p := SortPair(a, b);
    assert forall x :: x in p ==> x == a || x == b;
    SplitJoin(p, '-');
  }
}
