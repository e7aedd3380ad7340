/**
  The message handler (handler.go, `OnMessageCreate`): decides whether an
  inbound message is addressed to the bot, normalises its text, and picks at
  most one route to run. The channel lookup is reduced to a boolean saying
  whether the channel is a direct-message channel (false when the lookup
  fails), and a handler callback to the route it belongs to.
 */
module Dispatch {
  import opened Optional
  import opened Text
  import opened Mentions
  import opened Registry

  /** The per-message context passed to a route's callback. */
  datatype Context = Context(
    fields: seq<string>,
    content: string,
    isDirected: bool,
    isPrivate: bool,
    hasPrefix: bool,
    hasMention: bool,
    hasMentionFirst: bool)

  /** The parts of an inbound message the router reads: the author's ID, the
      raw text and the IDs of the users it mentions. */
  datatype Message = Message(authorId: string, content: string, mentions: seq<string>)

  /** Which callback runs, with the context it receives. */
  datatype Action = NoRun | RunRoute(index: nat, ctx: Context) | RunDefault(ctx: Context)

  /** The context `OnMessageCreate` builds before matching: direct-message
      channel first, then a mention of the bot, then the textual prefix. */
  function Derive(h: Handler, selfId: string, msg: Message, isPrivate: bool): (c: Context)
    ensures c.fields == []
    ensures c.isDirected <==> c.isPrivate || c.hasMention || c.hasPrefix
    ensures !(c.isPrivate && c.hasMention) && !(c.isPrivate && c.hasPrefix) && !(c.hasMention && c.hasPrefix)
    ensures c.hasMentionFirst ==> c.hasMention || c.hasPrefix
    ensures c.hasPrefix ==> h.prefix != [] && h.prefix + c.content == TrimSpace(msg.content)
    ensures !c.isDirected ==> c.content == TrimSpace(msg.content)
  {
    var content := TrimSpace(msg.content);
    if isPrivate then
      Context([], content, true, true, false, false, false)
    else if selfId in msg.mentions then
      Context([], StripMentions(content, selfId), true, false, false, true, StartsWithMention(content, selfId))
    else if |h.prefix| > 0 && HasPrefix(content, h.prefix) then
      assert h.prefix + content[|h.prefix|..] == content;
      Context([], content[|h.prefix|..], true, false, true, false, true)
    else
      Context([], content, false, false, false, false, false)
  }

  /** `OnMessageCreate` from the author check to the callback: at most one
      route, or the fallback, or nothing. */
  function HandleMessage(h: Handler, selfId: string, msg: Message, isPrivate: bool): (a: Action)
    ensures msg.authorId == selfId ==> a == NoRun
    ensures a.RunRoute? ==> a.index < |h.routes| && a.ctx.isDirected && a.ctx.fields != []
    ensures a.RunDefault? ==> h.default.Some? && !a.ctx.isPrivate && a.ctx.fields == []
  {
    if msg.authorId == selfId then NoRun
    else
      var c := Derive(h, selfId, msg, isPrivate);
      if !c.isDirected then NoRun
      else
        var m := FuzzyMatch(h, c.content);
        if m.route.Some? then RunRoute(m.route.value, c.(fields := m.fields))
        else if h.default.Some? && c.hasMentionFirst then RunDefault(c)
        else NoRun
  }

  /** A direct message is addressed to the bot and kept verbatim apart from
      trimming; mentions and prefix are not looked at. */
  lemma DerivePrivate(h: Handler, selfId: string, msg: Message, h': Handler, msg': Message)
    requires msg'.content == msg.content
    ensures Derive(h, selfId, msg, true) == Context([], TrimSpace(msg.content), true, true, false, false, false)
    ensures Derive(h, selfId, msg, true) == Derive(h', selfId, msg', true)
  {
  }

  /** A mention of the bot outside a direct message: addressed, mention-first
      exactly when the trimmed text opens with `<@ID>` or `<@!ID>`, every
      mention of the bot removed in one pass with no trimming afterwards, and
      the prefix never consulted. */
  lemma DeriveMention(h: Handler, h': Handler, selfId: string, msg: Message)
    requires selfId in msg.mentions
    ensures var c := Derive(h, selfId, msg, false);
      && c.isDirected && c.hasMention && !c.isPrivate && !c.hasPrefix
      && (c.hasMentionFirst <==>
            HasPrefix(TrimSpace(msg.content), PlainMention(selfId))
            || HasPrefix(TrimSpace(msg.content), NickMention(selfId)))
      && c.content == StripMentions(TrimSpace(msg.content), selfId)
    ensures Derive(h, selfId, msg, false) == Derive(h', selfId, msg, false)
  {
    var t := TrimSpace(msg.content);
    MarkupLenIsPrefix(t, selfId, 0);
    assert t[0..] == t;
  }

  /** With a snowflake ID, the mention branch keeps precisely the characters
      of the trimmed text that lie inside no mention of the bot. */
  lemma DeriveMentionContent(h: Handler, selfId: string, msg: Message)
    requires IsSnowflake(selfId) && selfId in msg.mentions
    ensures Derive(h, selfId, msg, false).content == Uncovered(TrimSpace(msg.content), selfId, 0)
  {
    StripMentionsKeepsUncovered(TrimSpace(msg.content), selfId);
  }

  /** The prefix branch: taken only when no earlier check applied, the
      prefix is non-empty and the trimmed text starts with it; exactly one
      leading copy of the prefix is removed and the rest kept unchanged. */
  lemma DerivePrefix(h: Handler, selfId: string, msg: Message)
    requires selfId !in msg.mentions
    ensures var c := Derive(h, selfId, msg, false);
      && (c.hasPrefix <==> h.prefix != [] && HasPrefix(TrimSpace(msg.content), h.prefix))
      && (c.hasPrefix ==> c.isDirected && c.hasMentionFirst && !c.hasMention
                          && c.content == TrimSpace(msg.content)[|h.prefix|..])
      && (!c.hasPrefix ==> !c.isDirected && c.content == TrimSpace(msg.content))
  {
  }

  /** A message is addressed to the bot iff it arrived in a direct-message
      channel, mentions the bot, or starts with a non-empty prefix. */
  lemma DeriveDirected(h: Handler, selfId: string, msg: Message, isPrivate: bool)
    ensures Derive(h, selfId, msg, isPrivate).isDirected <==>
      || isPrivate
      || selfId in msg.mentions
      || (h.prefix != [] && HasPrefix(TrimSpace(msg.content), h.prefix))
  {
  }

  /** A route runs iff the message is from someone else, is addressed to the
      bot and the normalised text matches; it then gets the matched fields. */
  lemma HandleMessageRoute(h: Handler, selfId: string, msg: Message, isPrivate: bool)
    ensures var c := Derive(h, selfId, msg, isPrivate);
      var a := HandleMessage(h, selfId, msg, isPrivate);
      && (a.RunRoute? <==> msg.authorId != selfId && c.isDirected && FuzzyMatch(h, c.content).route.Some?)
      && (a.RunRoute? ==> a.index == FuzzyMatch(h, c.content).route.value
                          && a.ctx == c.(fields := FuzzyMatch(h, c.content).fields))
  {
  }

  /** The fallback runs iff the message is from someone else, addressed to
      the bot, matches no route, a fallback is set, and the message opened
      with a mention of the bot or the prefix. Its context has no fields. */
  lemma HandleMessageDefault(h: Handler, selfId: string, msg: Message, isPrivate: bool)
    ensures var c := Derive(h, selfId, msg, isPrivate);
      var a := HandleMessage(h, selfId, msg, isPrivate);
      && (a.RunDefault? <==>
            && msg.authorId != selfId && c.isDirected
            && FuzzyMatch(h, c.content).route.None?
            && h.default.Some? && c.hasMentionFirst)
      && (a.RunDefault? ==> a.ctx == c)
  {
  }

  /** The fields a route receives either start with that route's pattern
      (an exact hit) or are all the fields of the normalised text (a prefix
      hit). */
  lemma RoutedFields(h: Handler, selfId: string, msg: Message, isPrivate: bool)
    ensures var a := HandleMessage(h, selfId, msg, isPrivate);
      a.RunRoute? ==>
        || a.ctx.fields[0] == h.routes[a.index].pattern
        || a.ctx.fields == Fields(a.ctx.content)
  {
    var a := HandleMessage(h, selfId, msg, isPrivate);
    if a.RunRoute? {
      var content := Derive(h, selfId, msg, isPrivate).content;
      assert a.ctx.content == content;
      if HasExact(Fields(content), h.routes) {
        var kx, jx := FuzzyMatchExact(h, content);
      } else {
        var wk := FuzzyMatchRanked(h, content);
      }
    }
  }

  /** A direct message that matches no route never reaches the fallback. */
  lemma UnmatchedDirectMessageIsDropped(h: Handler, selfId: string, msg: Message)
    requires FuzzyMatch(h, TrimSpace(msg.content)).route.None?
    ensures HandleMessage(h, selfId, msg, true) == NoRun
  {
  }

  /** A handler fresh from `New` runs nothing, whatever arrives. */
  lemma NewHandlerRunsNothing(prefix: string, selfId: string, msg: Message, isPrivate: bool)
    ensures HandleMessage(New(prefix), selfId, msg, isPrivate) == NoRun
  {
  }

  /** A message outside a DM that is nothing but `<@ID>` is directed,
      mention-first, and leaves no content once the mention is stripped. */
  lemma BareMentionContext(h: Handler, selfId: string, msg: Message)
    requires IsSnowflake(selfId) && selfId in msg.mentions
    requires msg.content == PlainMention(selfId)
    ensures Derive(h, selfId, msg, false) == Context([], "", true, false, false, true, true)
  {
    var m := PlainMention(selfId);
    assert m[0] == '<' && m[|m| - 1] == '>';
    TrimSpaceKeepsTrimmed(m);
    LoneMention(selfId);
    assert TrimSpace(msg.content) == m;
  }

  /** A message that is nothing but a mention of the bot matches no route
      and runs the fallback with empty content, when a fallback is set. */
  lemma BareMentionRunsDefault(h: Handler, selfId: string, msg: Message)
    requires IsSnowflake(selfId) && selfId in msg.mentions && msg.authorId != selfId
    requires msg.content == PlainMention(selfId) && h.default.Some?
    ensures HandleMessage(h, selfId, msg, false) == RunDefault(Context([], "", true, false, false, true, true))
  {
    BareMentionContext(h, selfId, msg);
    assert FuzzyMatch(h, "").route.None?;
  }
}
