/** The message handler of the chat bot: which incoming messages it answers,
    the text it forwards to the hosted language model, and the messages it
    posts back to the channel. */
module Bot {
  import opened Text
  import opened Chunks

  datatype Option<T> = None | Some(value: T)

  /** A chat user, identified by its numeric id (users compare equal exactly
      when their ids do). */
  type UserId = nat

  /** An incoming message: who wrote it, its text, and the users it mentions. */
  datatype Message = Message(author: UserId, content: String, mentions: seq<UserId>)

  /** What asking the language model gave: a completion whose message content
      may be missing, or an exception raised by the call or by reading the
      first choice. */
  datatype Completion = Completed(content: Option<String>) | Raised

  /** The chat-completion request sent for one message. */
  datatype ChatRequest = ChatRequest(model: String, system: String, user: String)

  /** The platform's limit on the length of one message. */
  const MessageLimit: nat := 2000

  const ModelName: String := "llama3-70b-8192"
  const SystemPrompt: String := "You are a helpful and intelligent Discord assistant."
  const Apology: String := "I ran into an error processing that request."

  // ---------------------------------------------------------------------------
  // Dispatch guard and the text forwarded to the model
  // ---------------------------------------------------------------------------

  /** A token opened by `<@` and closed by the only `>` in it cannot overlap
      itself: a shifted copy would put its closing `>` inside the token. */
  lemma DelimitedNoSelfOverlap(d: String)
    requires forall k :: 0 <= k < |d| ==> d[k] != '>'
    ensures NoSelfOverlap("<@" + d + ">")
  {
    var t := "<@" + d + ">";
    forall k | 0 < k < |t| ensures t[k..] != t[..|t| - k] {
      var last := |t| - k - 1;
      assert t[k..][last] == '>';
      assert t[..|t| - k][last] == t[last];
      if last >= 2 {
        assert t[last] == d[last - 2];
      }
    }
  }

  /** The token by which a message mentions user `id`, `<@id>`. It cannot
      overlap itself, so its occurrences in a message are disjoint. */
  function MentionToken(id: UserId): (t: String)
    ensures |t| >= 4 && t[..2] == "<@" && t[|t| - 1] == '>'
    ensures t[2..|t| - 1] == Decimal(id)
    ensures NoSelfOverlap(t)
  {
    DelimitedNoSelfOverlap(Decimal(id));
    "<@" + Decimal(id) + ">"
  }

  /** Different users are mentioned by different tokens, so stripping the
      bot's own token never strips a mention of someone else. */
  lemma MentionTokenInjective(a: UserId, b: UserId)
    requires MentionToken(a) == MentionToken(b)
    ensures a == b
  {
  }

  /** The text forwarded to the model: the message with every mention of the
      bot removed and surrounding whitespace trimmed. It neither starts nor
      ends with whitespace. */
  function UserText(bot: UserId, content: String): (r: String)
    ensures r == [] || (!IsSpace(r[0]) && !IsSpace(r[|r| - 1]))
  {
    Strip(RemoveAll(content, MentionToken(bot)))
  }

  /** The forwarded text is the trimmed concatenation of the pieces of the
      message between the mentions that were removed; none of those pieces
      contains the mention, and putting the mention back between them gives
      the message again. */
  lemma UserTextPieces(bot: UserId, content: String)
    ensures var t := MentionToken(bot);
      var ps := Pieces(content, t);
      && UserText(bot, content) == Strip(Concat(ps))
      && Join(ps, t) == content
      && (forall p :: p in ps ==> !Occurs(p, t))
  {
    var t := MentionToken(bot);
    RemoveAllIsConcatOfPieces(content, t);
    PiecesJoin(content, t);
    PiecesTokenFree(content, t);
  }

  /** Every mention of the bot in the message is one of the occurrences that
      are removed, and every removed occurrence is a mention: the forwarded
      text is the trimmed message with exactly its `<@id>` mentions of the bot
      cut out. */
  lemma UserTextRemovesEveryMention(bot: UserId, content: String)
    ensures var t := MentionToken(bot);
      && UserText(bot, content) == Strip(Concat(Pieces(content, t)))
      && forall i: nat :: MatchAt(content, t, i) <==> i in RemovedStarts(content, t)
  {
    var t := MentionToken(bot);
    RemoveAllIsConcatOfPieces(content, t);
    RemovesEveryOccurrence(content, t);
  }

  /** A message that does not contain the mention is forwarded only trimmed. */
  lemma UserTextWithoutMention(bot: UserId, content: String)
    requires !Occurs(content, MentionToken(bot))
    ensures UserText(bot, content) == Strip(content)
  {
    RemoveAllUnchangedIff(content, MentionToken(bot));
  }

  /** A message that opens with the mention followed by text without it, the
      usual `<@id> question`, forwards the trimmed question. */
  lemma UserTextLeadingMention(bot: UserId, rest: String)
    requires !Occurs(rest, MentionToken(bot))
    ensures UserText(bot, MentionToken(bot) + rest) == Strip(rest)
  {
    var t := MentionToken(bot);
    var s := t + rest;
    assert s[..|t|] == t && s[|t|..] == rest;
    RemoveAllUnchangedIff(rest, t);
  }

  /** The request the handler sends to the model for `msg`, if any. The bot
      answers exactly the messages that another user wrote and that mention
      it, and always with the same model and system prompt. */
  function Request(bot: UserId, msg: Message): (r: Option<ChatRequest>)
    ensures r.Some? <==> msg.author != bot && bot in msg.mentions
    ensures r.Some? ==> r.value.model == ModelName && r.value.system == SystemPrompt
    ensures r.Some? ==> r.value.user == UserText(bot, msg.content)
  {
    if msg.author == bot then None
    else if bot in msg.mentions then
      Some(ChatRequest(ModelName, SystemPrompt, UserText(bot, msg.content)))
    else None
  }

  // ---------------------------------------------------------------------------
  // What is posted back
  // ---------------------------------------------------------------------------

  /** The messages that relay a completion: the text itself when it fits in
      one message, otherwise its consecutive fragments. Joined in order they
      give back the completion, and each fits in one message. */
  function ReplyMessages(response: String): (r: seq<String>)
    ensures |r| > 0
    ensures Concat(r) == response
    ensures forall k :: 0 <= k < |r| ==> |r[k]| <= MessageLimit
  {
    if |response| > MessageLimit then
      var r := Split(response, MessageLimit);
      assert r != [] by { SplitCount(response, MessageLimit); }
      r
    else
      assert Concat([response]) == response + Concat([]);
      [response]
  }

  /** A completion that fits in one message is sent as it is, in one message. */
  lemma ShortReplyVerbatim(response: String)
    requires |response| <= MessageLimit
    ensures ReplyMessages(response) == [response]
  {
  }

  /** A longer completion is sent as ceil(L / 2000) fragments, none empty,
      every one but the last exactly 2000 code points long. */
  lemma LongReplyFragments(response: String)
    requires |response| > MessageLimit
    ensures var r := ReplyMessages(response);
      && |r| == (|response| + MessageLimit - 1) / MessageLimit
      && (forall k :: 0 <= k < |r| ==> |r[k]| > 0)
      && (forall k :: 0 <= k < |r| - 1 ==> |r[k]| == MessageLimit)
  {
    SplitCount(response, MessageLimit);
  }

  /** What the channel receives for the outcome of the model call: the relayed
      completion, or the apology when the call raised or the completion had no
      content (taking the length of a missing content raises as well). */
  function Answer(c: Completion): (r: seq<String>)
    ensures (c.Completed? && c.content.Some?) ==> Concat(r) == c.content.value
    ensures !(c.Completed? && c.content.Some?) ==> r == [Apology]
  {
    match c
    case Completed(Some(response)) => ReplyMessages(response)
    case _ => [Apology]
  }

  /** Everything the handler posts for `msg`, in order. */
  function Replies(bot: UserId, msg: Message, c: Completion): seq<String> {
    if Request(bot, msg).None? then [] else Answer(c)
  }

  /** The bot's own messages are never answered and never reach the model. */
  lemma OwnMessageIgnored(bot: UserId, msg: Message, c: Completion)
    requires msg.author == bot
    ensures Request(bot, msg) == None && Replies(bot, msg, c) == []
  {
  }

  /** Messages that do not mention the bot are never answered and never
      reach the model. */
  lemma UnmentionedIgnored(bot: UserId, msg: Message, c: Completion)
    requires bot !in msg.mentions
    ensures Request(bot, msg) == None && Replies(bot, msg, c) == []
  {
  }

  /** When the model call fails, the only message posted is the apology. */
  lemma FailureApologises(bot: UserId, msg: Message, c: Completion)
    requires Request(bot, msg).Some?
    requires c == Raised || c == Completed(None)
    ensures Replies(bot, msg, c) == [Apology]
  {
  }

  /** When the model answers, the posted messages are the answer cut into
      pieces that fit the limit, in order. */
  lemma SuccessRelays(bot: UserId, msg: Message, response: String)
    requires Request(bot, msg).Some?
    ensures var r := Replies(bot, msg, Completed(Some(response)));
      && Concat(r) == response
      && (forall k :: 0 <= k < |r| ==> |r[k]| <= MessageLimit)
      && (|response| <= MessageLimit ==> r == [response])
  {
  }

  // ---------------------------------------------------------------------------
  // The channel and the handler
  // ---------------------------------------------------------------------------

  /** A chat channel; `outbox` holds the messages posted to it, oldest first. */
  class Channel {
    var outbox: seq<String>

    constructor ()
      ensures outbox == []
    {
      outbox := [];
    }

    /** Posts one message. */
    method Send(text: String)
      modifies this
      ensures outbox == old(outbox) + [text]
    {
      outbox := outbox + [text];
    }
  }

  /** Posts the fragments `response[i:i+2000]` for `i` in
      `range(0, len(response), 2000)`, in order. */
  method SendFragments(channel: Channel, response: String)
    modifies channel
    ensures channel.outbox == old(channel.outbox) + Split(response, MessageLimit)
  {
    var i := 0;
    while i < |response|
      invariant 0 <= i
      invariant channel.outbox + Split(response[Min(i, |response|)..], MessageLimit)
             == old(channel.outbox) + Split(response, MessageLimit)
    {
      var fragment := response[i..Min(i + MessageLimit, |response|)];
      SplitStepAfter(channel.outbox, response, MessageLimit, i);
      channel.Send(fragment);
      i := i + MessageLimit;
    }
  }

  /** Posts a completion: one message when it fits, otherwise one message per
      fragment. */
  method SendReply(channel: Channel, response: String)
    modifies channel
    ensures channel.outbox == old(channel.outbox) + ReplyMessages(response)
  {
    if |response| > MessageLimit {
      SendFragments(channel, response);
    } else {
      channel.Send(response);
    }
  }

  /** Handles one incoming message: returns the request made to the model (none
      for the bot's own messages and for messages that do not mention it) and
      posts the answer, or the apology when the model call fails. */
  method Handle(channel: Channel, bot: UserId, msg: Message, completion: Completion)
    returns (request: Option<ChatRequest>)
    modifies channel
    ensures request == Request(bot, msg)
    ensures channel.outbox == old(channel.outbox) + Replies(bot, msg, completion)
  {
    if msg.author == bot {
      return None;
    }
    if bot in msg.mentions {
      var user := UserText(bot, msg.content);
      request := Some(ChatRequest(ModelName, SystemPrompt, user));
      match completion {
        case Completed(Some(response)) =>
          SendReply(channel, response);
        case _ =>
          channel.Send(Apology);
      }
    } else {
      request := None;
    }
  }
}
