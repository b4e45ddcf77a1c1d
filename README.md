# Chat bot message handler, modelled in Dafny

The bot (`bot.py`) listens to every message on a Discord gateway. For each
message it:

1. ignores it when the bot wrote it;
2. otherwise answers only when the bot is among the message's mentions;
3. removes every `<@id>` mention of the bot from the text (Python's
   `str.replace`) and trims surrounding whitespace (`str.strip()`);
4. sends that text, under a fixed system prompt, to the `llama3-70b-8192`
   model of a hosted chat-completion service;
5. posts the completion back to the channel, in one message when it has at
   most 2000 code points, otherwise as the fragments `response[i:i+2000]` for
   `i` in `range(0, len(response), 2000)`;
6. posts the fixed apology "I ran into an error processing that request."
   when anything in steps 4-5 raises.

The model is three modules:

- `Text` (text.dfy): the Python string operations the handler uses, with
  their meaning proved: `str.strip()` (with Python's whitespace set),
  `str.replace(token, '')`, characterised through `str.split(token)` (the
  removed occurrences are exactly the separators of pieces that do not
  contain the token), and `str(n)` for the user id in the mention token.
- `Chunks` (chunks.dfy): the split of a long reply, proved to join back to the
  reply, to give non-empty fragments of at most `n` code points, all full but
  the last, ceil(L / n) of them, and to be the only list with those
  properties.
- `Bot` (bot.dfy): the guards, the request sent to the model, what is posted
  for each outcome of the model call, a `Channel` whose `outbox` records the
  posted messages, the split-and-send loop `SendReply`, and the handler
  `Handle`, whose contract ties the request it makes and the messages it
  posts to the specification functions `Request` and `Replies`.

The call to the model is not made by the model: its outcome is an input of
`Handle` (`Completed(Some(text))`, `Completed(None)` when the completion has
no message content, or `Raised`). `Handle` returns the request it would make,
so "no request is made" is `request == None`.

`bot.py` forwards only the user's text, with no retrieved context. Besides a
failing call, a completion without content also ends in the apology, since
taking its length raises inside the same `try`.

Only the `<@id>` form of a mention is removed, as in the source; a mention in
another form (such as the older `<@!id>`) stays in the forwarded text, and a
message can put the bot in its mention list without containing the token at
all (a reply that pings the bot), in which case the text is only trimmed
(`Bot.UserTextWithoutMention`). The mention token cannot overlap itself, so
every occurrence of it in the original message is one that `str.replace`
removes (`Bot.UserTextRemovesEveryMention`). Because the scan runs once, the
forwarded text can still contain the token when removing one occurrence joins
two halves of another (`<@<@1>1>`): that occurrence is new, formed by the
removal, and stays.

## Model

| member | source | states |
|---|---|---|
| `Text.StripStart` | bot.py:25 | the left scan of `strip()` stops at the first code point that is not whitespace, or at the end, having passed only whitespace |
| `Text.StripEnd` | bot.py:25 | the right scan of `strip()` stops after the last code point that is not whitespace, or at the left cut, having passed only whitespace |
| `Text.Strip` | bot.py:25 | `strip()` returns a contiguous part of the text with only whitespace on either side of it, and neither starts nor ends with whitespace |
| `Text.StripIdempotent` | bot.py:25 | stripping a stripped text changes nothing |
| `Text.StripEmptyIff` | bot.py:25 | stripping gives the empty text exactly when the text is all whitespace |
| `Text.RemoveAll` | bot.py:25 | `replace(token, '')` never lengthens the text |
| `Text.PiecesJoin` | bot.py:25 | putting the token back between the pieces the scan leaves rebuilds the original text |
| `Text.RemoveAllIsConcatOfPieces` | bot.py:25 | `replace(token, '')` equals the concatenation of those pieces, in order |
| `Text.PiecesTokenFree` | bot.py:25 | none of the pieces contains the token, so every occurrence in the original was removed or overlapped a removed one |
| `Text.RemovesEveryOccurrence` | bot.py:25 | for a token that cannot overlap itself, the occurrences of the token in the text are exactly the ones `replace(token, '')` removes |
| `Text.RemoveAllUnchangedIff` | bot.py:25 | the text is left unchanged exactly when the token does not occur in it, and is strictly shortened otherwise |
| `Text.RemoveAllLength` | bot.py:25 | the result is the token's length shorter for each occurrence removed |
| `Text.Decimal` | bot.py:25 | `str(id)` is a non-empty string of decimal digits without leading zeros that reads back as the id |
| `Text.DecimalInjective` | bot.py:25 | distinct ids are written differently |
| `Chunks.Split` | bot.py:48-49 | the fragments joined in order give back the text; each is non-empty and at most `n` long; all but the last are exactly `n` long |
| `Chunks.SplitCount` | bot.py:48 | there are ceil(L / n) fragments (the empty text has none) |
| `Chunks.SplitUnique` | bot.py:48-49 | any list with the three properties of `Split` is `Split`'s result |
| `Chunks.SplitStep` | bot.py:48-49 | the fragments from index `i` on are the slice `s[i:i+n]` followed by the fragments from `i + n` on |
| `Chunks.SplitStepAfter` | bot.py:48-49 | posting the slice at `i` after what was already posted leaves exactly the fragments from `i + n` on to post |
| `Bot.DelimitedNoSelfOverlap` | bot.py:25 | a token opened by `<@` and closed by its only `>` cannot overlap itself |
| `Bot.MentionToken` | bot.py:25 | the mention token is `<@`, the decimal id, `>`, and cannot overlap itself, so its occurrences in a message are disjoint |
| `Bot.MentionTokenInjective` | bot.py:25 | the bot's token is no other user's mention token |
| `Bot.UserText` | bot.py:25 | the forwarded text neither starts nor ends with whitespace |
| `Bot.UserTextPieces` | bot.py:25 | the forwarded text is the trimmed concatenation of mention-free pieces that, joined by the mention, give the message |
| `Bot.UserTextRemovesEveryMention` | bot.py:25 | the forwarded text is the trimmed text between the removed occurrences, and those are exactly the occurrences of the bot's mention token in the message |
| `Bot.UserTextWithoutMention` | bot.py:25 | a message without the token is forwarded only trimmed |
| `Bot.UserTextLeadingMention` | bot.py:25 | `<@id>` followed by a question without the token forwards the trimmed question |
| `Bot.Request` | bot.py:20-44 | a request is made exactly for messages another user wrote that mention the bot, with the fixed model and system prompt and the stripped text |
| `Bot.ReplyMessages` | bot.py:46-51 | the posted messages join back to the completion and each is at most 2000 code points |
| `Bot.ShortReplyVerbatim` | bot.py:47-51 | a completion of at most 2000 code points is posted verbatim as one message |
| `Bot.LongReplyFragments` | bot.py:47-49 | a longer completion is posted as ceil(L / 2000) non-empty fragments, all but the last exactly 2000 long |
| `Bot.Answer` | bot.py:44-55 | a completion with content is relayed in full; a raised call or missing content gives exactly the apology |
| `Bot.OwnMessageIgnored` | bot.py:20-21 | the bot's own messages get no request and no reply, whatever their mentions |
| `Bot.UnmentionedIgnored` | bot.py:24 | messages not mentioning the bot get no request and no reply |
| `Bot.FailureApologises` | bot.py:53-55 | when the model call fails, the only message posted is the apology |
| `Bot.SuccessRelays` | bot.py:44-51 | when the model answers, the posted messages join back to the answer, each fits the limit, and a short answer is posted as it is |
| `Bot.Channel.Send` | bot.py:49 | posting appends exactly that message to the channel |
| `Bot.SendFragments` | bot.py:48-49 | the loop posts exactly the fragments `Split(response, 2000)`, in order, after what the channel already had |
| `Bot.SendReply` | bot.py:46-51 | posts exactly `ReplyMessages(response)`, in order, after what the channel already had |
| `Bot.Handle` | bot.py:18-55 | the handler makes exactly the request `Request` gives and posts exactly `Replies` after what the channel already had |

## Left out

- Gateway plumbing: building the Discord client and its intents, `on_ready`,
  `client.run` and the login that sets `client.user`; the bot's id is a
  parameter.
- The chat-completion call itself and the hosted model: its outcome is an
  input value.
- Reading the API key and the bot token from the environment, and the `print`
  logging of startup and of errors.
- The "typing" indicator and the `async`/`await` scheduling: each send is an
  append to the channel's ordered outbox, and handlers of different messages
  are not interleaved. Entering `message.channel.typing()` (bot.py:29) is an
  awaited call inside the `try`; if it fails, the source posts the apology
  before any request is made. `Handle` assumes it succeeds.
- Failing sends: the model assumes every send succeeds. In the source a send
  that raises (for example Discord refusing an empty completion, or a failure
  part-way through the fragments) also leads to the apology, after whatever
  fragments were already posted.
- Code points versus the platform's own way of counting a message's length:
  lengths are Python's `len`, a count of code points.
- Lone surrogates: a Python `str` can hold an unpaired surrogate code point,
  but a Dafny `char` cannot, so texts containing one are not modelled.
