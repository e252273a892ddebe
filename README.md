# The Watcher: reply delivery and error replies

The Watcher is a Discord bot. Its `/ask` and `/fight` slash commands forward the user's
text to a generative-text model and relay the answer to the channel. This project models
what the two handlers in `watcher.py` do once the answer, or an exception, comes back:

- **Chunking** (`chunking.dfy`, module `Chunking`). A `/fight` answer longer than
  1950 characters is cut into consecutive 1950-character slices. The cut ignores word
  boundaries. `Chunks` is the handler's list comprehension over
  `range(0, len(text), limit)`, with Python's clamping slice (`Slice`). `Partition`
  is an independent reference: the first `limit` characters, then the split of the rest.
  The two are proved equal. Reassembly, the size bounds and the chunk count are then
  proved for any `limit > 0`. The handler uses the constant `CharLimit` (1950).
- **Delivery** (`handlers.dfy`, module `Handlers`). Each handler run is a trace of
  events. The trace starts with the deferred "thinking" acknowledgment (`Deferred`). Then
  come the sends, each tagged `FollowUp` (`interaction.followup.send`) or `Channel`
  (`interaction.channel.send`). `HandleAsk` and `HandleFight` follow the handlers'
  branches. `HandleFight` sends the later chunks in a loop. Both methods are proved to
  produce `Trace`, which is a specification: defer, then send the first of `Messages`
  as the follow-up and every later one to the channel.
- **Error replies** (`replies.dfy`, module `Replies`, and `substring.dfy`, module
  `Substring`). A caught exception is classified by searching its text for `"429"`.
  `Contains` is a left-to-right scan. It is proved to agree with `Occurs`, the meaning
  of Python's `in` on strings. A rate-limit error gets the command's cooldown notice.
  Any other error gets the shared apology, "I am sorry. My oath has been taken away"
  followed by U+1F614. An empty answer gets the command's fallback text.

Strings are `seq<char>` with Unicode scalar values as characters, so lengths count code
points as Python's `len` does.

Both modelled handlers, `/ask` and `/fight`, defer first (watcher.py:81, 124), so their
first message always goes through the follow-up. Each sends inline, with no shared
delivery helper. `/ask` never splits its answer, whatever its length.

## Model

| member | source | states |
|---|---|---|
| `Substring.ContainsIffOccurs` | watcher.py:113 | The scan for the code in the exception text answers exactly Python's `"429" in str(e)`: true iff some window of the text equals the needle |
| `Replies.Classify` | watcher.py:111-116 | An error is rate-limited iff its text contains "429", and generic iff it does not; the two kinds are exhaustive and exclusive |
| `Replies.ErrorReply` | watcher.py:111-116 | For /ask here and for /fight at watcher.py:163-169, the error reply is the command's cooldown notice iff the text contains "429", and the shared apology iff it does not, so the reply is always one of two fixed texts and the exception text is not relayed |
| `Replies.TooManyRequestsIsRateLimited` | watcher.py:166-167 | The exception text "429 Too Many Requests" selects the command's cooldown notice |
| `Replies.FightFallbackNamesBoth` | watcher.py:161 | The /fight fallback for an empty answer contains both character names |
| `Chunking.ChunksMatchPartition` | watcher.py:155 | The comprehension over `range(0, len, limit)` with clamped slices is the same list as splitting off `limit` characters at a time |
| `Chunking.ChunksReassemble` | watcher.py:155 | Concatenating the chunks in list order gives back the answer exactly |
| `Chunking.ChunksBounded` | watcher.py:155 | Every chunk is non-empty and at most `limit` long; every chunk but the last is exactly `limit` long |
| `Chunking.ChunkCount` | watcher.py:155 | The number of chunks is the ceiling of len/limit: (n-1)·limit < len ≤ n·limit; text over the limit gives at least two chunks; only the empty text gives none |
| `Chunking.SingleChunk` | watcher.py:150-153 | Non-empty text within the limit is one chunk equal to the text, so the short path and the chunked path agree |
| `Handlers.HandleAsk` | watcher.py:80-116 | The /ask handler produces exactly `Trace(Ask, outcome)`: defer, then one follow-up with the answer, the fallback or the error reply |
| `Handlers.HandleFight` | watcher.py:123-169 | The /fight handler, with its short-answer branch and its loop over `chunks[1:]`, produces exactly `Trace(Fight(c1, c2), outcome)` |
| `Handlers.DeliverOrder` | watcher.py:156-158 | Delivery makes one send per message, in message order: the first as the follow-up, every later one to the channel |
| `Handlers.ChannelSendsTexts` | watcher.py:157-158 | The channel sends carry exactly the remaining chunks, in order |
| `Handlers.TraceTexts` | watcher.py:148-161 | The texts sent in a run are exactly the handler's messages, in order, so the number of sends equals the number of messages |
| `Handlers.FightShortReply` | watcher.py:152-153 | A /fight answer of at most 1950 characters is sent once, unchanged, as the follow-up |
| `Handlers.FightLongReply` | watcher.py:154-158 | A longer /fight answer is sent as at least two chunks, one send per chunk, in slice order: chunk 0 as the follow-up, every later chunk to the channel |
| `Handlers.FightReplyReassembles` | watcher.py:148-158 | For any non-empty /fight answer, the sent texts concatenate to the answer; each is 1 to 1950 characters long and all but the last are exactly 1950 long |
| `Handlers.AskReplyUnsplit` | watcher.py:106-107 | /ask sends a non-empty answer as one follow-up, unsplit, whatever its length |
| `Handlers.EmptyReplyFallback` | watcher.py:160-161 | An empty answer produces exactly one follow-up carrying the command's fallback; for /fight the fallback names both characters |
| `Handlers.ErrorSendsOneFollowUp` | watcher.py:163-169 | For /fight here and for /ask at watcher.py:111-116, a caught exception produces exactly one follow-up: the cooldown notice if its text contains "429", the apology otherwise |
| `Handlers.TraceShape` | watcher.py:123-169 | Every run defers once, first, then sends exactly one follow-up, then only channel messages; channel messages occur iff /fight relays an answer over 1950 characters |

## Left out

- The generation call (`model.generate_content`, watcher.py:104, 145) and the model's configuration are not modelled. The call is an input of each handler: the returned text or the text of the raised exception (`Outcome`).
- Prompt construction (watcher.py:85-102, 127-143) is left out. It is template text. The `/ask` question therefore does not appear in the model.
- Exceptions raised by the deferral or by a send are left out. In the code such an exception also reaches the `except` branch, possibly after some chunks were already sent. The model only covers the generation step failing.
- Discord's own 2000-character cap and any platform rejection of a message are left out. For example, an unsplit `/ask` answer over the cap, or a long `/fight` fallback.
- The `print` logging of the error (watcher.py:112, 164) is I/O and is left out.
- The `async`/`await` scheduling is left out. Sends are modelled as a sequential trace.
- The `/about` embed (watcher.py:31-72) is left out. It is static text with one send.
- Client setup, command registration, `on_ready` and `bot.run` (watcher.py:8-28, 171-172) are left out. They are platform plumbing.
- check_models.py is not part of this model. It only lists the API's models.
