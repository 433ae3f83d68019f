# Sigmoydbot conversation core, modelled in Dafny

Sigmoydbot is a Telegram bot that relays messages addressed to it to a hosted
language model (Groq) and remembers, per Telegram user, the last hour of the
conversation. This project models the logic of `tbot.py`:

- the **conversation history**, a process-wide map from user id to a list of
  `{role, content, timestamp}` turns (`Store.ConversationStore`, a class whose
  `history` field is a `map<UserId, seq<Turn>>`). `update_conversation`
  appends a turn and then drops every turn of that user aged 3600 seconds or
  more; the start command empties the user's list; `get_groq_messages`
  builds the prompt (the fixed system message followed by the user's turns
  without timestamps) and changes nothing;
- the **addressing rules** (`Mention`, `Relay`): the case-insensitive search
  for the literal `@<username>`, the reply-to-the-bot test, the removal of
  every mention followed by a whitespace trim, and the order of history
  updates in `handle_message` around the call to the completion service.

Modules, one per component:

| file | module | what it holds |
|---|---|---|
| wrappers.dfy | `Wrappers` | `Option` |
| conversation.dfy | `Conversation` | turns, messages, the expiry rule (`Prune`), the prompt (`Prompt`) and their lemmas |
| store.dfy | `Store` | the `ConversationStore` class and its three operations |
| mention.dfy | `Mention` | ASCII case-insensitive matching, leftmost search, removal of every match, `str.strip` |
| relay.dfy | `Relay` | the inbound message record, `ShouldRespond`, `ExtractQuery`, `Ask`, `Answer`, `Converse`, `HandleMessage`, `Start`, and example lemmas |

External collaborators become inputs or outputs:

- The clock (`time.time()`) is an integer parameter: `now` for the user turn
  and `replyNow` for the answer, which is stamped after the network call.
- The Groq call is an input `Completion` (`Completed(content)` or
  `Failed(error)`), and `HandleMessage` returns the `CompletionRequest` it
  would send (model `llama3-8b-8192`, the prompt, at most 500 tokens).
- The Telegram replies are returned as `reply: Option<string>`; `None` means
  no reply is sent. `Start` returns the greeting.

Three points where the code is narrower than a reader might expect:

- The query extraction removes **every** case-insensitive occurrence of
  `@<username>` (the `re.sub` at tbot.py:82 has no `count`), not only the
  first one (`Relay.EveryMentionRemoved`).
- "A reply to a message authored by the bot" is, in the code, a comparison of
  the replied-to author's username with the bot's username, exactly and
  case-sensitively; a replied-to message without an author, or an author
  without a username, is not a reply to the bot.
- The history is pruned only on append, so a user's list may hold expired
  turns when the prompt is built; the turns are only guaranteed young right
  after an update (`Store.ConversationStore.UpdateConversation`).

## Model

| member | source | states |
|---|---|---|
| `Conversation.Prune` | tbot.py:37-40 | the kept list is never longer than the stored one |
| `Conversation.AfterUpdate` | tbot.py:29-40 | definition: the list effect of `update_conversation`, the new turn appended and the whole list then pruned at the same instant |
| `Conversation.PruneKeepsExactlyYoung` | tbot.py:37-40 | a turn survives pruning at `now` if and only if it was in the list and its age `now - timestamp` is below 3600 |
| `Conversation.PruneConcat` | tbot.py:37-40 | pruning is a filter: pruning a concatenation is the concatenation of the pruned parts |
| `Conversation.PruneIsSubsequence` | tbot.py:37-40 | the kept turns keep their relative order (they form a subsequence of the old list) |
| `Conversation.KeepYoungLast` | tbot.py:29-40 | a young turn appended last is never dropped, and what precedes it is pruned as if it were absent |
| `Conversation.PruneIdempotent` | tbot.py:36-40 | pruning again at the same instant removes nothing more |
| `Conversation.PruneLater` | tbot.py:36-40 | pruning at an earlier instant and then at a later one is the same as pruning once at the later one |
| `Conversation.PruneAllYoung` | tbot.py:36-40 | a list whose turns are all young is left exactly as it is |
| `Conversation.UpdateKeepsNewTurn` | tbot.py:28-40 | after an update the new turn `{role, content, now}` is last, preceded by exactly the old turns still young, in order; every remaining turn is young and every old turn aged 3600 or more is gone |
| `Conversation.TwoUpdatesKeepBoth` | tbot.py:28-40 | two updates, the second fewer than 3600 seconds after the first, leave both new turns at the end, in order |
| `Conversation.UpdateWithoutExpiry` | tbot.py:28-40 | when no stored turn has expired, an update only appends |
| `Conversation.AsTurns` | tbot.py:29-33 | the appends become one stored turn each, in call order, carrying the role, content and clock value of the call |
| `Conversation.UpdateAll` | tbot.py:28-40 | definition: the list after a sequence of `update_conversation` calls, applied one after the other |
| `Conversation.UpdateAllPrunesOnce` | tbot.py:28-40 | any non-empty sequence of updates in time order equals appending all their turns and pruning once, at the time of the last update |
| `Conversation.UpdateAllKeepsOrder` | tbot.py:28-40 | when every appended turn is still young at the last update, the list is the surviving older turns followed by all the appended turns, in the order appended |
| `Conversation.Messages` | tbot.py:47-52 | one message per turn, in the same order, each the turn's role and content without the timestamp |
| `Conversation.Prompt` | tbot.py:45-54 | definition: the value `get_groq_messages` returns, the system message followed by the messages of the user's turns |
| `Conversation.MessagesConcat` | tbot.py:47-52 | the messages of two lists of turns, one after the other, are the messages of their concatenation |
| `Conversation.PromptShape` | tbot.py:43-54 | the prompt has one more element than the turns; element 0 is the system message and element `i+1` is turn `i` without its timestamp |
| `Conversation.PromptSnoc` | tbot.py:43-54 | appending a turn appends its message to the prompt |
| `Conversation.PromptAfterUpdates` | tbot.py:28-54 | after updates in time order whose turns are all still young at the last one, the prompt is the system message, the surviving older turns and then every appended turn, in the order appended |
| `Conversation.SystemMessageOnlyFirst` | tbot.py:45-52 | for user and assistant turns, the system message occurs only at position 0 |
| `Store.ConversationStore.constructor` | tbot.py:16 | the history starts empty: every user has the empty list |
| `Store.ConversationStore.Turns` | tbot.py:48 | definition: reading a user's list from the `defaultdict(list)` of tbot.py:16, the empty list when the user has no entry |
| `Store.ConversationStore.UpdateConversation` | tbot.py:28-40 | the user's list becomes the old list with the new turn appended and then pruned at `now`; the new turn is last; all its turns are young; every other user's list is unchanged |
| `Store.ConversationStore.Reset` | tbot.py:59 | the user's list becomes empty; every other user's list is unchanged |
| `Store.ConversationStore.GroqMessages` | tbot.py:43-54 | returns the system message followed by the user's turns without timestamps, in order, of length `1 + |turns|`; the history is not modified |
| `Store.ResetThenPrompt` | tbot.py:45-59 | the user's list becomes empty and nothing else changes; right after the reset, the prompt built for that user is the system message alone |
| `Mention.LowerStr` | tbot.py:26 | ASCII lowercasing, character by character, same length |
| `Mention.LowerSlice` | tbot.py:26 | lowercasing a slice gives the same slice of the lowercased text |
| `Mention.FindFrom` | tbot.py:26 | a position the search returns lies at or after `from` and leaves room for the whole token |
| `Mention.FindFromLeftmost` | tbot.py:26 | the search returns a position where the token matches case-insensitively, with no match between `from` and it; it returns none only when the token matches nowhere at or after `from` |
| `Mention.MatchAt` | tbot.py:26 | characters that agree after ASCII lowercasing, one by one, make a match |
| `Mention.MismatchAt` | tbot.py:26 | one character that differs after ASCII lowercasing rules the match out |
| `Mention.MentionToken` | tbot.py:25 | definition: the pattern `@` followed by the username, taken literally as `re.escape` makes it |
| `Mention.EscapedHandleIsLiteral` | tbot.py:25-26 | the username is escaped, so a regular-expression metacharacter in it matches only itself: `@A.B` mentions `a.b`, `@axb` does not |
| `Mention.IsBotMentioned` | tbot.py:24-26 | true exactly when `@<username>` occurs somewhere in the text, ignoring ASCII letter case |
| `Mention.OccursGivesLoweredInfix` | tbot.py:26 | an occurrence ignoring case puts the lowercased token inside the lowercased text |
| `Mention.LoweredInfixGivesOccurs` | tbot.py:26 | the lowercased token inside the lowercased text is an occurrence ignoring case |
| `Mention.OccursIffLoweredInfix` | tbot.py:26 | a case-insensitive occurrence exists if and only if the lowercased token is a substring of the lowercased text |
| `Mention.NoAtSignNoMention` | tbot.py:24-26 | a text without `@` mentions no username |
| `Mention.MentionedIffLoweredInfix` | tbot.py:24-26 | `is_bot_mentioned` holds if and only if the lowercased `@<username>` is a substring of the lowercased text |
| `Mention.MatchesInSuffix` | tbot.py:82 | a match in a suffix of the text is the same match in the text, shifted |
| `Mention.ScanKeepsRun` | tbot.py:82 | the reference removal copies unchanged a stretch of positions where no match starts |
| `Mention.IsScanOverMatch` | tbot.py:82 | from a position where a match is found, the search-based and the reference removal agree |
| `Mention.IsScanOverChar` | tbot.py:82 | from a position where no match starts, the search-based and the reference removal agree |
| `Mention.RemoveFromIsScan` | tbot.py:82 | the search-cut-continue substitution from any position equals the character-by-character reference removal of the rest |
| `Mention.RemoveFrom` | tbot.py:82 | definition: the count-less substitution by the empty string from a position on: search for the leftmost match, keep the text before it, skip the match and go on after it |
| `Mention.RemoveAll` | tbot.py:82 | definition: the substitution over the whole text |
| `Mention.RemoveAllIsScan` | tbot.py:82 | removing every match (leftmost first, no overlap) equals the character-by-character reference removal |
| `Mention.RemoveAllWithoutMatch` | tbot.py:82 | a text without a match is left unchanged |
| `Mention.RemoveAllAtFront` | tbot.py:82 | a match at the front is removed whole and the substitution continues right after it |
| `Mention.RemoveFromShrinks` | tbot.py:82 | the result is never longer than the text, and at least one token shorter when the token occurs |
| `Mention.RemovalCanLeaveMention` | tbot.py:82 | the substitution does not rescan its output: removing `@bot` from `@@botbot` leaves `@bot` |
| `Mention.SkipLeading` | tbot.py:82 | the first non-whitespace position at or after `i`, with only whitespace before it |
| `Mention.SkipTrailing` | tbot.py:82 | the end of the text before the trailing whitespace, with only whitespace after it |
| `Mention.Strip` | tbot.py:82 | the result is no longer than the text and neither starts nor ends with whitespace (`str.isspace`) |
| `Mention.StripRemovesOnlySpace` | tbot.py:82 | the text is an all-whitespace prefix, then the trimmed text, then an all-whitespace suffix |
| `Mention.StripUntrimmed` | tbot.py:82 | a text without surrounding whitespace is its own trim |
| `Mention.StripIdempotent` | tbot.py:82 | trimming twice trims nothing more |
| `Relay.ShouldRespond` | tbot.py:69-75 | the bot acts exactly when the text mentions `@<username>` in any casing or the message replies to a message whose author's username equals the bot's |
| `Relay.IsReplyToBot` | tbot.py:70-72 | definition: the message replies to one that has an author whose username is exactly the bot's |
| `Relay.ExtractQuery` | tbot.py:79-82 | without a mention the query is the text unchanged; with one it is the trimmed character-by-character removal of every mention, at least one token shorter than the text |
| `Relay.Ask` | tbot.py:84-95 | the user's list becomes the old list updated with the user turn at `now`; the request carries the prompt of the updated history, model `llama3-8b-8192` and 500 tokens; every other user's list is unchanged |
| `Relay.Answer` | tbot.py:97-107 | on success the answer, stamped `replyNow`, is recorded and is the reply; on failure the reply is `Sorry, I encountered an error: ` followed by the error and the history is unchanged |
| `Relay.Converse` | tbot.py:84-107 | the request carries the prompt of the history updated with the user turn; on success the history holds the user turn and then the answer, and the reply is the answer; on failure only the user turn is recorded and the reply is the error text |
| `Relay.HandleMessage` | tbot.py:63-107 | not addressed: no request, no reply, no history change; addressed: the user turn is recorded first, the request carries the prompt of the updated history with model `llama3-8b-8192` and 500 tokens; on success the answer is recorded after it and is the reply; on failure the reply is `Sorry, I encountered an error: ` and the error, and the user turn is not rolled back |
| `Relay.Start` | tbot.py:56-61 | the user's list is emptied, nothing else changes, the prompt for that user is the system message alone, and the greeting is returned |
| `Relay.RequestEndsWithQuery` | tbot.py:85-88 | the prompt sent is the prompt of the still-young history followed by the user's query |
| `Relay.FailureKeepsOnlyUserTurn` | tbot.py:85-107 | after a failed completion the history ends with the user turn and holds no answer to this query; with nothing expired it has grown by exactly one turn |
| `Relay.SuccessKeepsBothTurns` | tbot.py:85-101 | after a completion returned fewer than 3600 seconds after the query, the history ends with the user turn followed by the assistant turn |
| `Relay.MentionInAnyCase` | tbot.py:24-26 | `hey @SIGMOYDBOT how are you` addresses the bot `Sigmoydbot` |
| `Relay.NoAtSignNotAddressed` | tbot.py:24-26 | `hey sigmoydbot`, without `@`, does not address the bot |
| `Relay.ReplyToBotWithoutMention` | tbot.py:70-75 | `ok`, a reply to a message by `Sigmoydbot`, addresses the bot |
| `Relay.LeadingMentionRemoved` | tbot.py:79-82 | the query of `@Sigmoydbot what's up` is `what's up` |
| `Relay.EveryMentionRemoved` | tbot.py:79-82 | the query of `@b hi @B` for the bot `b` is `hi`: both mentions are removed |

## Left out

- The Telegram SDK (application builder, handlers, polling, `Update` and context objects, `reply_text`): I/O glue; the model takes an `Inbound` record and returns the reply text.
- The Groq client and its network call: a foreign call; its outcome is an input. The case where the first choice's content is `None` (which the code would record and then fail to send) is not modelled: a completion either yields text or fails.
- A failure to deliver a reply after the answer has been recorded (the code catches it and sends the error text): delivery is not modelled, and the history would be the same as on success.
- `time.time()` returns floats and is read twice inside `update_conversation`; the model uses one integer `now` for both the stamp and the pruning of one update, and a second integer `replyNow` for the answer.
- The environment and `.env` loading of the two credentials: configuration I/O.
- asyncio and concurrency: the Groq call is synchronous inside the handler, so the model treats one handled message as one atomic step.
- Unicode case folding: case-insensitivity covers ASCII letters only; matches that Python's `re.IGNORECASE` makes between other characters (such as the Kelvin sign and `k`) are not modelled.
- Empty patterns: `RemoveAll` and `Scan` require a non-empty pattern; the handler only ever passes `@<username>`, so the code's behaviour for an empty pattern is not modelled.
- Reading a missing user in `get_groq_messages` inserts an empty list into the `defaultdict`; the model returns the empty list without inserting, which no caller can tell apart.
