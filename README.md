# Insurance-policy chatbot handlers, modelled in Dafny

This project models the core of `handlers/ui_handler_functions.py`, the server-side handlers of a
prototype chatbot. The chatbot answers questions about a user's uploaded insurance policies and can
also show the user's Gmail messages. The model covers:

- **Streaming and memory** (`framing.dfy`, `conversation.dfy`). `handle_query` relays the model's
  streamed reply to the browser as frames. Each frame is 50 characters of reply text with newlines
  escaped as `\n`. The rest of the text is flushed after the stream ends. Then the whole reply, or an
  apology when the reply was empty, is committed to the conversation memory, and finally the
  string `"DONE"` is sent.
- **History deduplication** (`history.dfy`). The history handed to the model with every request is
  the memory's messages passed through `format_history_for_gemini`. That function keeps only the
  first message carrying each text.
- **Session state** (`session.dfy`, class `SessionState`). This covers:
  - the focus handler, which copies the user's names and policies from the server-side user store;
  - the policy selector and `policy_is_selected`;
  - the clear button;
  - the email cache. `handle_fetch_emails` stores the metadata newest first with bodies not loaded.
    `handle_select_email` loads a body on first view and stores it in place.
- **`truncate_str`** (`text.dfy`), with Python's slice semantics for a negative bound.

External services are parameters of the handlers:

- The chunks streamed by the model are a `seq<string>`. `""` stands for a chunk whose `content`
  and `message.content` are both empty.
- The server-side user store is a `map<string, ServerUser>`.
- The result of the Gmail search is a `MailListing`.
- The metadata lookup and the body lookup are functions, whose results record whether the call
  answered or raised.

The module-level LangChain memory is a separate class `Conversation.Memory`. `HandleQuery` and
`HandleClearButtonClick` receive it as an argument.

The streamed frames are specified by the function `Framing.ResponseFrames` on the concatenated
reply. The imperative loop `Conversation.ReframeStream`, which keeps the source's buffer of chunks,
is proved to yield exactly those frames. The lemmas about `ResponseFrames` then state what the
browser receives:

- the frames, without the sentinel, concatenate to the escaped reply;
- no frame contains a raw `\n` (carriage returns are not escaped);
- every frame before the flush holds exactly 50 characters of the reply;
- a `"DONE"` frame before the last one is possible only when the flushed tail escapes to `"DONE"`.

Three points about the code's behaviour shape the model:

- Focus keeps the selection. After the first focus, `handle_focus` leaves `selected_policy` and
  `selected_policy_index` as they were, as its docstring says (line 333). `get_policy_file_info`
  sets only `current_policy` (line 414), which nothing reads. See Findings.
- Ties in the email order. `email_list.sort(..., reverse=True)` (line 719) is Python's stable sort,
  so emails with equal timestamps keep their listing order. The model proves a non-increasing
  order and stability.
- An empty search stores nothing. When the search lists no messages, the handler returns before
  storing anything, so the previously cached emails and the cursor stay as they were.

## Model

| member | source | states |
|---|---|---|
| Framing.EscapeNoNewline | handlers/ui_handler_functions.py:465 | After `replace('\n', '\\n')` no raw newline is left, and the text never gets shorter |
| Framing.EscapeAppend | handlers/ui_handler_functions.py:465-470 | Escaping a concatenation is the concatenation of the escapes, so escaping frame by frame equals escaping the whole text |
| Framing.JoinAppend | handlers/ui_handler_functions.py:474 | `''.join` of a concatenation of chunk lists is the concatenation of the joins |
| Framing.NonEmptyJoin | handlers/ui_handler_functions.py:455-457 | Dropping content-less chunks keeps only non-empty chunks, does not change the joined text, and leaves nothing exactly when the text is empty |
| Framing.CutsAt | handlers/ui_handler_functions.py:461-463 | The i-th full frame is the text's characters 50*i up to 50*i+50 |
| Framing.RestIsTail | handlers/ui_handler_functions.py:461-463 | What remains after cutting full frames is the tail after the last full frame (fewer than 50 characters) |
| Framing.CutsThenRest | handlers/ui_handler_functions.py:460-464 | The full frames followed by the remainder are the text itself, so nothing is lost or duplicated |
| Framing.SplitIsUnique | handlers/ui_handler_functions.py:461-464 | Any split of a text into 50-character pieces followed by fewer than 50 characters is the frames-and-remainder split |
| Framing.CutsExtend | handlers/ui_handler_functions.py:456-464 | Appending a chunk to the buffered remainder and cutting again extends the full frames of the whole text by the new cuts, and leaves the new remainder |
| Framing.EscapedFramesCoverText | handlers/ui_handler_functions.py:465-470 | The escaped full frames followed by the escaped remainder concatenate to the escaped text |
| Framing.ResponseFramesShape | handlers/ui_handler_functions.py:461-486 | The last frame is always `"DONE"`; an empty reply yields only `"DONE"`; otherwise there are len/50 full frames, one flush frame (possibly empty) and the sentinel |
| Framing.ResponseFramesContent | handlers/ui_handler_functions.py:461-471 | Each frame before the flush is the escape of the next 50 characters of the reply; the flush is the escape of the tail |
| Framing.ResponseFramesCoverText | handlers/ui_handler_functions.py:444-486 | The frames before the sentinel concatenate to the escaped reply |
| Framing.ResponseFramesOneLine | handlers/ui_handler_functions.py:465-470 | No frame sent to the browser contains a raw `\n` (a `\r` is left as it is) |
| Framing.SentinelOnlyAtFlush | handlers/ui_handler_functions.py:466-486 | A `"DONE"` frame before the last one can only be the flush frame, and only when the reply's tail escapes to `"DONE"` |
| Framing.CutFullFrames | handlers/ui_handler_functions.py:461-466 | The inner `while` loop: the pieces cut, followed by the leftover buffer, are the buffer; each piece has 50 characters; the leftover has fewer; the yielded frames are the escaped pieces; something is cut exactly when the buffer holds at least 50 characters |
| Conversation.TakeChunk | handlers/ui_handler_functions.py:455-466 | One chunk with content: the buffered text plus the chunk equals the pieces cut plus the new buffer; the new buffer has fewer than 50 characters and is never an empty list; the frames yielded are the escaped pieces |
| Conversation.ReframeStream | handlers/ui_handler_functions.py:444-474 | The streaming loop and the flush yield exactly `ResponseFrames` of the joined reply (sentinel excluded), and `full_response` is the join of the chunks with content |
| Conversation.Messages | handlers/ui_handler_functions.py:199-200 | The memory's history alternates the human input and the AI output of each turn, in order |
| Conversation.ModelHistorySpec | handlers/ui_handler_functions.py:284 | The history the chain sends is a subsequence of the memory's messages, each text once, and it contains every text of the memory |
| Conversation.CommittedOutput | handlers/ui_handler_functions.py:474-479 | The output committed to memory is never empty: it is the reply itself whenever the reply is non-empty, and the fixed apology otherwise |
| Conversation.Memory.SaveContext | handlers/ui_handler_functions.py:479 | Saving a turn appends it to the memory and changes nothing else |
| Conversation.Memory.Clear | handlers/ui_handler_functions.py:814 | Clearing leaves the memory with no turns |
| Conversation.HandleQuery | handlers/ui_handler_functions.py:421-486 | The chain receives the deduplicated history of the memory before this query; the frames are `ResponseFrames` of the reply; the memory gains exactly one turn, holding the input and the committed output |
| History.FirstIndexOf | handlers/ui_handler_functions.py:495-507 | The index returned is the first message carrying the given text |
| History.FirstOccurrencesKeepsContents | handlers/ui_handler_functions.py:495-507 | Deduplication keeps every distinct message text |
| History.FirstOccurrencesIsSubsequence | handlers/ui_handler_functions.py:495-507 | Deduplication keeps messages in their original order and adds none |
| History.FirstOccurrencesDistinct | handlers/ui_handler_functions.py:495-507 | No two kept messages carry the same text |
| History.FirstOccurrencesAreFirst | handlers/ui_handler_functions.py:495-507 | Every kept message is the first message of the history with its text |
| History.FirstOccurrencesOfDistinct | handlers/ui_handler_functions.py:495-507 | A history whose texts are already distinct is returned unchanged |
| History.FirstOccurrencesIdempotent | handlers/ui_handler_functions.py:495-507 | Deduplicating twice is the same as deduplicating once |
| History.FormatHistory | handlers/ui_handler_functions.py:495-507 | The loop with its `seen` set returns exactly the first occurrences of each text |
| Emails.FromMetadata | handlers/ui_handler_functions.py:707-716 | A record built from metadata has no body loaded |
| Emails.CollectMetadataSpec | handlers/ui_handler_functions.py:706-716 | Collecting metadata succeeds exactly when every lookup answers, and then yields one record per listed message in listing order; otherwise it fails with the error of the first lookup that raised |
| Emails.PrefixErrorPropagates | handlers/ui_handler_functions.py:706-744 | Once a lookup fails, the whole fetch fails with that error |
| Emails.InsertNewestFirstPermutes | handlers/ui_handler_functions.py:719 | Inserting a record keeps all records, as a multiset |
| Emails.InsertNewestFirstSorted | handlers/ui_handler_functions.py:719 | Inserting into a newest-first list keeps it newest first |
| Emails.InsertNewestFirstWithDate | handlers/ui_handler_functions.py:719 | The inserted record comes before the records of the list that share its timestamp, so among equal timestamps it keeps its place at the front |
| Emails.SortNewestFirstIsSorted | handlers/ui_handler_functions.py:719 | The sorted list is in non-increasing timestamp order |
| Emails.SortNewestFirstIsPermutation | handlers/ui_handler_functions.py:719 | The sorted list is a permutation of the input |
| Emails.SortNewestFirstIsStable | handlers/ui_handler_functions.py:719 | Records with equal timestamps keep their input order, as Python's stable sort with `reverse=True` does |
| Session.SessionState.constructor | handlers/ui_handler_functions.py:312-317 | A new session is not initialized, has an empty user id, no policies, the selection unset (`None`) and no emails |
| Session.SessionState.GetPolicyFileInfo | handlers/ui_handler_functions.py:389-415 | The policy list is rebuilt as a field-by-field copy of the user's server policies, in order; the count equals its length; `current_policy` becomes `"None"` only when there is at least one policy |
| Session.SessionState.TransferServerData | handlers/ui_handler_functions.py:368-383 | The user's first and last names and policies are copied from the store entry for the session's user id |
| Session.SessionState.HandleFocus | handlers/ui_handler_functions.py:298-363 | Sets the ids; on the first focus only, resets the selection to the `"None"` sentinel; keeps the selection on later focuses; always refreshes names and policies from the store; leaves the email cache alone |
| Session.StaleSelectionAfterRefocus | handlers/ui_handler_functions.py:347-363 | A session that selected its second policy and is refocused with one policy still counts as having a policy selected, with an index past the end of its policy list |
| Session.SessionState.HandleFocusRevalidated | handlers/ui_handler_functions.py:298-415 | Focus that keeps a selection whose index still holds the selected policy; any other held policy or index (out of range, pointing elsewhere, or left over when no policies remain) falls back to the sentinel; afterwards any held selection refers to the rebuilt list and the query handler can use it |
| Session.RevalidatedFocusDropsSelectionWhenNoPoliciesRemain | handlers/ui_handler_functions.py:347-415 | Under the corrected focus, a selection of the second policy is dropped to the sentinel when the user is refocused with no policies |
| Session.PolicyIsSelectedMeans | handlers/ui_handler_functions.py:488-492 | For a usable selection, `policy_is_selected` holds exactly when the user has policies and a policy object is selected with an index; the read of `policy_list[selected_policy_index]` (line 429) is then in range and yields the selected policy |
| Session.SessionState.HandlePolicySelection | handlers/ui_handler_functions.py:651-664 | `"None"` clears the selection, after which `policy_is_selected` is false; any other name selects the first policy with that display name, with its index, after which the selection is usable and `policy_is_selected` holds exactly when the user has policies; an unknown name changes nothing; a usable selection stays usable |
| Session.SessionState.HandleClearButtonClick | handlers/ui_handler_functions.py:800-831 | Empties the conversation memory and resets the selection to the sentinel, after which no policy counts as selected |
| Session.SessionState.HandleFetchEmails | handlers/ui_handler_functions.py:677-744 | Gmail unavailable, a failed search or a failed lookup yields a failure and keeps the cache; an empty listing yields "none found" and keeps the cache; otherwise the cache becomes the collected records sorted newest first, no bodies loaded, the cursor at 0, and the reply holds their count and summaries in that order |
| Session.SessionState.HandleSelectEmail | handlers/ui_handler_functions.py:751-789 | An empty cache or an out-of-range index fails and changes nothing; otherwise the body of that email is fetched only if never loaded (an error becomes `[Error fetching body: …]`), stored in place, no other email changes, and the cursor moves to it |
| TextUtil.SliceLength | handlers/ui_handler_functions.py:142 | The number of characters kept by `s[:length]`, counting a negative bound from the end and never passing either end |
| TextUtil.Truncate | handlers/ui_handler_functions.py:140-142 | A string within the bound is returned unchanged; a longer one becomes a prefix of it followed by `...`, of the slice's length plus three; for a non-negative bound the result is at most bound+3 long, and within the bound exactly when the input was |

## Left out

- Chain construction, the prompt and the model call (LangChain) are left out. The model's reply is
  given as the sequence of chunk texts.
- Conversation.ReframeStream: the fallback from `chunk.content` to `chunk.message.content`
  (line 453) is not modelled. `""` stands only for a chunk whose fallback also yields nothing. A
  chunk with empty `content` and no `message` attribute raises `AttributeError` into the `except`
  branch instead of being skipped.
- Conversation.HandleQuery: its contract describes a query with no policy selected, or with a
  selected policy that is already extracted. The policy-context loading at lines 427-435 is not
  modelled. A selected policy that is not yet extracted raises `NameError` before any frame is
  sent: `extract_text_from_pdf` uses `PDFProcessingService` (line 526), whose import at line 18 is
  commented out. A stale selected index raises `IndexError` at line 429 (see Findings). Reading
  an extracted file is file I/O.
- Conversation.HandleQuery: does not model the `except` branch of lines 482-484. An exception raised
  part-way through the stream belongs to the external model call. In the source, that branch also
  refers to `conversation_logger`, which is not defined in this file.
- Generator laziness is not modelled: the frames are returned as one sequence. The browser-side
  reader in `script.js` is not part of this model.
- No escape round trip is stated, because the escaping is not invertible: `"\n"` and the two
  characters `\n` escape to the same text.
- Session.SessionState.TransferServerData: requires the user id to be in the store. For an unknown
  user the source prints a message and then raises on an unbound local, so the model has no result
  to state.
- Session.SessionState.HandleFetchEmails: the Gmail authentication, the service object, the search
  query built from the date, and storing `gmail_service` are external calls. They are folded into
  the `MailListing` parameter, and the body lookup is a parameter of HandleSelectEmail.
- Session.SessionState.HandleFetchEmails: `internal_date` is an `int`. The failure of `int()` on a
  malformed timestamp, and missing keys in the metadata, are not modelled.
- Session.SessionState.HandleFetchEmails: the human-readable `message` texts of the reply are left
  out.
- The globals `policy_instructions` and `policy_extracted_content` reset by the clear button are left
  out, and so is the chain recreation. Those globals are never read elsewhere, and the chain holds no
  state of its own.
- `SessionData` and the server-side user store classes are defined outside this file. The model
  uses the fields the handlers read and write.
- Session.SessionState.constructor: the policy list starts empty, where the focus handler's
  docstring (line 316) gives `None`. In the source, `handle_policy_selection` with a name other
  than `"None"` before the first focus would iterate `None` (line 658) and raise `TypeError`. The
  model instead leaves the selection unchanged.
- Error logging and `print` output are left out.
- `ui_Chatbot_prototype.py` (the web routes) and `script.js` are not part of this model.

## Findings

| source | as written | input that shows it | evidently intended | confidence | as-written member | corrected member |
|---|---|---|---|---|---|---|
| handlers/ui_handler_functions.py:347-363 | Every focus rebuilds `policy_list` from the store (line 395). Only the first focus resets `selected_policy_index`, and `get_policy_file_info` sets `current_policy` (line 414), which nothing reads. A selection made before a refocus survives even when the user's policies changed. `policy_is_selected` still holds, and `handle_query` then reads `policy_list[selected_policy_index]` (line 429) | The user store changes between two focuses, as the comments at ui_Chatbot_prototype.py:202-203 and line 361 anticipate (the prototype itself builds the store once, at ui_Chatbot_prototype.py:201). A user with policies "a" and "b" selects "b" (index 1), then is refocused after deleting "b". The policy list has length 1 and the index is 1 | Any kept selection refers to the policy at that index of the rebuilt list; any other held selection, including one left over when no policies remain, falls back to the `"None"` selector | not executed | Session.StaleSelectionAfterRefocus | Session.SessionState.HandleFocusRevalidated |
