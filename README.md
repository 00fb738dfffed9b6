# Vibe Trading: a verified model of its chat, subscription and admin logic

Vibe Trading is a landing site for an algorithmic trading product that has not launched yet. It
collects e-mail addresses for a wait-list, in two ways:

- a chat-intake widget, and a full-page chat whose replies depend on the visitor's access level
  (guest, wait-listed, paid);
- a wait-list form that posts to a small FastAPI backend. The backend validates addresses, stores
  them in a subscriber table and lists them to an authenticated admin.

This project models the decision logic of that system in Dafny and proves what it promises.

Modules follow the program's files:

- `ChatWidget` (`chat_widget.dfy`) models the chat-intake widget.
  - `Classify` is its reply classifier: an address, then project keywords, then a nudge.
  - The `Widget` class is its submit / timer state machine.
  - `EmailPattern` (`email_pattern.dfy`) specifies the widget's unanchored e-mail pattern, with `\b`
    boundaries, as a predicate. It proves that the search finds the leftmost-longest match.
- `MessageBubble` (`message_bubble.dfy`) models `renderContent` of the message bubble:
  - the fence-splitting loop, as a method proved against a specification function;
  - the round trip back to the content;
  - the language / code props of a block;
  - line and bullet formatting.
- `Validators` (`validators.dfy`) models the server's anchored e-mail pattern, with Python's `$`.
- `ChatShell` (`chat_shell.dfy`) models the full-page chat, with its `Shell` class.
- `VibeAgent` and `SubscriberStore` model the agent's `subscribe_email` over a subscriber set.
- `Server` models `check_admin_auth`, `parse_json_body` and the four endpoints' status and body choices.
- `EmailForm` models the wait-list form's `Form` class.
- `Text`, `EmailChars`, `Conversation`, `AuthState` and `Wrappers` are shared definitions:
  - JavaScript `trim`, `split`, `includes` and lower-casing;
  - the patterns' character classes;
  - chat messages, the access level, and `Option`.

State that the source changes step by step is a class with `modifies` clauses:

- React state becomes fields.
- A scheduled 1500 ms reply becomes an entry in a FIFO `timers` field, consumed by a `TimerFires`
  event. All delays are equal, so timers fire in submit order.
- The subscriber table becomes a `set<string>`.

Inputs the code cannot see are parameters:

- the network's answer;
- whether the database fails an insert;
- the result of base64 / UTF-8 decoding, a partial function `decode`;
- the agent's chat reply;
- the subscriber query's rows.

## Model

| member | source | states |
|---|---|---|
| EmailPattern.LastBoundary | frontend/src/components/ChatWidget.tsx:68 | the largest position in a range where `\b` holds, or none; no boundary lies above the one returned |
| EmailPattern.DotSearch | frontend/src/components/ChatWidget.tsx:68 | backtracking over the '.' before the top-level label finds a tail (domain, '.', label, `\b`) exactly when one exists, and the one ending furthest |
| EmailPattern.TailsAtLowerDotsEndEarlier | frontend/src/components/ChatWidget.tsx:68 | a tail whose '.' lies further left ends no later than a later '.', since '.' is outside `[A-Z\|a-z]` |
| EmailPattern.MatchEnd | frontend/src/components/ChatWidget.tsx:68-69 | the end the engine finds at one start lies after that start and within the message |
| EmailPattern.MatchEndCorrect | frontend/src/components/ChatWidget.tsx:68-69 | at a fixed start, a match is found iff one exists, and it is the longest there |
| EmailPattern.MatchDotIs | frontend/src/components/ChatWidget.tsx:68 | the '.' before the label is determined by the match's ends |
| EmailPattern.FirstMatchFrom | frontend/src/components/ChatWidget.tsx:69 | the scan over start positions returns a non-empty range at or after its start |
| EmailPattern.FirstMatch | frontend/src/components/ChatWidget.tsx:69 | a found match is a non-empty range of the message |
| EmailPattern.FirstMatchFromCorrect | frontend/src/components/ChatWidget.tsx:69 | the scan returns a match with no match starting earlier, longest at its start; no result means no match from there on |
| EmailPattern.FirstMatchIsLeftmostLongest | frontend/src/components/ChatWidget.tsx:68-72 | `message.match` returns the leftmost-longest match, and returns none iff the message holds no match |
| EmailPattern.Extract | frontend/src/components/ChatWidget.tsx:68-72 | an extracted address is at least six characters long and holds an '@' |
| EmailPattern.MatchShape | frontend/src/components/ChatWidget.tsx:68 | every match spans at least six characters, one of them an '@' |
| EmailPattern.ExtractCorrect | frontend/src/components/ChatWidget.tsx:69-72 | the extracted address exists iff a match exists, and it is the slice of the leftmost-longest match; later addresses are ignored |
| EmailChars.RunEnd | frontend/src/components/ChatWidget.tsx:68 | the end of the longest run of a character class from a position: all inside, the next character outside |
| EmailChars.RunStart | app/utils/validators.py:20 | the start of the longest run of a class ending at a position: all inside, the previous character outside |
| EmailChars.RunStopsAtOutsider | frontend/src/components/ChatWidget.tsx:68 | no run of a class extends past a character outside it |
| ChatWidget.SomeIncluded | frontend/src/components/ChatWidget.tsx:89 | `keywords.some(k => lowered.includes(k))` is true iff some keyword occurs somewhere in the text |
| ChatWidget.Classify | frontend/src/components/ChatWidget.tsx:66-95 | an acknowledged address is at least six characters long and holds an '@' |
| ChatWidget.ClassifyCorrect | frontend/src/components/ChatWidget.tsx:66-95 | thanks iff the message holds an address, and then with exactly the leftmost-longest match, even when keywords are present; project info iff no address and a keyword occurs in the lower-cased text; otherwise the nudge |
| ChatWidget.FeatureEnds | frontend/src/components/ChatWidget.tsx:25-28 | each listed feature begins with a capital and ends with a lower-case letter |
| ChatWidget.MisencodedFeatureLinesArePlain | frontend/src/components/ChatWidget.tsx:25-28 | as stored, each feature line starts with U+00E2 and is shown as a plain line, not a bullet |
| ChatWidget.FeatureLinesAreBullets | frontend/src/components/ChatWidget.tsx:25-28 | with the mark U+2022, each feature line is shown as a bullet item holding exactly the feature |
| ChatWidget.Widget.constructor | frontend/src/components/ChatWidget.tsx:37-43 | the widget starts with the welcome message, empty input, not typing, no address forwarded |
| ChatWidget.Widget.SetInput | frontend/src/components/ChatWidget.tsx:40 | the input buffer takes the typed text; nothing else changes |
| ChatWidget.Widget.Submit | frontend/src/components/ChatWidget.tsx:97-120 | input that trims to empty changes nothing; otherwise one user message with the untrimmed text is appended, the input is cleared, typing starts, and a timer holding the new list and the text is scheduled |
| ChatWidget.Widget.ProcessMessage | frontend/src/components/ChatWidget.tsx:66-95 | the reply is `Classify(message)`; an address is forwarded to `onEmailSubmit` on every occurrence, without de-duplication; `emailSubmitted` only ever becomes true |
| ChatWidget.Widget.TimerFires | frontend/src/components/ChatWidget.tsx:111-119 | classification happens when the timer fires; the list becomes the submit-time snapshot plus exactly one reply, and typing stops |
| ChatWidget.OverlappingSubmitsLoseFirstReply | frontend/src/components/ChatWidget.tsx:105-119 | two submits before the first reply: the conversation ends with both user messages and only the second reply, but both addresses are forwarded |
| MessageBubble.NextFence | frontend/src/components/MessageBubble.tsx:20 | a returned position holds a fence, at or after the search start |
| MessageBubble.NextFenceCorrect | frontend/src/components/MessageBubble.tsx:20 | no fence lies before the returned one; none at all when none is returned |
| MessageBubble.FindBlock | frontend/src/components/MessageBubble.tsx:20-26 | a found block lies at or after `lastIndex` and its closing fence ends within the content |
| MessageBubble.FindBlockFences | frontend/src/components/MessageBubble.tsx:20 | both ends of a found block are fences |
| MessageBubble.FindBlockCorrect | frontend/src/components/MessageBubble.tsx:20-26 | `exec` finds the block with the leftmost opening fence, closed lazily by the next fence; none when there is none |
| MessageBubble.SegmentsFrom | frontend/src/components/MessageBubble.tsx:21-51 | the parts from a position on are at most as many as the characters left, since each consumes at least one |
| MessageBubble.Segments | frontend/src/components/MessageBubble.tsx:21-51 | the splitter never emits an empty text part |
| MessageBubble.SegmentsFromStep | frontend/src/components/MessageBubble.tsx:26-45 | one loop step emits the text before the block (when not empty) and the block, then continues after the closing fence |
| MessageBubble.SplitContent | frontend/src/components/MessageBubble.tsx:21-51 | the splitting loop produces exactly the specified segments |
| MessageBubble.ReassembleSingle | frontend/src/components/MessageBubble.tsx:26-51 | writing back a single part gives its source text |
| MessageBubble.ReassembleAppend | frontend/src/components/MessageBubble.tsx:26-51 | writing back distributes over concatenation of part lists |
| MessageBubble.StepSource | frontend/src/components/MessageBubble.tsx:28-45 | one step's parts written back are the text before the block, a fence, the inner text and a fence |
| MessageBubble.FencedSlices | frontend/src/components/MessageBubble.tsx:28-45 | those pieces and the rest make up the content from `lastIndex` on |
| MessageBubble.RoundTripLast | frontend/src/components/MessageBubble.tsx:49-51 | with no block left, the remaining text written back is the rest of the content |
| MessageBubble.RoundTripStep | frontend/src/components/MessageBubble.tsx:26-46 | the round trip carries over one loop step |
| MessageBubble.RoundTripFrom | frontend/src/components/MessageBubble.tsx:26-51 | parts from any position, written back, give the content from that position |
| MessageBubble.RoundTrip | frontend/src/components/MessageBubble.tsx:26-51 | text parts and re-fenced blocks, in order, give back the whole content |
| MessageBubble.FenceInSlice | frontend/src/components/MessageBubble.tsx:20 | a fence inside a slice is a fence of the whole content |
| MessageBubble.NoFenceInSlice | frontend/src/components/MessageBubble.tsx:20 | a slice with no fence of the content inside it holds no fence |
| MessageBubble.BlockFreeFromFenceFree | frontend/src/components/MessageBubble.tsx:20 | text without a fence holds no block |
| MessageBubble.TailBlockFree | frontend/src/components/MessageBubble.tsx:49-51 | the text after the last block holds no block, so an unclosed fence stays in a text part |
| MessageBubble.StepWellFormed | frontend/src/components/MessageBubble.tsx:28-43 | one step emits no empty text part, text without a block, and a block without a fence inside |
| MessageBubble.WellFormedAppend | frontend/src/components/MessageBubble.tsx:29-37 | well-formed part lists stay well-formed when appended |
| MessageBubble.SegmentsFromWellFormed | frontend/src/components/MessageBubble.tsx:26-51 | every part from any position on is well-formed |
| MessageBubble.SegmentsWellFormed | frontend/src/components/MessageBubble.tsx:28-49 | no empty text part is emitted, no text part holds a block, no block holds a fence |
| MessageBubble.BlockProps | frontend/src/components/MessageBubble.tsx:33-41 | the language shown is never empty |
| MessageBubble.FirstPieceStart | frontend/src/components/MessageBubble.tsx:34 | the first line of a string that does not start with a newline starts with the string's first character |
| MessageBubble.TrimKeepsStart | frontend/src/components/MessageBubble.tsx:34 | trimming a string that starts with a non-space keeps a prefix of it, followed only by spaces |
| MessageBubble.LanguageIsPrefix | frontend/src/components/MessageBubble.tsx:34-35 | the trimmed first line is a prefix of the code; what follows it is the rest of its line plus the later lines |
| MessageBubble.BlockPropsCorrect | frontend/src/components/MessageBubble.tsx:33-41 | the language is empty iff the inner text is all space, and then it shows as "plaintext" with empty code; otherwise the language is the trimmed first line of the trimmed text and the code is the rest, trimmed |
| MessageBubble.OneLineBlock | frontend/src/components/MessageBubble.tsx:33-41 | a one-line block gives its whole trimmed text as the language and empty code |
| MessageBubble.BulletLineIsBullet | frontend/src/components/MessageBubble.tsx:62-67 | the mark, a space and an item with non-space ends is shown as a bullet holding the item |
| MessageBubble.OtherLineIsPlain | frontend/src/components/MessageBubble.tsx:62-75 | a line starting with neither a space nor the mark is shown as is |
| MessageBubble.FormatLine | frontend/src/components/MessageBubble.tsx:60-75 | a plain line is the line itself, with a break unless it is the last; a bullet line holds the mark, and its item is shorter than the line |
| MessageBubble.BulletMarkInLine | frontend/src/components/MessageBubble.tsx:62-66 | a line whose trim starts with the mark holds the mark, and the item shown is shorter than the line |
| MessageBubble.FormatLines | frontend/src/components/MessageBubble.tsx:60-77 | one formatted line per line |
| MessageBubble.FormatLinesTail | frontend/src/components/MessageBubble.tsx:60-77 | only the last line is formatted as last |
| MessageBubble.ShownLines | frontend/src/components/MessageBubble.tsx:57-75 | without bullets, the lines shown with a break between consecutive lines and none after the last are the lines joined by newlines |
| MessageBubble.PlainTextShown | frontend/src/components/MessageBubble.tsx:57-75 | a text part without bullet lines is shown exactly as it is |
| MessageBubble.BulletDecomposition | frontend/src/components/MessageBubble.tsx:62-66 | a bullet line is spaces, the mark, spaces, the item and spaces, where the item is the trimmed line minus its first character, trimmed again |
| MessageBubble.BulletShape | frontend/src/components/MessageBubble.tsx:62-66 | the same decomposition, from the offsets of the two trims |
| MessageBubble.TrimWithinTrim | frontend/src/components/MessageBubble.tsx:66 | the slices of a line that two nested trims leave |
| MessageBubble.RenderContent | frontend/src/components/MessageBubble.tsx:14-81 | non-string content is returned unchanged; a string gives one rendered piece per segment, in order: text parts as formatted lines, blocks as their props |
| Validators.ShapeOkCorrect | app/utils/validators.py:20 | the maximal-run computation decides exactly the shape L '@' D '.' T over the pattern's classes, with T at least two letters |
| Validators.ShapeOk | app/utils/validators.py:20 | the run decomposition accepts only strings of at least six characters holding an '@' |
| Validators.Matches | app/utils/validators.py:20-22 | the same holds for what `re.match` accepts, with or without a final newline |
| Validators.ValidateEmail | app/utils/validators.py:16-25 | the message is empty iff the address is accepted, and an accepted address has at least six characters and an '@' |
| Validators.ValidateEmailCorrect | app/utils/validators.py:16-25 | accepted iff the pattern matches, with `$` matching at the end or before one final newline; the message is empty iff accepted; the empty address gets "Email cannot be empty", any other rejected one "Invalid email format" |
| Validators.ShapeEndsInLetter | app/utils/validators.py:20 | an address of the shape ends in a letter |
| Validators.TrailingNewline | app/utils/validators.py:20-22 | an address followed by one newline is accepted iff the address has the shape; two newlines are never accepted |
| Validators.AcceptedShape | app/utils/validators.py:20-23 | an accepted address holds exactly one '@', and its last '.'-separated label has no '.' and at least two letters |
| Validators.LastLabelHasNoDot | app/utils/validators.py:20 | the top-level label holds no '.' |
| Validators.OneAt | app/utils/validators.py:20 | an address of the shape holds '@' exactly once |
| ChatShell.Shell.constructor | frontend/src/pages/Chat.tsx:23-26 | the chat starts with the two sample messages, empty input, not typing |
| ChatShell.Shell.SetInput | frontend/src/pages/Chat.tsx:25 | the input buffer takes the typed text |
| ChatShell.Shell.SetStatus | frontend/src/pages/Chat.tsx:23 | the shared access level changes |
| ChatShell.Shell.Submit | frontend/src/pages/Chat.tsx:44-63 | input that trims to empty changes nothing; otherwise one user message with the untrimmed text is appended, the input is cleared, typing starts, and a timer holding the new list and the access level at submit is scheduled |
| ChatShell.Shell.TimerFires | frontend/src/pages/Chat.tsx:55-62 | the list becomes the snapshot plus the template for the access level seen at submit, whatever was typed; typing stops |
| ChatShell.Shell.NewChat | frontend/src/pages/Chat.tsx:65-67 | the list is reset to the two sample messages, whatever it held |
| ChatShell.Shell.StatusBubbleShown | frontend/src/pages/Chat.tsx:103 | a shown bubble means not typing, not paid and a non-empty list |
| ChatShell.SamplesHideBubble | frontend/src/pages/Chat.tsx:103 | the sample conversation ends with the assistant, so it never shows the status bubble |
| ChatShell.BubbleAfterUserMessage | frontend/src/pages/Chat.tsx:103 | after a user message with no reply pending, the bubble shows iff the visitor has not paid |
| ChatShell.ReplyHidesBubble | frontend/src/pages/Chat.tsx:93-103 | a reply always hides the bubble, and so does a pending one |
| ChatShell.PendingReplyUndoesNewChat | frontend/src/pages/Chat.tsx:55-67 | a reply pending when a new chat is started still arrives and puts back the old conversation plus the reply |
| SubscriberStore.Store.constructor | app/db/database.py:7-22 | the store holds the given addresses |
| SubscriberStore.Store.EmailExists | app/db/database.py:49-66 | true iff the address is stored |
| SubscriberStore.Store.AddEmail | app/db/database.py:24-47 | the insert succeeds iff the address is new and the database does not fail; only then does the set gain it |
| VibeAgent.SubscribeEmail | app/agent/vibe_agent.py:89-125 | the result and the set after it are those of `Subscribe`: invalid, already stored (no insert), inserted, or insert failed |
| VibeAgent.Subscribe | app/agent/vibe_agent.py:89-125 | the set can only gain the address asked for; success means the address is stored afterwards, and failure leaves the set as it was (each branch's result is stated by `SubscribeGuards`) |
| VibeAgent.SubscribeGuards | app/agent/vibe_agent.py:100-125 | one result per branch: an invalid address gets "Cannot subscribe: " plus the validator's message; a stored one gets success with the already-subscribed message; a new one with a working insert is stored, with success and the thank-you message; a failed insert gets failure with the failed-to-subscribe message. Only the insert changes the set, and a set of valid addresses stays so |
| VibeAgent.SuccessMeansStored | app/agent/vibe_agent.py:109-125 | over valid stored addresses, success is reported iff the address is stored afterwards |
| VibeAgent.SubscribeIdempotent | app/agent/vibe_agent.py:109-120 | after a successful call, a second one reports "already subscribed" and leaves the set as the first call left it |
| Server.ParseJsonBody | app/main.py:50-56 | a definition: a body that does not parse reads as `{}`, one that parses is returned as is; what this means for the endpoints is stated by `UnparsedBodyIsEmptyEmail` and `ChatEndpoint` |
| Server.CheckAdminAuth | app/main.py:59-83 | acceptance needs a header starting with "Basic " whose remainder decodes |
| Server.CheckAdminAuthCorrect | app/main.py:59-83 | accepted iff the header is present, starts with the case-sensitive "Basic ", and the rest decodes to name ':' password with no ':' in either; a missing header or a failed decode refuses |
| Server.JoinTwo | app/main.py:72 | two pieces joined by a separator are the first piece, the separator and the second piece |
| Server.AcceptedHasOneColon | app/main.py:72-83 | the credentials of an accepted header hold exactly one ':', so a password with a ':' never authenticates |
| Server.ChatEndpoint | app/main.py:93-107 | 400 "Message is required" iff the body is an object with a missing or falsy message, and always for an unparsed body; 200 with exactly the agent's reply iff the body is an object with a truthy message; 500 for a body that is not an object |
| Server.Subscribe | app/main.py:110-137 | the response and the set after it are those of `SubscribeEndpoint` |
| Server.SubscribeEndpoint | app/main.py:110-137 | the status is 200, 400 or 500; the set only grows, and only on a 200 (the bodies are stated by `SubscribeStatuses`) |
| Server.SubscribeStatuses | app/main.py:110-137 | 200 iff a valid new address is inserted, with the thank-you body, and then the set gains it; 400 iff the address is falsy or invalid, with "Email cannot be empty" or the validator's own message; every other request is a 500 and changes nothing: the failed-to-subscribe message when the insert refuses a valid address, the internal error for a non-object body or a non-string address |
| Server.ResubscribeFails | app/main.py:124-137 | re-subscribing a stored address answers 500, while the agent's `subscribe_email` reports success for it |
| Server.UnparsedBodyIsEmptyEmail | app/main.py:115-122 | a body that is not JSON gives 400 "Email cannot be empty" and changes nothing |
| Server.Emails | app/main.py:182 | a definition: the addresses of the rows, one per row, in order; the export built from it is characterised by `SubscriberLinesRoundTrip` and `AdminListingsAgree` |
| Server.AdminSubscribers | app/main.py:140-166 | 401 with the Basic challenge whenever the check fails; otherwise 500 when the query fails, or 200 with the row count and, as entry k, row k's id, email and creation time |
| Server.AdminSubscribersText | app/main.py:169-189 | 401 "Unauthorized" with the challenge whenever the check fails; 500 with the error when the query fails |
| Server.SubscriberLinesRoundTrip | app/main.py:180-183 | with at least one row and no newline in any address, the plain-text list split on newlines gives back the addresses in the query's order |
| Server.AdminListingsAgree | app/main.py:140-183 | under the same two conditions, entry k of the JSON list is row k and line k of the plain-text list is row k's address |
| Server.NewlineAddressIsValid | app/utils/validators.py:20-23 | "a@b.co" followed by a newline passes the validator |
| Server.NewlineAddressIsStored | app/main.py:110-130 | so `/api/subscribe` stores that address, newline included |
| Server.NewlineAddressBreaksTextExport | app/main.py:180-183 | a stored address ending in a newline is exported as its line followed by an empty line, so the text list no longer splits back into the addresses |
| Server.EmptyTextExport | app/main.py:180-183 | with no rows the plain-text list is empty, and splits into one empty line rather than none |
| EmailForm.Form.constructor | frontend/src/components/EmailForm.tsx:10-14 | empty address, not loading, no error, no success |
| EmailForm.Form.SetEmail | frontend/src/components/EmailForm.tsx:10 | the address takes the typed text while the form is shown and idle |
| EmailForm.Form.Submit | frontend/src/components/EmailForm.tsx:25-35 | an empty or '@'-less address only sets "Please enter a valid email address"; otherwise loading starts and the error clears |
| EmailForm.Form.Settle | frontend/src/components/EmailForm.tsx:37-66 | an ok answer whose body parses wait-lists the visitor, shows success and clears the address; anything else sets the fixed error and leaves level, success and address; loading ends either way |
| EmailForm.ServerAcceptedLooksLikeEmail | frontend/src/components/EmailForm.tsx:29 | every address the server accepts passes the form's own check |
| EmailForm.ClientCheckIsWeaker | frontend/src/components/EmailForm.tsx:29 | "a@b" passes the form's check and the server refuses it |
| Text.Trim | frontend/src/components/ChatWidget.tsx:99 | `trim` is empty iff the text is all space, and otherwise starts and ends with a non-space |
| Text.TrimOffset | frontend/src/components/ChatWidget.tsx:99 | the trim is a slice of the text with only spaces before and after it |
| Text.TrimOfTrimmed | frontend/src/components/MessageBubble.tsx:33 | text with non-space ends is its own trim |
| Text.TrimSkipsLeadingSpace | frontend/src/components/MessageBubble.tsx:62 | leading spaces do not change the trim |
| Text.TrimUnique | frontend/src/components/MessageBubble.tsx:33 | a non-space-ended text between runs of space is the trim |
| Text.TrimIdempotent | frontend/src/components/MessageBubble.tsx:33-35 | trimming twice is trimming once |
| Text.Split | frontend/src/components/MessageBubble.tsx:57 | `split` gives at least one piece, none holding the separator, that joined give back the text; one piece iff there is no separator |
| Text.SplitJoin | app/main.py:182 | splitting separator-free pieces after joining gives back the pieces |
| Text.Join | app/main.py:182 | a join starts with its first piece |
| Text.SplitTwoIffOneSeparator | app/main.py:72 | a text splits into exactly two pieces iff it holds the separator exactly once |
| Text.Includes | frontend/src/components/ChatWidget.tsx:89 | `includes` is true iff the word occurs at some position |
| Text.Lower | frontend/src/components/ChatWidget.tsx:89 | a definition: lower-casing keeps the length and maps each character on its own; its use is characterised by `ChatWidget.ClassifyCorrect` |

## Left out

- Network and HTTP transport are left out. The `fetch` result is an input of `EmailForm.Form.Settle`. A request body is an `Option<Json>` that is already decoded or absent.
- The server's `process_chat_message` is the OpenAI agent, a foreign call. Its reply is an input of `Server.ChatEndpoint`, and it is taken never to raise. The agent's construction and the Telegram notifier are also left out.
- base64 and UTF-8 decoding are left out. `decode` is an uninterpreted partial function, and a decode failure is `None`.
- SQLite is reduced to a set of addresses:
  - the `created_at` ordering needs a clock, so the query's rows are an input;
  - row ids and timestamps are not modelled;
  - `init_db` is the store's constructor.
- EmailForm.Form.Submit: the input is `type="email" required`, so the browser's constraint validation blocks an empty address, or one outside the HTML e-mail grammar, before `handleSubmit` runs. The model lets every string reach `handleSubmit`'s own check.
- ChatWidget.Widget: the welcome message and the project reply use the intended characters (U+1F44B, U+2728 and the bullet U+2022) where ChatWidget.tsx:14, 18 and 25-28 hold their mis-encoded forms (see "## Findings"). So for a message such as "what is this", the modelled widget replies with bullet lines that the program as written shows as plain lines starting with "â€¢". `ChatWidget.ProjectInfoAsWritten` keeps the text as written.
- Server.SubscriberLinesRoundTrip holds only with at least one row and no newline in any address. Neither condition holds in general: the validator accepts an address with one trailing newline (`Server.NewlineAddressIsStored`, `Server.NewlineAddressBreaksTextExport`), and an empty table exports as one empty line (`Server.EmptyTextExport`).
- Server.AdminSubscribers: the 500 body's `details` field carries the traceback text, which is an input here. The contract states only the 500 status for a failed query.
- The race between `email_exists` and `add_email` under concurrent requests is not modelled. Each request runs to completion.
- Logging, the OPTIONS handler, `/health` and the 404 route are left out. They make no decisions.
- Timers are events. A scheduled reply fires through an explicit `TimerFires`, and no time passes in the model. Both chats use the same 1500 ms delay, so replies fire in submit order, a FIFO queue.
- Scrolling, textarea resizing, the fixed widget's open/close toggle and all styling are left out.
- Text.Lower lowers only the ASCII letters, where JavaScript's `toLowerCase` is full Unicode lower-casing. This does not change which keywords occur, although the model does not prove it:
  - every keyword is ASCII;
  - only U+0130 and U+212A lower to ASCII characters, giving 'i' followed by U+0307, and 'k';
  - no keyword contains a 'k' or a U+0307, and none ends in 'i', so the 'i' from U+0130 cannot complete an occurrence either.
- Strings are sequences of code points. JavaScript's UTF-16 code units are not modelled, which matters only for characters outside the Basic Multilingual Plane. Such characters are never word characters, fences or spaces.
- `PayModal`, the routing in `App.tsx` and `useAuthState` are left out. The access level is a plain `Status` field and is always provided.
- CodeBlock's rendering and clipboard are left out. A block renders as its props.
- The difference between `/api/subscribe` and `subscribe_email` for a stored address is kept as the code has it. Re-subscribing answers 500 (`Server.ResubscribeFails`).
- `check_admin_auth` splits on every ':' and demands exactly two pieces. Section 2 of RFC 7617 splits at the first colon and lets the password hold colons. The model follows the code (`Server.AcceptedHasOneColon`).

## Findings

| source | as written | input that shows it | evidently intended | confidence | as-written member | corrected member |
|---|---|---|---|---|---|---|
| frontend/src/components/ChatWidget.tsx:25-28 | The feature lines of the project reply begin with "â€¢". These are the UTF-8 bytes of U+2022 stored again as Windows-1252 text, and the emoji at lines 14 and 18 are stored the same way. The message bubble shows a line as a bullet only when its trimmed form starts with U+2022, so each feature line is shown as plain text that starts with "â€¢". | any message with a project keyword and no address, e.g. "what is this" | lines starting with the bullet U+2022, shown as bullet items | high; not executed | ChatWidget.MisencodedFeatureLinesArePlain | ChatWidget.FeatureLinesAreBullets |

`ChatWidget.ProjectInfoText` uses the intended mark, and `ChatWidget.ReplyText` uses it in turn. `ChatWidget.ProjectInfoAsWritten` keeps the text as the file holds it. The welcome text uses the intended emoji as well.
