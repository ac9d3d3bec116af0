# robin — a Dafny model of the message view and the message API

robin is a terminal chat client for Zoom. This project models two parts of it:

- **The message API** (`api/messages.py`).
  - Fetching a session's messages: the request parameters, and the reversal of the answer into oldest-first order.
  - Building the body of a sent message. The draft is emojized. Every `@local@domain.tld` mention is found with the regular expression `@\w+@\w+\.\w+` and rewritten to its shorthand `@local`. One `at_items` record is produced per mention, positioned with `str.find` in the final text. `reply_main_message_id` is added when there is a reply target.
- **The message view** (`widgets/messages.py`).
  - Only messages that are not replies become list items. Each reply is shown under the message it answers.
  - A label or reply repeats the sender only when the sender changes.
  - Each attached file adds a marker: an image marker or a file marker.
  - The list focuses its newest item after a session switch.
  - The view holds the reply target. Ctrl-X clears it. Selecting a message sets it.
  - When Enter is pressed in the prompt, the draft is sent with the current reply target. The target is then cleared and the draft emptied.

Modules:

- `Strings` (`strings.dfy`) gives Python's `str.find`, `str.replace`, `str.join` and `str.startswith` on `seq<char>`.
- `EmailPattern` (`email_pattern.dfy`) models the mention pattern as a scanner. It gives `re.findall` and the group-1 `re.sub`. The character class `\w` is a parameter `w`. The only thing assumed about `w` is that it excludes `@` and `.`.
- `ApiMessages` (`api_messages.dfy`) holds the JSON values, the message record, the fetch and the body of a sent message. The send's replacement loop is a method proved against the functional body.
- `Threads` (`threads.dfy`) holds the pure rendering: which messages become items, their labels and the reply lines.
- `MessageViews` (`message_views.dfy`) holds the three stateful widgets as classes: `MessagesList`, `MessagesPrompt` and `Messages`.

Things outside the model are parameters:

- the HTTP GET is `api: map<string, Json> -> seq<Message>`, the `messages` array returned for the query parameters;
- `emoji.emojize` is `emojize: string -> string`;
- `mimetypes.guess_type` is `Icons.guessType`;
- the two marker glyphs are `Icons.image` and `Icons.file`.

A send or a fetch is not run. The operation that starts it returns what it would send: a `SendTask`, or a `Fetch`. `MessagesList.Deliver` is the callback that receives a fetch's answer. When a send completes, its callback is `MessagesList.Refresh`.

`at_contact` is `e[1:]` (api/messages.py:64), so `@alice@example.com` gives `alice@example.com`, not the bare local part; `ApiMessages.WorkedExample` proves it.

## Model

| member | source | states |
|---|---|---|
| Strings.FindFrom | api/messages.py:66 | the result is -1, or a position at or after the start where the pattern occurs; no earlier position at or after the start holds an occurrence |
| Strings.Find | api/messages.py:66-67 | `str.find`: -1 exactly when the pattern occurs nowhere; otherwise the first position where it occurs |
| Strings.ReplaceAllNone | api/messages.py:55-56 | `str.replace` leaves a text in which the pattern never occurs unchanged |
| Strings.ReplaceAllFirst | api/messages.py:55-56 | `str.replace` with a non-empty pattern that first occurs at k (the index `find` returns): the text before k is kept, that occurrence becomes the replacement, and the rest after it is replaced in the same way |
| Strings.ReplaceAllFromTo | api/messages.py:55-56 | the same for the suffix from any position up to the first occurrence at or after it |
| Strings.JoinSnoc | widgets/messages.py:220-225 | `' '.join` of a list extended by one element is the old join, the separator and the new element |
| Strings.FindAbsent | api/messages.py:66 | a pattern whose first character is absent from the text is not found (-1) |
| Strings.FindFirst | api/messages.py:66 | an occurrence at p, with the pattern's first character absent before p, is what `find` returns |
| EmailPattern.RunEnd | api/messages.py:48 | a greedy `\w+` run: every character in the run is a word character, and the run stops at the end of the text or at a non-word character |
| EmailPattern.MatchAt | api/messages.py:48 | a match reported at a position is a real match of `@\w+@\w+\.\w+` starting there |
| EmailPattern.RunEndAt | api/messages.py:48 | a run of word characters followed by a non-word character or by the end of the text ends exactly where the greedy run does |
| EmailPattern.MatchAtGreedy | api/messages.py:48 | if any match starts at a position, the matcher reports one there, with the same `@` and `.` positions and an end no shorter (greedy backtracking) |
| EmailPattern.MatchAtNone | api/messages.py:48 | the matcher reports nothing at a position exactly when no match starts there |
| EmailPattern.FindAll | api/messages.py:48 | `re.findall`: every span is a match starting at or after the scan start; the spans are ordered and do not overlap |
| EmailPattern.FindAllReported | api/messages.py:48 | every span the scan reports is the matcher's own answer at that span's start |
| EmailPattern.FindAllLeftmost | api/messages.py:48 | no match starts at a position the scan skipped: failed positions advance by one character |
| EmailPattern.FindAllSkip | api/messages.py:48 | positions holding no `@` can be skipped without changing the matches found |
| EmailPattern.Emails | api/messages.py:48 | no ensures of its own; `EmailPattern.EmailShorthandAt` states its contract: each email starts with `@` and, after its local part (its shorthand), goes on with `@`; `ApiMessages.ExampleEmails` shows one text's emails |
| EmailPattern.Shorthands | api/messages.py:49-52 | one shorthand per email, in the same order |
| EmailPattern.ShorthandOfMatch | api/messages.py:50 | `re.sub(r'(@\w+)@\w+\.\w+', r'\1', e)` of a matched email is its `@local` part |
| EmailPattern.EmailShorthandAt | api/messages.py:48-52 | each shorthand starts with `@`, is at least two characters long and is a proper prefix of its email; the email continues with `@` after it; `email[1:]` is the shorthand's tail joined to the `@domain.tld` rest |
| EmailPattern.MatchedEmailShape | api/messages.py:49-52 | for a span whose first and second `@` are at `start` and `at`, the prefix up to the second `@` has the shape that the shorthand has in `EmailShorthandAt` |
| ApiMessages.RequestParams | api/messages.py:15-19 | the query has exactly the keys `from`, `page_size` and `to_<type>`, with values `2020-01-01T12:00:00Z`, 50 and the session |
| ApiMessages.Reverse | api/messages.py:23 | `list(reversed(...))`: same length, element k is element `n-1-k` of the input |
| ApiMessages.GetMessages | api/messages.py:8-23 | the result is the reverse of the API's answer to the session's query parameters |
| ApiMessages.AsyncGetMessages | api/messages.py:25-40 | the callback receives the reverse of the answer to the same query as the blocking fetch |
| ApiMessages.JsonBody | api/messages.py:59-73 | the body has exactly `message`, `to_<type>` and `at_items`, plus `reply_main_message_id` exactly when the reply id is truthy; it then holds the reply id |
| ApiMessages.ReplaceMentions | api/messages.py:55-56 | the loop rewrites every occurrence of each email to its shorthand, one email after the other in the order found |
| ApiMessages.SendMessageBody | api/messages.py:46-73 | the replacement loop yields the body: every occurrence of each email is replaced by its shorthand, in email order, then the fields above are filled |
| ApiMessages.SendBodyNoMentions | api/messages.py:46-68 | text without mentions is sent as its emojized form with an empty `at_items` |
| ApiMessages.SendBodyAtItems | api/messages.py:60-68 | the message is the final text, and there is one at-item per email, in order, built from that email, its shorthand and the final text |
| ApiMessages.AtItemShape | api/messages.py:62-68 | an at-item has exactly the four keys; `at_type` is 1; `at_contact` is the email without its first character; `start_position` is the first occurrence of the shorthand in the final text, or -1; `end_position` is start + length - 1 |
| ApiMessages.ExampleMatch | api/messages.py:48 | in `hello @alice@example.com how are you` the matcher finds the email at 6, both `@`s and the `.` where expected, ending at 24 |
| ApiMessages.ExampleScan | api/messages.py:48 | in `hello @alice@example.com how are you` the scan finds exactly the span 6..24 |
| ApiMessages.ExampleEmails | api/messages.py:48-52 | that text yields the single email `@alice@example.com` with shorthand `@alice` |
| ApiMessages.ExampleReplace | api/messages.py:55-56 | replacing the email by its shorthand in that text touches only the email |
| ApiMessages.ExampleFind | api/messages.py:66 | the final text is `hello @alice how are you`, and the shorthand is first found at 6 |
| ApiMessages.ExampleRecord | api/messages.py:62-68 | the at-item for that email has `at_type` 1, `at_contact` `alice@example.com`, start 6 and end 11 |
| ApiMessages.WorkedExample | api/messages.py:46-73 | sending `hello @alice@example.com how are you` without a reply target gives message `hello @alice how are you` and a single at-item (1, `alice@example.com`, 6, 11) |
| Threads.TopLevel | widgets/messages.py:96-99 | a message is top-level exactly when it is in the fetched list and has no `reply_main_message_id` |
| Threads.RepliesOf | widgets/messages.py:195-198 | a message is a reply of a root exactly when it is in the fetched list and its `reply_main_message_id` is the root's id |
| Threads.TopLevelAppend | widgets/messages.py:96-99 | filtering keeps fetched order: the top level of a concatenation is the concatenation of the top levels |
| Threads.RepliesOfAppend | widgets/messages.py:195-198 | the replies of a concatenation are the replies of each part, in order |
| Threads.TopLevelSnoc | widgets/messages.py:96-99 | appending a message extends the top level by it exactly when it is not a reply |
| Threads.BodyLength | widgets/messages.py:102-110 | there is exactly one item per top-level message |
| Threads.BodyButton | widgets/messages.py:102-110 | item i's button carries message i (with its markers appended), and its label is the text alone exactly when i > 0 and the previous top-level message has the same sender |
| Threads.BodyReplies | widgets/messages.py:193-210 | item i has no reply block exactly when its root has no replies; otherwise there is one line per reply, in order, each rendered against the previous reply of that thread |
| Threads.ItemButton | widgets/messages.py:102-110 | the button fact of `BodyButton` for any list of roots: the label depends on the root before it |
| Threads.ItemReplies | widgets/messages.py:193-210 | the reply fact of `BodyReplies` for any list of roots without reply targets |
| Threads.OrphanDropped | widgets/messages.py:195-198 | a reply whose parent is not a top-level message appears under no item |
| Threads.ReplyInOneThread | widgets/messages.py:195-198 | with distinct root ids, a reply appears under exactly its parent's item |
| Threads.ShownSmall | widgets/messages.py:264-269 | the text of a one- or two-segment markup is theirs concatenated |
| Threads.ShownAppend | widgets/messages.py:264-269 | the text of concatenated markups is the concatenation of their texts |
| Threads.ButtonShows | widgets/messages.py:263-269 | a label shows the text alone when the previous sender is the same, and otherwise one accented `sender\n` header followed by the text |
| Threads.ReplyShows | widgets/messages.py:229-241 | a reply shows as `\n` + text when the previous reply has the same sender; otherwise as an accented header (`\nsender\n` after another reply, `sender\n` for the first) followed by the text |
| Threads.ContinuationExample | widgets/messages.py:229-241 | three replies by X, X, Y render as the accented header `X\n` and the text, then the bare continuation `\n` + text, then the accented header `\nY\n` and the text |
| Threads.DecoratedMarkers | widgets/messages.py:252-260 | text without files is unchanged; with an empty file list it gets a trailing space; otherwise one marker per file in order, the image marker exactly when the guessed type is known and starts with `image/` |
| Threads.DecoratedSnoc | widgets/messages.py:252-260 | one more file adds a space and that file's marker to the end |
| ApiMessages.TargetKey | api/messages.py:18 | no ensures of its own; `ApiMessages.RequestParams` and `ApiMessages.JsonBody` state its contract: the query and the body carry the session under the key `to_<type>` |
| ApiMessages.DropFirst | api/messages.py:64 | no ensures of its own; `ApiMessages.AtItemShape` states its contract: `at_contact` is the email without its first character |
| Strings.StartsWith | widgets/messages.py:9 | no ensures of its own; `Threads.DecoratedMarkers` states its contract: the image marker exactly when the guessed type begins with `image/` |
| Threads.Marker | widgets/messages.py:221-223 | no ensures of its own; `Threads.DecoratedMarkers` states its contract: the image marker for an image, the file marker otherwise |
| Threads.SameSender | widgets/messages.py:265 | no ensures of its own; `Threads.BodyButton`, `Threads.ButtonShows` and `Threads.ReplyShows` state its contract: the sender line is left out exactly when there is a previous message with the same sender |
| EmailPattern.Matches | api/messages.py:48 | no ensures of its own; it is the language of `@\w+@\w+\.\w+`, one non-empty word run on each side of the two `@`s and the `.`; `EmailPattern.MatchAtGreedy` and `EmailPattern.MatchAtNone` state the matcher against it |
| Threads.IsImage | widgets/messages.py:7-9 | no ensures of its own; `Threads.DecoratedMarkers` states its contract: a file gets the image marker exactly when its guessed type is known and starts with `image/` |
| Threads.Markers | widgets/messages.py:252-260 | no ensures of its own; `Threads.DecoratedMarkers` states its contract: one marker per file, in order |
| Threads.Decorated | widgets/messages.py:218-226 | no ensures of its own; `Threads.DecoratedMarkers` and `Threads.DecoratedSnoc` state its contract: the text is kept without files, gets a space with an empty list, and otherwise the markers in order |
| Threads.MessageButton | widgets/messages.py:250-272 | no ensures of its own; `Threads.ButtonShows` states its contract: the label is the decorated text alone after the same sender, otherwise one accented `sender\n` header and the text; the button hands over the decorated record |
| Threads.Reply | widgets/messages.py:214-241 | no ensures of its own; `Threads.ReplyShows` states its contract: `\n` + text after the same sender, otherwise an accented header (`\nsender\n` after another reply, `sender\n` first) and the text |
| Threads.ReplyTexts | widgets/messages.py:204-207 | no ensures of its own; `Threads.ItemReplies` states its contract: one markup per reply, in order, each rendered against the reply before it |
| Threads.MessageItem | widgets/messages.py:189-212 | no ensures of its own; `Threads.ItemButton` and `Threads.ItemReplies` state its contract: the button of the root, and a reply block exactly when the root has replies |
| Threads.Body | widgets/messages.py:96-110 | no ensures of its own; `Threads.BodyLength`, `Threads.BodyButton` and `Threads.BodyReplies` state its contract: one item per top-level message, in order, with its button and its replies |
| Threads.Items | widgets/messages.py:167-181 | no ensures of its own; `Threads.ItemButton` and `Threads.ItemReplies` state its contract: item i is built from root i against root i - 1 |
| EmailPattern.SubGroup1 | api/messages.py:50 | no ensures of its own; `EmailPattern.ShorthandOfMatch` states its contract: on a matched email the substitution leaves group 1, the `@local` part |
| EmailPattern.Shorthand | api/messages.py:50 | no ensures of its own; `EmailPattern.ShorthandOfMatch` and `EmailPattern.EmailShorthandAt` state its contract: the shorthand of a found email is `@` and its local part, a proper prefix of the email |
| ApiMessages.ReplaceEach | api/messages.py:55-56 | no ensures of its own; `ApiMessages.ReplaceMentions` states its contract: the loop that replaces each email by its shorthand, in order, ends with this text |
| ApiMessages.AtItem | api/messages.py:62-68 | no ensures of its own; `ApiMessages.AtItemShape` states its contract: four keys, type 1, contact `e[1:]`, start the first occurrence of the shorthand or -1, inclusive end |
| ApiMessages.AtItems | api/messages.py:62-68 | no ensures of its own; `ApiMessages.SendBodyAtItems` states its contract: one at-item per email, in order, against the final text |
| ApiMessages.SendBody | api/messages.py:46-73 | no ensures of its own; `ApiMessages.SendMessageBody`, `ApiMessages.SendBodyAtItems`, `ApiMessages.SendBodyNoMentions` and `ApiMessages.WorkedExample` state its contract |
| ApiMessages.Truthy | api/messages.py:71 | no ensures of its own; `ApiMessages.JsonBody` states its contract: `reply_main_message_id` is in the body exactly when the reply id is present and not empty |
| Strings.ReplaceAll | api/messages.py:56 | no ensures of its own; `Strings.ReplaceAllNone` and `Strings.ReplaceAllFirst` state its contract: no occurrence keeps the text, otherwise the text splits at the first occurrence |
| Strings.Join | widgets/messages.py:220-225 | no ensures of its own; `Strings.JoinSnoc` states its contract: one more element adds the separator and that element |
| MessageViews.CaptionFor | widgets/messages.py:61-64 | no ensures of its own; `MessageViews.Messages.ReplyTo` states its contract: the replying caption exactly when the target is truthy |
| MessageViews.MessagesList.constructor | widgets/messages.py:88-115 | the items are built from the blocking fetch of the session, and the last item is focused when there is one |
| MessageViews.MessagesList.SetPosition | widgets/messages.py:117-123 | focus moves to the last item; an empty list keeps its focus |
| MessageViews.MessagesList.UpdateWalker | widgets/messages.py:164-184 | the items are replaced wholesale by those built from the new messages |
| MessageViews.MessagesList.Update | widgets/messages.py:125-142 | the session is switched, and the fetch for the new session is started with the focus-resetting callback |
| MessageViews.MessagesList.Refresh | widgets/messages.py:144-156 | a fetch for the current session is started with the callback that keeps the focus |
| MessageViews.MessagesList.Deliver | widgets/messages.py:132-148 | the answer rebuilds the items; the session-switch callback then focuses the last item, and the refresh callback leaves the focus unchanged |
| MessageViews.MessagesPrompt.constructor | widgets/messages.py:277-279 | the prompt starts with an empty draft and the idle caption |
| MessageViews.MessagesPrompt.Keypress | widgets/messages.py:281-289 | Enter sends the draft with the current session and reply target, then clears the target and empties the draft; other keys send nothing, keep the caption and leave the messages view untouched |
| MessageViews.Messages.constructor | widgets/messages.py:14-34 | no reply target; the pile focuses position 1, the message list; the list is built for the session; the prompt is empty |
| MessageViews.Messages.ReplyTo | widgets/messages.py:55-68 | the reply target is set and the caption shows whether it is truthy; the prompt is focused exactly when asked, otherwise the focus is unchanged |
| MessageViews.Messages.Select | widgets/messages.py:25 | selecting a message button replies to that message and focuses the prompt |
| MessageViews.Messages.SendMessage | widgets/messages.py:70-83 | the send captures the draft, session and reply target; the target is then cleared without moving the focus |
| MessageViews.Messages.Keypress | widgets/messages.py:36-43 | Ctrl-X clears the reply target and keeps the session, the pile focus and the draft; when the prompt is focused, Enter sends, clears the target and the draft and keeps the session and the pile focus, and another key sends nothing and keeps the session, the target and the caption |
| MessageViews.Messages.Update | widgets/messages.py:45-53 | the view and its list switch to the new session, and the list starts its focus-resetting fetch |

## Left out

- HTTP, the bearer token (`api/tokens.py`) and the JSON decoding of responses are not modelled. The fetch is the parameter `api`, and the POST of a send is represented by the body it would carry.
- The asyncio loop, the urwid main loop and alarms, and `refresh_loop` (a refresh every five seconds) are not modelled. A started task is returned as a value, and its completion is a separate call. So two fetches that finish in either order are modelled, but not their timing. A stale session-switch fetch is applied like any other.
- The 0.25-second delay before a send's callback is not modelled. The callback itself is `MessagesList.Refresh`.
- `emoji.emojize` and `mimetypes.guess_type` are parameters, because their tables are external data. The marker glyphs and the two prompt caption glyphs are symbolic (`Icons.image`/`Icons.file`, `Caption.Idle`/`Caption.Replying`), because they are private-use characters.
- urwid layout, padding, palette attributes other than the accent on sender headers, the header text, and button brackets are not modelled.
- MessageViews.MessagesList.Deliver: urwid's adjustment of the list focus when the walker contents are replaced (`self.walker[:] = body`, widgets/messages.py:184) is not modelled: neither the clamping to a shorter list nor the move of an empty list's focus to the last of the items it receives. The refresh callback keeps the stored focus index as it was.
- MessageViews.Messages.Keypress: other keys for the focused list or prompt are not modelled. These are list navigation, urwid's Pile focus movement, and text editing in the prompt. In particular, pressing a button reaches `Messages.Select` through urwid. For those keys the model says nothing about the draft text.
- MessageViews.MessagesPrompt.Keypress: keys other than Enter go to urwid's text editor. Their effect on the draft is not stated.
- Threads.Decorated: `message['message'] +=` mutates the message dictionary in place. The model appends the markers to a copy. The two agree when a message is rendered once per build. They disagree when duplicate root ids make the same reply render under two items: in the source, its markers would then accumulate.
- The `reply_main_message_id` key is modelled as `Message.replyTo: Option<string>`, absent or a string. The source tests only whether the key is present (widgets/messages.py:98, 169, 193), so a record carrying the key with a `null` value would be a reply that matches no root; the model cannot express such a record.
- The regular expression's `\w` is a parameter rather than Unicode's word class. Only its exclusion of `@` and `.` is used.
- The rest of the client (channel and contact lists, `widgets/handler.py`, the login flow) is not part of this model.
