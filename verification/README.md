# Chat sessions: a verified model

This project models the core of a small chat application in Dafny. The backend
keeps chat sessions in an in-memory dictionary. Each session has a title, a
creation time and an append-only list of messages. HTTP handlers create a
session, append a question together with a mock assistant answer, list the
sessions newest first, get one session, set like/dislike feedback on a message and
delete a session. The frontend adds a few pure rules on top:

- the title a new session gets from its first question;
- the guard that decides whether a typed question is sent;
- the like/dislike toggles;
- the local update of a message's feedback;
- the case-insensitive search filter of the sidebar.

Layout, one module per file:

- `js_string.dfy` (`JsString`) holds the JavaScript value and string rules the
  code relies on: optional values and truthiness, `String.prototype.trim`, the `<`
  comparison of strings, `toLowerCase`, `includes`, and the decimal rendering of a
  count in a template string.
- `mock_answer.dfy` (`MockAnswer`) holds the answer payload and the `loadTable`
  fallback.
- `sessions.dfy` (`Sessions`) holds the records and the pure rules the handlers
  apply:
  - building the assistant message;
  - `Array.prototype.find` by id;
  - `feedback || null`;
  - the newest-first list of summaries;
  - the store invariant and the lemmas that preserve it.
- `server.dfy` (`Server`) holds the store as a class:
  - `sessions` is a `map` field the handler methods update in place;
  - `order` records the dictionary's key insertion order;
  - the handlers return `Ok`, `NotFound` or `InvalidInput` in place of the 200,
    404 and 400 responses;
  - a few scenario methods replay documented request sequences.
- `chatbot.dfy` (`Chatbot`) and `sidebar.dfy` (`Sidebar`) hold the frontend rules.
  They include the sequence of backend calls that sending the first message of a
  new chat makes.

Identifiers (`uuidv4()`), timestamps (`new Date().toISOString()`) and the content of
the answer data file are parameters chosen by the caller. A new session id must
not be stored yet. New message ids must differ from each other and from the ids
already in the session. The store invariant `Sessions.WellFormed` says:

- every stored session sits under its own id;
- `order` lists each stored id exactly once;
- message ids are unique within a session.

Every handler keeps this invariant.

Where the documented behaviour and the code disagree, the model follows the code:

- The backend never derives a title from `firstQuestion`. A session created with
  only `firstQuestion` is titled `"Session N"` (`Server.FirstQuestionWithoutTitle`).
  Truncating a question to 50 characters plus `"..."` is done by the frontend
  (`Chatbot.DeriveTitle`).
- The default title counts the sessions stored at the time of the create, not the
  sessions ever created. After a delete, a title can repeat
  (`Server.DefaultTitleAfterDelete`).

## Model

| member | source | states |
|---|---|---|
| JsString.Truthy | backend/server.js:46 | a JavaScript value used as a condition: a missing value (undefined or null) and the empty string are falsy, any other string is truthy |
| JsString.Or | backend/server.js:92-94 | the JavaScript `or` of an optional string and a fallback: the value when it is truthy, else the fallback |
| JsString.Trim | frontend/src/components/Chatbot.jsx:63 | the trimmed string is no longer than the input and neither starts nor ends with whitespace |
| JsString.TrimEmptyIffBlank | frontend/src/components/Chatbot.jsx:62 | `!s.trim()` holds exactly when every character of `s` is ECMAScript whitespace or a line terminator |
| JsString.TrimRemovesPadding | frontend/src/components/Chatbot.jsx:63 | the trimmed string is the slice of the input between a blank prefix and a blank suffix |
| JsString.TrimPadded | frontend/src/components/Chatbot.jsx:63 | conversely, whitespace around a string with non-whitespace ends is exactly what trim removes |
| JsString.TrimStartPadded | frontend/src/components/Chatbot.jsx:63 | leading whitespace before a string not starting with whitespace is exactly what the left trim removes |
| JsString.TrimEndPadded | frontend/src/components/Chatbot.jsx:63 | trailing whitespace after a string not ending with whitespace is exactly what the right trim removes |
| JsString.TrimIdempotent | frontend/src/components/Chatbot.jsx:63 | trimming twice gives the same string as trimming once |
| JsString.Less | backend/server.js:113 | the `<` and `>` of two strings: lexicographic order on characters, a proper prefix before the longer string |
| JsString.LessIrreflexive | backend/server.js:113 | no string is less than itself |
| JsString.LessTransitive | backend/server.js:113 | the string order used by the sort comparator is transitive |
| JsString.LessTotal | backend/server.js:113 | two different strings are always ordered one way or the other |
| JsString.LessAsymmetric | backend/server.js:113 | two strings are never each less than the other |
| JsString.NotLessTransitive | backend/server.js:113 | "not less than" is transitive, so newest-first order chains |
| JsString.ToLower | frontend/src/components/Sidebar.jsx:41 | lower-casing keeps the length and lower-cases each character on its own |
| JsString.Includes | frontend/src/components/Sidebar.jsx:41 | `s.includes(needle)`: the needle occurs in `s` starting at the first or at a later position |
| JsString.IncludesIffOccurs | frontend/src/components/Sidebar.jsx:41 | `includes` is true exactly when the needle occurs in the string at some index |
| JsString.IncludesEmpty | frontend/src/components/Sidebar.jsx:41 | every string includes the empty string |
| JsString.NatToString | backend/server.js:57 | a count renders as a non-empty string of decimal digits without a leading zero |
| JsString.NatToStringRoundTrip | backend/server.js:57 | reading the rendered digits back gives the count |
| JsString.NatToStringInjective | backend/server.js:57 | different counts render differently |
| MockAnswer.LoadTable | backend/server.js:18-35 | a readable data file's payload is returned untouched; otherwise the payload is the built-in fallback (answer "Fallback sample answer", columns Col1 and Col2, rows A B and C D, description "Fallback description"): it has a truthy answer and description and a 2-column table whose 2 rows have 2 cells each |
| Sessions.DefaultTitle | backend/server.js:57 | the default title is "Session " followed by decimal digits whose value is one more than the number of stored sessions |
| Sessions.DefaultTitleInjective | backend/server.js:57 | two default titles are equal exactly when they were made from the same session count |
| Sessions.FirstDefaultTitles | backend/server.js:57 | with 0 and 1 stored sessions the default titles are "Session 1" and "Session 2" |
| Sessions.AssistantFrom | backend/server.js:89-97 | the assistant message carries the given id and time and starts with null feedback |
| Sessions.AssistantKeepsPayload | backend/server.js:89-97 | the assistant message has the given id and time and null feedback; a present table is stored as is, a missing one as the empty table; present texts are kept, missing or empty ones become "" |
| Sessions.FindMessage | backend/server.js:133 | the search returns the first index whose message has the id, and nothing exactly when no message has it |
| Sessions.FindMessageSeesOnlyIds | backend/server.js:133 | the search depends on the messages' ids only |
| Sessions.FindMessageIgnoresFeedback | backend/server.js:133-139 | a feedback write does not change which message an id finds |
| Sessions.StoredFeedback | backend/server.js:139 | a falsy feedback value is stored as null and any other value as it is |
| Sessions.StoredFeedbackIdempotent | backend/server.js:139 | storing a stored value changes nothing |
| Sessions.WithFeedback | backend/server.js:139 | the write keeps the list's length, gives message i the new feedback and leaves every other message as it was |
| Sessions.WithFeedbackChangesOnlyFeedback | backend/server.js:139 | a feedback write keeps the list's length, the order and every other message, and changes only `feedback` on the target message |
| Sessions.WithFeedbackLastWriteWins | backend/server.js:139 | of two feedback writes to one message only the second is kept |
| Sessions.Summarize | backend/server.js:106-111 | a session's list entry carries its id, title and creation time and the number of its messages |
| Sessions.SummariesInOrder | backend/server.js:106-111 | one entry per key of the enumeration order, in that order, each the summary of the session under that key |
| Sessions.InsertNewestFirst | backend/server.js:113 | inserting into a newest-first list gives a newest-first list with exactly one more element |
| Sessions.SortNewestFirst | backend/server.js:113 | the sorted list is newest first and a permutation of its input |
| Sessions.DistinctIdsOccurOnce | backend/server.js:106-111 | in a list with distinct ids every summary occurs at most once |
| Sessions.PermutationKeepsDistinctIds | backend/server.js:113 | sorting keeps summary ids distinct |
| Sessions.DistinctCardinality | backend/server.js:106 | a list of keys without repetitions has as many elements as its set of keys |
| Sessions.ListSessions | backend/server.js:105-114 | one summary per stored session, with the session's id, title, time and message count, ordered by non-increasing `createdAt`, and no id listed twice |
| Sessions.ListCoversStore | backend/server.js:106-113 | the sorted enumeration covers every stored session exactly once |
| Sessions.AddKeepsWellFormed | backend/server.js:55-60 | storing a session under a new id keeps the store invariant |
| Sessions.ReplaceKeepsWellFormed | backend/server.js:99 | replacing a session by one with the same id and unique message ids keeps the store invariant |
| Sessions.AppendKeepsDistinctIds | backend/server.js:99 | appending two messages with new and different ids keeps message ids unique |
| Sessions.WithFeedbackKeepsDistinctIds | backend/server.js:139 | a feedback write keeps message ids unique |
| Server.QuestionRejected | backend/server.js:74 | the question check of the append handler: the question is missing or empty, or its trim is empty |
| Server.QuestionRejectedIffBlank | backend/server.js:74 | a question is rejected exactly when it is missing or consists of whitespace only |
| Server.Without | backend/server.js:147 | after a delete, the key order holds the same keys minus the deleted one, still without repetitions |
| Server.SessionStore.constructor | backend/server.js:15 | the store starts empty |
| Server.SessionStore.Create | backend/server.js:38-63 | a new session is stored under the fresh id and no other session changes; its title is the supplied truthy title or else "Session N" with N one more than the sessions stored before; its messages are one user message holding a truthy first question, or none; the response carries the id and the stored title |
| Server.SessionStore.AppendExchange | backend/server.js:66-102 | an unknown session gives NotFound before the question is looked at; a missing or blank question gives InvalidInput; neither changes the store. Otherwise exactly two messages are appended: the untrimmed question and the assistant answer, with one timestamp and null feedback. No other session, title or key changes |
| Server.SessionStore.List | backend/server.js:105-115 | the list handler returns `Sessions.ListSessions` of the store: one summary per stored session, newest first, no id twice |
| Server.SessionStore.Get | backend/server.js:118-122 | the stored session is returned when the id is stored, else NotFound |
| Server.SessionStore.SetFeedback | backend/server.js:125-141 | an unknown session or message id gives NotFound with no change; otherwise only the first message with that id, of either role, gets the feedback, stored as null when falsy, and nothing else changes |
| Server.SessionStore.Delete | backend/server.js:144-149 | exactly the given key is removed, or NotFound with no change when it is absent; afterwards the id is not stored |
| Server.GetAfterDelete | backend/server.js:144-149 | after a delete, getting the same id gives NotFound |
| Server.FirstQuestionWithoutTitle | backend/server.js:46-57 | a create with only a first question is titled "Session 1" in an empty store and holds that question |
| Server.DefaultTitleAfterDelete | backend/server.js:57 | after two untitled creates and a delete of the first, the next untitled session gets the second one's title again |
| Server.StoreWithExchange | backend/server.js:99 | a create with a first question, then one exchange, gives three messages in order, the last one from the assistant |
| Server.FeedbackClearedExample | backend/server.js:139 | liking an answer twice and then clearing the feedback leaves it null |
| Server.UnknownMessageExample | backend/server.js:133-137 | feedback for a message id the session lacks gives NotFound |
| Chatbot.DeriveTitle | frontend/src/components/Chatbot.jsx:40-44 | there is no title exactly for the empty question; a title is truthy, at most 53 characters long, and starts with the first min(length, 50) characters of the question |
| Chatbot.DeriveTitleCases | frontend/src/components/Chatbot.jsx:40-44 | the three cases: no title for the empty question; the first 50 characters plus "..." for a longer question; otherwise the question itself |
| Chatbot.Outgoing | frontend/src/components/Chatbot.jsx:62-63 | nothing is sent exactly when the question is blank (its trim is empty); otherwise the trimmed question is sent |
| Chatbot.OutgoingBlank | frontend/src/components/Chatbot.jsx:62-63 | what is sent is non-empty and neither starts nor ends with whitespace |
| Chatbot.SentQuestionAccepted | frontend/src/components/Chatbot.jsx:62-63 | a question the panel sends passes the backend's question check, is its own trim and yields a title |
| Chatbot.ToggleLike | frontend/src/components/Chatbot.jsx:190 | the like button sends null exactly when the message is liked, and "like" otherwise |
| Chatbot.ToggleLikeProperties | frontend/src/components/Chatbot.jsx:190 | two presses give back a like and otherwise null; the backend stores what the button sends unchanged |
| Chatbot.ToggleDislike | frontend/src/components/Chatbot.jsx:197 | the dislike button sends null exactly when the message is disliked, and "dislike" otherwise |
| Chatbot.ToggleDislikeProperties | frontend/src/components/Chatbot.jsx:197 | the same two facts for the dislike button |
| Chatbot.UpdateFeedback | frontend/src/components/Chatbot.jsx:108 | the local update keeps the list's length and order, sets `feedback` on every message with the id, and changes no other field or message |
| Chatbot.LocalUpdateMatchesServer | frontend/src/components/Chatbot.jsx:108 | with unique message ids, the local update equals writing the sent value into the message the backend finds, and an unknown id changes nothing; when the sent value is one the backend stores as it is (a truthy value, as both toggles send), this is exactly the backend's write |
| Chatbot.SendFirstMessage | frontend/src/components/Chatbot.jsx:62-86 | as written, a non-blank first question in a new chat adds one session under the new id, with the create time, titled from the trimmed question, holding the question twice and then the answer; the key order gains that id and no other session changes; a blank question changes nothing |
| Chatbot.CreateWithQuestion | frontend/src/components/Chatbot.jsx:72-86 | the two posts of the as-written first message add one session, with the new id and the create time, storing [question, question, answer] under the derived title; no other session changes and the key order gains the new id |
| Chatbot.SendFirstMessageOnce | frontend/src/components/Chatbot.jsx:62-86 | corrected: a non-blank first question adds one session under the new id, with the create time, titled from the trimmed question and holding exactly the question and its answer; no other session changes; a blank question changes nothing |
| Chatbot.CreateThenAsk | frontend/src/components/Chatbot.jsx:72-86 | corrected posts: a create with the title only, then the question, add one session with the new id and the create time storing [question, answer]; no other session changes |
| Chatbot.NewChatExample | frontend/src/components/Chatbot.jsx:62-86 | " Hi " typed in a new chat is titled "Hi"; as written the session holds the question twice, and corrected only once |
| Sidebar.Matches | frontend/src/components/Sidebar.jsx:41 | a session matches when its lower-cased title includes the lower-cased query |
| Sidebar.FilterSessions | frontend/src/components/Sidebar.jsx:40-42 | every kept summary is one of the fetched summaries, and its lower-cased title includes the lower-cased query |
| Sidebar.FilterIsSublist | frontend/src/components/Sidebar.jsx:40-42 | the filtered list is an order-preserving sub-list of the fetched list |
| Sidebar.FilterCounts | frontend/src/components/Sidebar.jsx:40-42 | a matching summary is kept as often as it was fetched, and a non-matching one never |
| Sidebar.FilterKeepsExactlyMatches | frontend/src/components/Sidebar.jsx:40-42 | a summary is kept exactly when it was fetched and its title matches |
| Sidebar.EmptyQueryKeepsAll | frontend/src/components/Sidebar.jsx:40-42 | an empty query keeps every session, in order |
| Sidebar.FilterIdempotent | frontend/src/components/Sidebar.jsx:40-42 | filtering the filtered list by the same query changes nothing |
| Sidebar.ToLowerIdempotent | frontend/src/components/Sidebar.jsx:41 | lower-casing twice gives the same string as lower-casing once |
| Sidebar.FilterIgnoresQueryCase | frontend/src/components/Sidebar.jsx:40-42 | a query and its lower-case form keep the same sessions |
| Sidebar.FilterKeepsNewestFirst | frontend/src/components/Sidebar.jsx:40-42 | filtering a newest-first list gives a newest-first list |

## Left out

- HTTP plumbing is not modelled: Express, `cors`, JSON body parsing, `app.listen` and `GET /health`. Status codes become the `Response` datatype.
- Reading and parsing the data file in `loadTable` is I/O. The parsed content is the parameter `file`. `None` stands for a read or parse failure. A file that parses to `null` or to a non-object is not modelled.
- `uuidv4()` and the clock are parameters. Freshness of ids is a precondition, not a property of the generator.
- JSON values of the wrong type are not modelled: a non-string `title`, `question` or `feedback`, or a number where a string is expected. A truthy non-string `question` would make `trim` throw; the model only has strings.
- Keys inherited from `Object.prototype` (such as `"constructor"`) are not modelled. The model's dictionary holds only what was stored.
- Sessions.SortNewestFirst: the comparator at backend/server.js:113 never returns 0, so the order of sessions with equal `createdAt` depends on the engine. The model states only non-increasing `createdAt` plus a permutation, not the engine's tie order.
- Strings are sequences of Unicode scalar values; JavaScript strings are UTF-16. Lengths (the 50-character title limit) and the `<` order differ only for characters outside the Basic Multilingual Plane.
- JsString.ToLower: only ASCII letters are lower-cased. `toLowerCase` also maps other letters.
- `order` follows the dictionary's key order, which for JavaScript objects is insertion order only for keys that are not integer-like (such keys are listed first, ascending). Session ids come from `uuidv4()` and are never integer-like, so the model keeps insertion order; only the order of sessions with equal `createdAt` could depend on it.
- A message without a `feedback` field and one with `feedback: null` are both `None`.
- React state, effects and rendering are UI and not modelled:
  - the local echo of the user message;
  - the loading flag;
  - polling every 6 seconds;
  - scrolling and the theme;
  - the failure paths of the axios calls.
- `frontend/src/page/Home.jsx`, `frontend/src/App.js` and `frontend/tailwind.config.js` hold routing and build configuration only and are not part of this model.

## Findings

| source | as written | input that shows it | evidently intended | confidence | as-written member | corrected member |
|---|---|---|---|---|---|---|
| frontend/src/components/Chatbot.jsx:72 | `sendMessage` without an open session calls `createSession(currentQuestion)`, which posts the question as `firstQuestion` (line 48), so the backend stores it (backend/server.js:46-53); then lines 84-86 post the same question again to the new session | any non-blank question, e.g. " Hi ", typed before a session is open: the session then holds [user "Hi", user "Hi", assistant] | the first question is stored once, followed by its answer | medium, not executed | Chatbot.SendFirstMessage | Chatbot.SendFirstMessageOnce |
