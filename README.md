# Chat-session store: a Dafny model

This project models the session store of a mock "chat with your data" application and proves properties of the model.

**The backend store.** It is an in-memory object from session id to session. Each session has:
- an id;
- a title that starts as the placeholder `"Session "` plus the first eight characters of the id;
- a creation time;
- a history of messages.

User and assistant messages are appended to the history, and an assistant message can carry like/dislike feedback.

**The HTTP handlers** over the store do five things:
- list the sessions, newest first, as summaries;
- create a session;
- fetch a session;
- answer a chat question with a canned keyword responder that appends the question and the reply;
- attach feedback to a message.

**The frontend.** Two functions are modelled:
- the rule that turns a session into a sidebar label (`getSessionLabel`, copied verbatim into the mobile menu);
- the like/dislike toggle of the feedback buttons.

**Modules.**
- `Wrappers` holds an `Option` that stands for `null`/`undefined`.
- `JsString` states the JavaScript string built-ins the core uses: `trim`, `split(/\s+/)`, `join`, `includes`, `startsWith`, `slice` and `toLowerCase`. It uses the ECMAScript white-space set, which `trim` and `\s` share.
- `MockData` mirrors `backend/mockData.js`. The module-level `sessions` object is the `SessionStore` class with three fields:
  - `sessions` is the map from id to session.
  - `order` holds the keys in insertion order. `Object.values` lists values in that order, and the stable `Array.prototype.sort` keeps ties in it.
  - The ghost field `saved` is the last state handed to `save()`.

  The store's invariant is that the order lists each key once, exactly the keys of the map, and that every session is stored under its own id.
- `Server` mirrors the handlers of `backend/server.js` as methods and functions over the store.
- `Sidebar`, `MobileSessionMenu` and `AnswerFeedback` mirror the three components.
- `FeedbackFlow` connects the toggle with the server's feedback check.

Identifiers (`uuidv4`), clock readings (`new Date()`) and random draws (`Math.random`) are parameters of the operations that use them.

**The model follows the code, including these behaviours a reader might not expect:**
- A title can be renamed more than once. `setTitleIfEmpty` renames any title that still starts with `"Session "`, and a derived title can itself start with `"Session "` (see `MockData.RetitleRepeats`).
- The feedback handler updates the session in memory but never calls `save()`, so `saved` is unchanged after it.
- The feedback handler does not check the message's role.
- The feedback value is validated before the session is looked up, and the session before the index.

## Model

| member | source | states |
|---|---|---|
| JsString.TrimSpec | backend/server.js:91 | `trim` keeps a contiguous piece of its input that starts after the leading white space and has no white space at either end; everything it drops before and after that piece is white space; the result is empty exactly when the input is all white space |
| JsString.SplitSpec | backend/mockData.js:105 | no piece of `split(/\s+/)` contains white space; joining the pieces with single spaces gives the input with each maximal white-space run collapsed to one space, so the cuts fall exactly at the white-space runs; the pieces run together are the input with its white space removed; every piece but the first and the last is non-empty |
| JsString.ContainsIff | backend/server.js:107 | `includes` holds exactly when the substring occurs at some position |
| MockData.PlaceholderTitle | backend/mockData.js:39 | a new title starts with `"Session "` and continues with the first (at most) eight characters of the id |
| MockData.StripSymbolsDeletes | backend/mockData.js:108 | the symbol filter only deletes characters: it acts on the two parts of a concatenation separately, and keeps a single character exactly when it is an ASCII letter, an ASCII digit or white space |
| MockData.StripSymbolsSpec | backend/mockData.js:108 | the symbol filter keeps only letters, digits and white space, never adds a character, and keeps every ASCII letter and digit |
| MockData.CleanTitleChars | backend/mockData.js:104-109 | the cleaned title contains only ASCII letters, digits and spaces, and does not start with a space |
| MockData.DerivedTitleShape | backend/mockData.js:104-111 | a derived title is non-empty and either at most 30 such characters, or exactly 30 followed by `"..."` |
| MockData.DerivedTitleExists | backend/mockData.js:104-110 | a title is derived exactly when one of the first six words holds an ASCII letter or digit |
| MockData.RetitleSpec | backend/mockData.js:100-115 | a title not starting with `"Session "`, or a question deriving nothing, leaves the title as it is; a title starting with `"Session "` and a question deriving a title give exactly that derived title; a changed title is always the derived title and has its shape |
| MockData.ShowSalesTitle | backend/mockData.js:103-111 | the first question "show sales" renames a fresh session to "show sales" |
| MockData.PlaceholderLikeTitle | backend/mockData.js:104-111 | a question `"Session <word>"` derives the title `"Session <word>"` |
| MockData.RetitleRepeats | backend/mockData.js:103-112 | after such a question the title still starts with `"Session "`, and the next question that derives a title renames the session again |
| MockData.SortNewestSpec | backend/mockData.js:59-61 | the listing sort orders by creation time, newest first, and is a permutation of its input |
| MockData.SortNewestStable | backend/mockData.js:59-61 | sessions created at the same time keep their relative order |
| MockData.InOrderCovers | backend/mockData.js:59 | listing the values in key order lists every stored session, each once, and nothing else |
| MockData.AppendedSpec | backend/mockData.js:78 | a push grows the target history by one, puts the message last, keeps the earlier messages, the title and every other session |
| MockData.SessionStore.constructor | backend/mockData.js:13-25 | loading with no readable file gives an empty store |
| MockData.SessionStore.InsertionOrder | backend/mockData.js:59 | `Object.values` lists the session of each key, in insertion order |
| MockData.SessionStore.GetSession | backend/mockData.js:65-67 | returns the stored session exactly when the id is present, and null otherwise |
| MockData.SessionStore.SessionsList | backend/mockData.js:58-62 | the listing is newest first, holds every stored session once and nothing else, and keeps insertion order among sessions created at the same time |
| MockData.SessionStore.CreateNewSession | backend/mockData.js:37-49 | stores a session with the placeholder title, the given time and an empty history; an existing id is overwritten where it stands; every other id is unchanged; the store is saved |
| MockData.SessionStore.ResetAllSessions | backend/mockData.js:52-55 | the store is empty, no id is found, the listing is empty, and the empty store is saved |
| MockData.SessionStore.AddUserMessage | backend/mockData.js:70-81 | an unknown id returns null and changes nothing; otherwise a user message with the text and time is appended, returned and saved |
| MockData.SessionStore.AddAssistantMessage | backend/mockData.js:84-97 | as for a user message, with the table and no feedback |
| MockData.SessionStore.SetTitleIfEmpty | backend/mockData.js:100-115 | only the title of the addressed session can change, to the title the rule above gives; the store is saved exactly when a derived title was assigned |
| Server.Summaries | backend/server.js:30-35 | one summary per listed session, in listing order, with its id, title, creation time and message count |
| Server.SummariesMembers | backend/server.js:30-35 | every listed session has its summary in the list, and every summary comes from a listed session |
| Server.ListSessions | backend/server.js:28-40 | the summaries of the store listing in its order (newest first, ties in insertion order): one summary per stored session, every stored session summarised, every summary the summary of the session stored under its id, counts equal to the history lengths |
| Server.NewChat | backend/server.js:59-66 | answers with the new id and its placeholder title, stores the new session, appends a fresh id to the insertion order (an existing id keeps its place), and saves |
| Server.FetchSession | backend/server.js:72-80 | answers 404 exactly when the id is unknown, and otherwise the session stored under that id, whose own id is the requested one |
| Server.QuestionGivenIff | backend/server.js:91-93 | a question is accepted exactly when it is present and has a non-white-space character |
| Server.DecimalDigits | backend/server.js:131-132 | `toString` of a draw is made of digits, and a draw below 10000 has at most four of them |
| Server.DefaultTableNumbers | backend/server.js:128-134 | the value cells of the default table are numerals of one to four digits |
| Server.ResponderTablesWellFormed | backend/server.js:107-136 | every reply table has three headings, three cells per row, and two or three rows |
| Server.ResponderPriority | backend/server.js:103-136 | a sales keyword gives the sales table, otherwise a users keyword gives the users table, otherwise the default table; the three tables differ |
| Server.ResponderLowerCased | backend/server.js:103-107 | asking the lower-cased question gets the same table as asking the question |
| Server.ResponderIgnoresCase | backend/server.js:103-107 | questions equal after lower-casing get the same table |
| Server.SalesWinsOverUsers | backend/server.js:107-117 | "Revenue of ACTIVE" holds a users keyword but gets the sales table |
| Server.ReplyQuotesQuestion | backend/server.js:116-135 | every reply text quotes the question verbatim after an opening quote |
| Server.Chat | backend/server.js:87-143 | a missing or blank question gives 400, and an unknown session gives 404; neither changes or saves anything. Otherwise the session gets the question and then the reply appended, its title follows the retitling rule, the reply is returned without feedback, and the store is saved |
| Server.Exchange | backend/server.js:95-139 | the three store calls of an accepted question: 404 and no change for an unknown session, otherwise the two appends and the retitle in that order |
| Server.RecordQuestion | backend/server.js:95-100 | an unknown session changes nothing; otherwise the question is appended, the title follows the renaming rule, and the store is saved |
| Server.ParseFeedback | backend/server.js:153-160 | only the strings "like" and "dislike" are accepted, as the matching feedback |
| Server.WithFeedbackSpec | backend/server.js:168 | setting feedback changes only the feedback field of the addressed message, whatever its role, and no other message |
| Server.FeedbackOverwrites | backend/server.js:168 | a second feedback replaces the first |
| Server.PostFeedback | backend/server.js:150-173 | an invalid value gives 400, then an unknown session 404, then a bad index 400, all without change. Otherwise only that message's feedback is set and the message is returned. The backing file is never written |
| Sidebar.SessionLabel | frontend/src/components/Sidebar.js:56-64 | the label is never empty and has at most 41 characters |
| Sidebar.LabelTruncates | frontend/src/components/Sidebar.js:63 | the label has 41 characters exactly when the trimmed base is longer than 40; it is then the first 40 characters plus `…` |
| Sidebar.TitleLabel | frontend/src/components/Sidebar.js:57-63 | a title that is not all white space is shown trimmed when that fits in 40 characters, and otherwise as its first 40 trimmed characters plus `…` |
| Sidebar.BlankTitleLabel | frontend/src/components/Sidebar.js:61-62 | a non-empty white-space-only title is shown as 'Untitled chat' |
| Sidebar.MissingTitleLabel | frontend/src/components/Sidebar.js:57-62 | a missing or empty title gives the trimmed `"Session "` plus six id characters, which starts with "Session", so the 'Untitled chat' fallbacks are never reached |
| Sidebar.LabelIdempotent | frontend/src/components/Sidebar.js:56-64 | a label used as a title labels as itself |
| MobileSessionMenu.SessionLabel | frontend/src/components/MobileSessionMenu.js:58-66 | the menu label equals the sidebar label on every input, so it is non-empty and at most 41 characters |
| MobileSessionMenu.MenuFallbacks | frontend/src/components/MobileSessionMenu.js:59-64 | a white-space-only title shows 'Untitled chat'; a missing title shows the trimmed `"Session "` placeholder |
| AnswerFeedback.HandleClick | frontend/src/components/AnswerFeedback.js:5-8 | without a callback nothing is sent; clicking the selected type sends null; any other click sends the clicked type; the sent value is null, "like" or "dislike" |
| AnswerFeedback.ClickToggles | frontend/src/components/AnswerFeedback.js:7 | after a click the clicked type is selected exactly when it was not selected before |
| AnswerFeedback.ClickTwice | frontend/src/components/AnswerFeedback.js:7 | two clicks on one button restore an unset or same-type value, and clear the other type |
| FeedbackFlow.SentFeedbackParses | frontend/src/components/AnswerFeedback.js:5-8 | the null sent on un-selecting is refused by the server's check on backend/server.js:156, and every other value sent is accepted as the clicked type, so stored feedback is never cleared |

## Left out

- Persistence: the model writes no file. `load` of an existing, parseable `sessions.json` is not modelled, and neither is the content `save` writes; the ghost field `saved` records only which state was last saved.
- Clocks, ids and randomness: `uuidv4`, `new Date().toISOString()` and `Math.random()` are parameters. Times are integers compared directly rather than ISO strings parsed back with `new Date`.
- The HTTP layer: Express routing, body parsing, CORS, status codes as numbers, the `500` catch-all responses and the process-level error handlers.
- The `DELETE /api/sessions` handler is not modelled separately: it only calls `ResetAllSessions`.
- `parseInt` is represented by its result, an optional integer (None for NaN). Its leniency on strings such as `"2abc"` is not modelled.
- Non-string request bodies: a question or feedback that is a number, an object or an array (where `toString` or `toLowerCase` behave differently or throw) is not modelled. Question and feedback are optional strings.
- The `sessions` property of `module.exports` aliases the map only until the first reset; the alias is not modelled.
- JavaScript object keys: inherited keys such as `__proto__` or `toString`, and the numeric ordering of integer-like keys in `Object.values`, are not modelled. Keys are plain strings in insertion order.
- Object aliasing: the server mutates the returned session object in place; the model writes the updated session back into the map, which has the same observable effect.
- A user message is stored without `table` and `feedback` keys, and a fresh assistant message with `feedback: null`; both are `None` in the model.
- JsString.ToLower: lower-cases ASCII letters only; the full Unicode case mapping of `toLowerCase` is not modelled.
- JsString.Take: counts characters, not UTF-16 code units, so `slice` and `length` differ from JavaScript on characters outside the Basic Multilingual Plane.
- Sidebar.SessionLabel: `title` and the ids are optional strings; non-string titles (where `toString` would be applied) are not modelled.
- The React components around the two frontend functions (state, polling, navigation, rendering) are left out.
