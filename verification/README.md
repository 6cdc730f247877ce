# tech-chat-room, modelled in Dafny

A model of the logic of a small web chat room with a built-in RSS reader.

The server (`server.js`) has two parts:

- The `/api/search` endpoint, the only way to search: there is no search
  event on the socket. It turns optional `keyword`, `year`, `month` and `day`
  query parameters into a parameterised SQL query over the `messages` table.
  It renames each result row's `content` column to `msg`.
- The Socket.IO hub:
  - a new connection is sent the newest fifty stored messages, oldest first;
  - `join` records the connection's nickname in the `users` object and
    broadcasts the online list and a join notice;
  - `chat message` stores the message and broadcasts it;
  - `disconnect` removes the nickname and broadcasts the list and a leave
    notice.

The page (`public/client.js`) is modelled in these parts:

- How a chat message object is shown: an image when its `message_type` is
  `image`, otherwise its text, with the twenty `:code:` kaomoji shortcuts
  replaced.
- The message input's guards: the send guard, the nickname guard, the
  emoji panel's insertion, and the disconnect/reconnect handling.
- The search window's date drop-downs, and what a search request carrying
  one of their values asks for.
- The RSS reader's history with back, forward and reload buttons.
- The RSS reader's bookmarks.
- The text shown for a feed item: tags stripped, cut to 200 characters.

Every handler is a pure function from state and input to the new state and
what it emits. Each emitted event is tagged with its audience: everyone,
everyone but the sender, or the sender alone. Answers from the outside
world are parameters:

- the database's answer to an INSERT (a timestamp or a failure);
- whether the history query succeeded;
- the rows a search returned;
- whether an RSS load succeeded and the feed's title;
- the bookmark prompt's answer;
- the current year.

Files, one module each:

| file | module | what it holds |
|---|---|---|
| `wrappers.dfy` | `Wrappers` | `Option` |
| `strings.dfy` | `Strings` | JavaScript `trim`; global replace of a literal pattern, as split and join |
| `decimal.dfy` | `Decimal` | printing and parsing of decimal numerals |
| `js_values.dfy` | `JsValues` | JSON values and objects; an absent key reads as `null` |
| `search_query.dfy` | `SearchQuery` | the `/api/search` query builder, SQL text and row mapping |
| `message_store.dfy` | `MessageStore` | the `messages` table, `ORDER BY created_at DESC LIMIT n` and the wire shape of a row |
| `realtime_hub.dfy` | `RealtimeHub` | the `users` table, connections, and the four socket handlers |
| `hub_properties.dfy` | `HubProperties` | invariants of the hub over any sequence of events |
| `kaomoji.dfy` | `Kaomoji` | the kaomoji table, regex escaping, substitution |
| `message_view.dfy` | `MessageView` | what a message object shows, live and from history |
| `snippet.dfy` | `Snippet` | a feed item's title and snippet text |
| `rss_navigation.dfy` | `RssNavigation` | `fetchRss`, history, back/forward/reload, nav buttons |
| `bookmarks.dfy` | `Bookmarks` | `saveBookmark` and the add-bookmark button |
| `date_selectors.dfy` | `DateSelectors` | `populateDateSelectors` and what a request carrying an option's value asks for |
| `client_session.dfy` | `ClientSession` | the page's send, nickname, emoji-panel and connect/disconnect handlers |

## Model

| member | source | states |
|---|---|---|
| SearchQuery.BuildQuery | server.js:70-91 | Each condition and value belongs to one active field. Keyword is active when truthy; year, month and day when truthy and not `any`. Every active field adds exactly one condition and one value, and the k-th condition uses placeholder k. Fields appear in the order keyword, year, month, day. |
| SearchQuery.KeywordIsFirstParameter | server.js:76-79 | A truthy keyword yields the first condition, `$1`, with the keyword wrapped in `%` as its value. |
| SearchQuery.UsernameIgnored | server.js:70 | The handler destructures only `keyword`, `year`, `month` and `day`: the query does not depend on a `username` parameter. |
| SearchQuery.PlaceholdersLineUp | server.js:74-94 | The placeholders in the SQL text are exactly `$1` … `$n` in order, n being the number of values. |
| SearchQuery.WhereIffConditions | server.js:93-95 | ` WHERE ` occurs in the SQL text if and only if there is at least one condition. |
| SearchQuery.SearchRequest | server.js:98 | What `pool.query(query, values)` receives: at most four values; the SQL text's placeholders are `$1` … `$n` for n values; it has a ` WHERE ` exactly when there is a value; each value is the parameter of an active field. |
| SearchQuery.SqlFrame | server.js:71-96 | The text starts with the four-column SELECT and ends with `ORDER BY created_at DESC LIMIT 100`. |
| SearchQuery.FormatRow | server.js:100-105 | A formatted row has exactly the keys nickname, msg, message_type and created_at; `msg` is the row's `content` and the other three are copied. |
| SearchQuery.SearchRowIsWireMessage | server.js:100-105 | A search result row has the same shape as a history row and reads back to the stored message. |
| SearchQuery.FormatRows | server.js:100-107 | One formatted row per result row, in the same order. |
| SearchQuery.SearchResponse | server.js:98-112 | A failed query, and only a failed query, gives status 500; otherwise the body is the formatted rows. |
| Decimal.ParsePrinted | public/client.js:168 | The numeral printed for a number parses back to that number. |
| Decimal.PrintInjective | public/client.js:168 | Distinct numbers print as distinct numerals. |
| MessageStore.Insert | server.js:140 | A failed INSERT leaves the store unchanged; a successful one appends exactly the new row and keeps every earlier row. |
| MessageStore.InsertKeepsChronological | server.js:140 | A row stamped no earlier than the rest keeps the store in `created_at` order. |
| MessageStore.NewestFirstIsOrderByLimit | server.js:119 | On a chronological store, the history query returns min(50, rows) stored rows, newest first, and no row left out is newer than one returned. |
| MessageStore.RecentHistoryIsNewestTail | server.js:119-120 | After `.reverse()`, the history is the last min(50, rows) rows of the store in stored order, and is chronological when the store is. |
| MessageStore.InsertedIsLastInHistory | server.js:119-120 | On a chronological store, a message stamped no earlier than every row is, once stored, the last row of the history a later connection receives, and the newest one. |
| MessageStore.WireRoundTrip | server.js:119 | The `content AS msg` wire shape keeps every column: the row reads back unchanged. |
| RealtimeHub.HistoryRowsAreRecentHistory | server.js:118-121 | The history sent on connect is at most fifty rows that read back to the newest stored messages, oldest first. |
| RealtimeHub.Connect | server.js:116-121 | A new connection gets a fresh id and no nickname, and tables and store are unchanged. When the history query succeeds it alone is sent the history; otherwise nothing is sent. |
| RealtimeHub.Join | server.js:124-134 | An empty nickname changes nothing and emits nothing. Otherwise the connection takes the nickname and its entry is set; everyone gets the online list, and everyone but the sender gets the join notice. |
| RealtimeHub.Chat | server.js:136-144 | A connection without a nickname, or a failed INSERT, changes nothing and emits nothing. Otherwise exactly one row is appended, and there is one broadcast to everyone. It agrees with the row on nickname, `msg` and `created_at`, carries the row's type under `type`, and its `message_type` is whatever the client sent. |
| RealtimeHub.ChatCorrected | server.js:136-144 | The handler with the corrected broadcast (see Findings): the same store as `Chat`, and the one broadcast reads back as exactly the row just stored. |
| RealtimeHub.Disconnect | server.js:147-158 | The connection is gone; store and id counter are unchanged. A connection that never joined leaves silently. Otherwise its entry is removed, and everyone gets the new list and the leave notice. |
| RealtimeHub.BroadcastAsWritten | server.js:141 | The live message is the client's object plus `nickname` and `created_at`, with every other key copied and nothing else added. |
| RealtimeHub.Broadcast | server.js:141 | As above, plus `message_type` set to the client's `type`; see Findings. |
| RealtimeHub.SetUserIsMapUpdate | server.js:127 | `users[socket.id] = nickname`: the table as a map is updated at that id, and ids stay distinct. |
| RealtimeHub.RemoveUserIsMapRemove | server.js:151 | `delete users[socket.id]`: the table as a map loses that id, and ids stay distinct. |
| HubProperties.InitialValid | server.js:115 | The empty hub satisfies the invariant: the `users` object maps exactly the joined connections to their nicknames. |
| HubProperties.ConnectKeepsValid | server.js:116-121 | A new connection keeps the invariant. |
| HubProperties.JoinKeepsValid | server.js:124-134 | `join` keeps the invariant, and the table as a map gains exactly the joined id. |
| HubProperties.DisconnectKeepsValid | server.js:147-158 | `disconnect` keeps the invariant, and the table as a map loses exactly the leaving id. |
| HubProperties.RunKeepsValid | server.js:115-158 | The invariant holds after any sequence of connects, joins, chat messages and disconnects. |
| HubProperties.OnlineListIsJoinedNicknames | server.js:129 | In a valid hub, every name in the `update users` list is the current nickname of a joined connection, and every joined connection is listed. |
| HubProperties.RejoinRenames | server.js:126-127 | A second `join` on a connection renames it: the table maps the id to the new nickname, and the old one is gone. |
| HubProperties.LeaveTwiceIsSilent | server.js:147-158 | A closed connection has no handlers: a second disconnect changes nothing and emits nothing. |
| HubProperties.BroadcastIsNewestHistoryRow | server.js:119-144 | On a chronological store, with the new row stamped no earlier than the rest: a broadcast chat message comes from a joined connection and a successful INSERT. The last row of the history a later connection loads is the newest row; the broadcast agrees with it on nickname, `msg` and `created_at`, and carries its type under `type`. |
| HubProperties.CorrectedBroadcastIsNewestHistoryRow | server.js:119-144 | The same for the corrected handler, where the broadcast reads back exactly as the last history row. |
| Kaomoji.EscapeRoundTrip | public/client.js:165 | The escaped code, read as a regular expression, is a literal, and that literal is the code itself. Only special characters are escaped, so no escape names a class. |
| Kaomoji.BareSpecialIsNotLiteral | public/client.js:165 | A pattern in which an operator (`^`, `$`, `*`, `+`, `?`, `.`, a parenthesis, the alternation bar or `[`) stands unescaped after plain text is not read as a literal: those characters need the escape. |
| Kaomoji.UnescapedPlainIsLiteral | public/client.js:165 | A pattern with no operator, no `{` and no backslash is read as itself. |
| Kaomoji.SyntaxCharsBareAreLiteral | public/client.js:165 | Bare `-`, `/`, `]` and `}` are read as themselves, so escaping them is harmless but not needed; an escaped letter such as `\d` is not a literal. |
| Kaomoji.TableShaped | public/client.js:58 | Every entry of the kaomoji table is a non-empty `:name:` code with no colon inside, and a face with no colon. |
| Kaomoji.ColonFreeUnchanged | public/client.js:165 | Substituting a list of codes into text without a colon leaves the text unchanged. |
| Kaomoji.PlainMessageUnchanged | public/client.js:165 | A message without a colon is shown exactly as typed. |
| Kaomoji.CodeBecomesFace | public/client.js:165 | A message that is exactly one `:name:` code shows that code's face when the table has it, and shows as typed otherwise. |
| Kaomoji.HappyCodeShowsFace | public/client.js:58 | `:happy:` is shown as its face. |
| MessageView.ChatPayload | public/client.js:163 | The object the page emits: `type` and `msg` as given, and no `message_type` or `nickname`. |
| MessageView.MessageText | public/client.js:165 | The message text is `data.msg` when it is a string, and the empty text otherwise. |
| MessageView.RenderContent | public/client.js:165 | A message shows an image exactly when its `message_type` is `image`, with the message as source. Otherwise it shows the message with kaomoji replaced. |
| MessageView.RenderReadsTwoFields | public/client.js:165 | Only `message_type` and `msg` decide what is shown. |
| MessageView.NonImageShowsText | public/client.js:165 | A message whose type is not `image` shows its text, kaomoji replaced. |
| MessageView.StoredImageShowsImage | public/client.js:165 | A history row shows an image exactly when the stored type is `image`. |
| MessageView.LiveImageShownAsText | server.js:141 | As written, a live image message is shown as its URL text, while the same message from history is shown as an image. |
| MessageView.LiveMatchesHistory | server.js:141 | With `message_type` in the broadcast, every live message shows exactly as its history row. |
| MessageView.ChatImageShownAsText | server.js:136-144 | Through the handler as written, an image the page sends is shown live as its URL text, while its stored row shows as an image. |
| MessageView.CorrectedChatShowsAsStored | server.js:136-144 | Through the corrected handler, every live message shows exactly as its stored row. |
| Snippet.SnippetSource | public/client.js:208 | `contentSnippet`, else `content`, else the empty text, each taken when truthy. |
| Snippet.ItemTitle | public/client.js:205 | The item's title when truthy, else `No Title`; never empty. |
| Snippet.StripTags | public/client.js:208 | The stripped text contains no `<` and is no longer than the input. |
| Snippet.StripPlain | public/client.js:208 | Text without `<` is unchanged by stripping. |
| Snippet.StripIdempotent | public/client.js:208 | Stripping twice is stripping once. |
| Snippet.StripKeepsPlainPrefix | public/client.js:208 | Text before the first `<` is kept verbatim. |
| Snippet.ClosedTagRemoved | public/client.js:208 | A `<` … `>` run with no `>` inside is removed, brackets included. |
| Snippet.UnclosedTagRemovesRest | public/client.js:208 | A `<` that is never closed removes the rest of the text. |
| Snippet.Truncate | public/client.js:209 | Text of at most 200 characters is kept whole. Longer text keeps its first 200 characters followed by `...`. |
| Snippet.SnippetShape | public/client.js:208-209 | A shown snippet has no `<`, is at most 203 characters, and begins with the stripped source. |
| RssNavigation.StartValid | public/client.js:59-60 | The initial reader (empty history, position -1) is valid and its buttons agree with it. |
| RssNavigation.UpdateButtons | public/client.js:224 | Back is disabled exactly at position 0 or less; forward exactly at the last entry or beyond. Nothing else changes. |
| RssNavigation.FeedTitle | public/client.js:181 | The feed's title when truthy, else `Untitled Feed`; never empty. |
| RssNavigation.Fetch | public/client.js:171-194 | An empty address or a failed load changes nothing. A successful load shows the address and title and brings the buttons in line. With `addToHistory`, later entries are dropped and the address becomes the new current entry; without it, history and position stay. |
| RssNavigation.FetchKeepsValid | public/client.js:171-194 | A fetch keeps the position inside the history and every entry non-empty. |
| RssNavigation.Go | public/client.js:288-289 | The trimmed address, when non-empty and loaded, becomes the new current entry after the current one; otherwise nothing changes. |
| RssNavigation.Back | public/client.js:291 | At the first entry nothing happens. Otherwise the position moves back one whatever the load's outcome, and a successful load shows that entry. |
| RssNavigation.Forward | public/client.js:292 | At the last entry nothing happens. Otherwise the position moves forward one whatever the load's outcome, and a successful load shows that entry. |
| RssNavigation.Reload | public/client.js:290 | History and position never change; a successful load shows the current entry again. |
| RssNavigation.ApplyKeepsValid | public/client.js:288-292 | Typing, fetch, back, forward and reload each keep the reader valid. |
| RssNavigation.Session | public/client.js:288-292 | The reader stays valid over any sequence of user actions and load outcomes. A disabled back or forward button delivers no click. |
| RssNavigation.BackThenForward | public/client.js:291-292 | A successful back then a successful forward returns to the same entry and history. |
| RssNavigation.ForwardThenBack | public/client.js:291-292 | A successful forward then a successful back returns to the same entry and history. |
| RssNavigation.NewLoadDropsForwardEntries | public/client.js:183-187 | Loading a new address keeps the entries up to the current one, drops those ahead of it, and disables forward. |
| RssNavigation.FailedBackLeavesButtonsStale | public/client.js:291 | After a failed back from the last entry, the position has moved while forward stays disabled: the buttons no longer agree with the position. |
| RssNavigation.StaleForwardIsInert | public/client.js:292 | After that failed back an entry lies ahead, but pressing forward does nothing: the button is still disabled. |
| Bookmarks.SaveBookmark | public/client.js:226 | An address already saved leaves the list unchanged with the `already saved` notice. A new one is appended with the `added` notice. Either way the address is then saved, and unique addresses stay unique. |
| Bookmarks.SaveTwiceIsSaveOnce | public/client.js:226 | Saving the same address again, under any name, changes nothing. |
| Bookmarks.SaveKeepsExisting | public/client.js:226 | Saving never drops or reorders a bookmark and adds at most one. |
| Bookmarks.SaveKeepsLoadable | public/client.js:226 | Saving a trimmed non-empty address keeps every saved address trimmed and non-empty. |
| Bookmarks.ProposedTitle | public/client.js:297 | The prompt proposes the current feed title when non-empty, else the address. |
| Bookmarks.AddBookmark | public/client.js:294-302 | An empty trimmed address is refused with a notice. A cancelled or empty name saves nothing. Otherwise the trimmed address is saved under the given name. |
| Bookmarks.AddBookmarkKeepsInvariants | public/client.js:294-302 | The add-bookmark button keeps the addresses unique, trimmed and non-empty. |
| Bookmarks.TidyIsTrimmed | public/client.js:295 | An address with no whitespace at either end is unchanged by `trim`. |
| Bookmarks.OpenBookmark | public/client.js:225 | Clicking a bookmark loads its address as a new history entry. |
| DateSelectors.Numbered | public/client.js:168 | An option's value is the number's numeral; its label is the numeral followed by the unit. |
| DateSelectors.YearOptions | public/client.js:168 | `any` first, then one option per year from the current year down to 2023. There are none when the current year is before 2023. |
| DateSelectors.RangeOptions | public/client.js:168 | `any` first, then one option per number from the first to the last. |
| DateSelectors.PopulateDateSelectors | public/client.js:168 | The year list as above; thirteen month options (any, 1–12); thirty-two day options (any, 1–31). |
| DateSelectors.NumberIsNotAny | server.js:80-90 | No option's numeral is empty or equal to `any`. |
| DateSelectors.ChosenYearFilters | server.js:80-83 | If a request carries a year option's value as `year`, the query has a year condition exactly when the option is not `any`, and the condition's value reads back as the year shown. |
| DateSelectors.ChosenRangeFilters | server.js:84-91 | The same for a request carrying a month or a day option's value. |
| ClientSession.SendMessage | public/client.js:163 | Non-empty input on an enabled page is emitted as a `text` message and cleared; otherwise nothing happens. |
| ClientSession.SubmitNickname | public/client.js:253 | A non-empty trimmed entry becomes the nickname and is emitted as `join`; otherwise nothing happens. |
| ClientSession.InsertKaomoji | public/client.js:310 | Clicking a face appends the code, a space on each side, to the input; nothing else changes. |
| ClientSession.OnDisconnect | public/client.js:317 | A dropped connection disables the input and keeps the nickname and typed text. |
| ClientSession.OnConnect | public/client.js:318 | On connect, a page with a nickname re-enables input and joins again under it; a page without one does nothing. |
| ClientSession.EmittedJoinIsAccepted | public/client.js:253 | Every `join` the page emits carries a non-empty nickname that the server's handler records. |
| ClientSession.ReconnectRejoins | public/client.js:317-318 | After the connection drops and returns, the page is enabled and joins its new connection under the same nickname. |
| ClientSession.SentTextShownToAll | public/client.js:163 | A sent text is stored under the sender's nickname with type `text`. Every client shows it, live and from history alike, as the typed text with kaomoji replaced. |
| Strings.Trim | public/client.js:253 | The trimmed text is the input less leading and trailing whitespace: neither end is whitespace, and it is empty exactly when the input is all whitespace. |
| Strings.TrimIdempotent | public/client.js:295 | Trimming twice is trimming once. |
| Strings.ReplaceIsSplitJoin | public/client.js:165 | Replacing every leftmost, non-overlapping occurrence of a pattern is splitting on it and joining with the replacement. |
| Strings.SplitPiecesFree | public/client.js:165 | No piece of a split contains the pattern. |
| Strings.SplitCutsLeftmost | public/client.js:165 | Each cut is at the leftmost occurrence: in a piece a cut ends, no occurrence of the pattern starts before the cut. |
| Strings.ReplaceAllPieces | public/client.js:165 | The text is pattern-free pieces joined by the pattern, each cut at the leftmost occurrence after the previous one, and the replaced text is the same pieces joined by the replacement. |
| Strings.ReplaceCanFormNewOccurrence | public/client.js:165 | A single pass can create an occurrence: replacing `ab` by `a` in `abb` gives `ab`. |
| Strings.SplitJoinRoundTrip | public/client.js:165 | Splitting on a pattern and joining with it gives the text back. |
| Strings.ReplaceBySelf | public/client.js:165 | Replacing a pattern by itself changes nothing. |

## Left out

- Transport and I/O are not modelled: Express, Socket.IO delivery and
  reconnection timing, the `pg` pool, Cloudinary uploads (the `/upload`
  route and `uploadImage`), and the `/parse-rss` feed parser. Their
  answers are parameters.
- An uploaded or pasted image enters the model only as the `{type: 'image',
  msg: url}` object the page emits.
- DOM work is not modelled: the window manager, dragging, the clock, the
  user list's and the feed's HTML, status texts, alerts, the item count,
  and each item's date text.
- The login password check (public/client.js:252) only opens a window and is
  not modelled.
- Persistence in `sessionStorage` and `localStorage` is not modelled,
  including `JSON.parse` of stored bookmarks. The bookmark list and the
  nickname are plain state.
- The database's meaning of `ILIKE`, `EXTRACT` and the search's `LIMIT 100`
  is left out. The search endpoint is modelled up to the SQL text and its
  parameters, and from the rows the database returns.
- Timestamps are opaque integers. Date formatting on the page is left out.
- The `ORDER BY created_at DESC` queries are modelled on a store whose rows
  are stamped in insertion order. Equal timestamps keep insertion order,
  which the database does not promise.
- Each socket handler is modelled as one atomic step. Interleavings across
  the awaited INSERT are not modelled. Neither is the fact that the
  `join`, `chat message` and `disconnect` listeners are registered only
  after the awaited history query, so an event arriving during that query
  finds no listener.
- Payloads are modelled as strings where the page sends strings. A
  non-string `join` nickname is not modelled; a query parameter given
  twice, which arrives as an array, is not modelled either. `msg` and
  `type` of a chat message are modelled as strings, a timestamp or absent.
  A number, boolean, array or object there is not modelled; for a truthy
  non-string `msg`, public/client.js:165's `.replace` would throw.
- The page never issues a search. public/client.js:39 looks up the search
  button but registers no listener on it, and nothing reads the date
  drop-downs or requests `/api/search`. The date lemmas speak of a request
  that carries an option's value.
- RegexLiteral: a bare `{` is given no literal reading, although
  JavaScript reads a `{` that opens no quantifier as itself. No kaomoji code
  contains `{`.
- RSS loads are modelled as atomic: each button press completes its load
  before the next action. Overlapping loads, such as two quick back presses
  whose fetches finish out of order, are not modelled.
- Text is a sequence of code points. JavaScript measures `substring(0, 200)`
  and `length` in UTF-16 code units. `trim`'s whitespace set is modelled
  as the Unicode whitespace and line terminators JavaScript uses.
- The kaomoji replacement uses a face as a literal replacement text. No
  face contains `$`, so `String.prototype.replace` patterns never apply.

## Findings

| source | as written | input that shows it | evidently intended | confidence | as-written member | corrected member |
|---|---|---|---|---|---|---|
| server.js:141 | The live `chat message` broadcast is the client's `{type, msg}` plus `nickname` and `created_at`. It has no `message_type`, which is the only field public/client.js:165 reads to decide on an image. | An uploaded image, `{type: 'image', msg: url}`: every client shows the URL as text. The same message, reloaded as history (server.js:119), shows as an image. | The broadcast carries `message_type: data.type`, like a history row, so a live message shows as it will from history. | high, not executed | RealtimeHub.Chat (emits RealtimeHub.BroadcastAsWritten), with MessageView.ChatImageShownAsText and MessageView.LiveImageShownAsText | RealtimeHub.ChatCorrected (emits RealtimeHub.Broadcast), with MessageView.CorrectedChatShowsAsStored and MessageView.LiveMatchesHistory |
