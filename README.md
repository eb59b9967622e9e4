# tvkaistagui main window: a Dafny model

tvkaistagui is a Qt desktop client for the Tvkaista TV-recording service. Its
main window browses a channel's programme guide day by day, searches
recordings, shows programme posters, starts a media player on a stream or a
downloaded file, and manages a list of downloads. Behind the widgets,
`mainwindow.cpp` holds a small amount of decision, list and string logic.
This project models that logic and proves what it promises:

- **`CommandLine`** (`command_line.dfy`) covers the media-player command line.
  - `SplitCommandLine` is the quote-aware splitter: a single quote toggles quoting and is dropped, and an unquoted space ends an argument.
  - `SubstitutePlaceholder` replaces `%F` with the stream URL or file name in every argument.
  - The default player command is found by probing three VLC locations. The chosen path is converted to native separators, quoted when it contains a space, and followed by ` --fullscreen %F`.
  - `MediaPlayerInvocation` takes the program off the front of the argument list.
  - The splitter is specified by a lexer (`Lex`) and a cutter (`SplitAt`). `SplitAt` is proved inverse to `Join`.
- **`SearchHistory`** (`search_history.dfy`) covers `QString::trimmed` with Qt's white-space set, `QList::removeAll`, and the ten-entry most-recently-used search history.
- **`Freshness`** (`freshness.dfy`) holds the pure decisions:
  - whether channels and programmes come from the cache or the network;
  - the three-second refresh debounce;
  - when a poster is shown, replaced by the placeholder, or requested, and which image the description embeds.
- **`Downloads`** (`downloads.dfy`) covers the download view.
  - It computes the enable flags of the play, abort and remove actions.
  - It removes several selected rows: sort them, then delete from the highest row down.
- **`Window`** (`window.dfy`) holds the `MainWindow` class. Its fields are the ones the source updates in place: search history, search phrase, search results and their visibility, last refresh time, current channel, date and programme, channels, the shown programme table, and the requests sent to the network client. Its methods are `fetchChannels`, `fetchProgrammes`, `scrollProgrammes`, `programmeSelectionChanged`, `toggleSearchResults`, `fetchSearchResults`, `refreshProgrammes` and `search`.
- **`Guide`** (`guide.dfy`) holds the shared records: dates, channels, programmes, cache lookups and network requests.

Some inputs become parameters:

- What the resource cache returns. These are the out-parameters of `Cache::loadChannels` and `Cache::loadProgrammes`.
- Whether the stored credentials are valid.
- The current time in seconds.
- Whether a player file exists.
- The default programme row of a list, the poster-visibility setting, and which posters the cache holds.
- Whether the platform is Windows.

Requests to the network client are appended to the `requests` field.

## Model

| member | source | states |
|---|---|---|
| CommandLine.SplitCommandLine | mainwindow.cpp:1085-1109 | The result is the lexed command cut at its separators. There is always at least one argument, and one more than there are unquoted spaces. No argument contains a quote. The arguments concatenated are the command without its quotes and unquoted spaces. |
| CommandLine.SplitStep | mainwindow.cpp:1093-1105 | One step of the loop. A quote flips the quoting state and adds nothing. An unquoted space closes the current argument and opens an empty one. Any other character is appended to the current argument. |
| CommandLine.SplitFacts | mainwindow.cpp:1085-1109 | The argument count, the quote-freedom and the concatenation of a split command, stated in terms of the command itself. |
| CommandLine.LexAppend | mainwindow.cpp:1092-1105 | Lexing a concatenation is lexing the first part, then lexing the second part from the quoting state the first part left behind. |
| CommandLine.LexCounts | mainwindow.cpp:1092-1105 | `Lex` turns the command into argument characters and separators, dropping quotes. The separators of a lexed command are exactly its unquoted spaces, counted by quote parity. Its argument characters are the command without quotes and unquoted spaces. |
| CommandLine.QuotedAfterParity | mainwindow.cpp:1095-1097 | After scanning a prefix, the splitter is inside quotes exactly when the prefix holds an odd number of quotes. |
| CommandLine.LexExcludesQuote | mainwindow.cpp:1095-1097 | A quote is never lexed as an argument character. |
| CommandLine.SplitJoin | mainwindow.cpp:1099-1108 | `SplitAt` cuts a symbol stream at its separators into arguments. Cutting arguments joined by single separators gives the same arguments back. |
| CommandLine.JoinSplit | mainwindow.cpp:1099-1108 | Joining the pieces of any symbol stream gives the stream back, so cutting loses nothing. |
| CommandLine.SplitAtCount | mainwindow.cpp:1099-1108 | Cutting gives one more piece than there are separators. |
| CommandLine.SplitAtConcat | mainwindow.cpp:1099-1108 | The pieces concatenated are the argument characters in their order. |
| CommandLine.SplitAtLift | mainwindow.cpp:1102-1104 | Plain characters after a stream all extend the last piece. |
| CommandLine.LexPlain | mainwindow.cpp:1102-1104 | A word with no quote, and with no space when unquoted, lexes to its own characters and leaves the quoting state as it was. |
| CommandLine.SubstitutePlaceholder | mainwindow.cpp:1004-1012 | The argument list keeps its length. Each argument is replaced by itself with every `%F` replaced by the value. |
| CommandLine.ReplaceAllLength | mainwindow.cpp:1010 | `ReplaceAll` is `QString::replace` scanning left to right without overlaps. Replacing changes the length by the difference of the two strings, once per occurrence, and nothing else does. |
| CommandLine.ReplaceAllSelf | mainwindow.cpp:1010 | Replacing a pattern by itself returns the string unchanged. |
| CommandLine.ReplaceAllKeepsPlain | mainwindow.cpp:1010 | Text with no `%` in front of the rest of a string comes through substitution untouched, and the rest is substituted on its own. |
| CommandLine.ReplaceAllAtPlaceholder | mainwindow.cpp:1010 | A `%F` at the front becomes the value, and the rest is substituted on its own. |
| CommandLine.StrayPercent | mainwindow.cpp:1010 | A `%` that does not start `%F` (at the end, or before any other character) is kept, and the rest is substituted on its own. With the two lemmas above this fixes `ReplaceAll` on every string: only `%F` occurrences change. |
| CommandLine.ReplaceAllNoPercent | mainwindow.cpp:1010 | A string without `%` holds no `%F` and is left unchanged. |
| CommandLine.ChooseInstalledPlayer | mainwindow.cpp:1123-1137 | The result is the first existing candidate in probing order, or `vlc` when none exists. |
| CommandLine.FirstInstalledIsFirst | mainwindow.cpp:1130-1137 | `FirstInstalled` is the probe over the candidates. The probed path exists and every earlier candidate does not. With no existing candidate the fallback is used. |
| CommandLine.FirstInstalledAmong | mainwindow.cpp:1123-1128 | The probed path is one of the three candidates or the fallback. |
| CommandLine.FirstInstalledIsPlain | mainwindow.cpp:1123-1128 | Every path probing can return is free of quotes, `%` and backslashes. |
| CommandLine.SeparatorsRoundTrip | mainwindow.cpp:1072 | `NativeSeparators` (line 1139) turns `/` into `\` on Windows and `FromNativeSeparators` (line 1072) turns it back. A path in forward slashes comes back from native separators unchanged. |
| CommandLine.NativeKeepsPlain | mainwindow.cpp:1139 | Conversion to native separators introduces no quote and no `%`. |
| CommandLine.QuotedPathLexes | mainwindow.cpp:1141-1144 | A quote-free path, quoted when it holds a space, lexes to the path's own characters and leaves quoting off. |
| CommandLine.ThreeArgumentsSplit | mainwindow.cpp:1139-1147 | A quoted path followed by two plain words splits into exactly those three arguments. |
| CommandLine.StreamPlayerCommandSplits | mainwindow.cpp:1139-1147 | Quote-then-split round trip: the default command for a quote-free path splits into exactly the path, `--fullscreen` and `%F`. |
| CommandLine.DefaultStreamPlayerCommand | mainwindow.cpp:1121-1148 | The command is the probed path in native separators, quoted when it holds a space, followed by ` --fullscreen %F`. |
| CommandLine.DefaultCommandArguments | mainwindow.cpp:1121-1153 | The default command, split and substituted, has three arguments: the probed player, in forward slashes again; `--fullscreen`; and the value. |
| CommandLine.MediaPlayerInvocation | mainwindow.cpp:1070-1083 | The program is the first substituted argument in forward slashes. The arguments are the remaining substituted arguments, in order. |
| CommandLine.PlayerArguments | mainwindow.cpp:994-1015 | With an empty setting, the probed player runs with exactly `--fullscreen` and the URL or file name. Otherwise it is the configured command, split and substituted. |
| SearchHistory.Trimmed | mainwindow.cpp:547 | White space is `IsSpace`, Qt's `QChar::isSpace` set. The result is a slice of the input that neither starts nor ends with white space. Everything cut off on either side is white space. |
| SearchHistory.TrimmedIdempotent | mainwindow.cpp:547 | Trimming twice is trimming once. |
| SearchHistory.RemoveAll | mainwindow.cpp:548 | The phrase no longer occurs. Every other entry is kept and nothing new appears. |
| SearchHistory.RemoveAllAppend | mainwindow.cpp:548 | Removal distributes over concatenation, so the kept entries keep their relative order. |
| SearchHistory.RemoveAllAbsent | mainwindow.cpp:548 | A history without the phrase is unchanged. |
| SearchHistory.RemoveAllNoDuplicates | mainwindow.cpp:548 | Removal keeps a duplicate-free history duplicate-free. |
| SearchHistory.UpdatedShape | mainwindow.cpp:547-553 | `Updated` is the history after `removeAll`, `prepend` and the `removeLast` loop. After a search the trimmed phrase heads the history and occurs nowhere else. There are between 1 and 10 entries. The rest is the old history without the phrase, in order, cut to nine. |
| SearchHistory.UpdatedFromOld | mainwindow.cpp:548-553 | Every entry of the new history is the phrase or an old entry. |
| SearchHistory.UpdatedNoDuplicates | mainwindow.cpp:548-553 | A duplicate-free history stays duplicate-free. |
| SearchHistory.UpdatedIdempotent | mainwindow.cpp:547-553 | Searching for the same phrase again leaves the history unchanged. |
| Freshness.ChannelRule | mainwindow.cpp:740-755 | About `ChannelSource`, the decision at lines 743-754. Cached channels are used exactly when the cache reports them and no refresh was asked for. Otherwise they are requested exactly when the credentials are valid. |
| Freshness.ProgrammeRule | mainwindow.cpp:757-790 | About `ProgrammeSource`, the decision at lines 759-789. With no channel or no date, nothing happens. Otherwise the cache is used exactly when it holds a non-empty list and either no refresh was asked for or the list is under 30 minutes old. Otherwise the list is requested exactly when the credentials are valid. |
| Freshness.RefreshRejectsStale | mainwindow.cpp:771 | A refresh never shows a cached list 30 or more minutes old. |
| Freshness.RefreshOnlyNarrowsCache | mainwindow.cpp:771 | Whatever a refresh takes from the cache, a plain fetch takes too. |
| Freshness.NetworkNeedsCredentials | mainwindow.cpp:740-790 | No channel or programme request goes out without valid credentials. |
| Freshness.StalenessExamples | mainwindow.cpp:771 | A refresh re-requests a list 40 minutes old and shows one 10 minutes old from the cache. |
| Freshness.LastAcceptedSince | mainwindow.cpp:379-383 | `RefreshAccepted` is the three-second test and `AfterRefresh` the update of the recorded time; `LastAccepted` folds them over attempts. Over a run of refresh attempts, the recorded time stays that of the last accepted attempt until another one is accepted. |
| Freshness.DebounceSpacing | mainwindow.cpp:379-383 | Over a run of refresh attempts, an attempt after an accepted one, with none accepted in between, goes ahead exactly when it comes at least three seconds later. Consecutive accepted refreshes are therefore at least three seconds apart, and every ignored attempt lies within three seconds of the last accepted one. |
| Freshness.FirstRefreshAccepted | mainwindow.cpp:379-383 | In a window that has not refreshed yet, the first attempt goes ahead. |
| Freshness.LatestAccepted | mainwindow.cpp:379-383 | In a window that has not refreshed yet, every attempt after the first has a last accepted attempt before it, so the spacing rule covers every attempt. |
| Freshness.NullTimeBlocksRefresh | mainwindow.cpp:379-383 | Under the test as written: when the null time lies fewer than three seconds before every attempt, no refresh ever goes ahead. |
| Freshness.Qt4NullTimeNegative | mainwindow.cpp:379 | With Qt 4's 32-bit arithmetic, the seconds from the null time to any moment of 15 October 2026 are negative. |
| Freshness.Qt4RefreshBlockedAllDay | mainwindow.cpp:379-383 | Under the test as written with Qt 4, a new window ignores every refresh attempted on 15 October 2026. |
| Freshness.PosterRule | mainwindow.cpp:336 | About `SelectPoster`, the condition at line 336 with `fetchPoster` (lines 811-823). The real poster is shown exactly when the programme has one, posters are visible and the cache holds it. A poster request goes out exactly when the programme has one, posters are visible and the cache misses. |
| Freshness.DescriptionRule | mainwindow.cpp:896-899 | About `DescriptionImage`, the test at line 896. The description embeds an image exactly when the programme has a poster, whether or not posters are visible. With posters hidden the image is the placeholder. It is the programme's own poster exactly when posters are visible and the cache holds it. |
| Downloads.DownloadSelectionChanged | mainwindow.cpp:343-367 | Play is enabled exactly for a single selected row. Remove is enabled exactly for a non-empty selection. Abort is enabled exactly when some selected job has status 0. |
| Downloads.SortFacts | mainwindow.cpp:501 | `Sort` stands for `qSort` of the selected rows. Sorting keeps every row the same number of times and yields ascending order. Rows reported once come out strictly ascending. |
| Downloads.InsertMultiset | mainwindow.cpp:501 | Insertion adds exactly the inserted row. |
| Downloads.InsertAscending | mainwindow.cpp:501 | Insertion keeps a list ascending. |
| Downloads.InsertStrict | mainwindow.cpp:501 | Inserting a new row keeps a list strictly ascending. |
| Downloads.RemoveSelected | mainwindow.cpp:492-508 | The result is the job list without exactly the selected jobs, the others in their order. As many jobs go as rows were selected. |
| Downloads.RemoveBelowRemoved | mainwindow.cpp:503-505 | `RemoveAt` is one `removeRow` (line 504). Deleting a row lower than every row already deleted equals removing it together with them: earlier deletions never shift a pending row. |
| Downloads.KeptPickedPartition | mainwindow.cpp:503-505 | Each job is either kept or removed: the two together are the original jobs. |
| Downloads.PickedCount | mainwindow.cpp:503-505 | As many jobs are removed as rows are selected, and the rest are kept. |
| Downloads.KeptAppend | mainwindow.cpp:503-505 | Keeping distributes over concatenation, so kept jobs stay in order. |
| Window.MainWindow.constructor | mainwindow.cpp:24-215 | A new window has no channel, today's date, the stored history unchanged, and the programme list shown rather than search results. |
| Window.MainWindow.FetchChannels | mainwindow.cpp:740-755 | The channels become the cached ones exactly in the cache case. A channel request is appended exactly in the network case. Nothing else changes. |
| Window.ScrollPosterRule | mainwindow.cpp:954-971 | Scrolling requests at most one poster, that of the selected programme. It does so exactly when a default row exists and its programme has a poster, posters are visible and the cache lacks it. |
| Window.MainWindow.ProgrammeSelectionChanged | mainwindow.cpp:323-341 | The selected programme becomes current. Its poster is requested exactly when it has one, posters are visible and the cache lacks it. Nothing else changes. |
| Window.MainWindow.ScrollProgrammes | mainwindow.cpp:954-971 | The default row's programme becomes current, with its poster request. With no default row no programme is current. Nothing else changes. |
| Window.MainWindow.FetchProgrammes | mainwindow.cpp:757-790 | In the cache case the channel and day become current, the search results are hidden, and the cached list is shown and scrolled. The current programme is the default row's. Poster requests come from the scroll, twice when hiding the results scrolled the same list first. In the network case a request for that channel and day is appended. Otherwise nothing changes. |
| Window.MainWindow.ToggleSearchResults | mainwindow.cpp:570-603 | Flips the visibility. Showing puts the stored results in the table and deselects the programme. Hiding empties the table and fetches the current day again without a refresh. A cache hit shows and scrolls that list; otherwise no programme is current and a network request may be appended. |
| Window.MainWindow.FetchSearchResults | mainwindow.cpp:792-809 | With valid credentials a search request is appended, the phrase becomes current, the results are emptied and shown. Without them nothing changes. |
| Window.MainWindow.RefreshProgrammes | mainwindow.cpp:375-391 | The last refresh time follows the debounce fold. An ignored refresh changes nothing. An accepted one with the results shown repeats the search and leaves the table and selection alone. With the results hidden it fetches the current day with a refresh: a cache hit shows and scrolls the list, a miss may request it. Phrase and results stay. |
| Window.MainWindow.RememberPhrase | mainwindow.cpp:548-553 | The history becomes the updated history of the phrase. |
| Window.MainWindow.Search | mainwindow.cpp:545-567 | The history is updated with the trimmed phrase. A new phrase with valid credentials is sent, becomes current, and its empty results are shown; without credentials nothing else changes. The current phrase shows the stored results and deselects when they were hidden. The refresh follows the debounce fold, and the search is re-sent and the results emptied exactly when it is accepted and the credentials are valid. |

## Left out

- Widgets and painting: layout, shortcuts, fonts, calendar colouring, the window title, and drawing the poster border. These are user-interface work with no logic to check.
- Settings storage through `QSettings`. Stored values (the search history, the player commands, poster visibility) are parameters instead.
- Launching processes and opening URLs or directories (`QProcess::startDetached`, `QDesktopServices`). The model stops at the program and argument list handed to the launcher. `startFlashStream` with an empty setting opens a browser, which is not modelled. With a setting, its splitting and substitution are the ones modelled.
- File-existence probing. Whether each candidate player exists is the `present` parameter.
- The password codec (`encodePassword`/`decodePassword`). It is a thin wrapper over base64 (section 4 of RFC 4648) and UTF-8 conversions.
- Network client signal handlers and message boxes (`channelsFetched`, `programmesFetched`, `searchResultsFetched`, `posterFetched`, `streamUrlFetched`, error dialogs). They are asynchronous glue.
- The resource cache (`cache.h` only declares it) and the download table model (not part of this model). Their results are parameters.
- `abortDownload` only forwards each selected row to the download table model, whose code is not part of this model.
- `playDownloadedFile` and `openDirectory` only forward a file name to the player or the file manager.
- The constructor after its first part: the model's constructor stops at the state the source reaches at mainwindow.cpp:215. Not modelled are the `fetchChannels(false)` call that follows, the restoring of the stored channel (a direct assignment of `m_currentChannelId` inside the channel loop), and the first programme fetch after it.
- The channel list widget and channel map (`updateChannelList`), and the navigation slots (`dateClicked`, `channelClicked`, `selectChannel`, previous and next day). They call `fetchProgrammes` with a channel and a date.
- Window.MainWindow.FetchProgrammes: hiding the search results fetches the current day again through the cache. The model gives that nested fetch the same cache lookup as the outer one. Both read the same channel and day from the same cache, with no refresh.
- Window.MainWindow.RefreshProgrammes: `m_lastRefreshTime` starts as a null `QDateTime`, modelled as `None`. The model accepts the first refresh, which is what the debounce is evidently for. It does not follow what `QDateTime::secsTo` returns from a null date-time: 0 in Qt 5, and a product of days and 86400 that overflows the 32-bit `int` in Qt 4. That case is under "## Findings". Times are whole seconds.
- Window.MainWindow.ScrollProgrammes: every scroll to a default row is taken to emit `selectionChanged`, so `programmeSelectionChanged` runs each time. This holds when the table's selection was reset with the list before it. The table model's info text is taken to be empty, so the handler does not return early.
- Window.MainWindow.ScrollProgrammes: `defaultProgrammeIndex` is computed by the table model, which is not part of this model; its row is a parameter. The poster image held by the window and the text and image of the description widget are not window state here. `Freshness.DescriptionRule` states which image the description embeds.
- Window.MainWindow.Search uses an empty cache lookup and no default row for the fetches it triggers. Both only show search results and never consult the cache.
- SearchHistory.IsSpace: follows `QChar::isSpace` for one Unicode version (ASCII 9-13 and 32, U+0085, and the Unicode space, line and paragraph separators). Later Unicode revisions that reclassify characters are not tracked.
- Downloads.RemoveSelected works on a value `seq<Job>` and returns the new list. The table model that the source deletes from in place is not part of this model.
- Downloads.Sort is an insertion sort standing for `qSort`. Only its result (ascending, same rows) matters here, not the algorithm.

## Findings

| source | as written | input that shows it | evidently intended | confidence | as-written member | corrected member |
|---|---|---|---|---|---|---|
| mainwindow.cpp:379 | `m_lastRefreshTime` is never set before the first refresh. The test compares `secsTo` from the null `QDateTime`, and ignores the refresh when that is under three seconds. | A new window built with Qt 4, with every refresh attempted on 15 October 2026: day 2461329 times 86400 overflows to -2089539200, so each attempt is ignored and the time is never recorded. With Qt 5, `secsTo` of a null date-time is 0, with the same effect on any day. | The first refresh goes ahead, and later ones are spaced at least three seconds apart. | medium: depends on Qt's `secsTo` internals, which are not part of this model; not executed | Freshness.Qt4RefreshBlockedAllDay | Freshness.FirstRefreshAccepted, Freshness.DebounceSpacing |
