# StreamElements obs-browser plug-in: a Dafny model of its core

This project models the logic of the StreamElements build of the OBS browser
source plug-in and proves properties of it:

- **WorkerManager** (`worker_manager.dfy`): the worker registry. Workers are
  added under a requested id or a fresh UUID, removed, queried, and turned into
  a CEF dictionary value and back.
- **CefClient** (`cef_client.dfy`): the CEF client. It covers client ids,
  `sanitize_url`, the renderer-message router, the process-wide browser list,
  JavaScript event broadcast, the on-load script, and the error page with its
  `${error.code}` / `${error.text}` / `${error.url}` placeholders. The
  placeholders are replaced through a small regular-expression matcher.
- **PipeHandler** (`pipe_handler.dfy`): one client connection of the named-pipe
  server. It is a state machine with a read-then-write I/O thread, a callback
  thread and two FIFOs.
- **BrowserPlugin** (`browser_plugin.dfy`): the module glue. It covers the
  front-end event to JavaScript event mapping, the Accept-Language list, the
  sub-process path, the local-file dialog's default directory, the cookie
  manager registry, the property callbacks and the once-only initialisation.
- **CrashHandler** (`crash_handler.dfy`): the pure parts of the crash handler.
  These are the stack walker's per-frame bookkeeping, the timestamped file name,
  the choice of the log file to delete, the window capture's colour table and
  row arithmetic, and the blacklist that picks the files of the crash package.
- **Common** (`common.dfy`): the shared vocabulary. It holds `Option`, a JSON
  value, searching and removing in sequences, ASCII lower case, and decimal
  formatting with its parser.

Things the code gets from its environment are parameters of the model:

- the UUID generator;
- `Json::dump` and `CefWriteJSON`;
- `ParseStreamElementsOverlayURL`;
- the current scene;
- the outcomes of `read()` and `write()`;
- the browser message handler's verdict;
- the clock, the directory listing with its `stat()` results, and the MaxLogs
  setting.

C++ integer widths are written out where they matter: DWORD arithmetic in the
bitmap header, the `(int)` casts of the scene size, and the `unsigned int` cast
of MaxLogs.

## Model

| member | source | states |
|---|---|---|
| WorkerManager.NewUuid | streamelements/StreamElementsWorkerManager.cpp:143-145 | the generated id is non-empty and not yet in the registry |
| WorkerManager.Add | streamelements/StreamElementsWorkerManager.cpp:134-151 | the returned id is the requested one unless that is empty or taken, in which case it is the UUID; the id is new, maps to the worker, and every other entry is unchanged |
| WorkerManager.Remove | streamelements/StreamElementsWorkerManager.cpp:153-164 | exactly the given id leaves the registry; a missing id changes nothing |
| WorkerManager.RemoveIdempotent | streamelements/StreamElementsWorkerManager.cpp:153-164 | removing an id twice is the same as removing it once |
| WorkerManager.RemoveUndoesAdd | streamelements/StreamElementsWorkerManager.cpp:134-164 | removing the id Add returned gives back the registry from before the Add |
| WorkerManager.RemoveAll | streamelements/StreamElementsWorkerManager.cpp:125-132 | the loop that removes the first entry until none is left ends with an empty registry |
| WorkerManager.GetContent | streamelements/StreamElementsWorkerManager.cpp:166-175 | the stored content of a known id, the empty string for an unknown one |
| WorkerManager.GetContentAfterAdd | streamelements/StreamElementsWorkerManager.cpp:134-175 | after Add the new id reads back the added content and every other id reads what it read before |
| WorkerManager.GetContentAfterRemove | streamelements/StreamElementsWorkerManager.cpp:153-175 | after Remove the id reads as the empty string |
| WorkerManager.GetIdentifiers | streamelements/StreamElementsWorkerManager.cpp:177-185 | the output vector keeps its old contents and gains each registered id exactly once, in ascending order |
| WorkerManager.Serialize | streamelements/StreamElementsWorkerManager.cpp:187-208 | a dictionary with one item per worker, keyed by its id, holding id, content, url and executeJavaScriptOnLoad |
| WorkerManager.SerializeOne | streamelements/StreamElementsWorkerManager.cpp:254-269 | the item of one registered worker is a dictionary whose id is the worker's id and which parses back to the stored worker |
| WorkerManager.ParseItem | streamelements/StreamElementsWorkerManager.cpp:222-244 | an item is accepted exactly when it is a dictionary with content and url; a string executeJavaScriptOnLoad becomes the worker's on-load script, and anything else leaves it empty |
| WorkerManager.DeserializeEntry | streamelements/StreamElementsWorkerManager.cpp:219-248 | one dictionary entry: a rejected item changes nothing; an accepted one is added under a fresh id, which is its key when that key is free |
| WorkerManager.Deserialize | streamelements/StreamElementsWorkerManager.cpp:210-252 | a non-dictionary input changes nothing; otherwise each accepted item lands under its own fresh id, old workers stay, nothing else is added, and when all keys are free the result is the old registry plus the accepted items |
| WorkerManager.PlacementComplete | streamelements/StreamElementsWorkerManager.cpp:219-249 | once every key is visited, exactly the accepted keys are placed, each under a fresh id holding its worker |
| WorkerManager.KeysKeptResult | streamelements/StreamElementsWorkerManager.cpp:219-249 | when every accepted key is free, the loop's result is the old registry plus the accepted items under their own keys |
| WorkerManager.AddStep | streamelements/StreamElementsWorkerManager.cpp:246-247 | one Add inside the loop keeps the placement invariant |
| WorkerManager.SkipStep | streamelements/StreamElementsWorkerManager.cpp:225-226 | a rejected item keeps the placement invariant |
| WorkerManager.AddStepStored | streamelements/StreamElementsWorkerManager.cpp:246-247 | the item just added reads back as its parsed worker and placements stay one-to-one |
| WorkerManager.AddStepCovered | streamelements/StreamElementsWorkerManager.cpp:246-247 | every id in the registry is still an old id or a placed one |
| WorkerManager.DeserializeOne | streamelements/StreamElementsWorkerManager.cpp:271-302 | an item without content or url gives "" and no change; otherwise it is added under its "id" when that is free, else under a fresh UUID |
| WorkerManager.ParseItemValue | streamelements/StreamElementsWorkerManager.cpp:194-207 | parsing the item Serialize writes for a worker gives back that worker |
| WorkerManager.SerializeAccepted | streamelements/StreamElementsWorkerManager.cpp:187-252 | every item Serialize writes is accepted by Deserialize and parses back to the worker it came from |
| WorkerManager.SerializeRoundTrip | streamelements/StreamElementsWorkerManager.cpp:187-252 | deserialising the serialised registry into an empty manager rebuilds the same registry |
| WorkerManager.SerializeOneRoundTrip | streamelements/StreamElementsWorkerManager.cpp:254-302 | DeserializeOne of SerializeOne's item into an empty manager restores the worker under its original id |
| CefClient.AtomicIncrement | streamelements/StreamElementsCefClient.cpp:105 | the counter goes up by one and the new value is the client's id |
| CefClient.ConstructClients | streamelements/StreamElementsCefClient.cpp:94-109 | n clients constructed in turn get strictly increasing ids above the old counter, which ends n higher |
| CefClient.SanitizeUrl | streamelements/StreamElementsCefClient.cpp:119-133 | a data: URL longer than five characters becomes "data:HIDDEN"; any other URL is cut just before its first '#', and a URL without '#' is unchanged |
| CefClient.SanitizeUrlIdempotent | streamelements/StreamElementsCefClient.cpp:119-133 | sanitising twice is the same as sanitising once |
| CefClient.OnProcessMessageReceived | streamelements/StreamElementsCefClient.cpp:251-300 | getCurrentScene and getStatus are answered with one executeCallback carrying the caller's callback id and the dumped JSON; other messages are handled exactly when the message handler accepts them, and they get no reply |
| CefClient.ReplyEchoesCorrelation | streamelements/StreamElementsCefClient.cpp:290-297 | the single reply carries the request's first argument back as its first argument |
| CefClient.DelegatedMessagesGetNoReply | streamelements/StreamElementsCefClient.cpp:270-288 | a message not answered locally sends nothing and returns the handler's verdict |
| CefClient.OnAfterCreated | streamelements/StreamElementsCefClient.cpp:353-365 | the browser is appended to the list |
| CefClient.OnBeforeClose | streamelements/StreamElementsCefClient.cpp:367-379 | the first entry of the browser leaves the list and the others keep their order; an unknown browser changes nothing |
| CefClient.CloseUndoesCreate | streamelements/StreamElementsCefClient.cpp:353-379 | closing a browser just created gives back the same multiset of browsers, and the same list when it was not listed before |
| CefClient.CreateTwiceListsTwice | streamelements/StreamElementsCefClient.cpp:353-365 | the list is not a set: a browser created twice is listed twice |
| CefClient.DispatchJSEvent | streamelements/StreamElementsCefClient.cpp:381-395 | one DispatchJSEvent message with the event name and arguments per listed browser, in list order |
| CefClient.BroadcastReachesEachBrowser | streamelements/StreamElementsCefClient.cpp:381-395 | each browser receives as many messages as it has entries in the list |
| CefClient.DispatchJSEventTo | streamelements/StreamElementsCefClient.cpp:397-412 | a null browser gets nothing; otherwise exactly one message goes to that browser |
| CefClient.OnLoadEnd | streamelements/StreamElementsCefClient.cpp:150-180 | the on-load script runs exactly when it is non-empty and the frame is the main frame, at the frame's URL from line 0 |
| CefClient.OnLoadEndOnlyMainFrame | streamelements/StreamElementsCefClient.cpp:150-180 | a sub-frame never runs the on-load script, and main frames finishing the same URL run the same script |
| CefClient.OnLoadError | streamelements/StreamElementsCefClient.cpp:182-235 | a page is loaded exactly for a main frame whose error is not ERR_ABORTED, at the failed URL; it is error.html, or the built-in page when that is empty, with the placeholders replaced by the error text ("UNKNOWN (code)" when there is none) and the URL |
| CefClient.PlaceholderMatches | streamelements/StreamElementsCefClient.cpp:226-232 | the pattern matches the placeholder text it stands for |
| CefClient.OtherPlaceholderDiffers | streamelements/StreamElementsCefClient.cpp:226-232 | it does not match a placeholder for a field that starts with another letter |
| CefClient.ReplaceAll | streamelements/StreamElementsCefClient.cpp:226-232 | every match of the pattern, scanning left to right without overlap, is replaced by the text; its properties are the lemmas below |
| CefClient.ReplaceWithoutMatchIsIdentity | streamelements/StreamElementsCefClient.cpp:226-232 | a string in which the pattern matches at no position comes back unchanged |
| CefClient.ReplaceSkipsPlainText | streamelements/StreamElementsCefClient.cpp:226-232 | text without '$' passes through the replacement untouched, in front of whatever follows |
| CefClient.ReplaceLeavesPlainText | streamelements/StreamElementsCefClient.cpp:226-232 | a string without '$' is left unchanged |
| CefClient.ReplaceOnePlaceholder | streamelements/StreamElementsCefClient.cpp:226-232 | a placeholder for the field is replaced and scanning resumes after it; one for another field is kept |
| CefClient.RenderCodeAndUrl | streamelements/StreamElementsCefClient.cpp:226-232 | a page with one code placeholder and one url placeholder renders with the error in the first and the URL in the second |
| CefClient.DefaultErrorPageRendering | streamelements/StreamElementsCefClient.cpp:212-232 | the built-in page renders as the heading, the error and the URL |
| PipeHandler.NewConn | streamelements/deps/server/NamedPipesServerClientHandler.cpp:9-21 | a new handler holds the two descriptors and empty queues |
| PipeHandler.IsConnected | streamelements/deps/server/NamedPipesServerClientHandler.cpp:38-41 | a handler is connected exactly when its read descriptor is valid; the write descriptor is not consulted |
| PipeHandler.ConnectionFollowsReadEnd | streamelements/deps/server/NamedPipesServerClientHandler.cpp:38-41 | whether a handler is connected depends on its read descriptor alone: changing or invalidating the write descriptor leaves it as it was |
| PipeHandler.Disconnect | streamelements/deps/server/NamedPipesServerClientHandler.cpp:43-57 | a connected handler closes both descriptors, in order, and marks them -1; a disconnected one is unchanged; the queues stay as they were |
| PipeHandler.DisconnectIdempotent | streamelements/deps/server/NamedPipesServerClientHandler.cpp:43-57 | disconnecting twice is the same as disconnecting once |
| PipeHandler.WriteMessage | streamelements/deps/server/NamedPipesServerClientHandler.cpp:59-68 | a connected handler queues a copy of the first `length` bytes and answers true; a disconnected one answers false and changes nothing |
| PipeHandler.ReadStepAsWritten | streamelements/deps/server/NamedPipesServerClientHandler.cpp:138-148 | the read as written: a failed read disconnects; any other read, end of file included, queues an empty message |
| PipeHandler.ReadAsWrittenDropsData | streamelements/deps/server/NamedPipesServerClientHandler.cpp:138-145 | the bytes read never reach the inbound queue, and end of file leaves the handler connected |
| PipeHandler.ReadStep | streamelements/deps/server/NamedPipesServerClientHandler.cpp:138-148 | the corrected read: failure and end of file disconnect, and the bytes read are queued |
| PipeHandler.WriteStep | streamelements/deps/server/NamedPipesServerClientHandler.cpp:151-169 | a connected handler with queued output writes the oldest message and disconnects exactly when the write fails |
| PipeHandler.ReadLoopAsWritten | streamelements/deps/server/NamedPipesServerClientHandler.cpp:88-149 | the inner loop is left only by disconnecting; by then it has queued only empty messages and written nothing |
| PipeHandler.ThreadPassAsWritten | streamelements/deps/server/NamedPipesServerClientHandler.cpp:84-174 | a pass of the outer loop finishes exactly when the inner read loop does |
| PipeHandler.ThreadPassAsWrittenNeverWrites | streamelements/deps/server/NamedPipesServerClientHandler.cpp:84-174 | a finished pass has written nothing, queued only empty messages, and left the handler disconnected |
| PipeHandler.IoStep | streamelements/deps/server/NamedPipesServerClientHandler.cpp:84-174 | the corrected pass: one read, then the oldest queued message is written |
| PipeHandler.IoRunDrainsInOrder | streamelements/deps/server/NamedPipesServerClientHandler.cpp:84-174 | with reads that bring data and writes that succeed, n passes write the first n queued messages in order and stay connected |
| PipeHandler.WrittenInSendOrder | streamelements/deps/server/NamedPipesServerClientHandler.cpp:59-174 | two messages given to WriteMessage are written to the pipe in the order they were sent |
| PipeHandler.CallbackStep | streamelements/deps/server/NamedPipesServerClientHandler.cpp:70-80 | while connected, the oldest inbound message goes to the handler; otherwise nothing happens |
| PipeHandler.CallbackRunDeliversInOrder | streamelements/deps/server/NamedPipesServerClientHandler.cpp:70-80 | n callback passes deliver the first n inbound messages in order |
| PipeHandler.ReadThenDeliver | streamelements/deps/server/NamedPipesServerClientHandler.cpp:70-149 | with the corrected read, the bytes read are what the message handler receives |
| BrowserPlugin.FixedEventNamesDistinct | obs-browser-plugin.cpp:648-719 | different front-end events are dispatched under different JavaScript names |
| BrowserPlugin.FixedEventNameIsNotSceneChange | obs-browser-plugin.cpp:648-719 | no fixed event is dispatched as obsSceneChanged |
| BrowserPlugin.Int32Of | obs-browser-plugin.cpp:708-709 | the `(int)` cast of a 32-bit unsigned size is the value in int range that is congruent to it modulo 2^32 |
| BrowserPlugin.HandleFrontendEvent | obs-browser-plugin.cpp:648-719 | each named event is dispatched with empty arguments; a scene change is dispatched only when there is a current scene with a name, carrying the scene's JSON; other events dispatch nothing |
| BrowserPlugin.DispatchedNameIdentifiesEvent | obs-browser-plugin.cpp:648-719 | the dispatched event name determines the front-end event |
| BrowserPlugin.AcceptLanguage | obs-browser-plugin.cpp:451-459 | the list begins with the locale and a comma unless the locale is en-US, and always ends with "en-US,en" |
| BrowserPlugin.AcceptLanguageRoundTrip | obs-browser-plugin.cpp:451-459 | the locale can be read back from the list it produced |
| BrowserPlugin.AcceptLanguageInjective | obs-browser-plugin.cpp:451-459 | different locales give different Accept-Language lists |
| BrowserPlugin.DirPrefix | obs-browser-plugin.cpp:425 | the path up to and including its last '/', or "" when there is none |
| BrowserPlugin.DirPrefixIdempotent | obs-browser-plugin.cpp:425 | taking the directory prefix twice is the same as taking it once |
| BrowserPlugin.SubprocessPath | obs-browser-plugin.cpp:424-428 | the module's directory followed by "//obs-browser-page", with ".exe" on Windows |
| BrowserPlugin.DefaultLocalDir | obs-browser-plugin.cpp:350-358 | no default for an empty URL; otherwise the URL with '\' turned into '/' and cut after its last '/', or the whole URL when it has no '/' |
| BrowserPlugin.DefaultLocalDirIdempotent | obs-browser-plugin.cpp:350-358 | applying the default-directory rule to its own result changes nothing |
| BrowserPlugin.RegisterCookieManager | obs-browser-plugin.cpp:259-267 | a null manager is ignored; any other is appended |
| BrowserPlugin.UnregisterCookieManager | obs-browser-plugin.cpp:269-285 | a non-null manager is flushed and then its first registration is erased, the remaining managers keeping their order |
| BrowserPlugin.UnregisterUndoesRegister | obs-browser-plugin.cpp:259-285 | unregistering a manager just registered gives back the same multiset of managers, the very same list when it was not registered before, and records one flush |
| BrowserPlugin.FlushCookieManagers | obs-browser-plugin.cpp:250-257 | every registered manager is flushed once, in registration order, and the registry is unchanged |
| BrowserPlugin.OnUrlModified | obs-browser-plugin.cpp:78-119 | the edit-overlay button is shown exactly for a non-local overlay URL, and a refresh is requested exactly when its visibility changed |
| BrowserPlugin.OnUrlModifiedSettles | obs-browser-plugin.cpp:78-119 | a second call with the same settings asks for no refresh |
| BrowserPlugin.IsLocalFileModified | obs-browser-plugin.cpp:314-328 | the URL field shows exactly for a non-local source and the file field exactly for a local one; the overlay button is re-evaluated |
| BrowserPlugin.LocalFileHidesOverlayButton | obs-browser-plugin.cpp:78-119 | a local-file source never shows the edit-overlay button, and exactly one of URL and file is visible |
| BrowserPlugin.IsFpsCustom | obs-browser-plugin.cpp:330-338 | the FPS field shows exactly when a custom frame rate is chosen |
| BrowserPlugin.Initialize | obs-browser-plugin.cpp:534-543 | the first call starts the browser thread; later calls do nothing |
| BrowserPlugin.InitializeStartsOnce | obs-browser-plugin.cpp:534-543 | any number of calls from the fresh state start the browser exactly once |
| BrowserPlugin.InitializedStaysPut | obs-browser-plugin.cpp:534-543 | once initialised, further calls change nothing |
| CrashHandler.OnCallstackEntryAsWritten | streamelements/StreamElementsCrashHandler.cpp:77-107 | the per-frame bookkeeping as written: frames at offset 0 are skipped, others append their line, and the flag is set when some filter's name differs from the module name |
| CrashHandler.OnCallstackEntry | streamelements/StreamElementsCrashHandler.cpp:77-107 | the corrected bookkeeping: the flag is set when the module is one of the modules of interest, ignoring case |
| CrashHandler.WalkKeepsFlag | streamelements/StreamElementsCrashHandler.cpp:98-110 | once set, the flag stays set for the rest of the walk, and frames at offset 0 leave the walker unchanged |
| CrashHandler.StricmpTestIsInverted | streamelements/StreamElementsCrashHandler.cpp:98-106 | with one filter naming the frame's module, the corrected test sets the flag and the one as written does not; with a filter naming another module it is the other way round |
| CrashHandler.GenerateTimeDateFilename | streamelements/StreamElementsCrashHandler.cpp:136-150 | the formatted time, cut to the 255 characters the buffer holds |
| CrashHandler.FilenameFieldsReadBack | streamelements/StreamElementsCrashHandler.cpp:144-147 | for an ordinary date the year, month, day, hour, minute and second parse back from fixed places, with the separator and extension as asked |
| CrashHandler.CountedEntries | streamelements/StreamElementsCrashHandler.cpp:171-190 | the number of counted entries, zero exactly when no entry counts |
| CrashHandler.OldestAsWritten | streamelements/StreamElementsCrashHandler.cpp:160-190 | the candidate as written: with the signed -1 sentinel, no file with a non-negative change time is ever selected |
| CrashHandler.MaxLogs | streamelements/StreamElementsCrashHandler.cpp:164-165 | the configured limit read into a 32-bit unsigned: the value below 2^32 congruent to it, and the value itself when it fits |
| CrashHandler.DeleteOldestFileAsWritten | streamelements/StreamElementsCrashHandler.cpp:152-198 | something is unlinked exactly when more files are counted than MaxLogs allows, and it is the empty path whenever no counted file changed before 1970 |
| CrashHandler.OldestIndex | streamelements/StreamElementsCrashHandler.cpp:171-190 | the first counted entry with the smallest change time, or none when nothing counts |
| CrashHandler.DeleteOldestFile | streamelements/StreamElementsCrashHandler.cpp:152-198 | the corrected deletion: when more files are counted than MaxLogs allows, the first counted file with the smallest change time is unlinked |
| CrashHandler.DeleteOldestSentinelNeverMatches | streamelements/StreamElementsCrashHandler.cpp:161-196 | one log file and MaxLogs 0: the source unlinks "", the corrected version the file |
| CrashHandler.ColorTableEntries | streamelements/StreamElementsCrashHandler.cpp:461-486 | 2^bits colours for 1, 4 and 8 bits, none for 16, 24 and 32, and failure for any other depth |
| CrashHandler.RowStride | streamelements/StreamElementsCrashHandler.cpp:525-529 | the row length in DWORD arithmetic is a multiple of four below 2^32 |
| CrashHandler.RowStrideHoldsRow | streamelements/StreamElementsCrashHandler.cpp:525-529 | without wrap-around it is the least multiple of four bytes that holds the row's bits |
| CrashHandler.SizeImage | streamelements/StreamElementsCrashHandler.cpp:531 | the image size is stride times height modulo 2^32, still a multiple of four, and exact when it fits |
| CrashHandler.CaptureHeader | streamelements/StreamElementsCrashHandler.cpp:459-532 | an unsupported depth gives up; otherwise the header block is 40 bytes plus four per colour, and the image size is a multiple of four below 2^32 |
| CrashHandler.MainWindowCaptureHoldsImage | streamelements/StreamElementsCrashHandler.cpp:601-605 | the 24-bit capture of the main window has no colour table, and for sides up to 32767 pixels its image size is the row length times the height, enough for every pixel |
| CrashHandler.NormalizeZipPath | streamelements/StreamElementsCrashHandler.cpp:643-651 | each character lower-cased and '\' turned into '/', length kept |
| CrashHandler.Accepts | streamelements/StreamElementsCrashHandler.cpp:653-663 | a path is accepted exactly when no blacklist entry is a prefix of it |
| CrashHandler.ZipEntry | streamelements/StreamElementsCrashHandler.cpp:638-668 | an accepted file is packaged as "obs-studio\" followed by its relative path as spelt on disk |
| CrashHandler.CollectFiles | streamelements/StreamElementsCrashHandler.cpp:634-670 | the map holds exactly the accepted files, each with its package path |
| CrashHandler.ZipEntryLeavesOutCrashDumps | streamelements/StreamElementsCrashHandler.cpp:632-663 | a file under Crashes\ is left out whatever the case of its path |
| Common.RemoveFirst | obs-browser-plugin.cpp:278-284 | the first occurrence is removed and the multiset loses one copy of the element |
| Common.NatToString | streamelements/StreamElementsCrashHandler.cpp:93 | decimal digits that parse back to the number |

## Left out

- Threads, mutexes, sleeps, the lock-free queues, Qt widgets and every CEF, OBS
  and Win32 call are not modelled; each becomes a pure step or a parameter.
  Concurrency between the I/O thread, the callback thread and WriteMessage is
  not modelled either.
- StreamElementsMenuManager, the performance history tracker and the backup
  manager are not part of this model.
- BrowserInit/BrowserShutdown beyond the Accept-Language list and the
  sub-process path are not modelled. The same goes for check_hwaccel_support,
  adapter enumeration, `obs_module_load`/`unload`, source registration, the
  edit-overlay click handler and `OnPreKeyEvent`. They are configuration calls
  into OBS and CEF.
- The crash handler's exception filter, BugSplat, minidump writing, the crash
  report file, zip writing, the GDI capture itself and `HasRandomMatch` are not
  modelled. The initial random flag is the walker's starting state.
- `ParseStreamElementsOverlayURL`, JSON serialisation and `CefWriteJSON` are
  parameters.
- WorkerManager.SerializeOne: requires a registered id. For any other id the
  source calls `m_items[id]`, which inserts a null pointer and dereferences it.
- WorkerManager.Deserialize: requires the manager's invariant that no worker
  is stored under the empty id. Every Add keeps it.
- CefClient.ConstructClients: the `long` counter is unbounded here, so
  wrap-around after 2^31 clients is not modelled.
- CefClient.ReplaceAll: `$&`, `$1`… escapes in the replacement text, which
  `std::regex_replace` would expand, are not modelled. The replacement is
  inserted literally.
- CefClient.OnProcessMessageReceived: calls into the message bus and the
  handler's own replies are not modelled. Only its verdict is a parameter.
- PipeHandler.WriteStep: partial writes are not modelled. A write either
  succeeds whole or fails.
- CrashHandler.NormalizeZipPath: `towlower` is modelled for ASCII letters only.
- CrashHandler.DeleteOldestFile: the `unsigned int` count is unbounded, so
  wrap-around after 2^32 files is not modelled.
- CrashHandler.ZipEntry: requires the file's path to be longer than the data
  directory's; for a shorter one `substr` throws.

## Findings

| source | as written | input that shows it | evidently intended | confidence | as-written member | corrected member |
|---|---|---|---|---|---|---|
| streamelements/deps/server/NamedPipesServerClientHandler.cpp:140 | enqueues `std::vector<char>(buffer, buffer)`, an empty message, whatever `read()` returned | any successful read of n > 0 bytes | enqueue the n bytes read | high, not executed | PipeHandler.ReadAsWrittenDropsData | PipeHandler.ReadThenDeliver |
| streamelements/deps/server/NamedPipesServerClientHandler.cpp:139 | only -1 counts as failure, so end of file (0) keeps the connection open | the peer closes its end and `read()` returns 0 | treat end of file as a disconnect | medium, not executed | PipeHandler.ReadAsWrittenDropsData | PipeHandler.ReadStep |
| streamelements/deps/server/NamedPipesServerClientHandler.cpp:88 | the inner loop runs while connected, so the write below it is reached only after a disconnect, when it is skipped | any message passed to WriteMessage while connected | read, then write one queued message on each pass | high, not executed | PipeHandler.ThreadPassAsWrittenNeverWrites | PipeHandler.IoRunDrainsInOrder |
| streamelements/StreamElementsCrashHandler.cpp:161 | the sentinel `(time_t)-1` is -1 for the signed `time_t`, so `ts < oldest_ts` never holds for a real change time and the empty path is unlinked | one log file with change time 1000 and MaxLogs 0 | unlink the file with the oldest change time | high, not executed | CrashHandler.DeleteOldestSentinelNeverMatches | CrashHandler.DeleteOldestFile |
| streamelements/StreamElementsCrashHandler.cpp:100 | `stricmp(...)` is used as a truth value, so it is true when the names differ | filter "obs-browser.dll" and a frame in "OBS-Browser.dll" does not set the flag; a frame in any other module does | set the flag when the module is a module of interest, ignoring case | high, not executed | CrashHandler.StricmpTestIsInverted | CrashHandler.OnCallstackEntry |
