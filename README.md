# electron-file-sync, modelled in Dafny

This project models the synchronizing core of electron-file-sync. The
application compares a local directory tree with a remote one reached over
SFTP. The model covers:

- **Ignore filtering and entry classification** (src/utils/sync.js).
  - The ignore text of a session is trimmed and split into lines of
    patterns.
  - A file is ignored when some pattern occurs anywhere in its root-relative
    path. Before the search the pattern is normalized, `.`, `/` and `\` are
    escaped, and `*` becomes `.*`.
  - A directory is ignored only when its name plus `/` equals a normalized
    pattern exactly.
  - Entries are classified by the type bits of their mode (`mode & 0xF000`).
- **The two tree walks** of src/utils/sync.js, over an in-memory tree of
  directory entries in `readdir` order. Each walk visits entries one at a
  time. It pushes files that are not ignored. For a directory that is not
  ignored (recursive sessions only) it pushes the directory's entry and then
  the directory's own listing.
- **The synchronizer's module state** (`init`, `readSyncIgnoreList`,
  `getRemoteFileList`, `getLocalFileList`), as a class whose fields those
  operations reassign.
- **The two record stores** (src/utils/storage.js and src/common/storage.js).
  Targets, sessions and, in the first store, settings are sequences of
  documents keyed by `id`. A save copies a fixed set of fields into the
  document with the same id, or inserts the record. A delete removes the
  document it finds.
- **The main window's rules** (src/controllers/MainWindowController.js):
  - the map of active sessions, `endSession`, `getSessionConfig` and the
    message handler (`start-session`, `session-changed`, `target-changed`);
  - the session panel's filter sets, its `send` flags, and the decision the
    `sessionConfig` watcher takes.

Modules, file by file:

| file | module | what it holds |
|---|---|---|
| wrappers.dfy | `Wrappers` | `Option`, `Result` |
| text.dfy | `Text` | JavaScript's `trim`, and `split`/`join` on one character |
| paths.dfy | `Paths` | POSIX `path.normalize`, `path.basename`, child paths, the backslash-to-slash rewrite |
| sync_ignore.dfy | `SyncIgnore` | `readSyncIgnoreList`'s list, the pattern language, `isFileIgnored`, `isDirectoryIgnored` |
| sync_listing.dfy | `SyncListing` | `isFile`, `isDirectory`, the walks and their reference definition |
| sync_state.dfy | `Sync` | the synchronizer's state and its four exported operations |
| records.dfy | `Records` | documents, `findOne`, upsert and remove, shared by both stores |
| utils_storage.dfy | `UtilsStorage` | src/utils/storage.js |
| common_storage.dfy | `CommonStorage` | src/common/storage.js |
| session_panel.dfy | `SessionDirective` | the `mySession` directive |
| main_window.dfy | `MainWindow` | `MainWindowController` |

Each walk is a method. It is proved equal to a ghost reference definition,
`DirVisits`, over the tree, and the listed properties are lemmas about that
definition. The same pattern applies to `isFileIgnored`: the method is
proved against `FileIgnored`, and `FileIgnored` is connected to the source's
backtracking search by `SearchCorrect` and `MatchesPrefixCorrect`.

The model follows the code in these points:

- The listings are not sorted. They come back in `readdir` order, pre-order.
- Both walks are sequential (`async.eachSeries` on both sides).
- A key file is used whenever `keyfilePath !== null`, and the empty path
  counts. The empty path is the target form's default
  (src/controllers/TargetWindowController.js:21). Reading it throws
  (src/utils/sync.js:32) after `init` has stored the session and before it
  connects. `Init` has no outcome of its own for this: it is the outcome
  `NeverReady`, which leaves the same state (session stored, connection not
  established, SFTP session as before).
- Ignore text made only of whitespace does not yield "no patterns". It
  yields the pattern `""`, and so does an empty line between two patterns.
  The pattern `""` normalizes to `.` and so ignores every file whose
  relative path contains a dot.
- The lines are not trimmed one by one. A line of spaces between two
  patterns yields a pattern of spaces, and text with CRLF line ends yields
  patterns that end in `\r`.
- The main process's store is reached through Electron's `remote` module,
  so every lookup of `getSessionConfig` answers in a callback that runs after
  the message handler has returned. In `target-changed` the loop therefore
  starts every reload before any of them answers. A session gone from the
  store makes its own callback throw, after storing null; that does not
  stop the loop. Only a slot that is already null stops the loop, when its
  `targetId` is read. The model applies each lookup where the loop starts
  it. That gives the same final map, because the loop reads each key once
  and each callback writes only its own key.
- The local walk classifies entries with `stats.isFile()` and
  `stats.isDirectory()`. The model reads the same type bits of the mode for
  both sides.

## Model

| member | source | states |
|---|---|---|
| Text.Trim | src/utils/sync.js:59 | the result is a slice of the text with only whitespace removed at either end, and it is empty or starts and ends with a non-whitespace character |
| Text.TrimIdempotent | src/utils/sync.js:59 | trimming a trimmed text changes nothing |
| Text.Split | src/utils/sync.js:59 | `split` yields at least one piece, and no piece contains the separator |
| Text.JoinSplit | src/utils/sync.js:59 | joining the pieces of a split with the separator gives back the text |
| Text.SplitJoin | src/utils/sync.js:59 | splitting the join of separator-free pieces gives back the pieces |
| Text.SplitAppend | src/utils/sync.js:59 | splitting `a + sep + b` is splitting `a` followed by splitting `b` |
| Paths.Normalize | src/utils/sync.js:69 | `path.normalize` never yields the empty string, keeps a leading `/` and keeps a trailing `/`; NormalizeIdempotent, NormalizeName and NormalizeCharacters below state the rest of what it does |
| Paths.ChildPath | src/utils/sync.js:124-126 | no contract of its own: the relative path of an entry, its name below the root and `directory/name` deeper; UnderChild, SlashedChildPath and BasenameChildPath state that it lies under its directory, rewrites part by part and has the entry's name as its basename |
| Paths.Slashed | src/utils/sync.js:127-128 | `split('\\').join('/')` keeps the length and replaces each backslash by a slash, every other character staying put |
| Paths.SlashedProperties | src/utils/sync.js:127-128 | the rewritten name holds no backslash, and a name without backslashes is unchanged |
| Paths.SlashedChildPath | src/utils/sync.js:126-128 | rewriting a child path rewrites the directory part and the name separately |
| Paths.Basename | src/utils/sync.js:83 | a basename holds no `/` |
| Paths.BasenameChildPath | src/utils/sync.js:83 | the basename of a child's path is the child's name |
| Paths.NormalizeDirectoryName | src/utils/sync.js:83 | a single name followed by `/` is its own normal form |
| Paths.NormalizeCharacters | src/utils/sync.js:69 | normalizing adds no character other than `.` and `/` |
| Paths.NormalizeName | src/utils/sync.js:69 | a single valid name is its own normal form |
| Paths.NormalizeIdempotent | src/utils/sync.js:69 | normalizing a normalized path changes nothing |
| Paths.NormalizeEmptyForms | src/utils/sync.js:69 | `/`, `./` and `.`, the forms of a path whose segments all vanish, are their own normal forms |
| SyncIgnore.IgnoreListFromText | src/utils/sync.js:56-63 | non-empty ignore text yields at least one pattern, none holds a newline, and joining them with newlines gives the trimmed text |
| SyncIgnore.IgnoreListKeptWithoutText | src/utils/sync.js:57-60 | absent or empty ignore text leaves the previous list in place |
| SyncIgnore.IgnoreListRoundTrip | src/utils/sync.js:56-63 | patterns written one per line, without leading or trailing whitespace, read back as the same patterns |
| SyncIgnore.WhitespaceTextYieldsEmptyPattern | src/utils/sync.js:58-59 | non-empty text made only of whitespace yields exactly the pattern `""` |
| SyncIgnore.BlankLineYieldsEmptyPattern | src/utils/sync.js:59 | an empty line between two patterns yields the pattern `""` |
| SyncIgnore.PlainNormalize | src/utils/sync.js:69-72 | a pattern without regular-expression operators keeps none after normalizing, so the text the source escapes and compiles stays inside the modelled subset |
| SyncIgnore.Compile | src/utils/sync.js:70-71 | the escaped pattern as tokens: one token per character, `*` becoming the wildcard and every other character, the escaped `.`, `/` and `\` included, standing for itself |
| SyncIgnore.Search | src/utils/sync.js:73 | no contract of its own: `filepath.search(re) !== -1`; SearchCorrect below proves it holds exactly when some contiguous substring of the path is in the pattern's language |
| SyncIgnore.MatchesPrefixCorrect | src/utils/sync.js:70-73 | the backtracking matcher accepts exactly when some prefix of the text is in the compiled pattern's language |
| SyncIgnore.SearchCorrect | src/utils/sync.js:72-73 | `search` finds the compiled pattern exactly when some contiguous part of the path is in its language (unanchored) |
| SyncIgnore.IsFileIgnored | src/utils/sync.js:65-79 | the loop answers true exactly when some pattern of the list ignores the path |
| SyncIgnore.FileIgnoredMonotone | src/utils/sync.js:65-78 | an empty list ignores nothing, and adding patterns before or after never un-ignores a file |
| SyncIgnore.PatternIgnoresEnclosingPath | src/utils/sync.js:72-73 | a pattern that ignores a path ignores every path containing it |
| SyncIgnore.LiteralMatches | src/utils/sync.js:70 | a star-free compiled pattern matches exactly its own text, `.`, `/` and `\` being literal |
| SyncIgnore.LiteralPatternIgnoresSubstring | src/utils/sync.js:69-73 | a pattern whose normal form has no star ignores exactly the paths that contain that normal form |
| SyncIgnore.StarMatchesAnyRun | src/utils/sync.js:71 | a lone `*` matches exactly the strings free of line terminators |
| SyncIgnore.StarThenLiteral | src/utils/sync.js:71 | `*` followed by a literal matches any line-terminator-free run followed by that literal |
| SyncIgnore.StarSuffixIgnores | src/utils/sync.js:69-73 | a pattern `*name` with a star-free single-segment name ignores every path that ends in `name` after a line-terminator-free run, at any depth |
| SyncIgnore.StarDotLogIgnoresNestedLog | src/utils/sync.js:69-73 | `*.log` ignores `a/b.log` |
| SyncIgnore.EmptyPatternIgnoresDottedPaths | src/utils/sync.js:69-73 | a list holding the pattern `""` ignores every path that contains a `.` |
| SyncIgnore.IsDirectoryIgnored | src/utils/sync.js:81-89 | the loop answers true exactly when the normalized basename plus `/` equals some normalized pattern |
| SyncIgnore.DirectoryIgnoredByName | src/utils/sync.js:83 | a directory below the root is ignored exactly when some pattern normalizes to its name followed by `/` |
| SyncIgnore.DirectoryPatternShape | src/utils/sync.js:83 | a pattern whose normal form does not end in `/`, or has more than one segment, never ignores a directory |
| SyncIgnore.DirectoryStarIsLiteral | src/utils/sync.js:83 | no wildcard applies to directories: `*/` ignores only a directory named `*` |
| SyncListing.IsFile | src/utils/sync.js:95-99 | a mode whose type bits say regular file is never also a directory |
| SyncListing.IsDirectory | src/utils/sync.js:101-105 | a mode whose type bits say directory does not have the regular-file type |
| SyncListing.ModeClassification | src/utils/sync.js:95-105 | no mode is both a file and a directory, and both tests depend only on `mode & 0xF000` |
| SyncListing.ModeExamples | src/utils/sync.js:95-105 | `0o100644` is a file, `0o40755` a directory, and `0o120777` (a symbolic link) neither |
| SyncListing.ModifiedUnix | src/utils/sync.js:203 | a local `modifiedUnix` is the millisecond mtime in whole seconds rounded down; a remote one (line 130) is the mtime unchanged |
| SyncListing.EntriesAt | src/utils/sync.js:125-131 | the file object at each position is built from the entry visited there |
| SyncListing.EntriesFacts | src/utils/sync.js:125-131 | every listed filename is free of backslashes and equals the relative path when that has none; the attributes are the entry's; `modifiedUnix` is the remote mtime, or the local one in seconds |
| SyncListing.EntriesAppend | src/utils/sync.js:147 | the file objects of two consecutive runs of visits are those of the first run followed by those of the second |
| SyncListing.ListDirectory | src/utils/sync.js:107-169 | the walk of a directory returns exactly the file objects of the reference listing, or its error: a failed remote `readdir` is an error, a failed local one an empty listing |
| SyncListing.ListChildren | src/utils/sync.js:120-166 | the series over a directory's entries pushes, entry after entry, exactly the reference listing, and stops at the first error |
| SyncListing.ListEntry | src/utils/sync.js:122-157 | one entry's step pushes exactly the reference step: a non-ignored file, or a non-ignored directory's entry followed by its own listing |
| SyncListing.ErrorPersists | src/utils/sync.js:158-161 | once the series has failed on a prefix of the entries it fails with the same error on all of them |
| SyncListing.ChildrenAppend | src/utils/sync.js:120-166 | the listing of consecutive runs of entries is the listing of the first run followed by that of the second, so entries appear in `readdir` order |
| SyncListing.UnderChild | src/utils/sync.js:126 | a child's path lies under its directory, and so does everything under the child |
| SyncListing.DirVisitsListed | src/utils/sync.js:123-155 | everything a walk pushes lies under its directory; a pushed file is not ignored; a pushed directory is a directory of a recursive session that no pattern names |
| SyncListing.DirectoryBlock | src/utils/sync.js:136-152 | a directory's step pushes the directory first and then only entries under it, so its subtree follows it contiguously; an ignored directory, or any directory in a non-recursive session, pushes nothing |
| SyncListing.SubtreeFailureDropped | src/utils/sync.js:146-149 | a subdirectory whose own walk fails contributes just its own entry, and the parent's walk carries on |
| SyncListing.StatFailureFailsDirectory | src/utils/sync.js:191-194 | the local series fails exactly when some entry cannot be stat'ed, and then with that error; the remote series never fails |
| SyncListing.NonRecursiveListsTopFiles | src/utils/sync.js:196-209 | without recursion the walk lists exactly the non-ignored regular files directly in the directory, in order |
| SyncListing.TopFilesAreFiles | src/utils/sync.js:123-136 | the non-recursive listing holds only regular files that no pattern ignores, each directly in the directory |
| Sync.ConnectOptionsFor | src/utils/sync.js:23-35 | the connection uses the target's host and user name, port 22 and ready timeout 99999, and a private key exactly when the key file path is not null, the password otherwise |
| Sync.Synchronizer.constructor | src/utils/sync.js:9-13 | no connection, no SFTP session, no session and no patterns at first |
| Sync.Synchronizer.Init | src/utils/sync.js:15-54 | `init` remembers the session, connects with its target's options, and counts the connection as established exactly when the SFTP channel opens |
| Sync.Synchronizer.ReadSyncIgnoreList | src/utils/sync.js:56-63 | the pattern list becomes the session's trimmed ignore lines, or stays as it was when the text is absent or empty |
| Sync.Synchronizer.GetRemoteFileList | src/utils/sync.js:171-180 | the pattern list is refreshed first, then the remote tree is walked from the remote root with the refreshed list |
| Sync.Synchronizer.GetLocalFileList | src/utils/sync.js:245-252 | the local tree is walked with whatever pattern list is in place, which is not refreshed |
| Records.Upsert | src/utils/storage.js:52-63 | no contract of its own: the save copies the fields into the document found by id, or appends the record; UpsertThenFind, UpsertFrame, UpsertOtherIds, UpsertKeepsIdsUnique and UpsertIdempotent below state what it does |
| Records.Remove | src/utils/storage.js:76-84 | no contract of its own: the delete removes the document found by id, if any; RemoveFrame, RemoveOtherIds, RemoveShape and RemoveKeepsIdsUnique below state what it does |
| Records.FindIndex | src/utils/storage.js:52 | the position found is the first one holding the id, and none is found only when no document holds it |
| Records.FindOne | src/utils/storage.js:73 | `findOne({ id })` yields a document of the collection with that id, and null exactly when the id is absent |
| Records.UpsertThenFind | src/utils/storage.js:51-74 | after a save the lookup finds the saved fields: in the old document, with its other properties kept, when the id was present; the whole record otherwise |
| Records.UpsertFrame | src/utils/storage.js:52-63 | a save keeps every document with another id where it was, keeps every id, and grows the collection by one only for a new id |
| Records.UpsertOtherIds | src/utils/storage.js:52-63 | a save changes the lookup of no other id |
| Records.UpsertKeepsIdsUnique | src/utils/storage.js:52-62 | a save keeps ids unique and adds exactly the saved id to the set of ids |
| Records.UpsertIdempotent | src/utils/storage.js:51-66 | saving the same record twice is saving it once |
| Records.RemoveFrame | src/utils/storage.js:76-84 | a delete of an absent id changes nothing, and a delete of a present id removes exactly one document holding it |
| Records.RemoveOtherIds | src/utils/storage.js:77-82 | a delete changes the lookup of no other id |
| Records.RemoveShape | src/utils/storage.js:79 | after a delete the documents before the one removed are unchanged and those after it move up by one |
| Records.RemoveKeepsIdsUnique | src/common/storage.js:54-62 | with unique ids a delete removes the id entirely, keeps ids unique and takes exactly that id out of the set of ids |
| Records.ApplyAllKeepsIdsUnique | src/common/storage.js:30-41 | ids stay unique across any sequence of saves and deletes |
| UtilsStorage.SettingsAfterLoad | src/utils/storage.js:23-45 | a failed load, or one without a settings collection, ends with exactly the default settings record, which `findOne` then yields; otherwise the loaded collection is kept |
| UtilsStorage.Storage.Init | src/utils/storage.js:10-49 | a failed load gives empty targets and sessions and the default settings record; a successful one keeps the loaded collections and adds the default record only when settings were missing |
| UtilsStorage.Storage.SaveTarget | src/utils/storage.js:51-66 | `saveTarget` upserts the target, after which `getTarget` yields its five fields; no other id's lookup changes, and unique ids stay unique |
| UtilsStorage.Storage.GetTarget | src/utils/storage.js:72-74 | `getTarget` yields the stored target with that id, or null exactly when there is none |
| UtilsStorage.Storage.DeleteTarget | src/utils/storage.js:76-84 | `deleteTarget` removes the target found, is a no-op for an absent id, changes no other id's lookup, and with unique ids leaves none with that id |
| UtilsStorage.Storage.SaveSession | src/utils/storage.js:86-102 | `saveSession` upserts the session, after which `getSession` yields its six fields; no other id's lookup changes, and unique ids stay unique |
| UtilsStorage.Storage.GetSession | src/utils/storage.js:108-110 | `getSession` yields the stored session with that id, or null exactly when there is none |
| UtilsStorage.Storage.DeleteSession | src/utils/storage.js:112-120 | `deleteSession` removes the session found, is a no-op for an absent id, changes no other id's lookup, and with unique ids leaves none with that id |
| UtilsStorage.Storage.GetSettings | src/utils/storage.js:122-124 | `getSettings` yields the record with id `default`, or null exactly when there is none |
| UtilsStorage.Storage.SaveSettings | src/utils/storage.js:126-140 | `saveSettings` always acts on the `default` record: it copies the three fields into it, or inserts the record with its id forced to `default` |
| CommonStorage.Storage.Init | src/common/storage.js:9-27 | a failed load gives empty targets and sessions; a successful one keeps the loaded collections |
| CommonStorage.Storage.SaveTarget | src/common/storage.js:29-44 | `saveTarget` upserts the target, after which `getTarget` yields its five fields; no other id's lookup changes, and unique ids stay unique |
| CommonStorage.Storage.GetTarget | src/common/storage.js:50-52 | `getTarget` yields the stored target with that id, or null exactly when there is none |
| CommonStorage.Storage.DeleteTarget | src/common/storage.js:54-62 | `deleteTarget` removes only the target found and is a no-op for an absent id |
| CommonStorage.Storage.SaveSession | src/common/storage.js:64-80 | `saveSession` upserts the session, after which `getSession` yields its six fields; no other id's lookup changes, and unique ids stay unique |
| CommonStorage.Storage.GetSession | src/common/storage.js:86-88 | `getSession` yields the stored session with that id, or null exactly when there is none |
| CommonStorage.Storage.DeleteSession | src/common/storage.js:90-98 | `deleteSession` removes only the session found and is a no-op for an absent id |
| SessionDirective.Sendable | src/controllers/MainWindowController.js:224-226 | no contract of its own: `files.filter(file => file.send)`; SendableMembers, SendableAppend, SendableIdempotent and SendableAllMarked below state that it keeps exactly the marked entries, in order |
| SessionDirective.SendableMembers | src/controllers/MainWindowController.js:224-226 | the filter passes on exactly the entries whose `send` is set, and never more entries than it was given |
| SessionDirective.SendableAppend | src/controllers/MainWindowController.js:278-280 | the filter keeps the original order: filtering a concatenation concatenates the filtered parts |
| SessionDirective.SendableIdempotent | src/controllers/MainWindowController.js:224-226 | filtering twice is filtering once |
| SessionDirective.SendableAllMarked | src/controllers/MainWindowController.js:216-218 | a list whose entries are all marked is passed on whole |
| SessionDirective.Watch | src/controllers/MainWindowController.js:100-127 | no contract of its own: the `$watch` listener's decision; WatchReconnectsIffKeyDiffers, RefreshKeepsConnection and WatchIgnoresMissing below state when it reconnects, refreshes, throws or does nothing |
| SessionDirective.WatchReconnectsIffKeyDiffers | src/controllers/MainWindowController.js:107-125 | a changed configuration reconnects exactly when the target id, host, user name, password or key file path differs, refreshes the lists otherwise, and throws when the target id is unchanged but a target is null |
| SessionDirective.RefreshKeepsConnection | src/controllers/MainWindowController.js:107-125 | when the watcher only refreshes the lists, both targets are present, the target id is unchanged, and `init` would connect with exactly the same options, so skipping the reconnection loses nothing |
| SessionDirective.WatchIgnoresMissing | src/controllers/MainWindowController.js:101-107 | nothing happens when either value is undefined or null, or when both are the same object |
| SessionDirective.SessionPanel.constructor | src/controllers/MainWindowController.js:97-98 | the panel starts with empty filter sets, no files and no progress bar |
| SessionDirective.SessionPanel.SelectLocalFilterFile | src/controllers/MainWindowController.js:148-154 | selecting adds the file name to the local set and deselecting removes it; no other name changes, and the remote set is untouched |
| SessionDirective.SessionPanel.SelectRemoteFilterFile | src/controllers/MainWindowController.js:156-162 | the same on the remote set, leaving the local set untouched |
| SessionDirective.SessionPanel.MarkAll | src/controllers/MainWindowController.js:216-218 | the loop sets every entry's `send` flag to the value and changes nothing else |
| SessionDirective.SessionPanel.SelectAll | src/controllers/MainWindowController.js:203-207 | every entry's `send` becomes the current `selectall` |
| SessionDirective.SessionPanel.GetListOfFilesToPush | src/controllers/MainWindowController.js:209-221 | after the push list arrives, the panel is pushing, `selectall` is set, every entry is marked, and the filter passes them all on |
| SessionDirective.SessionPanel.GetListOfFilesToPull | src/controllers/MainWindowController.js:263-275 | the same for a pull, with the panel marked as pulling |
| SessionDirective.SessionPanel.PushFiles | src/controllers/MainWindowController.js:223-230 | `pushFiles` shows the progress bar at zero and hands on exactly the marked entries, in order |
| SessionDirective.SessionPanel.PullFiles | src/controllers/MainWindowController.js:277-284 | `pullFiles` does the same for a pull |
| MainWindow.ConfigFor | src/controllers/MainWindowController.js:14-33 | the slot `getSessionConfig` stores is null exactly when the store has no such session, and otherwise holds that session with the target its `targetId` names |
| MainWindow.AddKey | src/controllers/MainWindowController.js:20 | storing under a key adds that key to the object's keys and no other |
| MainWindow.DropKey | src/controllers/MainWindowController.js:43 | deleting a key removes exactly that key from the object's keys |
| MainWindow.ReloadMatching | src/controllers/MainWindowController.js:64-74 | once every lookup the `target-changed` loop started has answered, the map has the same keys as before |
| MainWindow.ReloadMatchingFrame | src/controllers/MainWindowController.js:64-74 | the loop leaves every slot that does not belong to the changed target as it was |
| MainWindow.ReloadMatchingExact | src/controllers/MainWindowController.js:64-74 | let `n` be the position of the first null slot in key order, or the number of keys when there is none: the loop throws exactly when there is a null slot; some lookup throws exactly when a session of the changed target before position `n` is gone from the store; and exactly the sessions of the changed target before position `n` are reloaded, a gone one becoming null |
| MainWindow.Handled | src/controllers/MainWindowController.js:47-89 | no contract of its own: the reference message handler; UnknownMessageIgnored, SessionMessageReloadsOne and ReloadMatchingExact state its effect per command, and HandleMessage is proved equal to it |
| MainWindow.UnknownMessageIgnored | src/controllers/MainWindowController.js:85-86 | a message whose first word is not one of the three commands leaves the map alone |
| MainWindow.SessionMessageReloadsOne | src/controllers/MainWindowController.js:51-83 | `start-session x` and `session-changed x` store session `x`'s configuration under `x` and change no other slot; the handler does not throw, and the lookup throws in its callback exactly when `x` is not stored |
| MainWindow.MainWindowController.constructor | src/controllers/MainWindowController.js:10 | there are no active sessions at first |
| MainWindow.MainWindowController.EndSession | src/controllers/MainWindowController.js:40-45 | `endSession(id)` removes exactly the key `id` from the active sessions |
| MainWindow.MainWindowController.GetSessionConfig | src/controllers/MainWindowController.js:14-33 | `getSessionConfig` stores the session's configuration under its id, changes no other slot, and throws exactly when the session is not stored |
| MainWindow.MainWindowController.ReloadTarget | src/controllers/MainWindowController.js:63-75 | the loop over the active sessions in key order starts a reload of each session of the changed target and stops at the first null slot; the map, whether the loop threw and whether some reload threw are exactly those of the reference loop |
| MainWindow.MainWindowController.HandleMessage | src/controllers/MainWindowController.js:47-89 | the message handler yields exactly the map of the reference handler for the message's first word, and the same answers to whether the handler threw and whether a lookup it started threw; the key order gains the looked-up key for `start-session` and `session-changed` (`undefined` when the message has no second word) and is otherwise unchanged |

## Left out

- The SSH connection itself (`conn.connect`, `ready`, `conn.sftp`, `conn.end`) is network I/O. `Init` returns the options it would connect with, and what the connection reports is a parameter. Every `init` registers one more `ready` listener on the connection object (src/utils/sync.js:39), and that object is replaced only when a connection was established (src/utils/sync.js:16-20). After an `init` that never became ready, the next `ready` therefore runs the earlier listener too, which opens another SFTP channel and calls the earlier callback again; these repeated callbacks are not modelled.
- Reading the key file (`fs.readFileSync`) is file I/O. The model records only the key file path.
- Sync.Synchronizer.Init requires the session to carry a target. The source throws on a null target before it connects.
- Sync.Synchronizer.GetRemoteFileList requires an open SFTP session and a session. The source throws when either is missing.
- Sync.Synchronizer.GetLocalFileList requires a session. The source throws when there is none.
- SyncIgnore.IsFileIgnored, SyncListing.ListDirectory, SyncListing.ListChildren, SyncListing.ListEntry, Sync.Synchronizer.GetRemoteFileList and Sync.Synchronizer.GetLocalFileList require every pattern to avoid the regular-expression characters `^$+?()[]{}|`. Such characters keep their meaning after the source's escaping, and JavaScript's general regular expressions are not modelled. The source walks with whatever list is set (src/utils/sync.js:124, :197 and :210).
- Sync.Synchronizer.constructor starts the pattern list as the empty list. In the source it starts undefined. It stays undefined until a session with non-empty ignore text is read, and sessions saved by the session window never set `fileIgnoreList` (src/controllers/SessionWindowController.js does not mention it). While it is undefined, either listing throws on `ignoreList.length` (src/utils/sync.js:68 and :82) inside a callback: the remote one inside its `readdir` callback, the local one inside the `fs.stat` callback within its `readdir` callback (src/utils/sync.js:185-197). It throws at the first file entry, or at the first directory entry when the walk is recursive, and the listing's own callback never fires.
- Sync.Synchronizer stands for the single module state of src/utils/sync.js. Node loads that module once, so `syncSession` and `ignoreFileList` are shared by every session panel, and one panel's `init` replaces another's session. Sharing between panels is not modelled: each `Synchronizer` object is on its own.
- The file system is an in-memory tree. Real `fs.readdir`, `fs.stat` and `sftp.readdir` are I/O. `path.relative` is not modelled: paths are built relative to the root as the walk descends.
- The tree is finite, so a directory cycle through symbolic links cannot be expressed. The local walk follows links (`fs.stat`, src/utils/sync.js:191) and would not end on such a cycle.
- Paths.Normalize is `path.posix.normalize`. On Windows `path.normalize` and `path.relative` use `\` as the separator, which the `split('\\').join('/')` rewrite (src/utils/sync.js:127) undoes for listed names; the win32 flavour of `path` is not modelled.
- `moment(mtime).unix()` is modelled as whole seconds rounded down from an integer millisecond mtime. Dates and time zones are not modelled.
- The walks' writes into each entry's shared `attrs` object (`attrs.modifiedUnix`) become a field of a new file object. Aliasing between file objects and entries is not modelled.
- `getTargets` and `getSessions` are not modelled (they return the collections as they are), and neither are queries other than lookup by id.
- lokijs persistence (`loadDatabase`, `saveDatabase`) is disk I/O. `init` is given what loading produced.
- A loaded database that lacks the targets or sessions collection is not modelled. The source's later calls would then throw.
- A saved record's own object is inserted, so later in-place updates by the caller would show through. The model stores values.
- The target that `getSessionConfig` attaches to the stored session object is a field of the slot. The model only has the value; the link to the store's own object is not modelled.
- Computing the push and pull lists, the transfers, progress percentages (floating point), `$timeout`, `$apply`, jQuery DOM updates and `async.parallel` are left out. Their code is not part of this model, or it is UI plumbing.
- Sync.Synchronizer.GetLocalFileList walks with the pattern list as it stands when it is called. `getFileLists` (src/controllers/MainWindowController.js:164-193) starts the local listing first, but that listing only calls `fs.readdir` before returning. The remote listing, started next, runs `readSyncIgnoreList` at once (src/utils/sync.js:174). The local walk's checks run later, in `fs.stat` callbacks, so they already see the refreshed list. The model matches this only when the two calls are taken one after the other, remote first.
- The IPC transport is left out. Messages that are not strings are ignored by the source and are not modelled.
- Plain objects order numeric keys first. The model keeps keys in insertion order, which is what a `for ... in` visits for the non-numeric session ids.
- The code that runs once `getSessionConfig` returns (appending the session panel) is DOM plumbing and is left out.
- SessionDirective.SessionPanel.constructor starts with no files. In the source `scope.files` is undefined until a push or pull list arrives, so `selectAll` before that throws (src/controllers/MainWindowController.js:203-207).
- MainWindow.MainWindowController.HandleMessage applies each lookup's effect when the lookup starts, not when its callback runs. Messages that arrive before earlier lookups have answered, and interleavings of callbacks from different messages, are not modelled.
