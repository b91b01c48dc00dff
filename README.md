# rpcs3-android: installation bookkeeping, progress registry and game list

This project is a Dafny model of the bookkeeping core of the Android front end
of the RPCS3 emulator. It proves properties of that model. It covers:

- **Native installers** (`native-lib.cpp`):
  - the progress channel (`Progress::report/failure/success`);
  - the firmware installer (`installFw`);
  - the package installer's polling loop (`installPkgFile`);
  - the game scan (`parsePsf`, `collectGameInfo`), which sends titles in batches of ten;
  - the string rules `fix_dir_path`, the trailing-slash trim in `boot`, the version cut at the first newline and the `dev_flash_` member filter;
  - the localized-string lookup;
  - the native list of USB descriptors.
- **The progress registry** (`ProgressRepository.kt`):
  - how a `(value, max)` pair is classified;
  - `onProgressEvent`;
  - `cancel`;
  - the id allocation in `create`.
- **The game list** (`GameRepository.kt`):
  - games with their progress entries (at most one per type);
  - the `"$"` install placeholder;
  - `add`, `onBoot`, `clearProgress`, `remove` and `find`;
  - the `toStore`/`toInfo` round trip.
- **Deferred boot** (`GraphicsFrame.kt`): a boot request is held back until a drawing surface exists.
- **USB connection map** (`UsbDeviceRepository.kt`): `attach` and `detach`.

How the native side is modelled:

- Native code calls into the managed side and into libraries that are not part of this model. Each such call becomes an event appended to a trace, `NativeProgress.Event`.
- The boolean that `report` gets back is supplied by an `Answers` function: `answer(k)` is the reply to the report that is event `k` of the trace.
- What the PUP/TAR/SELF readers, the package reader and the PARAM.SFO loader find is given as input values.
- Each installer is a heap-free method with the loops of the source. Each is proved equal to a recursive specification function, and the lemmas are stated about that function.

How the Kotlin side is modelled:

- Kotlin classes whose state is updated in place are Dafny classes. Their methods carry `modifies` clauses and state the whole new state.
- Game identity is reference identity. The Kotlin data class `Game` compares `MutableState` and `SnapshotStateList` fields, and those do not override `equals`.
- Kotlin exceptions that the code raises are modelled as a `false` result that leaves the state as the source leaves it: `addProgress` on a type already present, `first()` on an empty list, and dereferencing a null connection.

Modules: `Common`, `NativeStrings`, `NativeProgress`, `GameScan`, `FirmwareInstall`, `PackageInstall`, `UsbFdList`, `ProgressRegistry`, `Games`, `Frame`, `UsbRepository`.

The firmware version that `installFw` announces on success is what `utils::get_firmware_version()` returns after the install, not the version text read from the file. The model follows the code (native-lib.cpp:1087): the version text only decides whether the file is rejected as broken.

## Model

| member | source | states |
|---|---|---|
| Common.Elvis | app/src/main/java/net/rpcs3/GameRepository.kt:108-110 | `a ?: b` is `a` when present, otherwise `b` |
| Common.Filter | app/src/main/java/net/rpcs3/GameRepository.kt:43 | the kept elements are exactly those of the input satisfying the predicate, each as often as in the input, in input order; the rejected ones are gone |
| Common.RemoveFirstSpec | app/src/main/java/net/rpcs3/GameRepository.kt:149 | removing the first occurrence takes away one copy of the element (multiset), keeps the rest in order, and changes nothing when the element is absent |
| NativeStrings.FixDirPath | app/src/main/cpp/native-lib.cpp:217-223 | empty stays empty; a non-empty result ends in `/`; a path already ending in `/` is unchanged; otherwise exactly one `/` is appended |
| NativeStrings.FixDirPathIdempotent | app/src/main/cpp/native-lib.cpp:217-223 | normalising twice equals normalising once |
| NativeStrings.TrimTrailingSlashes | app/src/main/cpp/native-lib.cpp:879-882 | the booted path never ends in `/`, is a prefix of the input, and only `/` characters were removed |
| NativeStrings.TrimmedPathUnique | app/src/main/cpp/native-lib.cpp:879-882 | those three properties determine the trimmed path uniquely |
| NativeStrings.TruncateAtNewline | app/src/main/cpp/native-lib.cpp:1020-1023 | the version text is a prefix of the entry without any newline, cut exactly at the first newline when there is one |
| NativeStrings.UpdateSegments | app/src/main/cpp/native-lib.cpp:1000-1006 | only names starting with `dev_flash_` survive, each as often as before, in original order; the list is empty exactly when no name has the prefix |
| NativeStrings.AsSizeT | app/src/main/cpp/native-lib.cpp:600 | the `int` id compared against `size_t`: non-negative ids keep their value, negative ones become at least 2^64 - 2^31 |
| NativeStrings.LocalizedString | app/src/main/cpp/native-lib.cpp:599-612 | the table entry for an id inside the table, the empty string for every other id, negative ones included |
| NativeProgress.Report | app/src/main/cpp/native-lib.cpp:498-502 | value and max are passed through; an empty message is sent as null and only then |
| NativeProgress.Failure | app/src/main/cpp/native-lib.cpp:504 | a failure is always reported as `(-1, 0)`, with the message as given, or null when it is empty |
| NativeProgress.Success | app/src/main/cpp/native-lib.cpp:506-509 | success reports `value == max == max(v, 1)`, with the message as given, or null when it is empty |
| NativeProgress.SentinelsClassified | app/src/main/cpp/native-lib.cpp:498-509 | the registry sees the probe as indeterminate and unfinished, a failure as failed and finished, and a success as complete, finished and not failed |
| GameScan.ParsePsf | app/src/main/cpp/native-lib.cpp:778-809 | no title iff the entry is not bootable or has an empty TITLE_ID; otherwise the TITLE at the given path, or at `hdd0 + "game/" + TITLE_ID + "/"` when the path is empty, with icon `path + "/ICON0.PNG"` |
| GameScan.Parsed | app/src/main/cpp/native-lib.cpp:842-851 | a directory contributes at most one title |
| GameScan.Accepted | app/src/main/cpp/native-lib.cpp:839-857 | at most one title per directory, each with its icon inside its own directory |
| GameScan.AcceptedCount | app/src/main/cpp/native-lib.cpp:789-794 | the number of titles equals the number of directories whose PARAM.SFO is bootable with a TITLE_ID |
| GameScan.CollectGameInfo | app/src/main/cpp/native-lib.cpp:811-860 | the loop emits exactly the scan trace: first report `0/n`, then alternately a batch and a report `processed/n`, then `success(n)`; the batches hold every accepted title exactly once in order, 1 to 10 per batch, all but the last exactly 10 |
| GameScan.ScanEventsWellFormed | app/src/main/cpp/native-lib.cpp:811-860 | the scan trace of any directory list has that shape |
| GameScan.PrefixTitles | app/src/main/cpp/native-lib.cpp:839-857 | after `k` directories, the titles sent so far followed by the pending buffer are exactly the titles of the first `k` directories |
| GameScan.PrefixFull | app/src/main/cpp/native-lib.cpp:853-855 | a batch is sent as soon as it reaches 10 titles, so every sent batch in the loop has exactly 10 and the buffer stays below 10 |
| GameScan.PrefixAlternates | app/src/main/cpp/native-lib.cpp:829-837 | the loop's events after the first report alternate between a batch and a report `k/n` with `1 <= k <= n` and no message |
| GameScan.ClosedWellFormed | app/src/main/cpp/native-lib.cpp:859-860 | the final submit of a partial buffer and the success report complete a well-formed scan trace |
| GameScan.SuccessCloses | app/src/main/cpp/native-lib.cpp:859-860 | a body of alternating batches and reports that holds every accepted title, in batches of ten but the last, becomes a well-formed scan trace once `success(n)` is appended |
| GameScan.LastBatch | app/src/main/cpp/native-lib.cpp:859 | the final partial batch (1 to 9 titles) after full batches keeps the batch-size rule |
| FirmwareInstall.TarInvalid | app/src/main/cpp/native-lib.cpp:1076-1077 | the message for an invalid archive names the member after `(package=` and closes with `)` |
| FirmwareInstall.Vsh | app/src/main/cpp/native-lib.cpp:1033-1039 | the announced system entry is named VSH, and its path and icon lie under dev_flash |
| FirmwareInstall.InstallFw | app/src/main/cpp/native-lib.cpp:952-1090 | the method's result and trace are those of the specification `InstallFwSpec`: checks in source order, then the segment loop |
| FirmwareInstall.UnpackSegments | app/src/main/cpp/native-lib.cpp:1042-1089 | the segment loop, with its `processed` counter, produces exactly the outcome of `Segments` |
| FirmwareInstall.AfterPassing | app/src/main/cpp/native-lib.cpp:1042-1085 | after `j` passing segments the trace holds, per segment, its extraction and then report `k` of `N` |
| FirmwareInstall.ProbeCancelled | app/src/main/cpp/native-lib.cpp:956-962 | a declined `(0,0)` probe returns false with nothing else done |
| FirmwareInstall.EarlyFailures | app/src/main/cpp/native-lib.cpp:967-1029 | an unreadable file fails with "Failed to open file"; a hash mismatch fails with "Selected file is not firmware update file"; a broken PUP, a missing manifest entry, no `dev_flash_` member, or a version entry that is absent or starts with a newline, fails with "Firmware update file is broken"; every early failure is one `-1` report and no segment is touched |
| FirmwareInstall.FullInstall | app/src/main/cpp/native-lib.cpp:1042-1089 | on full success the trace is probe, VSH entry, then for each segment `k` its extraction and report `k` of `N` (so reports 0..N-1), then the installed version and `success(N)` |
| FirmwareInstall.FirstFailingSegment | app/src/main/cpp/native-lib.cpp:1060-1084 | at the first segment that does not pass, the install returns false. A segment with fewer than 3 parts fails with the decompress message and is not extracted. An invalid archive fails naming the member. A declined report stops right after that report. Nothing later is unpacked. |
| FirmwareInstall.OnlyDecryptedExtracted | app/src/main/cpp/native-lib.cpp:1060-1070 | whatever the inputs, an extraction is only ever recorded for an update segment that decrypted into at least 3 parts |
| FirmwareInstall.SucceedsIff | app/src/main/cpp/native-lib.cpp:952-1090 | installFw returns true exactly when the probe is accepted, the file passes every check, and every segment decrypts, extracts and has its report accepted |
| PackageInstall.Aggregate | app/src/main/cpp/native-lib.cpp:1129-1140 | the inner loop fails exactly when the error flag is set and there is at least one reader; otherwise it returns the sum of the readers' scaled progress |
| PackageInstall.Announced | app/src/main/cpp/native-lib.cpp:1121-1123 | a reader yields one single-title batch exactly when its PARAM.SFO parses, and that batch holds the parsed title |
| PackageInstall.Announce | app/src/main/cpp/native-lib.cpp:1120-1124 | at most one announcement per reader, each a batch of one title |
| PackageInstall.AnnounceReaders | app/src/main/cpp/native-lib.cpp:1120-1124 | the reader loop sends exactly those announcements |
| PackageInstall.AnnouncedTitles | app/src/main/cpp/native-lib.cpp:1121 | every announced title lies under the HDD0 directory with its icon inside it; when every reader parses there is one announcement per reader |
| PackageInstall.InstallPkgFile | app/src/main/cpp/native-lib.cpp:1092-1167 | the method's result and trace are those of the specification `InstallPkgSpec`: probe, announcements, the polling rounds, then the scan when the worker succeeded |
| PackageInstall.TotalCompleteIff | app/src/main/cpp/native-lib.cpp:1142 | with each reader at most 10000, the total never exceeds `10000 × readers`, and reaches it exactly when every reader is complete |
| PackageInstall.RoundReportInProgress | app/src/main/cpp/native-lib.cpp:1147-1149 | a round that neither fails nor completes reports the floor of the average, which is below 10000; the registry sees that entry as determinate, unfinished and not failed |
| PackageInstall.PollsEnd | app/src/main/cpp/native-lib.cpp:1128-1158 | a false return after polling ends by aborting every reader, right after the failure report or after a declined progress report. A true return ends with `success(10000)`, followed by the scan exactly when the worker succeeded. |
| PackageInstall.Average | app/src/main/cpp/native-lib.cpp:1147 | the reported value is the floor of the average progress: `v * n <= total < (v + 1) * n` |
| PackageInstall.Reports | app/src/main/cpp/native-lib.cpp:1149 | one report per round, each that round's average against 10000 |
| PackageInstall.PollProceeds | app/src/main/cpp/native-lib.cpp:1128-1157 | a round that continues and whose report is accepted appends that report and hands over to the next round |
| PackageInstall.AfterProceeding | app/src/main/cpp/native-lib.cpp:1128-1158 | after `j` rounds that proceed, the loop is at round `j` with exactly their `j` reports after the announcements |
| PackageInstall.DecidingRound | app/src/main/cpp/native-lib.cpp:1128-1167 | the first round that does not proceed decides the call: a failed round reports the failure and aborts every reader (false); a complete one reports success and, when the worker succeeded, scans the titles (true); a declined report aborts every reader after it (false) |
| PackageInstall.AllRoundsProceed | app/src/main/cpp/native-lib.cpp:1128-1158 | when every given round proceeds the loop is still polling, with one report per round |
| PackageInstall.SucceedsIff | app/src/main/cpp/native-lib.cpp:1092-1167 | installPkgFile returns true exactly when the probe is accepted and some round finds every reader complete, every earlier round having continued with its report accepted; it is still polling exactly when every given round proceeds |
| PackageInstall.PackageOutcomes | app/src/main/cpp/native-lib.cpp:1092-1167 | a declined probe returns false at once; any later false return aborts the readers last; true is returned only after the success report, whether or not the worker succeeded |
| UsbFdList.ApplyEventSpec | app/src/main/cpp/native-lib.cpp:926-933 | event 0 appends the descriptor; any other event removes one copy if present and keeps the rest in order, and leaves a list without it unchanged |
| UsbFdList.AttachThenDetach | app/src/main/cpp/native-lib.cpp:926-933 | attach then detach gives back the same descriptors, and the same list when the descriptor was new |
| UsbFdList.UsbFds.Find | app/src/main/cpp/native-lib.cpp:929-930 | the index of the first equal descriptor, or the length when there is none |
| UsbFdList.UsbFds.DeviceEvent | app/src/main/cpp/native-lib.cpp:926-933 | the list after the call is the event applied to the list before it |
| ProgressRegistry.Classification | app/src/main/java/net/rpcs3/ProgressRepository.kt:21-31 | finished iff `value < 0` or `value == max != 0`; failed and complete together only when `value == max < 0`; an indeterminate pair is finished iff failed; an unfinished determinate pair has `0 <= value != max` |
| ProgressRegistry.ProgressRepository.OnProgressEvent | app/src/main/java/net/rpcs3/ProgressRepository.kt:50-66 | true iff the id is registered, nothing changing otherwise. It stores value and max, keeps the old message when the new one is null, and calls the handler. A finished entry leaves the registry and its game progress is cleared; an unfinished one stays. |
| ProgressRegistry.ProgressRepository.Cancel | app/src/main/java/net/rpcs3/ProgressRepository.kt:68-71 | only the given id leaves the registry (an absent id changes nothing there), and every game loses that id's progress |
| ProgressRegistry.ProgressRepository.Create | app/src/main/java/net/rpcs3/ProgressRepository.kt:79-86 | the id returned was absent before and present after, the next id is one past it; ids skipped were taken; when every id is below the next one, the first id drawn is returned |
| Games.StoreRoundTrip | app/src/main/java/net/rpcs3/GameRepository.kt:52-56 | `toInfo(toStore(i)) == i`; `toStore(toInfo(s))` equals `s` in path, name and icon |
| Games.OfKind | app/src/main/java/net/rpcs3/GameRepository.kt:43 | exactly the entries of the type, in order |
| Games.OfKinds | app/src/main/java/net/rpcs3/GameRepository.kt:46 | exactly the entries whose type is among the given ones, in order |
| Games.WithoutKind | app/src/main/java/net/rpcs3/GameRepository.kt:49 | exactly the entries of other types; at most one per type is preserved |
| Games.WithoutId | app/src/main/java/net/rpcs3/GameRepository.kt:142 | exactly the entries of other operations; at most one per type is preserved |
| Games.FilterKeepsAtMostOnePerType | app/src/main/java/net/rpcs3/GameRepository.kt:48-49 | removing entries never creates two entries of one type |
| Games.Game.FindProgress | app/src/main/java/net/rpcs3/GameRepository.kt:42-43 | null exactly when no entry has the type; otherwise all entries of that type, in order |
| Games.Game.FindProgressAny | app/src/main/java/net/rpcs3/GameRepository.kt:45-46 | null exactly when no entry has one of the types; otherwise all such entries |
| Games.Game.AddProgress | app/src/main/java/net/rpcs3/GameRepository.kt:34-40 | appends the entry iff no entry of its type exists (otherwise the exception, nothing changed); at most one entry per type is kept |
| Games.Game.Merge | app/src/main/java/net/rpcs3/GameRepository.kt:108-111 | the reported name and icon replace the stored ones unless null; the Install entry is appended unless one exists |
| Games.Game.RemoveProgress | app/src/main/java/net/rpcs3/GameRepository.kt:48-49 | drops every entry of the type, keeps the others in order, answers whether one was there |
| Games.EntryIndex | app/src/main/java/net/rpcs3/GameRepository.kt:102 | on values, `find` by path: the index of the first game with the path, no earlier one having it, or the length when none has it |
| Games.PlaceholderIndex | app/src/main/java/net/rpcs3/GameRepository.kt:90-95 | the index of the first `"$"` game holding an Install entry with this id, no earlier one doing so, or the length when there is none |
| Games.KeptAfterClear | app/src/main/java/net/rpcs3/GameRepository.kt:143 | only placeholders with an empty progress list are removed; real games always stay; no duplicates appear |
| Games.SavedInfos | app/src/main/java/net/rpcs3/GameRepository.kt:64-70 | the saved list never holds a placeholder and holds every other game's info |
| Games.MoveToFront | app/src/main/java/net/rpcs3/GameRepository.kt:125-126 | moving a game to the front keeps the multiset of games and the relative order of the rest |
| Games.RemoveFirstDistinct | app/src/main/java/net/rpcs3/GameRepository.kt:149 | in a list without duplicates, removing a game removes it altogether and keeps every other game |
| Games.GameRepository.Find | app/src/main/java/net/rpcs3/GameRepository.kt:154-158 | null iff no game has the path, otherwise the first game that has it (at `EntryIndex`) |
| Games.Game.IsInstallPlaceholder | app/src/main/java/net/rpcs3/GameRepository.kt:91-95 | true iff the game's path is `"$"` and its Install entries include one with this id |
| Games.GameRepository.FindInstallPlaceholder | app/src/main/java/net/rpcs3/GameRepository.kt:90-95 | null iff no `"$"` game holds this Install id, otherwise the first that does (at `PlaceholderIndex`) |
| Games.GameRepository.CreateGameInstallEntry | app/src/main/java/net/rpcs3/GameRepository.kt:132-138 | a new `"$"` game with exactly one Install entry of this id is put in front of the unchanged list |
| Games.GameRepository.PrependGame | app/src/main/java/net/rpcs3/GameRepository.kt:104-106 | a new game with the info and one Install entry is put in front of the unchanged list |
| Games.GameRepository.AddOne | app/src/main/java/net/rpcs3/GameRepository.kt:102-112 | on values the list becomes `AddTitle` of it: an unknown path becomes a fresh game in front with the title's info and the Install entry; otherwise the first game with the path takes the name and icon unless they are null, and gets the Install entry unless it has one (`ok` false). No other game changes; the merged game keeps its path and its earlier entries |
| Games.GameRepository.AddNew | app/src/main/java/net/rpcs3/GameRepository.kt:103-106 | a fresh game with the title's info and exactly the Install entry goes in front of the unchanged list; on values this is `AddTitle` for a path no game has |
| Games.GameRepository.MergeAt | app/src/main/java/net/rpcs3/GameRepository.kt:107-111 | only the first game with the path changes: it takes the name and icon unless null and gets the Install entry unless it had one (`ok` false); its path and earlier entries stay; on values this is `AddTitle` |
| Games.MergedAt | app/src/main/java/net/rpcs3/GameRepository.kt:107-111 | merging into the first game with the path, with `ok` telling whether the Install entry was new, is exactly `AddTitle` |
| Games.GameRepository.RemoveInstallPlaceholder | app/src/main/java/net/rpcs3/GameRepository.kt:90-99 | the first placeholder holding this install id leaves the list and nothing else does: the list is the old one without index `PlaceholderIndex`, the other games in their order (unchanged when there is none); on values `DropPlaceholder` |
| Games.GameRepository.RemoveAt | app/src/main/java/net/rpcs3/GameRepository.kt:98 | `games.remove` of the game at index `i` of a list without duplicates: exactly that index leaves, the rest stays in order |
| Games.GameRepository.Add | app/src/main/java/net/rpcs3/GameRepository.kt:88-116 | on values the list is `AddTitles` after `DropPlaceholder`. No addProgress throws exactly when the titles are `Installable` (pairwise different paths, and no first game with one of their paths already holding an Install entry); then the list is `NewEntries` (one fresh game per unknown path with the title's info and exactly this Install entry, later titles in front) followed by `MergedEntries` (the kept games, each first game with a title's path merged with it and given the Install entry). The created games are fresh and stand in front of the kept ones, which keep their order; without an exception every title has a game with its path and the Install entry |
| Games.GameRepository.AddAll | app/src/main/java/net/rpcs3/GameRepository.kt:101-113 | on values the list is `AddTitles` of it: the titles are added or merged in order, and the loop stops at the first title that throws. The list is the fresh created games followed by the games there before, in order; without an exception every title has a game with its path and the Install entry |
| Games.GameRepository.AddAllStep | app/src/main/java/net/rpcs3/GameRepository.kt:101-113 | one turn of the loop after titles that did not throw: on values `AddTitles` over one more title; at most one fresh game joins the front |
| Games.GameRepository.AddAt | app/src/main/java/net/rpcs3/GameRepository.kt:101-113 | one title of the loop: on values `AddTitle`; the list is unchanged or has one fresh game in front; the games standing for the titles handled before keep their paths and Install entries |
| Games.AddTitlesOutcome | app/src/main/java/net/rpcs3/GameRepository.kt:101-113 | the loop over the titles finishes without an exception exactly when the titles are `Installable`, and then its list is `NewEntries` followed by `MergedEntries` |
| Games.StopsAfterThrow | app/src/main/java/net/rpcs3/GameRepository.kt:101-113 | once a title has thrown, the later titles change nothing (the exception leaves the `forEach`) |
| Games.StepRepeatedPath | app/src/main/java/net/rpcs3/GameRepository.kt:101-113 | a title whose path an earlier title of the same call had always throws, since that path's game already holds the Install entry |
| Games.NewEntries | app/src/main/java/net/rpcs3/GameRepository.kt:103-106 | at most one new game per title; each has a path no listed game had and exactly this Install entry |
| Games.NewEntriesFromTitles | app/src/main/java/net/rpcs3/GameRepository.kt:103-106 | every created game carries the info of one of the titles |
| Games.NewEntryOf | app/src/main/java/net/rpcs3/GameRepository.kt:103-106 | every title whose path no listed game has gets a created game with its info |
| Games.GameRepository.OnBoot | app/src/main/java/net/rpcs3/GameRepository.kt:122-130 | an empty list is the `first()` exception, leaving the list unchanged. A game already in front changes nothing. Otherwise the game is removed and put in front. |
| Games.GameRepository.ClearProgress | app/src/main/java/net/rpcs3/GameRepository.kt:140-145 | every game loses the id's entries, keeping its other entries and its info; then only `"$"` games left without entries are deleted |
| Games.GameRepository.ClearEntries | app/src/main/java/net/rpcs3/GameRepository.kt:142 | every game loses exactly the id's entries |
| Games.GameRepository.DropEmptyPlaceholders | app/src/main/java/net/rpcs3/GameRepository.kt:143 | the list keeps every game except `"$"` games without entries, in order |
| Games.GameRepository.Remove | app/src/main/java/net/rpcs3/GameRepository.kt:147-152 | the game leaves the list and every other game stays |
| Frame.GraphicsFrame.Boot | app/src/main/java/net/rpcs3/GraphicsFrame.kt:30-36 | without a surface the path replaces the pending one and nothing boots (only the last request survives); with a surface it boots at once and the pending path is untouched |
| Frame.GraphicsFrame.SurfaceCreated | app/src/main/java/net/rpcs3/GraphicsFrame.kt:38-39 | only posts the block: no other field changes yet, and the frame's invariant still holds |
| Frame.GraphicsFrame.RunPostedBlock | app/src/main/java/net/rpcs3/GraphicsFrame.kt:39-47 | the surface is marked present; a pending path boots exactly once and is cleared to `""`; with none nothing boots |
| Frame.GraphicsFrame.SurfaceDestroyed | app/src/main/java/net/rpcs3/GraphicsFrame.kt:55-58 | only the surface flag is cleared |
| UsbRepository.UsbDeviceRepository.Attach | app/src/main/java/net/rpcs3/UsbDeviceRepository.kt:11-19 | a device with a connection is left alone (nothing opened, no event). Otherwise the opened connection is stored and event 0 is sent with its descriptor. A null connection throws before the event. |
| UsbRepository.UsbDeviceRepository.Detach | app/src/main/java/net/rpcs3/UsbDeviceRepository.kt:21-28 | a connected device sends event 1, is closed and leaves the map; any other device changes nothing |
| UsbRepository.AttachDetachRestores | app/src/main/java/net/rpcs3/UsbDeviceRepository.kt:11-28 | attaching a new device and detaching it gives back the map it started from, and no other key is touched |

## Left out

- Foreign readers and decoders are not part of this model: `pup_object`, `tar_object`, `SCEDecrypter`, `package_reader`, `psf::` and `fs::`. What they find is an input value: the PUP status, the manifest size, the member names, the version entry, the per-segment part count and extract result, and the PARAM.SFO fields.
- JNI plumbing is reduced to events in a trace: `unwrap`/`wrap`, class lookups, `sendGameInfo`, `sendFirmwareInstalled`. The managed side's reply to a report is the `answer` input. An exception thrown by the probe report is treated like a declined probe.
- `utils::get_firmware_version()` is an input of the firmware installer, and `g_cfg_vfs.get_dev_flash()` is too.
- `collectGamePaths`, the filesystem walk, is left out. `collectGameInfo` starts from the list of game directories it would find, and `is_regular_file`/`load_object` of PARAM.SFO become one input function.
- The threads of `installPkgFile` are not modelled: the worker, its atomics, `worker()` joining it, and the two-second sleep. The polling loop runs over a given sequence of snapshots. Each snapshot fixes the error flag and every reader's progress for one round. When the snapshots run out before the loop ends, the result is `StillPolling`.
- The source always builds exactly one reader. The model allows any number of readers, and with none the first round counts as complete.
- PackageInstall.Aggregate: the total is an unbounded `nat`; the 64-bit wrap-around of `totalProgress` is not modelled, because with at most 10000 per reader it cannot occur.
- The remaining parts of native-lib.cpp are emulator and platform glue and are not modelled: the native `GraphicsFrame` struct, `surfaceEvent`, `initialize`, `setupCallbacks`, `LogListener`, `report_fatal_error`, the pad handlers and the `g_strings` contents. The localized-string lookup is modelled over an arbitrary table.
- The mutex around the USB descriptor list and the `synchronized` blocks of GameRepository are not modelled; each operation is atomic in the model.
- Notification building and the asynchronous `Handler` in `ProgressRepository.create` are left out. The handler call of `onProgressEvent` is recorded as a delivery.
- JSON `save`/`load` of GameRepository is not modelled as file I/O. `Games.SavedInfos` states which infos would be written. `addPreview` and `list` are not modelled.
- `RPCS3.boot` in GraphicsFrame is recorded as a list of booted paths. The main looper's `post` is modelled as a count of pending blocks that `RunPostedBlock` runs.
- MainActivity, the screens, FirmwareRepository, Permission and the activities are UI and platform code and are not part of this model.
- Kotlin `Long` ids and values are unbounded integers; overflow of `nextRequestId` is not modelled.
- Games.StoreRoundTrip: a stored game's name and icon live in `MutableState` holders; the model keeps only their values, so `toStore(toInfo(s))` gives back equal values, not the same holders.
- The games' `progressList` and the repository's list are `SnapshotStateList`s shared with the UI; the model holds them as sequences, so readers of a list observe only the state between two operations.
