# htmldirs: the recursive directory watcher and its page helpers, in Dafny

htmldirs keeps an HTML listing (`.directory.html`) in every directory of a tree. Package
`recursivedirwatch` watches the tree with inotify(7) and sends one event per changed
directory. `main.go` rebuilds the page of each directory it is told about.

This project models the two parts below and proves what they promise.

**The watcher.** The model covers:
- the watch table, a map from watch descriptor to directory path;
- `addWatch`, `deleteWatches` and the reverse lookup `mapGetKey`;
- the per-entry step of the initial walk;
- `processEvent`;
- the race-closing re-scan `watchNewDirs`;
- the decoding of `struct inotify_event` records by `readEvent`;
- `mask.String`.

**The page helpers.** The model covers:
- the base-directory normalisation;
- the consumer's event filter;
- `parentdir` and `makeRelative`;
- the integer branches of `filesizestr`;
- the row selection, naming and link logic of `buildTemplateInputs`.

## How each part is modelled

Each Go construct takes the following form in Dafny:

| in the Go source | in the model |
|---|---|
| package state that is updated in place: `watches` and the channel `ch` | fields of class `DirWatch.Watcher`; the channel is the sequence `out` of events sent so far |
| `inotify` reader state: `buff`, `buffErr` | fields of class `Inotify.Reader` |
| loops: `mask.String`, `mapGetKey`, `deleteWatches`, `watchNewDirs`, `parentdir`, the `buildTemplateInputs` loop, the refill-and-skip cycle of `readEvent` | methods with loops, each proved equal to a specification function whose properties are proved as lemmas |
| code made of expressions: `isSubdir`, `makeRelative`, `filesizestr`, the filter in `main`, the trailing-slash strip | functions |

The operating system is replaced by oracles (values passed in):
- `Fs.Fs.listing` stands for `ioutil.ReadDir`; a path absent from it cannot be listed.
- `Fs.Fs.inotify` gives inotify_add_watch(2)'s answer for each path.
- `ReaderState.pending` lists what read(2) returns, call after call.
- The `lstat` map stands for `os.Lstat`.
- The order in which Go's `range` visits the map is the field `Watcher.order`. Go leaves that order unspecified.
- `filepath.Walk`'s visiting order is the sequence `visits`.

Modules:
- `Wrappers`: Option and Result.
- `Events`: the event and errno values.
- `Fs`: the oracles.
- `Masks`: the mask bits and `mask.String`.
- `WatchTable`: the table, `isSubdir` and its corrected form, `mapGetKey`.
- `Reconcile`: functions on values that specify `addWatch`, `watchNewDirs`, `processEvent` and the walk step.
- `DirWatch`: the class.
- `Scenario`: a worked example of a pasted tree and a deletion.
- `Inotify`: record decoding and the reader class.
- `HtmlDirs`: the helpers in `main.go`.

### Where the model departs from the code as written

The model follows the code as written everywhere except in four places. In each of them the code does something its own comments or names show was not meant. There the model has one member for the code as written and one for the corrected behaviour, and the rest of the model uses the corrected one (see Findings).

- **Subtree removal.** `deleteWatches` is documented to delete "all watches inside basedir, including basedir" (recursivedirwatch/recursivedirwatch.go:156-157). It tests with `isSubdir`, a plain string prefix test (:152-154). `WatchTable.PruneAsWritten` is that test. `WatchTable.Prune` removes basedir and the paths below basedir + "/" only. `DirWatch.Watcher.DeleteWatches`, `DirWatch.Watcher.ProcessEvent` and `Reconcile.Process` use `Prune`.
- **A failed read.** On an error read(2) returns n = -1, and `in.buffFull[0:n]` then panics (:353-355). `Inotify.RefillAsWritten` is the code. `Inotify.NextEvent` returns the error and keeps it in buffErr.
- **Skipping a record on an unknown descriptor.** The code slices `16 + raw.Len` bytes off with no length check, computing the sum in 32 bits (:370). `Inotify.SkipAsWritten` is the code. `Inotify.Skip`, used by `Inotify.NextEvent`, reports EBADF for a record longer than the buffer, as the code does for a known descriptor.
- **`makeRelative`.** Its comment says it returns "dirpath - basedir" (main.go:171). Splitting at every occurrence of basedir + "/" cuts the result at a second occurrence (:174-178). `HtmlDirs.MakeRelativeAsWritten` is the code. `HtmlDirs.MakeRelative`, used by `HtmlDirs.PageInputs`, removes the leading basedir + "/" only.

Two points of form:
- `readEvent` calls itself again after skipping a record (:371); its comment at :369 notes the risk of running out of stack. `Inotify.Reader.ReadEvent` loops instead, and its result is proved equal to the recursive definition `Inotify.NextEvent`.
- `walkAddWatch` sends the synthesized event for a directory before it adds the watch (:326-331). `DirWatch.Watcher.WalkAddWatch` and `Reconcile.WalkStep` keep that order.

## Model

| member | source | states |
|---|---|---|
| Events.Manufacture | recursivedirwatch/recursivedirwatch.go:269-271 | a manufactured event has mask 0, cookie 0, no name, and the given directory |
| Masks.SetBits | recursivedirwatch/recursivedirwatch.go:458-467 | the indices of the set bits below n, each set, all of them, in ascending order |
| Masks.Names | recursivedirwatch/recursivedirwatch.go:458-467 | the names collected over the first n bits are at most n, each one of those bits' inBits names |
| Masks.JoinBar | recursivedirwatch/recursivedirwatch.go:459-468 | the joined text starts with the first name and ends with the last |
| Masks.NamesOfSetBits | recursivedirwatch/recursivedirwatch.go:420-467 | the names rendered are exactly the inBits names of the set bits, in bit order |
| Masks.MaskString | recursivedirwatch/recursivedirwatch.go:458-469 | the loop builds the names of the set bits joined with "\|" |
| Masks.AppendName | recursivedirwatch/recursivedirwatch.go:461-466 | one loop step ("\|" only when out is non-empty, then the name) extends the joined names by one bit |
| Masks.BitNamesAreTokens | recursivedirwatch/recursivedirwatch.go:420-456 | there are 32 names, none empty and none containing "\|" |
| Masks.BitNameIsToken | recursivedirwatch/recursivedirwatch.go:420-456 | each single name is non-empty and has no "\|" |
| Masks.JoinBarEmpty | recursivedirwatch/recursivedirwatch.go:459-468 | the text is empty exactly when no name was appended |
| Masks.SplitJoinBar | recursivedirwatch/recursivedirwatch.go:462-465 | names without "\|" are recovered by splitting their join at "\|" |
| Masks.MaskStringReadsBack | recursivedirwatch/recursivedirwatch.go:458-469 | splitting the rendered mask at "\|" gives back the names of the set bits, in bit order |
| Masks.NonZeroHasBit | recursivedirwatch/recursivedirwatch.go:458-469 | a non-zero mask renders at least one name |
| Masks.ZeroMaskIsEmpty | recursivedirwatch/recursivedirwatch.go:458-469 | a manufactured event's mask renders as "" |
| WatchTable.IsSubdir | recursivedirwatch/recursivedirwatch.go:150-154 | isSubdir holds exactly when parent is a string prefix of child |
| WatchTable.InSubtree | recursivedirwatch/recursivedirwatch.go:156-157 | the corrected subtree test holds exactly for root itself and for paths that continue root with "/"; it implies isSubdir |
| WatchTable.PruneAsWritten | recursivedirwatch/recursivedirwatch.go:152-174 | deleteWatches as written removes entries only, never adds keys |
| WatchTable.PruneAsWrittenExact | recursivedirwatch/recursivedirwatch.go:152-174 | as written, exactly the entries whose path has basedir as a plain string prefix are removed; every other entry is unchanged |
| WatchTable.PruneAsWrittenIdempotent | recursivedirwatch/recursivedirwatch.go:160-174 | afterwards no path has basedir as a prefix, and a second call changes nothing |
| WatchTable.Prune | recursivedirwatch/recursivedirwatch.go:160-174 | the corrected removal only removes entries |
| WatchTable.PruneExact | recursivedirwatch/recursivedirwatch.go:160-174 | exactly the entries for basedir and paths below basedir/ are removed; the others are unchanged |
| WatchTable.PruneIdempotent | recursivedirwatch/recursivedirwatch.go:160-174 | no path of the subtree is left, and removing again changes nothing |
| WatchTable.PruneCount | recursivedirwatch/recursivedirwatch.go:163-166 | the table shrinks by exactly the number of subtree entries |
| WatchTable.PruneShrinks | recursivedirwatch/recursivedirwatch.go:163-166 | every remaining entry is an entry of the old table |
| WatchTable.SiblingWithCommonPrefix | recursivedirwatch/recursivedirwatch.go:152-154 | as written, deleting /a/b also drops /a/bc; the corrected removal keeps it |
| WatchTable.MapGetKey | recursivedirwatch/recursivedirwatch.go:303-310 | returns a key that maps to v, and none exactly when no key maps to v |
| Reconcile.ChildInSubtree | recursivedirwatch/recursivedirwatch.go:284-287 | the path dir + "/" + name is longer than dir and lies in dir's subtree |
| Reconcile.AddWatch | recursivedirwatch/recursivedirwatch.go:336-344 | the operation fails exactly when the kernel refuses, with the kernel's error; on success the path is watched under the kernel's descriptor and the other keys are unchanged |
| Reconcile.Installed | recursivedirwatch/recursivedirwatch.go:336-344 | the table after addWatch whatever its outcome: unchanged on a refusal, otherwise the kernel's descriptor maps to the path and other keys are unchanged |
| Reconcile.InstalledSound | recursivedirwatch/recursivedirwatch.go:336-344 | addWatch with its error ignored keeps the table consistent with the kernel, touches only the path's own entry, and watches the path when the kernel accepts it |
| Reconcile.WatchNewDirs | recursivedirwatch/recursivedirwatch.go:279-300 | the re-scan only adds keys, and its first event is the manufactured event of the directory |
| Reconcile.WatchChild | recursivedirwatch/recursivedirwatch.go:286-297 | one child's step only adds keys |
| Reconcile.WatchChildren | recursivedirwatch/recursivedirwatch.go:285-298 | the loop over the children only adds keys |
| Reconcile.WatchChildrenStep | recursivedirwatch/recursivedirwatch.go:285-298 | the loop over the children from position i is the effect of child i followed by the loop over the rest |
| Reconcile.WatchNewDirsGrows | recursivedirwatch/recursivedirwatch.go:279-300 | entries added or changed lie in the directory's subtree and agree with the kernel, and every event sent is a manufactured event for a directory in the subtree |
| Reconcile.WatchChildrenGrows | recursivedirwatch/recursivedirwatch.go:285-298 | the same, for the loop over the children |
| Reconcile.WatchChildrenCovers | recursivedirwatch/recursivedirwatch.go:285-298 | every child directory that can be listed ends up watched; a child whose listing fails is skipped without stopping its siblings |
| Reconcile.WatchNewDirsSound | recursivedirwatch/recursivedirwatch.go:279-300 | the re-scan keeps every old entry, watches the directory and every listable child directory, sends the directory's event first, and sends only manufactured events from its subtree |
| Reconcile.WatchNewDirsClosed | recursivedirwatch/recursivedirwatch.go:279-300 | with nothing of the directory's subtree watched yet and listings whose names are distinct and free of "/": every directory reachable through listable directory entries, at any depth, is watched when the kernel accepts it, and is the directory of exactly one sent event; no event is about any other directory |
| Reconcile.WatchNewDirsCloses | recursivedirwatch/recursivedirwatch.go:279-300 | the induction behind WatchNewDirsClosed: the re-scan closes the set of directories it reaches |
| Reconcile.WatchChildrenCloses | recursivedirwatch/recursivedirwatch.go:285-298 | the loop over the entries, with nothing below any entry watched yet, closes the set of directories the entries reach |
| Reconcile.SiblingsDisjoint | recursivedirwatch/recursivedirwatch.go:284-287 | the subtrees of two differently named entries of one directory share no path |
| Reconcile.BelowInSubtree | recursivedirwatch/recursivedirwatch.go:284-297 | every directory the re-scan reaches lies strictly below the re-scanned directory |
| Reconcile.Process | recursivedirwatch/recursivedirwatch.go:181-237 | a self-removal sends nothing; every other event is sent unchanged as the last output; subtrees are removed with the corrected test WatchTable.Prune, not isSubdir (see Findings) |
| Reconcile.ProcessIgnored | recursivedirwatch/recursivedirwatch.go:191-203 | on IN_IGNORED nothing is sent, the subtree of Dirpath (by the corrected test, see Findings) is removed, the rest is unchanged, and a repeat changes nothing |
| Reconcile.ProcessOther | recursivedirwatch/recursivedirwatch.go:206-233 | an event that is not a directory change leaves the table alone and is sent as it is |
| Reconcile.ProcessDirChangeUnfold | recursivedirwatch/recursivedirwatch.go:209-233 | the table updates for a directory change come first, then the event itself |
| Reconcile.ProcessDirChangeTable | recursivedirwatch/recursivedirwatch.go:209-228 | only the subtree of Dirpath/Name is touched; a delete or move-out removes exactly that subtree, by the corrected test (see Findings) |
| Reconcile.ProcessDirChangeWatches | recursivedirwatch/recursivedirwatch.go:216-227 | on a create or move-in that can be listed, the new directory and its listable child directories become watched |
| Reconcile.ProcessDirChangeClosed | recursivedirwatch/recursivedirwatch.go:9-11 | a create or move-in of a listable directory with nothing of its subtree watched adds a watch on the directory and all its new subdirectories recursively, and sends one event for each of them, before the forwarded event |
| Reconcile.ProcessDirChangeOrder | recursivedirwatch/recursivedirwatch.go:216-233 | the synthesized events come from the new subtree, the new directory's event is first, and the forwarded event comes after them |
| Reconcile.ProcessConsistent | recursivedirwatch/recursivedirwatch.go:181-237 | processing an event keeps the table consistent with the kernel |
| Reconcile.WalkStep | recursivedirwatch/recursivedirwatch.go:321-333 | a walk error is handed back; a directory's event is sent before its watch is added, and the step fails exactly when the kernel refuses; a file is skipped |
| Reconcile.Walk | recursivedirwatch/recursivedirwatch.go:110 | filepath.Walk over walkAddWatch only adds keys, sends at most one event per visit, and does nothing on no visits |
| Reconcile.WalkStepAt | recursivedirwatch/recursivedirwatch.go:321-333 | the walk from visit i is the step at visit i, ending there when it fails and otherwise followed by the walk over the rest |
| Reconcile.WalkSound | recursivedirwatch/recursivedirwatch.go:321-344 | a walk that finishes without error watches every directory it visited and sends one manufactured event per directory, in visiting order, or none; the table stays consistent and only grows |
| DirWatch.Watcher.constructor | recursivedirwatch/recursivedirwatch.go:85-106 | the watcher starts with an empty table and nothing sent |
| DirWatch.Watcher.AddWatch | recursivedirwatch/recursivedirwatch.go:336-344 | the table becomes AddWatch's result, or stays unchanged and the kernel's error is returned |
| DirWatch.Watcher.DeleteWatches | recursivedirwatch/recursivedirwatch.go:160-174 | after a loop over the keys in range order, the table is the old table without the subtree of basedir |
| DirWatch.Watcher.WalkAddWatch | recursivedirwatch/recursivedirwatch.go:321-333 | the table, the events sent and the error are those of WalkStep |
| DirWatch.Watcher.WalkAdvances | recursivedirwatch/recursivedirwatch.go:110 | after one visit the rest of the walk completes the whole walk, or the failing step ends it with the walk's table, events and error |
| DirWatch.Watcher.InitialWalk | recursivedirwatch/recursivedirwatch.go:110-114 | the table, the events sent and the error are those of Walk |
| DirWatch.Watcher.WatchNewDirs | recursivedirwatch/recursivedirwatch.go:279-300 | the recursive method leaves the table and the appended events of the re-scan |
| DirWatch.Watcher.WatchEntries | recursivedirwatch/recursivedirwatch.go:285-298 | the loop over the entries leaves the table and the appended events of the loop over the children |
| DirWatch.Watcher.ProcessEvent | recursivedirwatch/recursivedirwatch.go:181-237 | the table and the appended events are those of Process |
| Scenario.Leaf | recursivedirwatch/recursivedirwatch.go:279-300 | re-scanning the deepest new directory watches it and sends its event |
| Scenario.Middle | recursivedirwatch/recursivedirwatch.go:279-300 | re-scanning the middle directory also reaches the deepest one |
| Scenario.Top | recursivedirwatch/recursivedirwatch.go:279-300 | re-scanning the top of the pasted tree watches all three levels and sends their events parent first |
| Scenario.CreatedRescan | recursivedirwatch/recursivedirwatch.go:216-225 | the create record for /a/b/c re-scans it on the unchanged table, watching three levels with three synthesized events |
| Scenario.BurstIsClosed | recursivedirwatch/recursivedirwatch.go:216-233 | one create event for /a/b/c leaves /a/b/c, /a/b/c/d and /a/b/c/d/e watched, with three synthesized events followed by the create event |
| Scenario.DeleteDropsSubtree | recursivedirwatch/recursivedirwatch.go:211-233 | deleting /a/b removes its four entries and forwards the one event |
| Inotify.NextEvent | recursivedirwatch/recursivedirwatch.go:348-394 | readEvent with the corrected refill and skip: a failure keeps its error in buffErr, any other outcome leaves buffErr alone, and only a suffix of the pending reads remains |
| Inotify.Parse | recursivedirwatch/recursivedirwatch.go:358-394 | the part of readEvent after the refill, with the same guarantees |
| Inotify.LE | recursivedirwatch/recursivedirwatch.go:365 | a 32-bit field is four bytes |
| Inotify.Wd | recursivedirwatch/recursivedirwatch.go:366 | the wd field is read as a signed 32-bit number: the int32 whose two's-complement bits are the field |
| Inotify.RecordLength | recursivedirwatch/recursivedirwatch.go:370-389 | a record is at least its 16-byte header |
| Inotify.RecordName | recursivedirwatch/recursivedirwatch.go:384-388 | there is a name exactly when Len is above 0, and it is at most Len-1 characters |
| Inotify.RecordEvent | recursivedirwatch/recursivedirwatch.go:373-378 | the event carries the directory of the record's descriptor and the record's name |
| Inotify.EncodeHeader | recursivedirwatch/recursivedirwatch.go:365 | the kernel writes the header in 16 bytes |
| Inotify.LERoundTrip | recursivedirwatch/recursivedirwatch.go:365 | the little-endian bytes of a word decode back to it |
| Inotify.U32RoundTrip | recursivedirwatch/recursivedirwatch.go:365 | four bytes decode to a word whose bytes are the same four |
| Inotify.HeaderRoundTrip | recursivedirwatch/recursivedirwatch.go:365 | decoding an encoded header gives it back, whatever follows |
| Inotify.HeaderBytesRoundTrip | recursivedirwatch/recursivedirwatch.go:365-366 | the header DecodeHeader reads from the first 16 bytes of any buffer encodes back to exactly those bytes |
| Inotify.TrimNuls | recursivedirwatch/recursivedirwatch.go:386 | the result is the longest prefix that does not end in NUL; only NULs are removed |
| Inotify.BytesToString | recursivedirwatch/recursivedirwatch.go:386 | one character per byte, with the same code |
| Inotify.Skip | recursivedirwatch/recursivedirwatch.go:367-371 | the corrected skip fails exactly when the record is not all there; otherwise it leaves a proper suffix of the buffer |
| Inotify.ParseKnown | recursivedirwatch/recursivedirwatch.go:365-393 | a complete record on a known wd gives the event of that wd's directory and advances by exactly 16+Len |
| Inotify.RecordBytes | recursivedirwatch/recursivedirwatch.go:365-385 | a header, a name of Len bytes and more bytes decode back to the header, the name, and the rest after 16+Len |
| Inotify.KnownRecordDecoded | recursivedirwatch/recursivedirwatch.go:373-393 | a record on a known wd gives an event with its directory, mask and cookie, no name when Len is 0 and otherwise the first Len-1 name bytes without trailing NULs; the buffer advances past exactly that record |
| Inotify.UnknownRecordSkipped | recursivedirwatch/recursivedirwatch.go:366-372 | a record on an unknown wd is skipped and reading goes on after it |
| Inotify.ShortBufferFails | recursivedirwatch/recursivedirwatch.go:358-364 | fewer bytes than a header give EBADF, kept in buffErr |
| Inotify.ShortRefillFails | recursivedirwatch/recursivedirwatch.go:349-364 | a refill of fewer bytes than a header, none included, gives EBADF, kept in buffErr, with those bytes as the buffer |
| Inotify.LongRecordFails | recursivedirwatch/recursivedirwatch.go:379-383 | a record on a known descriptor that is longer than the rest of the buffer gives EBADF, kept in buffErr |
| Inotify.ReadErrorReported | recursivedirwatch/recursivedirwatch.go:349-356 | with the corrected refill, a failed read is returned and kept |
| Inotify.StuckFails | recursivedirwatch/recursivedirwatch.go:349-383 | a reader holding an error (and an empty or malformed buffer) fails with it and changes nothing |
| Inotify.FailureSticks | recursivedirwatch/recursivedirwatch.go:349-383 | once readEvent fails, every later call fails with the same error and changes nothing, whatever the table then holds |
| Inotify.ParseFailureSticks | recursivedirwatch/recursivedirwatch.go:358-383 | the same, for the part after the refill |
| Inotify.RefillAsWritten | recursivedirwatch/recursivedirwatch.go:353-355 | a read of up to 4096 bytes fills the buffer with them |
| Inotify.ReadErrorPanicsAsWritten | recursivedirwatch/recursivedirwatch.go:353-355 | as written, every failed read makes the slice in.buffFull[0:-1] panic |
| Inotify.SkipAsWritten | recursivedirwatch/recursivedirwatch.go:370 | the skip as written leaves a suffix of the buffer when it does not panic |
| Inotify.TruncatedSkipPanicsAsWritten | recursivedirwatch/recursivedirwatch.go:367-371 | as written, a truncated record on an unknown wd panics; the corrected skip reports it |
| Inotify.WrappedSkipStallsAsWritten | recursivedirwatch/recursivedirwatch.go:370-371 | as written, Len = 2^32-16 wraps the uint32 sum to 0 and the skip makes no progress; the corrected skip reports it |
| Inotify.Reader.constructor | recursivedirwatch/recursivedirwatch.go:397-406 | a new reader has an empty buffer and no error |
| Inotify.Reader.ReadEvent | recursivedirwatch/recursivedirwatch.go:348-394 | the refill-and-skip loop returns the outcome and the new reader state of NextEvent |
| Inotify.Reader.ParseRecord | recursivedirwatch/recursivedirwatch.go:358-393 | one record is decoded, skipped (with progress) or found malformed, as in Parse |
| HtmlDirs.StripTrailingSlash | main.go:61-64 | the result is the base directory or the base directory less one character; a character is removed exactly when the base is longer than 1 and ends in "/" |
| HtmlDirs.StripAppendedSlash | main.go:61-64 | d + "/" is normalised to d |
| HtmlDirs.StripKeepsRoot | main.go:61-64 | "/" is kept, and a non-empty base directory stays non-empty |
| HtmlDirs.Regenerates | main.go:91 | an event is dropped exactly when its name is the page's own file name; a synthesized event always passes |
| HtmlDirs.Regenerated | main.go:89-97 | the consumer rebuilds at most one page per event |
| HtmlDirs.FilterOutcomes | main.go:91 | an event named .directory.html rebuilds nothing; a manufactured event or any other name rebuilds |
| HtmlDirs.RegeneratedAppend | main.go:89-97 | the rebuilds for two runs of events are the rebuilds of each, in order |
| HtmlDirs.RegeneratedCovers | main.go:89-97 | every event that passes the filter rebuilds its directory's page |
| HtmlDirs.RescanRegenerates | main.go:89-97 | every directory that the re-scan reports, the new directory included, gets its page rebuilt |
| HtmlDirs.ParentOf | main.go:237-244 | the parent is a prefix of the path, and it is empty or ends in "/" |
| HtmlDirs.ParentOfSpec | main.go:237-244 | parentdir is d up to its last "/" at an index above 0, and "" exactly when there is no such "/" |
| HtmlDirs.ParentOfChild | main.go:237-244 | the parent of q/n is q/ when n has no "/" |
| HtmlDirs.ParentOfIdempotent | main.go:237-244 | taking the parent twice gives the same result as once |
| HtmlDirs.ParentDir | main.go:237-244 | the backwards scan computes ParentOf |
| HtmlDirs.IndexFrom | main.go:174 | the first occurrence of the separator at or after i, and none before it |
| HtmlDirs.MakeRelativeAsWritten | main.go:170-180 | as written: "" when basedir/ does not occur; otherwise the text after its first occurrence up to the next occurrence or the end, which never contains basedir/ |
| HtmlDirs.MakeRelative | main.go:170-173 | the corrected result is dirpath without its leading basedir/, or "" when dirpath is not below basedir |
| HtmlDirs.MakeRelativeRoundTrip | main.go:170-180 | the relative path of basedir/rel is rel, and that of basedir is "" |
| HtmlDirs.MakeRelativeAgrees | main.go:170-180 | as written agrees with the corrected version whenever rel does not repeat basedir/ |
| HtmlDirs.MakeRelativeCutsAsWritten | main.go:174-179 | /srv/a/srv/b below /srv gives "a" as written, not "a/srv/b" |
| HtmlDirs.DigitChar | main.go:191 | a digit's character lies between '0' and '9' |
| HtmlDirs.Digits | main.go:191 | %d prints at least one digit, and only digits |
| HtmlDirs.DigitsRoundTrip | main.go:191 | the printed digits read back as the number, with no leading zero |
| HtmlDirs.Decimal | main.go:191 | %d prints the digits, with "-" before them for a negative number |
| HtmlDirs.CeilDivBounds | main.go:193-195 | math.Ceil(n/d) is the least whole number of d-sized units that covers n |
| HtmlDirs.CeilDivRange | main.go:192-195 | from one unit to 1024 units, the count of KB or MB units is from 1 to 1024 |
| HtmlDirs.UnitText | main.go:193-195 | the digits of a count followed by a two-letter unit: the digits are recovered by dropping the unit, and they denote the count |
| HtmlDirs.FileSizeStr | main.go:185-195 | below 1024 the text is all digits; below 2^20 it is digits followed by KB; below 2^30 digits followed by MB |
| HtmlDirs.FileSizeBytes | main.go:190-191 | below 1024 the size is shown as its exact byte count, in digits, with no unit |
| HtmlDirs.FileSizeUnit | main.go:192-195 | from 1024 to 2^30 the text is digits followed by KB or MB, and it denotes the least number of units (from 1 to 1024) that covers the size |
| HtmlDirs.Entry | main.go:136-161 | a directory row is "DIR" with the name plus "/" and no size; a file row is "FILE" with its size text; the link is the name under the relative path |
| HtmlDirs.Entries | main.go:132-163 | at most one row per entry |
| HtmlDirs.EntriesOne | main.go:134 | a single entry gets exactly its own row, or none when it is a symbolic link or .directory.html |
| HtmlDirs.EntriesAppend | main.go:132-163 | the rows of two listings in a row are the rows of each, in order: the input order is kept |
| HtmlDirs.EntriesSnoc | main.go:132-163 | one more entry adds its own row, or none, at the end |
| HtmlDirs.EntriesShape | main.go:134-161 | no row is named .directory.html, each row's link is its name under the relative path, and directory rows end in "/" and have no size |
| HtmlDirs.LinkIsBaseRelative | main.go:148-153 | a link is "/" followed by the entry's path relative to the base directory |
| HtmlDirs.TemplateInputs | main.go:116-165 | the result fails exactly when the directory is not the base and its parent cannot be examined; a directory other than the base has the ".." row linking to "/" + parentdir(relativepath) first, then its rows |
| HtmlDirs.BuildTemplateInputs | main.go:116-165 | the loop appending rows computes TemplateInputs |
| HtmlDirs.PageInputs | main.go:101-111 | a directory that cannot be listed fails; the page is named by its path relative to the base directory, and the base directory's page has the name "" |

## Left out

- The goroutine and channel of `Watch` and `main`, the blocking read loop, and the closing of the channel are left out (recursivedirwatch/recursivedirwatch.go:85-134; main.go:87-97). These are concurrency and I/O.
    - The channel is the sequence of events sent.
    - The consumer is the function `Regenerated`.
    - Inside that loop, `event, err := inot.readEvent()` declares a new `err`, so the loop condition never sees a read error. This is not modelled.
- inotify_init, close(2) and inotify_rm_watch(2) are not modelled. The code ignores the answer of inotify_rm_watch(2), so the model removes table entries only.
- The filesystem is a snapshot that does not change during one reconciliation. Changes made while the re-scan runs are not modelled.
- `ioutil.ReadDir` failures have no distinct error values: a path absent from the listing is one failure, ENOENT.
- The order in which `filepath.Walk` visits entries, and its handling of symbolic links, are given as the sequence `visits`.
- `readEvent` calls itself once per skipped record, so stack depth grows with the number of skipped records. The model loops instead, so it does not capture running out of stack.
- `unsafe.Pointer` casts are modelled as little-endian decoding of the 16-byte header.
- When read(2) has no data left and would block, `NextEvent` returns the outcome `Blocked`.
- Reconcile.Process: requires that a directory change (IN_ISDIR without IN_ATTRIB, not IN_IGNORED) carries a name. The code dereferences the name unconditionally (recursivedirwatch/recursivedirwatch.go:210), so a nameless directory change panics there. Such an event is IN_UNMOUNT on a watched directory, which the kernel delivers whatever the watch mask (recursivedirwatch/recursivedirwatch.go:337) asks for, when it also sets IN_ISDIR on it. That panic is not modelled. The same requirement holds for `DirWatch.Watcher.ProcessEvent`.
- Reconcile.WatchNewDirsClosed: the closure over every reachable depth is proved only when no table entry lies in the re-scanned directory's subtree yet, and when every listing has distinct entry names without "/". A directory of the subtree that is already watched is skipped together with everything below it, as the code does; the lemma says nothing about such directories. The same holds for `Reconcile.ProcessDirChangeClosed`, except that after a move that also removes the subtree no such entry remains.
- HtmlDirs.FileSizeStr: only sizes below 2^30 are modelled (a precondition). The GB and TB branches format a float with `%.1f`, and that is not modelled.
- HtmlDirs.TemplateInputs: requires that every listed file is below 2^30 bytes, for the same reason. The same limit applies to `HtmlDirs.Entries`, `HtmlDirs.BuildTemplateInputs` and `HtmlDirs.PageInputs`.
- `url.Parse(link).String()` is not modelled: links are the strings before escaping. Its escaping, and the error it returns on a malformed percent escape, are left out.
- `html/template`, `writeTemplate` and `os.Create` are not modelled.
- Time formatting is not modelled: `FileInfo.modified` holds the text that is displayed.
- `isReadable` always returns true, so it is left out.
- `os.Lstat`'s errors have no distinct values: a path absent from `lstat` fails with ENOENT.
- The `-all`/`-exit` flags are not modelled, nor is the `filepath.Walk` regeneration pass in `main` (main.go:50-86). These are command-line handling and I/O.
- All debug printing is left out, including `printEvent`. `mask.String` itself is modelled.

## Findings

| source | as written | input that shows it | evidently intended | confidence | as-written member | corrected member |
|---|---|---|---|---|---|---|
| recursivedirwatch/recursivedirwatch.go:152-154 | `isSubdir` is a plain prefix test, so `deleteWatches("/a/b")` also removes the sibling `/a/bc` | table {1: /a, 2: /a/bc, 3: /a/b/c}, basedir /a/b | remove /a/b and the paths below /a/b/ only | high; not executed | WatchTable.PruneAsWritten (shown by WatchTable.SiblingWithCommonPrefix) | WatchTable.Prune (WatchTable.PruneExact), used by DirWatch.Watcher.DeleteWatches |
| recursivedirwatch/recursivedirwatch.go:353-355 | unix.Read returns n = -1 on error, and `in.buffFull[0:n]` then panics, so the read error is never returned | any failed read(2) | return the error and keep it in buffErr | high; not executed | Inotify.RefillAsWritten (shown by Inotify.ReadErrorPanicsAsWritten) | Inotify.NextEvent, computed by Inotify.Reader.ReadEvent (Inotify.ReadErrorReported, Inotify.FailureSticks) |
| recursivedirwatch/recursivedirwatch.go:367-371 | a record on an unknown wd is skipped by slicing `16+raw.Len` with no length check, and the sum is computed in uint32 | a 16-byte header on an unknown wd declaring Len 16 (panic); a header declaring Len 2^32-16 (the sum wraps to 0, no progress) | report EBADF, as for a known wd | medium; not executed | Inotify.SkipAsWritten (shown by Inotify.TruncatedSkipPanicsAsWritten, Inotify.WrappedSkipStallsAsWritten) | Inotify.Skip, used by Inotify.NextEvent (Inotify.UnknownRecordSkipped) |
| main.go:170-180 | `strings.Split(dirpath, basedir+"/")[1]` ends the relative path at a second occurrence of basedir/ | basedir /srv, dirpath /srv/a/srv/b gives "a" | "a/srv/b", dirpath less its leading basedir/ | high; not executed | HtmlDirs.MakeRelativeAsWritten (shown by HtmlDirs.MakeRelativeCutsAsWritten) | HtmlDirs.MakeRelative (HtmlDirs.MakeRelativeRoundTrip), used by HtmlDirs.PageInputs |
