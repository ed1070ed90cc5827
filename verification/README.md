# rubbish-cli lifecycle engine in Dafny

A model of the core of `rubbish`, a command-line trash can. Objects are
*tossed* into a container directory under a fresh name. Each toss is recorded in
a journal, a key/value store from the container name to a `MetaData` record.
Tossed objects can later be *restored* to the working directory or *wiped*
for good. `status` and `info` report on the records, and the configuration
helpers place the container, size it and render its size.

The state the commands act on is `State.System`: an abstract filesystem and
the journal.
- **Filesystem:** a flat map from absolute path to an object with kind,
  owner, group and mode bits.
- **Journal:** `None` until its store is opened, then a map from key to
  record.

Every outside decision is a parameter: whether a rename or removal is
granted, whether a store transaction commits, the random suffix, the clock,
and the user's reply. The properties therefore hold for every behaviour of
the environment.

Modules, in dependency order:
- **Results, Strings, Seqs, Paths:** the error values, and string,
  sequence and slash-separated path helpers (`path.Join`, `path.Base`,
  `path.Dir`, and `filepath.Abs` against the working directory). `Base`
  and resolution drop trailing separators as the Go functions do.
- **FileSystem:** objects and paths, `Stat`/`Lstat`, and `Rename` and
  `RemoveAll` with a granted/refused flag.
- **Metadata:** the record, the object-type constants, the type
  classification and the retention predicate.
- **Journal:** open/close, register/add/delete/clear, get/count/list and the
  filtered listings.
- **Config:** container-path normalisation, the journal path, the bin-size
  walk and the unit choice of readable sizes.
- **State:** the system state and the result of a state transition.
- **Tosser, Wipe, Restorer, Status, Info:** the five commands.
- **Lifecycle:** a toss followed by a restore gives back the state exactly.

## Model

| member | source | states |
|---|---|---|
| Metadata.TypeCode | journal/metadata.go:37-50 | each object type has a constant between 1 and 4 |
| Metadata.TypeCodesDistinct | journal/metadata.go:37-50 | two types share a constant only when they are the same type |
| Metadata.GetType | journal/metadata.go:67-80 | a failed `Lstat` gives TypeOther and nothing else does; a link is TypeSymlink whatever it points to; a directory is TypeDirectory; regular and special files are TypeFile |
| Metadata.GenerateMetadata | journal/metadata.go:99-107 | the record carries the given item, path and retention unchanged, is stamped with the clock reading, and its type is that of the `item` argument |
| Metadata.TossElapsed | journal/metadata.go:109-112 | the elapsed time is counted from the toss, so it is negative only while the clock reads before the toss |
| Metadata.IsWipeable | journal/metadata.go:114-117 | a record is wipeable exactly when the clock has reached its toss time plus the retention in days |
| Metadata.RemainingTime | info/info.go:59 | the remaining time is the distance from now to the end of the retention, and it is at most zero exactly when the record is wipeable |
| Metadata.WipeableIffWholeDays | journal/metadata.go:114-117 | with an integer retention, wipeable means that the number of whole elapsed days has reached the retention |
| Metadata.WipeableMonotone | journal/metadata.go:114-117 | a record that is wipeable at time t stays wipeable at every later time |
| Metadata.NonPositiveRetentionWipeable | journal/metadata.go:114-117 | a retention of zero or fewer days makes a record wipeable as soon as it is tossed |
| Metadata.IndexOfItem | wipe/wipe.go:116-118 | the index is that of the first record carrying the name, and there is none exactly when no record carries it |
| Journal.Load | journal/journal.go:23-41 | an empty path fails; an open journal is returned as it is; otherwise the result is the opened store, or an open error when the store cannot be opened |
| Journal.Close | journal/journal.go:55-61 | closing a journal that was never opened succeeds; only the store's own close failure is an error |
| Journal.Register | journal/journal.go:96-109 | an unopened journal gives the not-initialised error; on success the record is stored under its item, overwriting, with every other key unchanged and well-keyedness kept |
| Journal.Add | journal/journal.go:74-85 | on success the journal holds a record under the key with the origin made absolute, the given retention, the clock reading and the type of the key's object; every other key is unchanged |
| Journal.Delete | journal/journal.go:191-200 | an unopened journal gives the not-initialised error; on success only the key is removed, even when it was absent |
| Journal.Clear | journal/journal.go:209-226 | on success the journal is open and empty |
| Journal.Get | journal/journal.go:121-142 | returns the record stored under the key; an absent key is a key-not-found error and an unopened journal the not-initialised error |
| Journal.Count | journal/journal.go:234-254 | the count is the number of keys |
| Journal.SortedKeys | journal/journal.go:152-180 | the keys of a set, each once, in strictly ascending order |
| Journal.AscendingIsUnique | journal/journal.go:152-180 | two strictly ascending sequences with the same members are equal |
| Journal.List | journal/journal.go:152-180 | every stored record once and nothing else; for a well-keyed journal the items are strictly ascending |
| Journal.ListIsTheAscendingEnumeration | journal/journal.go:152-180 | any strictly ascending enumeration of a well-keyed journal's records is exactly what `List` returns |
| Journal.GetAllItems | journal/journal.go:308-342 | an unopened journal gives the not-initialised error; otherwise every stored record, once each, and nothing else |
| Journal.GetContainerItems | journal/journal.go:285-306 | exactly the records whose origin starts with the prefix, as a subsequence of the listing |
| Journal.SiblingDirectoryIsLocal | journal/journal.go:297-301 | the origin filter is a string-prefix test: an object tossed from `/w2` is in the local scope of `/w` though its origin is not under `/w/` |
| Journal.FilterPath | restorer/restore.go:50 | an unopened journal gives the not-initialised error; an open one succeeds with exactly the stored records whose origin starts with the directory, as a subsequence of the ascending listing |
| Journal.FilterWipeable | status/status.go:102-103 | exactly the wipeable records, as a subsequence of the listing |
| Journal.GetAfterRegister | journal/journal.go:96-142 | after registering a record, `Get` of its item returns it, and `Get` of every other key is unchanged |
| Journal.GetAfterDelete | journal/journal.go:121-200 | after a delete the key is not found, and `Get` of every other key is unchanged |
| Journal.CountAfterWrites | journal/journal.go:96-254 | registering a new key adds one to the count, deleting a present key removes one, and clearing leaves zero |
| Config.NormalizePath | config/config.go:120-135 | an absolute path, or any path when there is no home directory, is returned unchanged; otherwise the result lies under the home directory and is absolute when the home is; for a home without a trailing separator, "rubbish", "rubbish/", "~/rubbish" and "~/rubbish/" all become the home, "/" and "rubbish", since `path.Join` drops trailing separators; "~" alone is the home less its trailing separators |
| Config.TildeIsHome | config/config.go:125-134 | "~/x" and "x" normalise to the same path |
| Config.NormalizePathIdempotent | config/config.go:120-135 | normalising a normalised path changes nothing |
| Config.JournalPath | config/config.go:103-105 | the journal's last element is `.journal`, and it is absolute when the container is |
| Config.JournalPathInContainer | config/config.go:103-105 | for a container written without a trailing separator, the journal is the container, "/" and `.journal`, so its directory is the container |
| Config.RubbishPathOfName | restorer/restore.go:91 | the container entry of a plain name keeps that name, and inside an absolute container it is the container, "/" and the name |
| Config.BinSize | config/config.go:137-158 | the result is an error exactly when the walk reports one, and otherwise the total size of the non-directory entries whose path does not contain ".journal" |
| Config.BitLenBounds | config/config.go:166 | the bit length l of a positive size satisfies 2^(l-1) <= size < 2^l |
| Config.ReadableSize | config/config.go:160-169 | sizes below 1024 are shown in bytes; larger ones always get one of the units K to E, and the size then lies between half that unit and 512 of it, which fixes the unit |
| Config.ReadableSizeHalfUnit | config/config.go:166-168 | half of 1024^k, for k from 2 to 6, is shown in unit k (as 0.5 of it) |
| Config.ReadableSizeCorrected | config/config.go:160-169 | with the unit index computed from bit length minus one, the size lies between one and 1024 of the chosen unit |
| Tosser.NameSuffix | tosser/tosser.go:97-105 | the suffix has the requested length and each character is the draw's letter of A-Z0-9 |
| Tosser.CheckWritePermission | tosser/tosser.go:109-130 | write is granted exactly when the owner's bit is set for the owner, the group bit for a member of the primary or a supplementary group, or the other bit for anyone |
| Tosser.PosixAllowedPassesCheck | tosser/tosser.go:109-130 | the check never refuses what the POSIX first-matching-class rule allows |
| Tosser.OwnerWithoutWriteBitPasses | tosser/tosser.go:109-130 | an owner whose write bit is clear still passes through the other bit, which POSIX refuses |
| Tosser.ValidateParentDirAccess | tosser/tosser.go:132-150 | passes exactly when the parent directory exists and passes the check |
| Tosser.ValidateAccess | tosser/tosser.go:152-183 | uid 0 always passes; anyone else passes exactly when the object and its parent directory exist and pass the check; a refusal is one of the four access errors |
| Tosser.TossKeyShape | tosser/tosser.go:190-192 | the key is what follows the object's last separator, "_" and the suffix: the object's base name for a path that does not end in a separator, and just "_" and the suffix for one that does; it is a single path element |
| Tosser.TossKeysDistinct | tosser/tosser.go:190-192 | different suffixes of the same length give different keys, whatever the objects |
| Tosser.TossDestinationName | tosser/tosser.go:190-192 | the last element of the destination is the journal key |
| Tosser.Toss | tosser/tosser.go:185-204 | a refused gate changes nothing; success needs the gate, the journal write and the move; on success the object is at the destination and the key's record holds the origin, retention and clock; a failed toss never moves anything; a refused move deletes the key's record again, or reports the failed compensation |
| Tosser.TossFailureRestoresJournal | tosser/tosser.go:196-201 | a failed toss whose compensation commits leaves a journal that did not use the key exactly as it was |
| Tosser.TossRecordsAdd | tosser/tosser.go:190-196 | a successful toss leaves exactly the journal that adding the key's record gives, with the key's name looked up in the working directory |
| Tosser.TossRecordsTypeOfKey | tosser/tosser.go:192 | the recorded type is that of the key's name in the working directory, so TypeOther when no object of that name is there |
| Tosser.TossAll | tosser/tosser.go:63-82 | a missing first object ends the command with the invalid-rubbish error and nothing changed; a failed first toss ends it with that toss's error and state; an unopened journal fails the first file and changes nothing |
| Tosser.TossAllSplit | tosser/tosser.go:63-71 | tossing a + b is tossing a, and then b from the resulting state only when every file of a went through; so the files after the first failure are never touched |
| Tosser.TossKeepsOtherObjects | tosser/tosser.go:185-204 | a successful toss keeps every object other than its source and destination where it was |
| Tosser.TossKeepsOtherRecords | tosser/tosser.go:185-204 | a successful toss keeps every journal record other than its key's as it was |
| Tosser.Command | tosser/tosser.go:54-95 | no arguments is an error and changes nothing; a well-keyed journal stays well-keyed |
| Tosser.CommandAppliesRetention | tosser/tosser.go:59-61 | a tossed file's record carries the retention given to the command when it is non-negative, and the configured one otherwise |
| Tosser.SequentialTossesKeepBoth | tosser/tosser.go:185-204 | two successful tosses with different suffixes leave both objects in the container and both records in the journal |
| Wipe.ScopeRecords | wipe/wipe.go:85-98 | the global scope is the full listing; the local scope is a subsequence of it |
| Wipe.GetRecords | wipe/wipe.go:78-112 | without force, exactly the wipeable records of the scope, in order; with force, the scope itself |
| Wipe.UnforcedWithinForced | wipe/wipe.go:100-109 | the candidates without force are a subsequence of those with force |
| Wipe.ForcedIsWholeScope | wipe/wipe.go:107-108 | with force every record in scope is a candidate |
| Wipe.ScanWord | wipe/wipe.go:66-71 | a line holding one word between blanks gives that word; no input, an empty or blank line (Enter at the "[y/N]" prompt) and a line of several words are read errors |
| Wipe.ScanWordOfPadded | wipe/wipe.go:67 | a word with blanks around it is read as that word |
| Wipe.ScanWordOfTwoWords | wipe/wipe.go:67 | two words separated by blanks are a read error |
| Wipe.ConfirmWipe | wipe/wipe.go:61-76 | auto-acknowledge confirms without reading; otherwise a read error is reported and only "y" or "Y" confirms |
| Wipe.ExecuteWipe | wipe/wipe.go:141-162 | success removes the record and the container object; a record delete that fails removes nothing; a refused removal re-adds the same record, so a stored record comes back as it was; nothing outside the item is touched |
| Wipe.ReaddRestores | wipe/wipe.go:155-156 | deleting a stored record and storing it again gives back the same journal |
| Wipe.WipeOne | wipe/wipe.go:124-135 | a read error ends the batch; a declined item changes nothing; otherwise only that item's record and object change |
| Wipe.WipeAll | wipe/wipe.go:164-184 | the batch fails exactly when a confirmation cannot be read; only the candidates' records and objects change |
| Wipe.WipeAllFrame | wipe/wipe.go:164-184 | the batch from an index on only takes objects away, and leaves every record outside the candidates from that index on as it was |
| Wipe.AcknowledgedWipeRemovesGranted | wipe/wipe.go:166-181 | with auto-acknowledge and distinct candidates, every candidate whose record delete and removal were granted is gone from the journal and the container at the end, whatever the other candidates' wipes did: a failed wipe does not stop the batch |
| Wipe.WipeSelected | wipe/wipe.go:114-139 | the batch succeeds exactly when every named file is a candidate and every needed reply is read; only the candidates change |
| Wipe.SelectedStep | wipe/wipe.go:116-135 | one selected file goes through exactly when it names a candidate and its reply is read or not needed; a failed step changes nothing, and a step touches only the candidates |
| Wipe.WipeSelectedSplit | wipe/wipe.go:114-139 | the files are worked through in order: the batch from any index is the batch up to a later index, and then the rest only when the first part passed; so an unknown name or an unreadable reply stops it |
| Wipe.WipeSelectedReadsOwnSteps | wipe/wipe.go:114-139 | the batch depends only on the replies and effects of its own steps |
| Wipe.Command | wipe/wipe.go:34-58 | an unopened journal is a retrieval error; no candidates succeeds with nothing changed; only candidates are touched |
| Wipe.DeclinedChangesNothing | wipe/wipe.go:168-176 | declining every prompt leaves the state unchanged and succeeds |
| Wipe.AcknowledgedWipeRemovesAll | wipe/wipe.go:164-184 | an acknowledged wipe with every operation granted leaves none of the candidates in the journal or the container, and adds nothing |
| Restorer.LocalRecord | restorer/restore.go:62-79 | a record is found exactly when the local rubbish holds one with that item |
| Restorer.RestoreOne | restorer/restore.go:57-99 | an argument outside the local rubbish, or whose target exists without override, is skipped with no change; a refused rename stops the command and keeps the record; a restore moves the object to the origin's base name in the working directory and removes exactly its record |
| Restorer.RestoreEach | restorer/restore.go:56-100 | an empty argument or a failed rename or delete ends the loop with that error; well-keyedness is kept |
| Restorer.RestoreEachSplit | restorer/restore.go:56-100 | the arguments are worked through in order: the loop from any index is the loop up to a later index, and then the rest only when the first part passed; so an empty argument or a refused rename or delete stops it |
| Restorer.RestoreEachReadsOwnSteps | restorer/restore.go:56-100 | the loop depends only on the effects of its own steps |
| Restorer.RestoreTargetInWorkingDir | restorer/restore.go:80-91 | an object whose origin ends in a plain name is restored under that name directly inside the working directory, wherever it was tossed from |
| Restorer.RestoreEachStaysLocal | restorer/restore.go:56-100 | the loop touches only the container paths and targets of the local rubbish, and only its keys |
| Restorer.Command | restorer/restore.go:32-103 | unparsed flags, no arguments, an unopened journal and an empty first argument are errors that change nothing; records whose origin does not start with the working directory's path are never touched |
| Restorer.LocalItemsAreLocalKeys | restorer/restore.go:50-54 | in a well-keyed journal every local item is a key whose record's origin starts with the working directory's path |
| Lifecycle.TossThenRestore | restorer/restore.go:80-97 | tossing a file from the working directory and restoring it by its key gives back exactly the filesystem and the journal before the toss |
| Lifecycle.RestoreUndoesMove | restorer/restore.go:91-97 | restoring the record and object the last step added gives back the state before it |
| Paths.ResolveName | journal/journal.go:75 | a plain name in an absolute working directory resolves to the directory, "/" and the name, and keeps its name |
| Lifecycle.SlashedNameRestoresUnderName | journal/journal.go:74-79 | a directory named with a trailing separator is recorded under the same origin as without it, and restores to the same place |
| Lifecycle.DestinationIsRubbishPath | tosser/tosser.go:190 | the toss destination is the container path that restore and wipe read for the key |
| Status.RetrieveJournalRecords | status/status.go:93-109 | the global flag gives every record; otherwise wipeable-only gives exactly the wipeable ones; otherwise exactly those whose origin starts with the working directory's path; always a subsequence of the listing |
| Status.RelativePath | status/status.go:111-117 | for an item that is a single path element, the shown path ends in the item |
| Status.RelativePathInWorkingDir | status/status.go:111-117 | an object tossed straight from the working directory is shown by its item alone, less any trailing separators `path.Join` drops |
| Status.RelativePathInSubdir | status/status.go:111-117 | an object tossed from a sub-directory is shown as that sub-directory's relative path, "/" and the item less its trailing separators |
| Status.ClassifyRemaining | status/status.go:125-132 | more than a day left gives the day form, some time left the duration form, and none "Wipeable" |
| Status.ShownWipeableIffWipeable | status/status.go:119-135 | a record is shown as "Wipeable" exactly when it is wipeable |
| Status.Entries | status/status.go:74-86 | one line per record, in order, named by item globally and by relative path otherwise |
| Status.ToUint64 | status/status.go:50 | the displayed size is below 2^64 and equals the size when it fits |
| Status.Command | status/status.go:38-91 | a size error is reported; the size-only report shows just the size, with the unit `Config.ReadableSize` chooses; the total is the number of records shown, the wipeable count the number of wipeable ones, so it never exceeds the total; no records gives the empty report |
| Info.RetrieveByPosition | info/info.go:75-98 | a position beyond the listing in either direction is an error; position p > 0 gives the p-th record and -p the p-th from the end |
| Info.PositionFromEitherEnd | info/info.go:81-96 | position p and position p - n - 1 of n records name the same record |
| Info.RetrieveByName | info/info.go:100-109 | the record stored under the argument's last element; otherwise the lookup error |
| Info.ByNameIgnoresDirectory | info/info.go:100-101 | any path ending in the item finds the same record as the item alone |
| Info.ByNameIgnoresTrailingSlash | info/info.go:100-101 | an item named with a trailing separator finds the same record as the item alone |
| Info.DetailsOf | info/info.go:57-70 | wipeable-at is the toss time plus the retention in days; the remaining time is shown as its magnitude and marked overdue exactly when it is past |
| Info.OverdueMeansWipeable | info/info.go:57-70 | an overdue record is wipeable, and a record not yet wipeable is never overdue |
| Info.Command | info/info.go:32-73 | a nonzero position selects by position; otherwise a missing name is an error and the first argument's last element is looked up |

## Left out

- Standard output, the ANSI colours, silent mode and the text of the messages are left out. The model returns typed values (`Report`, `Details`, `Error`) in their place.
- Floating-point rendering is left out: the one-decimal size value, the days and durations in `status` and `info`, and the date format of wipeable-at. The model keeps the integers these are computed from.
- Time is whole seconds. The retention test on fractional days equals the integer test, as `Metadata.WipeableIffWholeDays` shows.
- The clock, the random source, standard input, `os.Getgroups` and the outcome of every rename, removal and store transaction are parameters. `os.Getgroups` is called lazily by rubbish, which the model does not need to distinguish.
- The `Sys()` cast failure in the access checks and the nil checks in `executeWipe` cannot arise in this model.
- Store read and decode errors (badger and JSON) are left out. The journal is the map it holds.
- `GetSize` is left out: it depends on the serialised size of records.
- `Load` of the configuration file (INI parsing, the home directory and `os.Getwd`) is left out. `Config.Config` holds its results, and the journal path it derives is `Config.JournalPath`.
- `main.go` (flag parsing, dispatch, exit codes, creating the container) is left out. `status/command.go` and `tosser/files.go` / `tosser/directories.go` are not part of this model: they are an older status command and older toss variants with unsynchronised goroutines.
- The filesystem is flat. A tossed directory is one object; symbolic links are not followed, so `Stat` and `Lstat` agree. Paths are not cleaned of "." and ".." elements or doubled separators, and `Paths.Dir` does not clean its result; trailing separators are handled as in Go: `Paths.Join` and `Paths.Resolve` drop them, and `Paths.Base` ignores them.
- `FilterPath` and `FilterWipeable` are not defined in the journal code shown. `Journal.FilterPath` is taken to be the origin-prefix filter of `GetContainerItems`, and `FilterWipeable` the retention filter of `List`.
- Journal.FilterPath: under the assumed string-prefix filter, a sibling directory whose name extends the working directory's name (`/w2` for `/w`) counts as local, so `restore`, `status` and a local `wipe` run in `/w` also act on objects tossed from `/w2` (`Journal.SiblingDirectoryIsLocal`). The model does not promise a subtree filter that excludes them.
- Config.NormalizePath: requires a non-empty path once a home directory is known. The program indexes the first byte of the path, so an empty `container_path` in the configuration file panics there; that panic is not modelled.
- `AddFileByName` is taken to be `Add`, and `AddRecord` to be `register`.
- `RemainingTime` is taken to be the retention in seconds minus the elapsed time.
- Three behaviours of the program are modelled as the code has them:
  - an owner without the owner-write bit passes through the group or other bit;
  - an unknown name among the files to wipe aborts the rest of the batch;
  - a refused rename during restore aborts the remaining arguments.
- The failure of the compensating re-add in `executeWipe` is ignored, as in the code.
- Status.ToUint64: a negative total cannot arise from a walk of non-negative sizes, so only wrap-around above 2^64 is modelled. The 64-bit overflow of the summation itself is not modelled.
- Tosser.Command: the size report printed after the tosses is left out.
- Wipe.ScanWord: space, tab and carriage return are the blanks; the other Unicode spaces `fmt` skips are not modelled.
- Info.DetailsOf: wipeable-at is computed in unbounded integers. The program multiplies the retention by 24 hours in a 64-bit `time.Duration`, which overflows for a retention above about 106751 days; that wrap is not modelled.
- Info.RetrieveByPosition: a position of -2^63 is taken by its magnitude and rejected as beyond the listing. In the program `math.Abs` of it does not fit an `int`, the index stays negative and the lookup panics; that panic is not modelled.

## Findings

| source | as written | input that shows it | evidently intended | confidence | as-written member | corrected member |
|---|---|---|---|---|---|---|
| config/config.go:166 | the unit index is `bits.Len64(size) / 10` | a size of 2^19 bytes (512 KiB) has bit length 20, so the index is 2 and it is shown as "0.5 MB"; the same holds for 2^(10k-1) for k from 2 to 6 | the largest unit not above the size, index `(bits.Len64(size) - 1) / 10`, so the value shown is in [1, 1024) | not executed | Config.ReadableSizeHalfUnit | Config.ReadableSizeCorrected |
