# beak, verified

beak backs a directory tree up into virtual tar files. It lays the entries of a directory out in
512-byte blocks, cuts large tars in parts, names the parts after what is in them, lists them in an
index, and later reads files back out of the parts, through formulas that were written separately
from those that made them. Old backups are pruned by a retention rule, while tars are shared between
points in time. This project models that program in Dafny, in the form the C++ code has (classes with
fields where objects are updated, loops where the code loops, functions where it computes), and proves
what the parts owe each other.

Main results, and where they are:

- **A file restored is the file that was backed up** (`Pipeline.BackupAndRestore`): for every file of every
  tar, in one piece or in parts, storing the parts under their names, listing the file in the index, reading
  its line back, and reading the file from the storage by what the line says, gives the file's bytes; so does
  every range (`Pipeline.RestoreRange`). It rests on the layout invariant (`TarFiles`), on virtual reads that
  do not depend on how they are chunked (`TarFiles.TarFile.ReadVirtualTar`), on the writer's and the reader's
  part arithmetic being inverse to each other (`Splits`), and on the round trips of names and index lines.
  `Backups` puts it together for all tars of all storage directories in one storage: every file of the tree is
  in one tar of one storage directory, once, and can be restored from there.
  Every later part of a large file also says, in a header of its own, how much of the file came before it and how
  much is left, and the file's bytes go on behind that header (`Pipeline.LoneFileContinues`).
- **Pruning is confluent** (`PruneRuns`, `Storages`): whatever was pruned in between, and in whatever order
  points came in, the survivors of the last prune, and the files in the storage, are those of a single prune
  of all that was ever stored, unless the last prune refuses, which it does if and only if a point from the
  future was ever stored. Points are the newest times in the trees backed up (`Points.PointIsNewest`); they need
  not be stored in order and may lie ahead of the clock. What the indexes say is needed is what was stored, so
  the storage holds exactly the files stored for the kept backups, tars shared with others among them
  (`Listings.StoredIsConfluent`).
- **The plan of a backup** (`Planning`): sizes never wrap, storage directories' sizes sum to the tree, every
  file is in one storage directory. Files start out in the nearest one if and only if the safe paths, given in
  the order of the files, leave no path with something below it to another directory (`Collisions.Untangled`).
  They end up where they belong, hard links in the deepest storage directory above link and target, if and only
  if each does, or is a link found in a directory that is deeper than what it shares with its target
  (`Planning.NoneAstray`).
- **Printers and parsers** (`Names`, `PartNames`, `Permissions`, `IndexEntries`): round trips, each with
  the exact condition under which it holds.

Properties that turned out not to hold everywhere are stated as exact conditions, with an input that fails:

- `splitParts_` counts parts in 32 bits, so the parts cover the tar if and only if there are fewer than
  2^32 of them (`Splits.SplitParts`, `Splits.TooManyParts`).
- The record of a long link is given one block more than its size field admits to, if the link's text
  fills its last block. A reader of GNU records recovers path and link if and only if that is not so, or
  the link is a hard link with a root slash, which is measured without it (`TarHeaders.ReaderRecoversNames`,
  `TarHeaders.BlockLongLink`). The size field holds sizes below 8 GiB (`TarHeaders.SizeFieldReadsBack`,
  `TarHeaders.EightGigabytes`).
- `TarEntry::copy` pads relative to the bytes copied. A read is right if and only if it starts on a block
  boundary or ends before the two ideas of the padding part (`Layout.CopyIsFaithful`,
  `Layout.MiddleIsPaddedTooFar`); a part is stored right if its chunks are read so (`Pipeline.StorePart`,
  `TarFiles.UnfaithfulTurn`), which chunks of whole blocks are.
- `readParts` goes on behind the bytes it asked for when it got fewer. What it returns is the tar's own,
  whatever its buffer held, if and only if nothing is left behind a part that was cut short
  (`Restore.ReadsAreRight`, `Restore.TruncatedPart`).
- A setuid, setgid or sticky bit without its execute bit comes back with it (`Permissions.ModeRoundTrip`,
  `Permissions.SetuidGainsExecute`).
- An index line with a field over its limit, a time before 1970, or a hard-linked symbolic link, is not read back
  as written (`IndexEntries.LineRoundTrip`, `IndexEntries.LineBeforeTheEpoch`).
- The prune command deletes nothing if all there is to delete is empty files, so a check after it finds nothing
  superfluous if and only if it deleted something or there was nothing (`Storages.FsckAfterCommand`,
  `Storages.EmptyFileStays`).
- Hard links are found by inode numbers without their devices. Links are other names of the files they link to
  if and only if no two files of the tree share an inode number (`HardLinks.LinksAreSameFile`,
  `HardLinks.DevicesAreMixedUp`).
- Safe paths of storage directories share a table with real paths, where `a/b` and `a_b` meet. Three things
  hold together, that safe paths are as they ought to be, that they differ, and that files get into the nearest
  storage directory, if and only if the safe paths that ought to be given are distinct and no other directory's
  path (`SafePaths.SafePathsWork`). Files get into the nearest storage directory more often: if and only if every
  safe path with something below it is left, in the end, to the directory whose own path it is
  (`Collisions.HomesAreNearest`).
  Where safe paths are distinct, the two conditions are one (`Collisions.UntangledIfDistinct`); where they are not,
  a directory can get its path back (`Collisions.PutRightAgain`), or not (`Collisions.UnderscoreTangles`).
- The index has 1024 characters for the name of a tar behind the safe path of its directory; the storage has
  no such limit. A prune leaves a kept backup all its files if and only if these names fit: others are cut, and
  their tars deleted as superfluous (`Listings.PruneSparesParts`). Safe paths up to 823 characters leave room,
  those from 1022 on do not (`Listings.ShallowDirectoriesHaveRoom`, `Listings.DeepDirectoriesHaveNoRoom`).
- The mounted file system looks for the parts of a tar in the directory of the file that is read. It finds them
  if and only if that is where the tar is (`PartNames.MountedLooksUpStored`, `PartNames.MountedElsewhere`).
- Parts are counted up to 2^32, but named only below 2^28, where `toHex` stops with an assertion
  (`Names.PartsCanBeNamed`).
- The loop that finds the number of tars ends if and only if some power of two times the tar size reaches the
  total, modulo 2^64: not for tars of no size, and for tars of 10M up to 2^40 times as much
  (`Grouping.StopsIf`, `Grouping.EmptyTars`, `Grouping.TenMegabytes`).
- `Keep::subsetOf` is sound but not complete: `KeepRules.KeepsLessIsExact` gives the comparison that is both.
- The comment in `findNumTarsFromSize` says 8 tars for 128M in tars of 10M; the code gives 16, which is
  right for its purpose (`Grouping.SixteenNotEight`). The model follows the code.
- `mostRecentWeeklyBackup` always returns the latest point, while weeks do not wrap around
  (`Pruning.Prune.MostRecentWeeklyBackup`).

Assumptions: split sizes are multiples of 512 (src/backup.cc:1235-1240) and exceed the first entry's
header (src/tarfile.cc:465); files do not change between scan and store; the hash of a tar and the digest in
long safe names are given texts; the text of a date is any that fits its buffer and has no separators, as the
one in UTC does (`Names.GmDatesAreDates`).

## Model

| member | source | states |
|---|---|---|
| Splits.SplitParts | src/tarfile.cc:549-609 | cutting a tar larger than the split size covers it exactly, with the last part longer than its header and no longer than the others, if and only if the number of parts needed fits 32 bits |
| Splits.CoveringCount | src/tarfile.cc:549-609 | parts that cover a tar are as many as its data divided by the data per part, rounded up: no covering has more or fewer |
| Splits.TooManyParts | src/tarfile.cc:549-609 | 2^32 blocks of data in parts of one block each need 2^32 parts, which 32 bits do not count |
| Splits.PartRange | src/tarfile.cc:690-712 | the data of every part is not empty, and ends in the tar where the next part's begins |
| Splits.FindPartOfOrigin | src/restore.cc:999-1034 | the reader's formula, given the tar offset that the writer's formula assigns to a position behind a part's header, finds that part and position |
| Splits.OriginOfFoundPart | src/restore.cc:999-1034 | for every offset inside the tar the reader's formula names a position behind a header inside an existing part, and the writer's formula leads back from it |
| Restore.RequestAt | src/restore.cc:999-1043 | a turn asks for bytes of the part that holds the offset, behind its header, at least one, and ends with the range or with that part |
| TarHeaders.ReaderRecoversNames | src/tar.cc:60-149 | a reader that follows GNU 'L' and 'K' records through an entry's header bytes gets the path and the link, a hard link without its root slash if it then fits its field, and ends where the cached header size says, if and only if the link record ends where the link's text does |
| TarHeaders.HeaderSays | src/tar.cc:217-285 | an entry's own header verifies, holds name and link in their fields if they fit, a hard link's without its root slash, the size if it is below 8 GiB, the type of a hard link, and else what the file's status gives |
| TarHeaders.LongHeaderSays | src/tar.cc:128-142 | the header of a long record verifies and holds the name and type of such records, no time, and the size of the text |
| TarHeaders.MultivolSays | src/tar.cc:144-149 | the header of a later part verifies and holds type 'M', the name up to 100 bytes, and offset and size if they are below 8 GiB |
| TarHeaders.BlockLongLink | src/tar.cc:74-110 | a reader does not recover a symbolic link to a path of 512 bytes |
| TarHeaders.ChecksummedVerifies | src/tar.cc:301-310 | every header verifies after its checksum has been put in, for any earlier content of the field |
| TarHeaders.ChecksumIs | src/tar.cc:301-310 | the checksum field reads back as the sum of all other bytes and of eight spaces in its own place |
| TarHeaders.SizeFieldReadsBack | src/tar.cc:217-285 | the size field reads back as the size if and only if the size is below 8 GiB |
| TarHeaders.EightGigabytes | src/tar.cc:217-285 | the size of a file of 8 GiB does not read back |
| TarHeaders.OctalFieldReadsBack | src/tar.cc:144-154 | an octal field reads back if and only if the value has no more digits than the field |
| TarHeaders.LongTextFits | src/tar.cc:74-110 | a long path, with its NUL, fits the blocks reserved for it |
| TarHeaders.LongLinkFits | src/tar.cc:74-110 | a long link fits the blocks reserved for it (its NUL need not) |
| TarHeaders.TarHeader.ForEntry | src/tar.cc:217-285 | the constructor fills the header of an entry, and counts long path and link blocks as the size calculation does |
| TarHeaders.TarHeader.SetLongType | src/tar.cc:128-142 | makes the header of a long path or link record |
| TarHeaders.TarHeader.SetMultivolType | src/tar.cc:144-149 | writes name, type and offset of a continuation header, and nothing else |
| TarHeaders.TarHeader.CalculateChecksum | src/tar.cc:301-310 | afterwards the header verifies, and differs in the checksum field only |
| Layout.EntryIsUnique | src/tarfile.cc:144-171 | two entries never cover the same offset |
| Layout.EntryInTar | src/tarfile.cc:104-114 | an entry's bytes stand in the tar at the sum of the blocked sizes before it |
| Layout.DataInTar | src/tarfile.cc:104-114 | a range of a file is the same range of the tar, shifted by the entry's offset and header size |
| Layout.CopyIsFaithful | src/tarentry.cc:154-258 | a read delivers the entry's own bytes if and only if it starts on a block boundary, or asks for no more than both countings of the padding agree on |
| Layout.MiddleIsPaddedTooFar | src/tarentry.cc:240-258 | 100 bytes read from the middle on are padded to a whole block, beyond the entry's end |
| Layout.ReadInTar | src/tarentry.cc:154-258 | a read inside an entry delivers the tar's bytes up to the end of the entry, if and only if it is faithful |
| TarEntries.TarEntry.UpdateSizes | src/tarentry.cc:291-307 | the cached header and blocked sizes are those of the bytes that reading the entry delivers |
| TarEntries.EntrySays | src/tarentry.cc:160-222 | the last block of an entry's header has its size, path and type: a hard link has the type of its own, with the size of the file but none of its data; generated files and tars without headers have none |
| TarEntries.SizesSay | src/tarentry.cc:291-307 | only regular files that are no hard links take up room behind their header, up to the end of their last block |
| TarEntries.TarEntry.SetTarpath | src/tarentry.cc:130-139 | changing the path in the tar keeps the cached sizes right |
| TarEntries.TarEntry.SetLink | src/tarentry.cc:316-323 | changing the link keeps the cached sizes right |
| TarEntries.TarEntry.RewriteIntoHardLink | src/tarentry.cc:309-314 | a file that becomes a hard link loses its data and keeps right sizes |
| TarEntries.TarEntry.UpdateMtim | src/tarentry.cc:342-354 | replaces a time by the entry's if that is later, in microseconds |
| TarEntries.LaterIsNewest | src/tarentry.cc:342-354 | the newest of some times becomes the newest of them and one more |
| TarEntries.NewestIsWhole | src/tarfile.cc:43-54 | a time that starts out as zero and is only replaced by later ones is never before 1970, and in whole microseconds |
| TarEntries.NewestIsOne | src/tarentry.cc:342-354 | there is one newest time, whatever order the times came in |
| TarEntries.TarEntry.BuildHeader | src/tarentry.cc:161-198 | the buffer holds link record, path record and header, all checksummed, in as many bytes as were reserved |
| TarEntries.TarEntry.Copy | src/tarentry.cc:154-258 | writes the bytes of the read and nothing else, for any size and start |
| TarFiles.TarFile.AddHardLink | src/tarfile.cc:60-63 | queues a hard link and leaves the layout alone |
| TarFiles.TarFile.AddEntryLast | src/tarfile.cc:104-114 | appends an entry; offsets stay sorted and tile the tar, every entry knows its own, and the tar's time is the newest of the epoch and its entries' times, in whole microseconds |
| TarFiles.TarFile.AddEntryFirst | src/tarfile.cc:116-142 | puts an entry in front and shifts all others; the same invariant holds |
| TarFiles.TarFile.PrependHardLinks | src/tarfile.cc:65-102 | queued hard links come before all entries, in their order; the same invariant holds |
| TarFiles.OnDiskSizeIs | src/tarfile.cc:611-632 | unpadded parts take up their own size; with absolute padding, parts other than indexes up to the target size take up that; all others are rounded up to the next multiple of 1000, 10000, 100000 or a million, by their size |
| TarFiles.TarFile.FixSize | src/tarfile.cc:634-661 | only a large file's tar that exceeds the split size is cut; the sizes are settled if and only if the parts can be counted; every part has room on disk |
| TarFiles.TarFile.FindTarEntry | src/tarfile.cc:144-171 | finds the entry that covers an offset, and none beyond the end |
| TarFiles.UpperBound | src/tarfile.cc:153-165 | the binary search finds the first offset beyond the one looked for |
| TarFiles.TarFile.ReadVirtualTar | src/tarfile.cc:431-533 | a read that starts out right delivers that slice of the part file (header, share of the tar, zeros), as many bytes as are left or were asked for, and terminates |
| TarFiles.TarFile.ReadTurn | src/tarfile.cc:443-530 | each turn of the read loop delivers at least one byte of the part file, and ends on a block boundary or where the read ends |
| TarFiles.TarFile.MultivolBytes | src/tarfile.cc:449-487 | bytes at the start of a later part are those of a checksummed continuation header for the file's remaining data; what it says, and that the file goes on behind it, state Pipeline.PartContinues and Pipeline.LoneFileContinues |
| Pipeline.PartContinues | src/tarfile.cc:449-487 | a later part of a tar starts with a verified header of type 'M' with the first file's name, says how many bytes of the file are in the parts before and how many are left, and goes on with the file's bytes from there, as long as the part starts inside that file |
| Pipeline.LoneFileContinues | src/tarfile.cc:449-487 | so does every later part of a tar that holds one file |
| TarFiles.TarFile.CopyContent | src/tarfile.cc:488-509 | bytes behind the header are those of the entry that covers the position's origin in the tar |
| TarFiles.TurnInPart | src/tarfile.cc:488-509 | a turn in an entry delivers the part's bytes up to the entry's end, if and only if it is faithful |
| TarFiles.UnfaithfulTurn | src/tarfile.cc:488-509 | a read that does not start out right gets other bytes than the part's, or none, from the entry it starts in |
| TarFiles.EntryStands | src/tarfile.cc:104-114 | an entry's registered offset is where its bytes stand in the tar, on a block boundary, and its cached sizes are theirs |
| Parts.PartsAligned | src/tarfile.cc:549-609 | a tar of whole blocks cut in parts of whole blocks has a last part of whole blocks |
| Parts.ReadInPart | src/tarfile.cc:431-533 | reading the entry that covers a position of a part delivers the part's own bytes, if and only if the read is faithful |
| Restore.RestoreEntry.ReadParts | src/restore.cc:1045-1076 | the loop does to the buffer what ReadRun says, for any files in the storage, whole, cut short or lost: each turn goes on behind what it asked for |
| Restore.GotIs | src/restore.cc:1055-1072 | what a turn gets is the tar's own, as far as the part's file goes |
| Restore.GotShort | src/restore.cc:1055-1072 | a turn that gets less than it asked for has met the first byte that is missing |
| Restore.UnbrokenIsRight | src/restore.cc:1045-1076 | a read in which no turn but the last is short returns the tar's bytes, all of them or up to the first that is missing, and leaves the rest of the buffer alone |
| Restore.ReadIsRight | src/restore.cc:1045-1076 | a read returns the tar's bytes whatever its buffer held before, if and only if no turn but the last is short |
| Restore.ReadsAreRight | src/restore.cc:1045-1076 | all reads of a tar in parts do, if and only if nothing is left behind a part that was cut short |
| Restore.TruncatedPart | src/restore.cc:1061-1073 | a first part without its last byte: the read returns a byte of the old buffer in its place |
| Restore.ExtractFile | src/filesystem_posix.cc:529-544 | without gaps, the restored file is the range of the tar, or its beginning up to the first byte that is missing |
| Restore.ReadChunk | src/origintool.cc:254-293 | one chunk, from a tar in one piece by a single read whatever its geometry, through the parts otherwise; without gaps it is the tar's bytes up to the first that is missing |
| Restore.WholeIsGapless | src/restore.cc:1045-1076 | with all parts there in full length, no read is short and nothing is missing |
| Restore.PartFileAgrees | src/tarfile.cc:431-533 | a part's file is what the reader expects: its share of the tar stands behind the header |
| Pipeline.LayOut | src/backup.cc:592-663 | entries whose files are there, added one after the other and settled, make a tar that can be read: everything the virtual reads rely on is established. A tar of a large file over the split size is in parts of that size, with headers of a block unless the style has none; every other tar is whole and of the kind it started with; and every part takes up what the padding says on disk |
| Pipeline.StorePart | src/filesystem_posix.cc:498-548 | the file written is the part file, for every buffer size and all accepted writes with which every chunk is read from where it can be |
| Pipeline.WholeBlocksStoreWell | src/filesystem_posix.cc:498-548 | buffers and accepted writes of whole blocks are such |
| Pipeline.StoreTar | src/backup.cc:1395-1425 | every part is stored under its own name, and no other file is touched |
| Pipeline.StoredIsRestorable | src/restore.cc:999-1076 | what was stored for a tar is what the reader relies on, under the tar's geometry, or under any if it is in one piece |
| Pipeline.FileInTar | src/tarfile.cc:104-114 | a range of a file is found in the tar at the entry's offset plus its header size |
| Pipeline.RestoreRange | src/origintool.cc:254-293 | a range read back from a stored tar, by an entry with the offset and geometry the index keeps, is that range of the file that was backed up |
| Pipeline.TarIsFound | src/origintool.cc:408-424 | the tar name in the index, behind the safe directory and below the storage's location, is the name the tar was stored under |
| Pipeline.ListFiles | src/backup.cc:1395-1425 | the backup file system lists the names of all parts that are not empty, below the directory's safe path |
| Pipeline.NoEmptyParts | src/backup.cc:1415-1421 | a tar with an entry has no empty part, so all of them are listed |
| Pipeline.NamesToRead | src/origintool.cc:266-276 | the names restore makes from the tar's name and the numbers eaten from the index are the names that were stored |
| Pipeline.TarsCanBeNamed | src/tarfile.cc:242-253 | a tar that can be read has parts that can be named and found again, by its own time, unless they are 2^28 or more, or 2^63 bytes large, or its directory's path is over 3895 characters: parsing the name of a part gives the tar's kind, hash and newest time, the part's number and sizes, and the number of parts |
| Pipeline.Backup | src/backup.cc:1395-1425 | a tar is stored under the names the backup file system lists, and these parse to the tar's kind and newest time and to each part's number and sizes |
| Pipeline.RestoreByIndex | src/origintool.cc:408-424 | a file is restored by its line of the index: offset, geometry, size and names come from eating the line; it can be read unless its path is too long, and then the file is the one backed up |
| Pipeline.BackupAndRestore | src/origintool.cc:222-302 | end to end: parts stored under the backup's names, the file's line cooked into an index, eaten again, and the file restored from what it says, is the file that was backed up |
| Backups.LayOutDirectory | src/backup.cc:592-663 | the tars of a storage directory, each with the entries that grouping puts there and all ready to be read: every entry is in the tar of its slot. Tars of small and medium files are whole and of their kind; a tar of a large file is cut, in parts of the split size, if and only if it exceeds that |
| Backups.LayOutTaz | src/backup.cc:592-663 | the tar with directories is ready to be read, with the hard links in front, whole and of its own kind |
| Backups.IndexesAreOnly | src/backup.cc:592-656 | the entries laid out for a slot are those that grouping puts there, in their order |
| Backups.NamesApart | src/tarfile.cc:355-416 | tars with different hashes, kinds or directories share no part's name |
| Backups.SafeDirsApart | src/backup.cc:257-284 | different safe paths are different directories in the storage |
| Backups.StoreAll | src/backup.cc:1395-1425 | all tars of all storage directories are stored in one storage, and none takes another's place |
| Backups.BackupAndRestoreAny | src/origintool.cc:222-302 | after all tars have been stored, any file of any of them is restored by its line in the index, and is the file that was backed up |
| Backups.FileInOneTar | src/backup.cc:592-656 | every file of the planned tree is in one tar of one storage directory, once: that of its place and its slot |
| Calendar.FormulaIsCivil | src/prune.cc:81-104 | the calendar formula gives the date that counting day by day from 1970-01-01 gives, for every day |
| Calendar.YearOfEraBounds | src/prune.cc:81-104 | the year of the era is in 0 to 399 and its first day is not after the day |
| Calendar.MonthIdentifierIsCivil | src/prune.cc:81-104 | the month identifier is year*100+month of that date |
| Calendar.MonthIdentifiersInOrder | src/prune.cc:81-104 | month identifiers never decrease, and are equal exactly for times in the same month |
| Pruning.Prune.AddPointInTime | src/prune.cc:141-174 | adding points in order keeps the buckets' maxima those of all points in the windows |
| Pruning.Prune.Decide | src/prune.cc:190-198 | a point is kept if and only if it is the latest, inside the all-window, or the last of its day, week or month inside that window |
| Pruning.Prune.MostRecentWeeklyBackup | src/prune.cc:179-188 | the last weekly backup is the latest point |
| Pruning.AfterAdding | src/prune.cc:141-174 | one step of the streaming maxima keeps their meaning |
| Pruning.MarkedAreKept | src/prune.cc:190-198 | the points remembered in the five places are the survivors of the declarative rule |
| PruneRuns.Sandwich | src/prune.cc:141-198 | pruning any set between the survivors and all points leaves the same survivors |
| PruneRuns.Idempotent | src/prune.cc:141-198 | pruning twice at one time changes nothing the second time |
| PruneRuns.FutureIsPresent | src/beak_prune.cc:62-74 | a point ahead of the clock is never pruned, because prunes refuse while it is there |
| PruneRuns.RefusesForEver | src/beak_prune.cc:62-74 | a prune refuses if and only if a point from the future was ever stored |
| PruneRuns.SurvivorsArePresent | src/beak_prune.cc:62-118 | in any run, what one prune of everything would keep, now or later, has not been pruned before, whatever order points came in |
| PruneRuns.PruningIsConfluent | src/beak_prune.cc:62-118 | after any run of storing points, old and new ones, and pruning, with a clock that does not go back, the last prune leaves what one prune of all points ever stored would leave, or refuses for a point from the future |
| KeepRules.SubsetOfKeepsLess | src/configuration.cc:938-944 | a rule that is a subset of another keeps a subset of the points |
| KeepRules.KeepsLessIsExact | src/configuration.cc:938-944 | an exact comparison of rules: it holds if and only if the survivors are a subset for all points and times; subsetOf implies it, and not the other way round |
| KeepRules.KeepsLessIsComplete | src/configuration.cc:938-944 | where the exact comparison fails there are points and a time that show it |
| Storages.PruneStorage | src/beak_prune.cc:27-215 | refuses points from the future; otherwise, told to proceed, leaves what Left says, and reports what is lost |
| Storages.LeftIsAfterPrune | src/beak_prune.cc:135-173 | what the command leaves is what is there and required by kept points, if and only if something of any size goes or nothing is to go; always so if no file is empty |
| Storages.RequiredByKept | src/beak_prune.cc:91-118 | collects the tars and indexes of the kept points, and nothing else |
| Storages.Superfluous | src/beak_prune.cc:135-155 | lists exactly the files that are not required, and sums their sizes |
| Storages.PruneIsSafe | src/beak_prune.cc:79-155 | a kept point loses none of its files, so it is complete afterwards if and only if it was before |
| Storages.HistoryAfterPrune | src/beak_prune.cc:79-155 | after a prune the history is that of the surviving points |
| Storages.FsckAfterPrune | src/beak_fsck.cc:43-107 | a check after a prune that deletes finds no superfluous file, and no lost one that was not lost before |
| Storages.FsckAfterCommand | src/beak_fsck.cc:43-73 | a check after the command finds nothing superfluous, if and only if the command deleted something or nothing was superfluous before it |
| Storages.FsckAfterCommandWithIndexes | src/beak_fsck.cc:43-73 | the same without empty index files: if and only if the command deleted something or there was nothing to delete |
| Storages.EmptyFileStays | src/beak_prune.cc:163-169 | an empty stray file stays after the command, and is superfluous |
| Storages.PruneTwice | src/beak_prune.cc:79-155 | pruning again at the same time deletes nothing |
| Storages.StorageHoldsPresent | src/beak_prune.cc:79-155 | throughout a run, with prunes that read the history from the index files there are, the storage holds the files of the backups found in it, and their points are those of a run on points alone |
| Storages.KeptBackupsArePresent | src/beak_prune.cc:79-155 | a backup whose point one prune of everything would keep, now or later, is still found |
| Storages.StorageIsConfluent | src/beak_prune.cc:79-155 | after the last prune of a run the backups found are those, of all ever stored, that one prune would keep, and the files are theirs; several backups may have one point |
| Storages.RequiredIsFilesOf | src/beak_prune.cc:91-118 | the required files are the files of the backups with kept points |
| Storages.Fsck | src/beak_fsck.cc:27-157 | finds exactly the superfluous files and the broken points, and says whether anything is lost |
| Storages.Misses | src/beak_fsck.cc:85-107 | a point is broken if and only if its index or one of its tars is missing |
| Storages.FsckKeepsComplete | src/beak_fsck.cc:43-157 | after deleting what is superfluous and broken, the points left are those that were complete, and they still are |
| Storages.FsckTwiceIsClean | src/beak_fsck.cc:43-157 | a third check finds nothing to do |
| Paths.TarSortIsNamesLess | src/filesystem.cc:343-361 | the tar order is the order of words over node names, so a directory comes before what is in it |
| Paths.CompareIsNamesLess | src/filesystem.cc:292-314 | the recursive comparison of paths as deep as each other is the order of words over their nodes |
| Paths.DepthFirstIs | src/filesystem.cc:316-333 | the depth-first order puts deeper paths first, and orders paths as deep by their nodes |
| Paths.TarSortIsTotal | src/filesystem.cc:343-361 | the tar order is a strict total order |
| Paths.StrLessIs | src/filesystem.cc:412-422 | names are in order if, where they part, one ends or has the smaller character |
| Paths.DepthFirstIsTotal | src/filesystem.cc:316-333 | the depth-first order is a strict total order |
| Paths.Subpath | src/filesystem.cc:535-559 | the nodes from a depth on, or the root |
| Paths.CommonPrefix | src/filesystem.cc:585-600 | the nodes two paths have in common from the top |
| Paths.CommonIsLongest | src/filesystem.cc:585-600 | what is a prefix of both paths is a prefix of their common one, and the other way round |
| StorageDirs.Planner.AccumulateSizes | src/backup.cc:154-166 | one pass, deepest first, gives every directory the size of all that is below it |
| StorageDirs.Planner.SelectStorageDirs | src/backup.cc:168-198 | throughout, a directory's size is that of its subtree without the chosen directories below it; nothing wraps; a directory is chosen if and only if it has to be, or that size exceeds the trigger |
| StorageDirs.Planner.TakeOut | src/backup.cc:189-194 | takes a directory's size out of all directories above it, and changes no other |
| StorageDirs.CountedStep | src/backup.cc:154-166 | a directory's size is complete when its turn comes, and adding it to the parent does not wrap |
| StorageDirs.TakenFrom | src/backup.cc:189-194 | what a directory holds is what it holds without a newly chosen one, and what that one holds, so subtracting does not wrap |
| StorageDirs.OwnerIsNearest | src/backup.cc:168-198 | every file belongs to exactly one storage directory, the nearest above it |
| StorageDirs.SelectionIsBalanced | src/backup.cc:168-198 | the storage directories' sizes sum to the whole tree, no other directory exceeds a trigger that is set, and those not required to be storage directories do |
| Points.IndexTimes | src/backup.cc:706-766 | every index file is as new as the newest of its storage directory, those below it, and all that is in them |
| Points.RootHoldsTree | src/backup.cc:706-766 | below the root is everything in the tree, wherever files have been placed |
| Points.PointIsNewest | README.md:112-115 | the point in time of a backup, as read from the name of the root's index, is the newest time of any file or directory of the tree, cut down to microseconds |
| Points.PointIsOfTree | README.md:112-115 | it depends on the tree only, not on the plan or the tars |
| SafePaths.MakeSafeDirectory | src/util.cc:1069-1111 | replaces slashes, spaces and forbidden characters one by one |
| SafePaths.SafeDirectoryHasNoSpace | src/util.cc:1069-1111 | safe names have neither slashes nor spaces, and making them safe again changes nothing |
| SafePaths.SafeDirectoryIsHarmless | src/util.cc:1069-1111 | safe names have no forbidden characters, and a name is left alone if and only if it has none |
| SafePaths.SafeNamesDiffer | src/util.cc:1069-1111 | names without replacing characters that differ have safe names that differ |
| SafePaths.SafeNameFits | src/util.cc:1113-1153 | safe names are at most 143 characters long, cut ones included, and harmless |
| SafePaths.CutNameIs | src/util.cc:1130-1152 | a name that is cut has 142 characters: the beginning of its safe form, the digest of the name, and its length |
| SafePaths.CutNamesDiffer | src/util.cc:1130-1152 | names that are cut to the same name have equal digests and equal lengths |
| SafePaths.Planned.PruneDirectories | src/backup.cc:310-366 | leaves exactly the directories on the way to storage directories |
| SafePaths.Planned.FindParentTCD | src/backup.cc:233-255 | finds the first storage directory that the table has above |
| SafePaths.Planned.CalculateSafePath | src/backup.cc:201-231 | gives safe paths to a directory and to those above it that it needs, changes none, and gives the right one if no other directory has a safe path's name |
| SafePaths.Planned.AddDirs | src/backup.cc:257-284 | every storage directory has a safe path, which stands for it in the table, or for another with the same safe path |
| SafePaths.Planned.AddEntries | src/backup.cc:286-308 | every file but the root gets the first storage directory the table has above it |
| SafePaths.SafePathsWork | src/backup.cc:201-308 | safe paths are as they ought to be, all different, and all files are in the nearest storage directory, if and only if safe paths are distinct and no other directory's path |
| SafePaths.Planned.Assign | src/backup.cc:1309-1317 | the three passes together, with that if-and-only-if |
| SafePaths.UnderscoreCollides | src/backup.cc:286-308 | storage directory a/b stands for the directory a_b |
| SafePaths.Give | src/backup.cc:201-231 | what giving a safe path comes to, without a table: it is made from that of the directory that the first path met above stands for, which lies above only if that path stands for itself |
| SafePaths.FoundIs | src/backup.cc:233-255 | looking a directory up in the table, node by node, finds who stands for the deepest path above that is a storage directory's or a safe path |
| Collisions.UntangledIs | src/backup.cc:286-308 | no path with something below it is left to another directory, if and only if from every file the way up leads to a directory that stands for itself |
| Collisions.FoundIsNearest | src/backup.cc:286-308 | who is found is the nearest storage directory if and only if it stands for itself: a safe path is never longer than its directory's path, so no other one is found by luck |
| Collisions.HomesAreNearest | src/backup.cc:201-308 | all files get into the nearest storage directory, if and only if nothing is tangled in the end |
| Collisions.UntangledIfDistinct | src/backup.cc:201-308 | if no two storage directories ought to have the same safe path, nothing is tangled if and only if no safe path is another directory's path, for files listed deeper ones first |
| Collisions.ClearIsUntangled | src/backup.cc:201-308 | if no safe path is another directory's path, nothing is tangled, even if some are the same |
| Collisions.UnderscoreTangles | src/backup.cc:286-308 | with a/b the only storage directory, a_b stands for it in the end |
| Collisions.PutRightAgain | src/backup.cc:257-284 | with a_b a storage directory too, it gets its path back, and nothing is tangled, although both have the same safe path |
| SafePaths.PlainTreesAreClear | src/util.cc:1069-1111 | trees without '_', '~' and '%' in names that are not too long have no such trouble |
| HardLinks.FindHardLinks | src/backup.cc:452-476 | every file with an inode number seen before becomes a link to the first one with it, and no other file does |
| HardLinks.FirstIsDeepest | src/backup.cc:452-476 | the file that keeps the content is the first in the depth-first order |
| HardLinks.TargetKeepsContent | src/backup.cc:452-476 | a link's target has the link's inode number, is no link itself, and is no less deep |
| HardLinks.LinksAreSameFile | src/backup.cc:452-476 | all links are other names of the files they link to, if and only if no two multi-link files of the tree share an inode number across devices |
| HardLinks.DevicesAreMixedUp | src/backup.cc:452-476 | two files on two devices with one inode number: one becomes a link to the other |
| HardLinks.LinkPlanner.FindNearestStorageDirectory | src/backup.cc:919-932 | finds the deepest storage directory above both paths |
| HardLinks.Turn | src/backup.cc:478-520 | when a directory's turn comes, links that belong there are there, others in it have been there from the start and move strictly up: no link moves twice |
| HardLinks.LinkPlanner.CollectMoves | src/backup.cc:478-528 | cuts the texts of exactly the links that stay, and collects the others once each |
| HardLinks.LinkPlanner.MoveAll | src/backup.cc:530-534 | every collected link is then among the entries of its new directory only |
| HardLinks.MoveStep | src/tarentry.cc:325-332 | moving an entry keeps every file in exactly one directory's entries |
| HardLinks.LinkPlanner.CopyAll | src/backup.cc:536-540 | copies directories to where links in them moved, and moves nothing |
| HardLinks.GoalIsLowest | src/backup.cc:478-520 | with files in their nearest storage directories, a link gets into the deepest one above it and its target, and that directory's path and the link's text make up the target |
| HardLinks.LinkPlanner.FixHardLinks | src/backup.cc:478-544 | wherever files start out, every link is in its goal exactly once, its text cut by the goal's depth; other files stay; a directory is copied exactly to where a link below it was moved past it |
| Grouping.FindNumTarsFromSize | src/backup.cc:368-384 | returns whenever the loop ends, with the first power of two at which doubling is enough: up to 2^63, the least power of two that is enough tars |
| Grouping.StopsIf | src/backup.cc:368-384 | the loop has an end if and only if some power of two times the tar size reaches the total, modulo 2^64 |
| Grouping.SmallTotalsStop | src/backup.cc:368-384 | it ends for totals up to 2^63 and tars that are not empty, and for nothing |
| Grouping.EmptyTars | src/backup.cc:368-384 | with tars of no size it ends for nothing only |
| Grouping.TenMegabytes | src/backup.cc:368-384 | for tars of 10M it ends if and only if the total is no more than 2^40 times as much |
| Grouping.CalculateNumTars | src/backup.cc:386-450 | counts and thresholds are those of the classes' sizes, for tars of any size, classes share tars if one fits into one, and the sizes reported sum to all |
| Grouping.LeastOfOne | src/backup.cc:440-449 | classes that share tars get as many as the greater one needs |
| Grouping.TarsHaveRoom | src/backup.cc:386-450 | the tars have room for all small and medium files, up to one tar's size where they are shared |
| Grouping.SixteenNotEight | src/backup.cc:369-375 | for 128 in tars of 10 the answer is 16 |
| Grouping.Tars.Group | src/backup.cc:592-656 | every tar has the entries that go into it, in their order, and every entry's tar exists: no modulus by zero |
| Grouping.Tars.GroupFiles | src/backup.cc:592-656 | the same, with hard links before directories in the directory's own tar |
| Grouping.EntriesAreInOneTar | src/backup.cc:592-656 | an entry is in one tar, as often as it is there at all, and in no other |
| Grouping.SlotsHold | src/backup.cc:629-656 | a tar holds an entry exactly if it is the one for the entry's kind and size and, among the small or medium tars, the one at its hash modulo their number; large files share a tar exactly if their hashes are equal |
| Grouping.TazHasTheRest | src/backup.cc:614-625 | directories and hard links are all in the directory's own tar |
| Grouping.SizesAddUp | src/backup.cc:592-656 | the tars' sizes sum to the entries' |
| Grouping.OthersStay | src/backup.cc:386-397 | replacing some entries by others changes only the tars those are in: all others keep their entries and order |
| Grouping.ResizedStays | src/backup.cc:629-655 | a resized file stays in its tar if and only if it stays in its size class |
| Grouping.ResizingStaysInTar | src/backup.cc:386-397 | resizing one file within its class leaves all other tars as they are, while counts and thresholds are unchanged |
| Planning.ChooseStorage | src/backup.cc:154-198 | sizing and selection together: the chosen directories' sizes make up the tree |
| Planning.AssignHomes | src/backup.cc:1309-1317 | every file has a storage directory; it is the nearest if and only if nothing is tangled, and that under distinct safe paths as they ought to be if and only if these do not collide |
| Planning.PlaceIsRight | src/backup.cc:478-544 | a file gets where it belongs if and only if its way up leads to a directory that stands for itself, or it is a link found in a directory deeper than what it shares with its target |
| Planning.PlaceFiles | src/backup.cc:1301-1321 | finding and fixing hard links together: every file in one place, wherever files start out, and where it belongs if they start out in the nearest storage directory |
| Planning.PlanBackup | src/backup.cc:1295-1325 | the whole plan of any tree, with the exact conditions, on the scanned tree and the chosen directories, under which files start out in the nearest storage directory, and under which they end up where they belong |
| Planning.PlainNamesDoNotMixUp | src/util.cc:1069-1111 | trees with plain names are such trees |
| Names.ParseOfFullName | src/tarfile.cc:263-416 | parsing a written name gives its fields back, with numbers cut to what 63 bits hold and the directory before the name |
| Names.CutNameIsAnother | src/tarfile.cc:355-416 | a name cut by its buffer never parses as a name in the same directory |
| Names.NameRoundTrip | src/tarfile.cc:263-416 | a written name parses to the same name, with whole microseconds, if and only if it fits the buffer and its sizes fit 63 bits, for both styles, with or without directory |
| Names.NameIsShort | src/tarfile.cc:355-416 | with a hash of 256 bits, a name without its directory has fewer than 200 characters |
| Names.GmDatesAreDates | src/tarfile.cc:372-378 | the date and time of day in UTC have no separators and fit the buffer for them |
| Names.GmDateSays | src/tarfile.cc:372-378 | before the year 10000 the numbers in the text are those of the civil date and of the time of day, at their places |
| Names.DocumentedName | README.md:383 | the name in the documentation is the one printed for its fields |
| Names.PartsCanBeNamed | src/util.cc:173-189 | the assertion in toHex holds if and only if there are fewer than 2^28 parts |
| TarKinds.LetterOfKind | src/tarfile.h:121-159 | a letter stands for a kind of tar exactly when it is that kind's letter |
| PartNames.PartsHaveTheirOwnNames | src/tarfile.cc:355-416 | two parts of a tar never share a name |
| PartNames.Expand | src/index.cc:193-222 | expands a first and a last name to the names of all parts |
| PartNames.IndexListsStored | src/index.cc:193-222 | the names the index lists are those that were stored, in one piece or in parts, if they fit its buffer |
| PartNames.RangeIsStored | src/index.cc:193-222 | for every single part, the name spelled from the range is the stored one if and only if that fits the buffer |
| PartNames.RestoreLooksUpStored | src/origintool.cc:266-276 | restore looks a part up under the name it was stored with, if and only if the name fits |
| PartNames.MountedLooksUpStored | src/restore.cc:765-781 | the mounted file system looks a part up under the name it was stored with, if and only if the restored file's directory is the tar's, for names that fit |
| PartNames.MountedElsewhere | src/restore.cc:774-779 | the parts of a tar in the root are not found for a file in a directory below it |
| Listings.StoredAreRead | src/index.cc:193-222 | exactly the stored files are read from the index, if and only if it has room for their names |
| Listings.LongIsNotRead | src/index.cc:193-222 | a name over 1023 characters is read from no index line, whatever tar that is for |
| Listings.NeedsWhatItStored | src/restore.cc:289-309 | the backup found by its index needs exactly the files that were stored, if the index has room for their names |
| Listings.PruneLeavesStored | src/beak_prune.cc:91-155 | a prune leaves, of what is there, exactly the files that were stored for the backups it keeps |
| Listings.PruneSparesParts | src/beak_prune.cc:91-155 | a kept backup loses none of the files that were stored for it, if and only if its index has room for their names |
| Listings.DeepDirectoriesHaveNoRoom | src/backup.cc:787-813 | the index has no room for names in directories with safe paths of 1022 characters and more |
| Listings.ShallowDirectoriesHaveRoom | src/backup.cc:787-813 | it has room for all names in directories with safe paths of up to 823 characters |
| Listings.SameFiles | src/restore.cc:289-309 | throughout a run, storing files and reading indexes gives the storage that storing what indexes name gives |
| Listings.StoredIsConfluent | src/beak_prune.cc:79-155 | however often the storage was pruned in between, after a prune that does not refuse it holds exactly the files that were stored for those backups, of all ever stored, that one prune would keep |
| Permissions.PermissionString | src/filesystem.cc:646-694 | prints a mode as ten characters |
| Permissions.ModeRoundTrip | src/filesystem.cc:696-777 | reading a printed mode back adds the execute bits that special bits imply, so it is the same mode if and only if they were there |
| Permissions.SetuidGainsExecute | src/filesystem.cc:646-777 | setuid without execute comes back with execute |
| IndexLines.EatTo | src/util.cc:422-446 | takes one field, up to a delimiter, the end or a limit |
| IndexLines.EatLine | src/tarentry.cc:532-665 | a line of fields is read field by field, and not at all if and only if one of them is over its limit |
| IndexEntries.LineRoundTrip | src/tarentry.cc:458-665 | an entry written to the index is read back with its mode, owner, size, time, path, link, tar, offset and parts, and reading goes on at the next entry, if and only if it is expressible |
| IndexEntries.LineBeforeTheEpoch | src/tarentry.cc:480-484 | the line of a file from one second before 1970 is not read back as written |
| IndexEntries.LinesEaten | src/tarentry.cc:532-665 | a line of eleven columns is an entry if and only if every column is within its own limit, the mode, the time and the part sizes can be read, and the last column is not empty |
| IndexEntries.NumbersEaten | src/tarentry.cc:625-655 | six numbers of a tar in parts are read, in order, if and only if the first five have at most 64 characters and there is a last one |
| IndexEntries.LineOfAFile | src/tarentry.cc:458-530 | the line of a read-only file looks like this |
| IndexEntries.FileLineIsRead | src/tarentry.cc:532-665 | of a file, offset, parts, size and tar are read back from every line with a path that is not too long, whatever else the line cannot express |
| IndexEntries.LoadEntries | src/index.cc:116-140 | reads as many entries as announced, or fails |
| IndexEntries.ListingRoundTrip | src/index.cc:116-140 | a whole listing is read back if and only if all its entries are expressible |

## Left out

- Mounting, callbacks of the file system in user space, locks, signals, progress, logging and user interaction: no state of their own.
- Remote storages, media import, glob matching, deltas, content splitting and size estimates.
- SHA-256 and gzip: hashes and digests are given texts, compression is taken as undone by decompression.
- Pipeline.StorePart: states nothing for chunks that start where a read goes wrong; TarFiles.UnfaithfulTurn says what the first turn of such a read gets. The program may not end then. Write errors end it.
- Restore.RestoreEntry.ReadParts: a read from the storage delivers all that its file has; interrupted reads count as files cut short.
- Pipeline.BackupAndRestore: for a tar in parts with names over 4095 characters, PartNames.RestoreLooksUpStored says that restore looks for other names; numbers of 2^63 and more are no valid index line.
- The restore through the mounted file system, besides the names it looks for.
- sortTarCollectionEntries (src/backup.cc:894-915), which runs after the layout is fixed and uses an iterator after erasing it.
- Restoring links, owners, times and permissions, and the order in which directories' times are put back.
- Names.NameRoundTrip: the text of a date is a parameter; nothing reads it back.
- SafePaths.SafePathsWork: long names are told apart by an uninterpreted digest, so collisions of digests count as collisions of safe paths.
- HardLinks.FindHardLinks: files are told apart by device and inode; that they do not change during the scan is assumed.
- Grouping.FindNumTarsFromSize: asks for sizes for which the loop ends; which these are, Grouping.StopsIf says.
- Grouping.CalculateNumTars: the sizes of all entries sum to less than 2^64, as the planner's sizes do.
- TarEntries.TarEntry.Copy: starts between the end of a generated file and the end of its last block are left out, because the program reads memory behind the content there. Reads of parts that start out right do not come to that.
- Backups.LayOutDirectory: the paths of entries in their tars, and copies of directories, are given; hashes of tars are given texts that differ.
- Listings.StoredIsConfluent: for backups that their indexes have room for; the times of index files and their names, shorter than 1024 characters, are given. A range that cannot be parsed counts as no files.
- Points.IndexTimes: the times of tars with contents are given, as the newest of some of their directory's entries; TarFiles.TarFile keeps them so.
- Grouping.ResizingStaysInTar: the hash of the path is part of the entry; that a change of counts regroups a whole class is how the program works.
- Storages.StorageHoldsPresent: a backup is stored in full; backups that are broken off, and files removed from outside, are left to the check.
- Storages.PruneStorage: the sizes of files are added without wrapping around, and lists of files from the storage are sets of names with sizes.
- TarFiles.TarFile.ReadVirtualTar: entries without header and content are left out, because the layout cannot tell two such entries apart.
- Pruning.Prune.MostRecentWeeklyBackup: holds while adding three days to a time does not wrap around in 64 bits.
- The list of tars in the index besides their names, the check of duplicate directory names in different case, and the index's configuration line.
- The parsing of retention rules and other settings.
