# littlefs and the upgrade boot loader, modelled in Dafny

This project models the two parts of the firmware that have to keep data over a loss of power: the
littlefs v2.5.0 engine of the application and the firmware upgrade of the boot loader. It proves what
they promise.

* **Metadata log.** A directory is a log of tags in which creations and deletions renumber entries.
  `MetaLog` gives a log its meaning by replaying it forwards; lookups walk it backwards and compaction
  rewrites it through a filter, and both agree with the replay (`MetaLog`, `Compaction`,
  `CompactionProof`, `Traverse`). `Meaning` tells the same directory type by type, as files with names,
  structures and user attributes.
* **Bytes of a block.** XOR-chained tags, checksums that seal commits, the scan that finds the last whole
  commit, the backward lookup, and the writer with its check (`TagWords`, `DirBlock`, `DirFetch`,
  `DirGet`, `Lookups`, `StateTag`, `Commits`, `Rewrite`). `Lookups.FileIsRead` and `Commits.CommittedIsFound` tie
  the bytes to the directory, and `History` follows logs over whole runs of commits and compactions.
* **File system.** Shares of the global state in all metadata pairs, and the rename between two
  directories as a crash protocol (`Gstate`, `Rename`, `Filesystem`); compaction that splits a directory
  over several pairs (`Split`).
* **Files and blocks.** The skip list of a file (`Bits`, `CtzIndex`, `SkipList`), the block allocator
  (`Allocator`) and the block caches (`CacheBytes`, `Cache`).
* **Boot loader.** Three forms of CRC-32 (`Crc`), and verify, upgrade and mark over boots that may lose
  power at any flash operation (`Fota`).

`Words`, `Blocks`, `Arith` and `Tags` hold what several of these need. `dafny verify dfyconfig.toml` checks
everything.

What changes state in the program is a class or a loop here, and is specified by functions on values; the
theorems are about those functions. Three results concern behaviour a reader may not expect of the code:
`CtzIndex.AssertionIsTooWeak` (the block-size assertion at initialisation admits exactly the sizes 104 to 111
for which the index computation is wrong at a position that a file can have), `Fota.Board.BootsAfter` (an
unterminated version string makes the boot loader install the same image on every boot) and
`CompactionProof.RemovalAfterMoveIsLost` (an attribute list that removes what it has copied would be compacted
wrongly; the file system builds none).

## Model

| member | source | states |
|---|---|---|
| MetaLog.SearchRefinesReplay | app/App/packages/littlefs-v2.5.0/lfs.c:605-665 | for every log, id and key, the search that walks back from the end of the log with id correction gives exactly the attribute that replaying creations, deletions and sets forwards leaves at that id, and nothing exactly when the replay has nothing there |
| MetaLog.StepRefines | app/App/packages/littlefs-v2.5.0/lfs.c:632-648 | one tag: replaying it and looking up an id gives what the backward step over that tag says about the id before it |
| Meaning.ReplayIsPlay | app/App/packages/littlefs-v2.5.0/lfs.c:632-648 | replaying a log by attribute keys gives the directory that playing it type by type gives: 0x401 and 0x4ff create and delete entries, 0x000-0x0ff set the one name, 0x200-0x2ff the one structure, 0x300-0x3ff each its own user attribute, size 0x3ff removes, everything else changes nothing |
| Meaning.UsersApart | app/App/packages/littlefs-v2.5.0/lfs.c:741-749 | setting or removing one user attribute leaves every other one, of this entry and of any other |
| Meaning.ClassesReplace | app/App/packages/littlefs-v2.5.0/lfs.c:741-749 | a name replaces any other name of its entry, a structure any other structure, and both leave everything else |
| Compaction.SurvivorIsLast | app/App/packages/littlefs-v2.5.0/lfs.c:736-763 | an attribute the filter keeps is the last of its kind: no later tag answers a lookup for it, and its corrected id is the one a lookup would come from |
| Compaction.ReachedSurvives | app/App/packages/littlefs-v2.5.0/lfs.c:736-763 | conversely, an attribute that a lookup can get back to is kept, under the id the lookup started from |
| Compaction.SurvivorIsTracked | app/App/packages/littlefs-v2.5.0/lfs.c:756-760 | the renumbering of the filter is injective: a lookup from a kept id never ends at a creation and never at another id |
| CompactionProof.CompactionPreservesLookup | app/App/packages/littlefs-v2.5.0/lfs.c:1801-1808 | for every log and pending attribute list, every lookup of an id in [begin, end), shifted by -begin, gives the same on the tags that compaction writes as on the log with the list appended, copied and user attribute lists included; the list may remove anything but what it has itself copied to the same entry, unless that removal comes last |
| CompactionProof.CompactionPreservesDir | app/App/packages/littlefs-v2.5.0/lfs.c:1801-1808 | replaying what compaction writes gives exactly entries [begin, end) of the updated directory, no more and no fewer, when these have names |
| Meaning.CompactionKeepsFiles | app/App/packages/littlefs-v2.5.0/lfs.c:1801-1808 | compaction keeps the files of its range, names, structures and every user attribute, as playing the log type by type gives them |
| Meaning.CompactionKeepsUsers | app/App/packages/littlefs-v2.5.0/lfs.c:741-749 | every user attribute survives compaction on its own, whatever else is set beside it |
| CompactionProof.MoveCopies | app/App/packages/littlefs-v2.5.0/lfs.c:894-943 | a move tag gives the new entry the structure and user attributes of the source entry as a lookup there sees them, leaves its name, and touches no other entry |
| Meaning.MoveGives | app/App/packages/littlefs-v2.5.0/lfs.c:894-943 | in the same terms: a move gives a new file structure and user attributes of the source file, and not its name |
| Meaning.UserEntriesAre | app/App/packages/littlefs-v2.5.0/lfs.c:945-958 | a list of user attributes sets each under its own type |
| CompactionProof.RemovalAfterMoveIsLost | app/App/packages/littlefs-v2.5.0/lfs.c:747-755 | why a list must not remove an attribute it has copied: a concrete list whose compaction brings the removed attribute back |
| Traverse.FilterPast | app/App/packages/littlefs-v2.5.0/lfs.c:736-763 | one filter step commutes with everything still to be filtered |
| Traverse.Run | app/App/packages/littlefs-v2.5.0/lfs.c:796-993 | the loop with its explicit stack writes, for every log, attribute list and range, exactly the recursive specification, filtered or not; it terminates, and the stack never holds more than two frames |
| TagWords.CrcTagDecodes | app/App/packages/littlefs-v2.5.0/lfs.c:1526-1528 | the word built for a checksum tag decodes to its type, id and size and is valid |
| TagWords.FlipOnlyFlips | app/App/packages/littlefs-v2.5.0/lfs.c:1098-1099 | inverting the valid bit changes no field |
| TagWords.XorValid | app/App/packages/littlefs-v2.5.0/lfs.c:316-318 | a word XORed with its predecessor reads as valid exactly if both or neither have the bit clear |
| DirBlock.EncodeAppend | app/App/packages/littlefs-v2.5.0/lfs.c:1452-1494 | the bytes of a longer log are the bytes of the shorter one followed by tags XORed onward from its last tag |
| DirBlock.OneEntry | app/App/packages/littlefs-v2.5.0/lfs.c:1047-1167 | one stored entry, with its checksum if it is one, is one step of the scan, and what the scan then reads is the rest of the log |
| DirBlock.ScanReads | app/App/packages/littlefs-v2.5.0/lfs.c:1047-1167 | the scan reads through every log whose checksums are right, and goes on from its end |
| DirBlock.SummaryReports | app/App/packages/littlefs-v2.5.0/lfs.c:1153-1163 | the next pair and the split flag that a scan reports are those of the last tag of type 0x600 to 0x6ff: its two little-endian addresses, and a flag set exactly if the type is odd; without such a tag they are null and unset |
| DirFetch.RunReaches | app/App/packages/littlefs-v2.5.0/lfs.c:1107-1118 | after a log of whole commits the scan has found offset, last tag, entry count, tail and split of that log |
| DirFetch.FetchRecovers | app/App/packages/littlefs-v2.5.0/lfs.c:1033-1195 | a block that holds a revision count and whole commits, with an invalid tag or the end of the block behind them, is fetched as exactly those commits: offset, etag, count, the pair and the flag of the last tail, and whether the rest is erased |
| DirFetch.TornCommitVanishes | app/App/packages/littlefs-v2.5.0/lfs.c:1066-1119 | from any position the scan keeps the commit found last if and only if no checksum behind it matches; otherwise it finds a later one |
| DirFetch.AppendIsAtomic | app/App/packages/littlefs-v2.5.0/lfs.c:1047-1195 | with whole commits in a block and anything behind them, the fetch finds the whole commits if and only if no checksum behind them matches |
| DirFetch.CutBetweenTags | app/App/packages/littlefs-v2.5.0/lfs.c:1066-1070 | a commit cut off between two tags, with an invalid tag behind the cut, vanishes without any appeal to checksums |
| DirFetch.CutAnywhere | app/App/packages/littlefs-v2.5.0/lfs.c:1047-1167 | a commit over erased bytes, cut off after any number of bytes before its checksum, between tags, inside a tag or inside data, is not there: the fetch finds the whole commits before it, takes the rest for erased only if none of it was written, and needs no checksum for that |
| DirFetch.CutInChecksum | app/App/packages/littlefs-v2.5.0/lfs.c:1075-1119 | cut off inside its first checksum, a commit is ignored unless what reads as the checksum matches: with the tag whole exactly if the missing bytes are erased bytes anyway, with the tag cut only if the checksum comes to what erased bytes read as |
| DirFetch.ScanBlock | app/App/packages/littlefs-v2.5.0/lfs.c:1033-1195 | the scan loop, byte-wise checksums included, computes the specification and terminates |
| DirFetch.Fetch | app/App/packages/littlefs-v2.5.0/lfs.c:1010-1231 | the pair fetch returns the newer block that holds a commit, the other one if it holds none, and an error if neither does |
| DirFetch.NewerIsAhead | app/App/packages/littlefs-v2.5.0/lfs_util.h:164-166 | a revision count is newer than another exactly if it comes from one to half the range minus one after it, across wrap-around |
| DirFetch.NextRevisionIsNewer | app/App/packages/littlefs-v2.5.0/lfs_util.h:164-166 | a revision count is newer than the one before it, and not the other way round, across wrap-around |
| DirFetch.RewriteIsAtomic | app/App/packages/littlefs-v2.5.0/lfs.c:1010-1031 | while one block of a pair is rewritten the fetch returns the old directory as long as no checksum in the rewritten block matches, whatever its revision reads as, and the new one once its first commit is whole under the next revision |
| DirGet.BackIsReverse | app/App/packages/littlefs-v2.5.0/lfs.c:619-630 | walking back from the etag visits exactly the tags of the forward walk, at their offsets, in reverse order |
| DirGet.GetSlice | app/App/packages/littlefs-v2.5.0/lfs.c:605-665 | the lookup loop, with its id correction and its correction for a pending move, computes the specified lookup and slice |
| DirGet.ByKeyIsKey | app/App/packages/littlefs-v2.5.0/lfs.c:645 | the masks 0x700 and 0x7ff match exactly the tags with the attribute's key at the id |
| DirGet.LookupIsSearch | app/App/packages/littlefs-v2.5.0/lfs.c:618-664 | on a block that holds a log the byte-level lookup hits exactly what the search over that log finds, with the bytes of its data |
| DirGet.GetIsReplay | app/App/packages/littlefs-v2.5.0/lfs.c:605-665 | on a block that holds a log the lookup returns the attribute that replaying the log, and then the pending move as a deletion, leaves at the id, cut to the buffer, or no entry exactly if there is none |
| Lookups.QueryMasks | app/App/packages/littlefs-v2.5.0/lfs.c:3848-3851 | user attributes are looked up under mask 0x7ff, names and structures under 0x700 |
| Lookups.FileIsRead | app/App/packages/littlefs-v2.5.0/lfs.c:605-665 | on a block that holds a log a lookup reads what the file has, played type by type and with the moved entry gone: a user attribute by its own type, whatever others are set, the one name, the one structure, or no entry |
| Lookups.CutBytes | app/App/packages/littlefs-v2.5.0/lfs.c:651-659 | the buffer receives as much of the value as it holds, and zeros behind it |
| Lookups.PartIsRead | app/App/packages/littlefs-v2.5.0/lfs.c:651-661 | reading part of an attribute from an offset gives that part of its data |
| Lookups.SetIsRead | app/App/packages/littlefs-v2.5.0/lfs.c:3839-3858 | the value set last for a user attribute is the one a file has, also when others were set after it, and none if it was removed last |
| DirGet.FetchCounts | app/App/packages/littlefs-v2.5.0/lfs.c:1138-1145 | the entry count a fetch reports is the number of entries the replay has, for logs whose ids stay in range |
| History.CountIsExact | app/App/packages/littlefs-v2.5.0/lfs.c:1138-1145 | over every run of appended attribute lists, compactions of named entries and tags that belong to no entry, counting along the log gives the number of entries its replay has |
| History.FetchCountsHistory | app/App/packages/littlefs-v2.5.0/lfs.c:1138-1145 | so what a fetch of a log made that way reports is the number of entries in the directory |
| History.RenameInOrder | app/App/packages/littlefs-v2.5.0/lfs.c:3780-3787 | the attribute list of a rename keeps ids in range |
| History.FileInOrder | app/App/packages/littlefs-v2.5.0/lfs.c:3229-3232 | so does the one that writes a file with its user attributes |
| Commits.FooterEnd | app/App/packages/littlefs-v2.5.0/lfs.c:1510-1515 | every checksum tag gives a size from 4 to 0x3fe, and ends at the end of the commit or leaves room for another one |
| Commits.EntryWritten | app/App/packages/littlefs-v2.5.0/lfs.c:1452-1494 | writing one more entry keeps the block a log with right checksums |
| Commits.ResetInvalidates | app/App/packages/littlefs-v2.5.0/lfs.c:1517-1528 | whatever the bytes behind a commit are, the inverted bit makes the next tag read as invalid |
| Commits.StretchIsZero | app/App/packages/littlefs-v2.5.0/lfs.c:1530-1538 | a stretch that ends in its own stored checksum comes to zero |
| Commits.DoneChecks | app/App/packages/littlefs-v2.5.0/lfs.c:1559-1594 | the check after a commit recomputes the same offsets and accepts every stretch that was written |
| Commits.Verify | app/App/packages/littlefs-v2.5.0/lfs.c:1559-1594 | the check loop accepts exactly if every stretch comes to zero and the first checksum is the computed one |
| Commits.WrittenIsFetched | app/App/packages/littlefs-v2.5.0/lfs.c:1033-1195 | a block written as whole commits and sealed is fetched as them |
| Commits.CommittedIsFound | app/App/packages/littlefs-v2.5.0/lfs.c:605-665 | after a commit and a fetch a lookup gives what replaying everything committed, and a pending move, leaves |
| Commits.Commit.Append | app/App/packages/littlefs-v2.5.0/lfs.c:2046-2055 | a commit starts behind the whole commits of a block with the chain and a fresh checksum |
| Commits.Commit.Compact | app/App/packages/littlefs-v2.5.0/lfs.c:1767-1793 | a rewrite starts with the revision count in an erased block |
| Commits.Commit.CommitAttr | app/App/packages/littlefs-v2.5.0/lfs.c:1452-1494 | an attribute is appended, from memory or from disk, if and only if it leaves room for the checksum, and otherwise nothing changes |
| Commits.Commit.Footer | app/App/packages/littlefs-v2.5.0/lfs.c:1510-1551 | one checksum tag: where it ends, the log it extends, a stretch that comes to zero, and an invalid tag behind it |
| Commits.Commit.CommitCrc | app/App/packages/littlefs-v2.5.0/lfs.c:1499-1597 | the footer loop ends exactly at the aligned end, adds only checksum tags, passes its own check, and leaves a block that is fetched as everything written, whatever lies behind |
| Commits.Commit.CommitAll | app/App/packages/littlefs-v2.5.0/lfs.c:2044-2111 | a whole commit of any attribute list and a share of the global state: it is made if and only if there is room for all of them; what is fetched afterwards is what was there with them added, with the pair and flag of the last tail, whatever lies behind; without room nothing of what was there has changed |
| Commits.Commit.AppendAll | app/App/packages/littlefs-v2.5.0/lfs.c:2046-2111 | an append adds the change of the global state to the share in the block: the share read back is the old one XOR the change, whether the change is zero or not |
| Commits.Commit.CompactAll | app/App/packages/littlefs-v2.5.0/lfs.c:1831-1863 | a compaction brings over the share the directory held, XOR the change |
| Commits.Commit.ReadState | app/App/packages/littlefs-v2.5.0/lfs.c:1241-1257 | fetching the block and reading its share, as a mount does, gives three words that are those committed last |
| StateTag.LookupLast | app/App/packages/littlefs-v2.5.0/lfs.c:618-664 | a lookup that asks for no entry finds the last tag of exactly its type, or nothing if that is a removal |
| StateTag.GetState | app/App/packages/littlefs-v2.5.0/lfs.c:1241-1257 | reading the share of a block XORs into the global state the three little-endian words, tag and then the two addresses, of its last tag of type 0x7ff |
| StateTag.StateReadsBack | app/App/packages/littlefs-v2.5.0/lfs.c:2083-2088 | the share as it is written is the share that is read |
| Gstate.TotalUpdate | app/App/packages/littlefs-v2.5.0/lfs.c:368-372 | adding to one share adds to the XOR of all shares |
| Gstate.PrepMoveSays | app/App/packages/littlefs-v2.5.0/lfs.c:4440-4447 | announcing a move makes the global state name its id and pair, and withdrawing it names none |
| Gstate.StoredSays | app/App/packages/littlefs-v2.5.0/lfs.c:2077-2078 | the orphan count that is not stored says nothing about moves |
| Gstate.MountedKeeps | app/App/packages/littlefs-v2.5.0/lfs.c:4224-4225 | counting an orphan flag at mount changes nothing that is stored |
| Gstate.MountedCounts | app/App/packages/littlefs-v2.5.0/lfs.c:4224-4225 | a mount counts one orphan if the shares carry the orphan flag, and none otherwise |
| Filesystem.ShareChanges | app/App/packages/littlefs-v2.5.0/lfs.c:2072-2094 | a share increased by what changed and what was not yet written restores the invariant |
| Filesystem.Lfs.Mount | app/App/packages/littlefs-v2.5.0/lfs.c:4204-4225 | the scan over all pairs finds the global state that the shares make up |
| Filesystem.Lfs.Append | app/App/packages/littlefs-v2.5.0/lfs.c:2046-2113 | an append keeps: XOR of all shares, with what is not yet written, is the global state on disk, modulo the ten orphan bits |
| Filesystem.Lfs.Compact | app/App/packages/littlefs-v2.5.0/lfs.c:1831-1877 | a compaction keeps the same invariant, relocated (state on disk unchanged) or not |
| Filesystem.Lfs.Split | app/App/packages/littlefs-v2.5.0/lfs.c:1666-1691 | splitting off a pair keeps the invariant with the new pair in the list |
| Filesystem.Lfs.Drop | app/App/packages/littlefs-v2.5.0/lfs.c:1645-1662 | dropping a pair keeps the invariant: its share moves into the commit that unlinks it, appended, compacted or relocated, and no other entry changes |
| Filesystem.Lfs.Commit | app/App/packages/littlefs-v2.5.0/lfs.c:2007-2126 | a commit, appended or compacted, makes the directory what appending its attributes makes of it |
| Filesystem.VisibleMoving | app/App/packages/littlefs-v2.5.0/lfs.c:612-617 | what is on disk with a pending move hides exactly the moved entry, in its pair and in no other |
| Filesystem.Lfs.Demove | app/App/packages/littlefs-v2.5.0/lfs.c:4450-4479 | recovery deletes the moved entry and the announcement; no visible directory changes |
| Filesystem.Lfs.Announce | app/App/packages/littlefs-v2.5.0/lfs.c:3775-3791 | the first commit of a rename to another directory: every directory is then as after the rename, and the disk names the move |
| Filesystem.Lfs.Rename | app/App/packages/littlefs-v2.5.0/lfs.c:3775-3804 | a rename to another directory: before its first commit every directory is as before; from its first commit on, between the two commits and after both, every directory is as after the rename, never both names or neither, also when entries are replaced; between the two the disk names the pending move |
| Filesystem.Lfs.RenameAndRecover | app/App/packages/littlefs-v2.5.0/lfs.c:4450-4479 | a rename that loses power after any number of its commits, the next mount and its recovery: every directory is as before the rename if no commit was made and as after it otherwise, and no move is pending |
| Rename.RenamePlaces | app/App/packages/littlefs-v2.5.0/lfs.c:3780-3787 | the attribute list of a rename puts the entry at the new id, or in place of the one there, with the new name and the old structure and attributes |
| Rename.RenameWithin | app/App/packages/littlefs-v2.5.0/lfs.c:3733-3787 | within one directory the same commit also deletes the old entry, wherever the new one shifted it to |
| Rename.ItemsAreTame | app/App/packages/littlefs-v2.5.0/lfs.c:3780-3787 | compaction preserves the attribute list of a rename, also with the deletion of the old entry |
| Rename.FileItemsAreTame | app/App/packages/littlefs-v2.5.0/lfs.c:3229-3232 | compaction preserves the attribute list that writes a file with its user attributes |
| Split.Mdir.FindSplit | app/App/packages/littlefs-v2.5.0/lfs.c:1921-1948 | the halving search ends, inside the range, at a split whose upper part fits or is a single entry |
| Split.Mdir.SplitOff | app/App/packages/littlefs-v2.5.0/lfs.c:1666-1697 | a split puts the upper entries in front of what follows; without a pair, or without room in it, what is listed stays as it is |
| Split.Mdir.SplitAll | app/App/packages/littlefs-v2.5.0/lfs.c:1914-1978 | the splitting loop ends, and the entries split off are the upper ones in order, in front of what followed, also when a split finds no space |
| Split.Mdir.SplittingCompact | app/App/packages/littlefs-v2.5.0/lfs.c:1911-2003 | the chain lists exactly the directory with the attributes appended, followed by what followed it; with enough pairs, and room in a block for every entry, it succeeds; what is left in the first pair is small and fits, and holds an entry unless the superblock is expanded, which moves every entry out; without space on the last compaction the disk is unchanged |
| Rewrite.SizeIsBytes | app/App/packages/littlefs-v2.5.0/lfs.c:1701-1707 | the measure of a slice is the number of bytes it takes on disk |
| Rewrite.CapIs | app/App/packages/littlefs-v2.5.0/lfs.c:1933-1945 | what a split aims at leaves 36 bytes and half of the block, up to a program unit, and is the most that does |
| Rewrite.CommitSlice | app/App/packages/littlefs-v2.5.0/lfs.c:1780-1866 | a slice that is measured to fit can be committed to an erased block, with a tail and a share of the global state, and is then fetched |
| Bits.PopcStep | app/App/packages/littlefs-v2.5.0/lfs_util.h:141-160 | binary ones and trailing zeros: subtracting one turns the zeros into ones |
| Bits.Npw2IsLeast | app/App/packages/littlefs-v2.5.0/lfs_util.h:125-139 | the rounded-up logarithm is the least exponent that reaches its argument |
| CtzIndex.PointersClosed | app/App/packages/littlefs-v2.5.0/lfs.c:2643-2654 | the sum of ctz(i)+1 for i from 1 to n is 2n minus the ones of n |
| CtzIndex.IndexIsExact | app/App/packages/littlefs-v2.5.0/lfs.c:2643-2654 | the corrected division returns the block whose range holds the position, and an offset behind its pointers and inside the block, in 32-bit arithmetic, for every position up to which the blocks have room for their pointers |
| CtzIndex.ExactIffRoom | app/App/packages/littlefs-v2.5.0/lfs.c:2643-2654 | that is the exact condition: for every block size and bound, the index is right for all positions up to the bound if and only if bound/(size-8) is below 2^((size-12)/4) |
| CtzIndex.FailsThere | app/App/packages/littlefs-v2.5.0/lfs.c:2643-2654 | the first position behind 2^((size-12)/4) times size-8 bytes is in the block before the quotient, and the code finds the block before that one |
| CtzIndex.SizesThatWork | app/App/packages/littlefs-v2.5.0/lfs.c:2643-2654 | the index is right for every file, up to the largest size a file may have, if and only if blocks have at least 112 bytes, and for every 32-bit position if and only if they have at least 116; the port forces 4096 |
| CtzIndex.IndexIsUnique | app/App/packages/littlefs-v2.5.0/lfs.c:2643-2654 | no other block holds the position |
| CtzIndex.AssertionIsTooWeak | app/App/packages/littlefs-v2.5.0/lfs.c:3923-3924 | the assertion at initialisation lets a block size pass for which the index is wrong at a position that a file can have if and only if the size is from 104 to 111 |
| CtzIndex.WrongAt104 | app/App/packages/littlefs-v2.5.0/lfs.c:3923-3924 | for instance blocks of 104 bytes and position 805306368: the offset found is outside the block |
| SkipList.SkipsAreFew | app/App/packages/littlefs-v2.5.0/lfs.c:2669-2683 | the skips rise strictly, then fall strictly, so there are at most 2(log2(current)+1) of them |
| SkipList.Find | app/App/packages/littlefs-v2.5.0/lfs.c:2656-2688 | on every well-formed list the search reads only pointers that exist and ends at the block and offset of the position, by exactly those skips |
| SkipList.AppendPointers | app/App/packages/littlefs-v2.5.0/lfs.c:2750-2778 | the pointers written to a new last block are the blocks 1, 2, 4, ... before it |
| SkipList.Extend | app/App/packages/littlefs-v2.5.0/lfs.c:2691-2787 | growing a file, by a copy of an incomplete block or by a new one, leaves a well-formed list that ends in the new block, erased behind the last byte, and changes no other block |
| SkipList.GrownKeepsFile | app/App/packages/littlefs-v2.5.0/lfs.c:2691-2787 | every byte of the file reads back unchanged from the grown list |
| SkipList.DescendingIsReversal | app/App/packages/littlefs-v2.5.0/lfs.c:2790-2831 | the blocks in descending order are every block of the list exactly once |
| SkipList.Visit | app/App/packages/littlefs-v2.5.0/lfs.c:2790-2831 | the traversal, one or two pointers a step, hands over exactly these blocks |
| Allocator.StepOk | app/App/packages/littlefs-v2.5.0/lfs.c:560-566 | stepping over a block keeps the search in order; an unmarked one is neither reachable nor handed out |
| Allocator.Lookahead.Mark | app/App/packages/littlefs-v2.5.0/lfs.c:528-538 | a reachable block is marked if and only if it lies in the window, across the end of the device |
| Allocator.Lookahead.TakeFree | app/App/packages/littlefs-v2.5.0/lfs.c:559-579 | the search of the window returns a block that is neither reachable nor handed out since the acknowledgement, and steps on to the next free one |
| Allocator.Lookahead.Alloc | app/App/packages/littlefs-v2.5.0/lfs.c:557-602 | in every state a block handed out is neither reachable nor handed out since the last acknowledgement, the search ends, and no space is reported only if every block is handed out or was found in use |
| Allocator.Lookahead.Ack | app/App/packages/littlefs-v2.5.0/lfs.c:544-546 | an acknowledgement lets the next search go once round the whole device |
| Allocator.AllExamined | app/App/packages/littlefs-v2.5.0/lfs.c:581-586 | when the budget is used up every block of the device is accounted for |
| Allocator.DistanceIsRemainder | app/App/packages/littlefs-v2.5.0/lfs.c:530-531 | the wrapped distance is the remainder the code computes |
| CacheBytes.TilingIsDisjoint | app/App/packages/littlefs-v2.5.0/lfs.c:157-161 | no two programs of a tiling touch the same byte |
| CacheBytes.Compose | app/App/packages/littlefs-v2.5.0/lfs.c:206-250 | programming in two parts is programming the whole: view, gap, waiting bytes and programs made |
| Cache.Device.Pick | app/App/packages/littlefs-v2.5.0/lfs.c:55-104 | a turn of the read loop copies bytes as the program cache over the device has them, or none |
| Cache.Device.Read | app/App/packages/littlefs-v2.5.0/lfs.c:44-125 | with a coherent read cache every read returns the device overlaid by the waiting bytes, or an error out of range, and terminates |
| Cache.Device.Flush | app/App/packages/littlefs-v2.5.0/lfs.c:155-166 | what waits is programmed with erased padding to whole units, and nothing else changes |
| Cache.Device.Prog | app/App/packages/littlefs-v2.5.0/lfs.c:206-250 | readers see the bytes at once behind an erased gap, and what reaches the device are consecutive aligned programs |
| Cache.Device.Sync | app/App/packages/littlefs-v2.5.0/lfs.c:190-203 | after a sync the device holds what readers saw, but for padding, and the read cache is coherent |
| Cache.Device.ProgRun | app/App/packages/littlefs-v2.5.0/lfs.c:190-250 | any run of sequential programs from an aligned offset and a sync leave exactly those bytes and padding, in aligned, disjoint programs |
| Crc.CrcAppend | boot/BootLoader/applications/rt_fota_crc.c:76-79 | a checksum continued over a second part is the checksum of both |
| Crc.TableIsDivision | app/App/packages/littlefs-v2.5.0/lfs_util.c:16-21 | every entry of the nibble table is four steps of the bit-serial division |
| Crc.LfsCrc | app/App/packages/littlefs-v2.5.0/lfs_util.c:15-31 | for every start value and data the nibble-table checksum is the bit-serial division by the polynomial of section 3.2.9 of IEEE 802.3 |
| Crc.PolynomialReversed | boot/BootLoader/applications/rt_fota_crc.c:35 | reversing the bits of 0x04c11db7 gives the reflected polynomial |
| Crc.BitRev | boot/BootLoader/applications/rt_fota_crc.c:15-28 | the loop reverses bits: bit k of the result is bit width-1-k of the word for k below the width, and zero above |
| Crc.ReversalBits | boot/BootLoader/applications/rt_fota_crc.c:20-26 | the same of the reversal as a function |
| Crc.Crc32Init | boot/BootLoader/applications/rt_fota_crc.c:30-51 | the generated table holds the division of every byte by the reversed polynomial |
| Crc.ByteTableStep | boot/BootLoader/applications/rt_fota_crc.c:58-62 | eight division steps are a shift and one table look-up |
| Crc.Crc32 | boot/BootLoader/applications/rt_fota_crc.c:53-65 | for every start value and data the generated-table checksum is the same division, so it equals the nibble-table one |
| Crc.RtFotaCrc | boot/BootLoader/applications/rt_fota_crc.c:67-74 | the whole-image checksum is that division, complemented at both ends |
| Crc.Residue | app/App/packages/littlefs-v2.5.0/lfs.c:1580-1586 | a checksum continued over its own little-endian bytes is zero |
| Fota.Board.VerifyBody | boot/BootLoader/applications/rt_fota.c:279-307 | the body check in chunks of 4096 bytes accepts exactly if one checksum over the first com_size bytes matches and all chunks can be read |
| Fota.Board.FwVerify | boot/BootLoader/applications/rt_fota.c:213-331 | verification succeeds exactly for an undamaged image that names a partition there is, and then keeps its head; otherwise the head is cleared |
| Fota.Board.CopyBody | boot/BootLoader/applications/rt_fota.c:633-766 | after an erase that covers the padded image the copy loop leaves the image in the application partition |
| Fota.Board.Upgrade | boot/BootLoader/applications/rt_fota.c:516-816 | an upgrade of the application partition that succeeds leaves the whole image, and one with enough power and room succeeds; an image for another partition leaves the application alone |
| Fota.MarkedIsVerified | boot/BootLoader/applications/rt_fota.c:382-384 | an image marked as installed still verifies, is the same image and is for the same partition |
| Fota.MarkedSettles | boot/BootLoader/applications/rt_fota.c:337-341 | a marked image waits no longer if and only if its version is terminated within its 24 bytes |
| Fota.PackedIsVerified | boot/BootLoader/applications/rt_fota.c:122-138 | for every name, version fields and body there is an image that verifies and holds them, so versions with and without a terminator both occur |
| Fota.UnterminatedExists | boot/BootLoader/applications/rt_fota.c:337-341 | an image that verifies, waits, can be installed, and still waits once it has been installed and marked |
| Fota.Board.CopyVersion | boot/BootLoader/applications/rt_fota.c:348-409 | the head block is rewritten as the marked image; losing power leaves it as it was or not verifying |
| Fota.Board.Boot | boot/BootLoader/applications/rt_fota.c:1045-1069 | wherever power fails, the image still waits and is the same, or it is installed; an uninterrupted boot installs and marks it, and a boot without a waiting image changes nothing |
| Fota.PackedIsPending | boot/BootLoader/applications/rt_fota.c:333-341 | an image whose version fields hold two texts waits if and only if the texts differ |
| Fota.BootWith | boot/BootLoader/applications/rt_fota.c:1045-1069 | a boot with enough power installs such an image exactly if its version text differs from the one installed, and it is neither encrypted nor compressed; with equal texts it changes nothing |
| Fota.Board.Boots | boot/BootLoader/applications/rt_fota.c:1008-1069 | the same over any number of boots, each with power for any number of flash operations |
| Fota.Board.BootsAfter | boot/BootLoader/applications/rt_fota.c:1045-1069 | over any number of boots after an uninterrupted one: with a terminated version none of them changes anything, whatever its power; with an unterminated one each that has enough power installs the same image again, and it still waits |

## Left out

- Bad blocks: error returns of the device, retries after a corrupt block and the read-back option of a flush are left out; a relocated compaction is modelled for the global state only.
- Relocation in the middle of a rename, orphans and half-orphans, and renaming over an empty directory: the rename is modelled between two pairs that stay where they are, replacing a file at most.
- A commit during a rename that splits its directory: `Split` models splitting on its own, the rename commits by appending or by compacting into the same pair.
- Filesystem.Lfs.Rename: takes each of its commits as one step, as all of `Filesystem` does; that a commit is one, from the bytes on, is `DirFetch.AppendIsAtomic`, `DirFetch.CutAnywhere`, `DirFetch.CutInChecksum`, `DirFetch.RewriteIsAtomic` and `Commits.Commit.CommitCrc`.
- Ids: entry ids in logs are unbounded numbers, so ids that overflow their ten bits are not modelled; on disk they are ten bits wide.
- The entry count of a fetch is an unbounded number instead of 16 bits.
- Find by name: the search for a name that a fetch can run along with its scan, path resolution and the sorting of names.
- DirGet.GetIsReplay: states names by their class under mask 0x700; lookups under mask 0x780, which skip the superblock name, are computed by the method but not related to the replay.
- DirFetch.AppendIsAtomic: does not say that a torn commit has no matching checksum, because 32 bits of checksum cannot promise it; it says exactly when a torn commit vanishes.
- Traverse.Run: takes the tags of the log instead of reading their bytes.
- Allocator.Lookahead.Alloc: what a traversal of the file system reports is a parameter, and the file system may only take blocks into use that were handed out; that an acknowledgement comes once they are reachable is up to its callers.
- The lookahead buffer is an array of booleans instead of words of 32 bits.
- Cache.Device.Read: requires that the read size divides the program size and a hint of at least one; without these the read loop need not advance. Offsets are unbounded, so the wrap-around of off+size is not modelled.
- The cache of an inline file, and comparing through the caches.
- The C fallbacks for counting bits on compilers without intrinsics; trailing zeros, ones and logarithms are modelled by what they count.
- Superblock expansion is modelled as the split it performs; the size of the file system that triggers it is a parameter.
- File handles, open files that follow a change of their directory, file reads and writes above the skip list, mkdir and remove, attributes as an interface, migration from version 1.
- Compressed and encrypted images: the upgrade fails for them here; the decompressors and the cipher are not part of this model.
- Fota.Board.Upgrade: what an upgrade leaves in a partition other than the application's is not followed up; an image that names the download partition itself may leave anything there.
- DirFetch.Fetch: does not run the match along with the scan, so no best tag and no id is returned.
- Cache.Device.Flush: without the read-back check of what was programmed.
- The default-firmware key and partition, the shell, the indicator light and the start of the application.
- A loss of power inside an erase or a write of the download partition: power fails between such operations, while an interrupted operation on the application partition may leave anything there.
