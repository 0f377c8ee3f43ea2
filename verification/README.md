# Verified kernels of SQLite 3.21 and its shell

This project models, in Dafny, the self-contained algorithms of SQLite that carry
state and hard invariants, and proves what their comments and asserts promise.
`dafny verify dfyconfig.toml` checks everything.

| files | what they model |
|---|---|
| `IndexGroups.dfy`, `Stat4Samples.dfy`, `Stat4.dfy` | the one-pass STAT4 sampler of ANALYZE (analyze.c) |
| `BackupCopy.dfy`, `Backup.dfy` | the online backup, interleaved with writes to its source (backup.c) |
| `BtMutex.dfy` | the locking protocol for shared caches (btmutex.c) |
| `BitvecHash.dfy`, `Bitvec.dfy` | the set of page numbers with three representations (bitvec.c) |
| `LaneBits.dfy`, `Keccak.dfy`, `KeccakConstants.dfy`, `KeccakBits.dfy`, `Sponge.dfy`, `Sha3Query.dfy` | SHA-3 and the stream hashed by sha3_query() (shell.c) |
| `Escape.dfy`, `Csv.dfy` | SQL literals that survive text-mode files, and CSV writing and reading (shell.c) |
| `DropTable.dfy`, `WithoutRowid.dfy`, `Affinity.dfy` | three parts of the schema builder (build.c) |
| `Arith.dfy`, `Decimal.dfy` | shared facts about quotients and decimal numerals |

Code that changes objects step by step is a class or a method with loops, proved
against functions on values; code that only computes is a function with lemmas. The
main theorems are about whole runs: `Stat4.Analyze`, `Backup.History.Run`,
`BtMutex.DeadlockFreedom`, `BitvecObject.BuiltinTest`, `Keccak.KeccakF1600Step`,
`KeccakBits.KeccakBitByBit`, `Sponge.Sha3Func`, `Sha3Query.UniquelyDecodable`, `Escape.OutputQuotedEscapedString`,
`Csv.ImportCtx.Import`, `Csv.WrittenImports`, `DropTable.Database.Drop`, `WithoutRowid.Table.Convert` and
`Affinity.AffinityType`.

## Where the code departs from what one expects

- The comment of sha3_query() says that integers and floats are little-endian
  (sqlite3/shell.c:1378-1379); the loops store the high byte first. The model follows
  the code. `Sha3Query.DocumentedOrder` says for which integers the two agree, and that 1
  is not one of them.
- Removing repeated columns from a WITHOUT ROWID primary key moves column numbers but
  not collating sequences (build.c, lines 1748-1755). `WithoutRowid.OwnCollsIff` says
  exactly when the collating sequences are still right, the contracts of the conversion
  repeat it, and `WithoutRowid.CollationLost` gives an input for which they are not.
- `isFatalError` counts SQLITE_DONE as fatal, so a finished backup never changes its code.

## Assumptions about the surroundings

- STAT4: rows arrive strictly sorted, with the leftmost changed column, and no more of
  them than the row count announced to stat_init(). Counters are unbounded naturals.
- Backup: page sizes are powers of two from 512 on that divide PENDING_BYTE and stay
  fixed while the destination is locked; every write to the source is reported before
  anything else happens; the source never ends with its pending-byte page; a source that
  shrank below the copied pages grows again without leaving a gap among them; page and file
  operations inside a step fail with errors other than SQLITE_BUSY and SQLITE_LOCKED,
  because `iNext` advances even when a page could not be copied. The destination is a
  byte image plus a file, commit writes the image except for the pending-byte page, and
  truncation of the image gives it exactly the requested size.
- Mutexes: sqlite3_mutex_try may fail at any time; the list of B-trees of a connection
  is sorted by the address of BtShared and does not change during a run.
- Bitvec: array sizes are parameters (at least one byte, two hash slots and two
  pointers); `LAYOUT64` has the sizes of a 64-bit build. Allocation fails when a script
  says so.
- SHA-3: the little-endian build; whether data starts at a multiple of 8 is a parameter.
  A rotation shifts a lane one place at a time.
- Escaping: SQL evaluation is a small evaluator for string literals, char() and
  replace(), the latter from the left and without overlaps. The counter of
  unused_string is unbounded; it never passes the length of the string, so the 32-bit
  one does not wrap for strings shorter than 4 GiB.
- CSV: for files that the shell has written, fields are the contents of C strings, the
  separator is one ASCII byte other than quote, CR and LF, and imports use LF as row
  separator. What an import does with other streams is stated without these assumptions.
- Dropping: root pages are a map to b-trees; in an auto-vacuum database erasing a page
  moves the largest root page into the free slot, as OP_Destroy reports it.
- WITHOUT ROWID: parsing leaves every index with its key and the rowid, and exactly one
  primary key index or an INTEGER PRIMARY KEY column.

## Model

| member | source | states |
|---|---|---|
| `Stat4.Analyze` | sqlite_src_doc/source_code/src/analyze.c:551-790 | For every strictly sorted row sequence and every sample capacity, all kept samples carry the exact number of equal rows, lesser rows and lesser distinct prefixes for every column prefix; they are in row order, at most mxSample, and each names the row it was taken from; every row due as a periodic sample is among them, so any rowCount / (mxSample / 3 + 1) + 1 consecutive rows contain one; while they do not fill the capacity every prefix of every row (up to the last column but one) is that of a sample; and always, a prefix without a sample occurs in no more rows than the prefix that any non-periodic sample was chosen for |
| `Stat4.Stat4Accum.constructor` | sqlite_src_doc/source_code/src/analyze.c:395-475 | A new accumulator satisfies the invariant, with an empty history |
| `Stat4.Stat4Accum.Push` | sqlite_src_doc/source_code/src/analyze.c:724-792 | One more row, differing first in column iChng, keeps the whole invariant: counters of the current row, candidates, samples, order, capacity and periodic bound; unknown counts lie left of the columns samples were chosen for, and a full list has iMin least preferred |
| `Stat4.Stat4Accum.GetRowid` | sqlite_src_doc/source_code/src/analyze.c:892-906 | The first call completes all counters: afterwards every sample is exact; it returns the rowid at iGet or nothing past the end |
| `Stat4.Stat4Accum.GetStat1` | sqlite_src_doc/source_code/src/analyze.c:847-890 | The first number is the row count, the others are rows per distinct prefix rounded up, the number of distinct prefixes being that of the rows themselves |
| `Stat4.Stat4Accum.SampleInsert` | sqlite_src_doc/source_code/src/analyze.c:551-638 | The list becomes what the priority rules say (unchanged, one sample upgraded, or the new sample added in place of the evicted one), and a full list has iMin least preferred in every case |
| `Stat4.Stat4Accum.FindUpgrade` | sqlite_src_doc/source_code/src/analyze.c:574-584 | Finds the preferred sample that shares the prefix, tells the periodic and the absent case apart, and both asserts of the loop hold |
| `Stat4.Stat4Accum.UpgradeSharer` | sqlite_src_doc/source_code/src/analyze.c:565-590 | Exactly when some sample shares the prefix, the candidate is not added and the list changes as the rules say |
| `Stat4.Stat4Accum.FindNewMin` | sqlite_src_doc/source_code/src/analyze.c:624-638 | With a full array a non-periodic sample exists, and iMin is one that is preferred to no other |
| `Stat4.Stat4Accum.SamplePushPrevious` | sqlite_src_doc/source_code/src/analyze.c:648-678 | Every count from column iChng on becomes known, no periodic sample is lost, nMaxEqZero drops to at most iChng, a full list still has iMin least preferred after the fill-in, and every group completed has a sample of its own unless the list is full of samples that stand for at least as many rows |
| `Stat4.Stat4Accum.PushCandidate` | sqlite_src_doc/source_code/src/analyze.c:654-661 | A candidate is offered exactly when the list is not full or it beats the least sample; either way its column has then been dealt with |
| `Stat4.Stat4Accum.FillIn` | sqlite_src_doc/source_code/src/analyze.c:671-676 | Unknown counts from column x on, and only those, are replaced by the current row's |
| `Stat4.Stat4Accum.AdvanceCurrent` | sqlite_src_doc/source_code/src/analyze.c:749-758 | The counters of the previous row become those of the new row |
| `Stat4.Stat4Accum.UpdateBest` | sqlite_src_doc/source_code/src/analyze.c:783-789 | After the update every candidate describes a row of its column's newest group, and no row of that group has read further into its next-column group |
| `Stat4.Stat4Accum.PeriodicSample` | sqlite_src_doc/source_code/src/analyze.c:771-781 | A row that completes a multiple of nPSample rows becomes a periodic sample, and their number stays at most nRow / nPSample |
| `Stat4.PeriodicBound` | sqlite_src_doc/source_code/src/analyze.c:450-450 | With no more rows than announced, periodic samples never exceed a third of the capacity |
| `Stat4.DueIsEvery` | sqlite_src_doc/source_code/src/analyze.c:450-450 | If all rows due at period w are kept as periodic samples, any w consecutive rows contain a periodic sample |
| `Stat4.SharerIsWorse` | sqlite_src_doc/source_code/src/analyze.c:578-579 | A sharer was chosen for a later column and the new candidate is preferred to it: both asserts are theorems |
| `Stat4.NonSharersAreEarlier` | sqlite_src_doc/source_code/src/analyze.c:609-615 | If no sample shares the prefix, all samples lie in earlier rows, so appending keeps the order the assert demands |
| `Stat4.InsertedKeepsPeriodic` | sqlite_src_doc/source_code/src/analyze.c:551-638 | No insertion, upgrade or eviction ever loses a periodic sample |
| `Stat4.FillInKeepsLeast` | sqlite_src_doc/source_code/src/analyze.c:669-676 | Filling in counts leaves the least preferred sample least preferred, since only counts left of the chosen columns are unknown |
| `Stat4.ChoiceHasNoGap` | sqlite_src_doc/source_code/src/analyze.c:574-589 | The sample chosen for an upgrade lacks no count to the right of its new column, although candidates of columns between may have been passed over |
| `Stat4.SkippedTidy` | sqlite_src_doc/source_code/src/analyze.c:654-661 | A candidate that does not beat the least sample has no non-periodic sharer that it could have upgraded |
| `Stat4.InsertedTidy` | sqlite_src_doc/source_code/src/analyze.c:551-638 | Whatever sampleInsert does with the candidate of a column, whoever still lacks that column's count is outranked there |
| `Stat4.Stat4Accum.LeastKept` | sqlite_src_doc/source_code/src/analyze.c:551-678 | Between two calls unknown counts lie left of the chosen columns and iMin is least in a full list |
| `Stat4Samples.BetterMeans` | sqlite_src_doc/source_code/src/analyze.c:496-545 | Preference is the lexicographic order by size of the chosen prefix, then shorter prefix, then sizes of the longer prefixes from left to right, then hash |
| `Stat4.InsertedCovers` | sqlite_src_doc/source_code/src/analyze.c:551-661 | Whatever sampleInsert does with a candidate, the open group of its column is served (it has a sample chosen for it, or a full list stands for larger groups only) and no other group stops being served |
| `Stat4.EvictServes` | sqlite_src_doc/source_code/src/analyze.c:592-608 | Evicting the least preferred sample leaves every group served: the group it stood for is no larger than those of the samples that stay |
| `Stat4.SkippedCovers` | sqlite_src_doc/source_code/src/analyze.c:654-661 | A candidate passed over because it does not beat the least sample stands for a group no larger than any kept one |
| `Stat4.ChosenForMore` | sqlite_src_doc/source_code/src/analyze.c:535-540 | A sample stands for groups that are no larger than the one it was chosen for |
| `Stat4.AllComplete` | sqlite_src_doc/source_code/src/analyze.c:892-896 | After the last fill-in a prefix that no sample has occurs in no more rows than any chosen prefix, and there is none unless the list is full |
| `Stat4Samples.BetterIsStrictOrder` | sqlite_src_doc/source_code/src/analyze.c:500-545 | Preference between samples is transitive and irreflexive |
| `Stat4Samples.BetterIsTotal` | sqlite_src_doc/source_code/src/analyze.c:500-545 | Not being preferred is transitive too, so a candidate that loses to the least sample loses to all |
| `Stat4Samples.KnownIsExact` | sqlite_src_doc/source_code/src/analyze.c:629-676 | A sample without unknown counts equals the counts defined directly on the rows |
| `Stat4Samples.BestBecomesSample` | sqlite_src_doc/source_code/src/analyze.c:654-661 | A candidate pushed with its first counts zeroed stores only final or still growing counts |
| `Stat4Samples.LaterRowDisplaces` | sqlite_src_doc/source_code/src/analyze.c:783-789 | A later row that extends the candidate's group is always preferred to it |
| `Stat4Samples.BestSurvivesRow` | sqlite_src_doc/source_code/src/analyze.c:783-789 | A candidate that is not displaced still describes its group |
| `Stat4Samples.WidestSurvivesRow` | sqlite_src_doc/source_code/src/analyze.c:783-789 | The winner of the comparison has read furthest into its subgroup among all rows of the newest group |
| `Stat4Samples.SampleSurvivesRow` | sqlite_src_doc/source_code/src/analyze.c:745-758 | A new row leaves every stored count right once the closed groups were filled in |
| `IndexGroups.CountEqual` | sqlite_src_doc/source_code/src/analyze.c:267-271 | The size of a group is the number of rows with that prefix |
| `IndexGroups.CountLesser` | sqlite_src_doc/source_code/src/analyze.c:267-271 | The start of a group is the number of rows with a lesser prefix |
| `IndexGroups.CountLesserPrefixes` | sqlite_src_doc/source_code/src/analyze.c:267-271 | The rank of a group is the number of lesser distinct prefixes |
| `Backup.History.Run` | sqlite_src_doc/source_code/src/backup.c:336-736 | Every interleaving of init, step, finish, reported writes (within the source, at its end or beyond), shrinking, external changes with restart and transactions keeps every backup consistent with the source, and a backup that answered DONE keeps a faithful copy of the content it copied |
| `Backup.History.Do` | sqlite_src_doc/source_code/src/backup.c:336-736 | Each single event keeps that invariant |
| `Backup.Source.Step` | sqlite_src_doc/source_code/src/backup.c:348-597 | A fatal code is sticky; DONE means a byte-for-byte faithful copy of exactly the source's size and, for larger destination pages, a journalled tail; OK means registered with the right number of pages left; an answer that is no error moves iNext on by exactly the smaller of nPage and the pages left (all of them for a negative nPage), an error by at most that, BUSY and LOCKED not at all; when nothing fails, locks are granted and the page sizes go together the answer is DONE if no page is left and OK otherwise; a source in a write transaction gives BUSY, a refused lock its own code, and the destination stays as it is |
| `Backup.Source.Prepare` | sqlite_src_doc/source_code/src/backup.c:365-414 | A step that goes on has the destination locked, a destination that was locked before keeps its page size, with all locks granted it does go on, a write transaction on the source gives BUSY, and a refused lock on either database gives the code of the refusal |
| `Backup.Source.CopyAndFinish` | sqlite_src_doc/source_code/src/backup.c:416-572 | Moves iNext on by exactly nPage pages or to the end of the source and completes the destination exactly when all are copied |
| `Backup.Source.StepWhileOk` | sqlite_src_doc/source_code/src/shell.c:5520-5520 | A client that steps while the answer is OK, on a source that stays as it is and with nothing refused or failing, ends with DONE and a faithful copy after exactly as many steps as the pages left and nPage make necessary (rounded up, at least one) |
| `Backup.History.DoAllSteps` | sqlite_src_doc/source_code/src/shell.c:5520-5520 | The same within a history: the finished backup is recorded with the content of the source, and all other backups stay consistent |
| `Backup.Source.Attach` | sqlite_src_doc/source_code/src/backup.c:336-343 | The backup is put at the head of the list and marked attached |
| `Backup.Source.Write` | sqlite_src_doc/source_code/src/backup.c:690-717 | A write to the source, which may make it grow by any number of pages, keeps every registered backup consistent; codes change only from non-fatal to an error |
| `Backup.Source.UpdateAll` | sqlite_src_doc/source_code/src/backup.c:690-714 | All registered backups are consistent with the new content after the loop over the list |
| `Backup.Source.ExternalChange` | sqlite_src_doc/source_code/src/backup.c:719-736 | Any change of the source with a restart keeps all backups consistent |
| `Backup.Source.Restart` | sqlite_src_doc/source_code/src/backup.c:730-736 | Every registered backup starts again at page 1 |
| `Backup.Source.Finish` | sqlite_src_doc/source_code/src/backup.c:602-648 | The backup leaves the list, the others stay consistent, and DONE is reported as OK |
| `Backup.Source.Init` | sqlite_src_doc/source_code/src/backup.c:141-211 | A new backup is unattached, not locked and has iNext 1 |
| `Backup.BackupObject.constructor` | sqlite_src_doc/source_code/src/backup.c:183-206 | A new backup is consistent with any source content |
| `Backup.BackupObject.OnePage` | sqlite_src_doc/source_code/src/backup.c:227-313 | The source page is in the destination except for bytes in its pending-byte page and the header, other bytes are unchanged, for any two page sizes |
| `Backup.BackupObject.OneChunk` | sqlite_src_doc/source_code/src/backup.c:285-310 | One destination page of that loop |
| `Backup.BackupObject.CopyPages` | sqlite_src_doc/source_code/src/backup.c:421-432 | Without an error exactly the smaller of nPage and the pages left is copied, all of them for a negative nPage, and all pages below iNext are in the destination |
| `Backup.BackupObject.Update` | sqlite_src_doc/source_code/src/backup.c:690-714 | A changed page that was already copied is copied again; others and fatal backups are left alone |
| `Backup.BackupObject.JournalTail` | sqlite_src_doc/source_code/src/backup.c:521-531 | Every destination page from nDestTruncate on, except the pending-byte page, is journalled |
| `Backup.BackupObject.WriteExtra` | sqlite_src_doc/source_code/src/backup.c:537-551 | The source pages that share the destination's pending-byte page are written to the file |
| `Backup.BackupObject.Complete` | sqlite_src_doc/source_code/src/backup.c:443-572 | Completing either fails with an error or leaves a faithful copy with a journalled tail; without failing operations it does not fail |
| `Backup.BackupObject.CommitSmall` | sqlite_src_doc/source_code/src/backup.c:560-570 | With equal or smaller destination pages the committed file is a faithful copy |
| `Backup.BackupObject.CommitLarge` | sqlite_src_doc/source_code/src/backup.c:491-570 | With larger destination pages the committed, extended and truncated file is a faithful copy, and its old tail was journalled first |
| `BackupCopy.DestPagesOk` | sqlite_src_doc/source_code/src/backup.c:480-513 | nDestTruncate is positive, the second assert holds, and every page with a byte past the new size is numbered at or above it |
| `BackupCopy.TailIsJournalled` | sqlite_src_doc/source_code/src/backup.c:515-531 | Journalling from nDestTruncate on covers every destination page at or past the new size |
| `BackupCopy.CommitSmallPages` | sqlite_src_doc/source_code/src/backup.c:560-563 | Image cut to size and flushed equals the source outside header and pending-byte page |
| `BackupCopy.CommitLargePages` | sqlite_src_doc/source_code/src/backup.c:532-554 | Flush, extra pages and truncation together equal the source outside header and pending-byte page |
| `BackupCopy.CopiedNext` | sqlite_src_doc/source_code/src/backup.c:421-432 | One more page extends the copied prefix |
| `BackupCopy.CopiedRewritten` | sqlite_src_doc/source_code/src/backup.c:698-711 | Repeating a write in the destination keeps the copied prefix right |
| `BackupCopy.CopiedUntouched` | sqlite_src_doc/source_code/src/backup.c:698-698 | A write beyond the copied prefix does not disturb it |
| `BackupCopy.Pow2Divides` | sqlite_src_doc/source_code/src/backup.c:285-294 | Of two powers of two the smaller divides the larger, so chunks never straddle pages |
| `BtMutex.DeadlockFreedom` | sqlite_src_doc/source_code/src/btmutex.c:71-137 | In no state reachable by any interleaving of any number of connections are all members of a nonempty group waiting for mutexes held within the group |
| `BtMutex.NoDeadlock` | sqlite_src_doc/source_code/src/btmutex.c:105-137 | The same for every state that satisfies the invariant |
| `BtMutex.BlocksAboveHeld` | sqlite_src_doc/source_code/src/btmutex.c:105-137 | A connection that blocks on a mutex holds only smaller ones |
| `BtMutex.StepInv` | sqlite_src_doc/source_code/src/btmutex.c:27-152 | Every enabled step of every connection keeps the invariant |
| `BtMutex.RunInv` | sqlite_src_doc/source_code/src/btmutex.c:27-152 | Every run keeps the invariant |
| `BtMutex.MutualExclusion` | sqlite_src_doc/source_code/src/btmutex.c:27-50 | Two connections never have the same BtShared locked |
| `BtMutex.QuiescentLocks` | sqlite_src_doc/source_code/src/btmutex.c:71-152 | Between calls a B-tree is locked exactly when wantToLock is positive, exactly when its connection owns the mutex, and then BtShared.db names the connection |
| `BtMutex.Progress` | sqlite_src_doc/source_code/src/btmutex.c:105-137 | Some connection inside a call can step, or somebody between calls holds a mutex |
| `BtMutex.CallsTerminate` | sqlite_src_doc/source_code/src/btmutex.c:105-137 | Each own step brings a call closer to its end and no other connection sets it back |
| `BtMutex.RunWant` | sqlite_src_doc/source_code/src/btmutex.c:71-152 | Over every run wantToLock changes by the connection's own enters minus leaves |
| `BtMutex.BalancedCallsRestore` | sqlite_src_doc/source_code/src/btmutex.c:71-152 | A connection whose calls balance ends exactly as it began, whatever others did |
| `BtMutex.AllBalanced` | sqlite_src_doc/source_code/src/btmutex.c:186-214 | btreeEnterAll and btreeLeaveAll balance for every B-tree, and EnterAll enters each one listed |
| `BtMutex.EnterAllLeaveAll` | sqlite_src_doc/source_code/src/btmutex.c:186-214 | After EnterAll all listed B-trees are locked; LeaveAll then restores all counts and locks |
| `BitvecObject.BuiltinTest` | sqlite_src_doc/source_code/src/bitvec.c:337-402 | For every program of set and clear operations the comparison with the linear array finds no difference; a difference is reported exactly at a bit where the reference sets differ, and -1 only after a failed allocation; a reported bit is the first one that differs |
| `BitvecObject.RunProgram` | sqlite_src_doc/source_code/src/bitvec.c:354-389 | If no allocation fails the program runs to its end and the bitmap holds exactly its reference set |
| `BitvecObject.Bitvec.constructor` | sqlite_src_doc/source_code/src/bitvec.c:115-123 | A new bitmap is empty and in order |
| `BitvecObject.Bitvec.Test` | sqlite_src_doc/source_code/src/bitvec.c:130-152 | Membership in the abstract set, false for 0 and out of range, through all three forms |
| `BitvecObject.BitvecTest` | sqlite_src_doc/source_code/src/bitvec.c:153-155 | A missing bitmap has no members |
| `BitvecObject.Bitvec.Set` | sqlite_src_doc/source_code/src/bitvec.c:169-232 | Adds exactly bit i and succeeds unless an allocation fails; then it may lose bits but never adds another one; the node invariant (count, no duplicates, no gaps, a free slot, sub-bitmaps in order) is kept |
| `BitvecObject.Bitvec.SetRadix` | sqlite_src_doc/source_code/src/bitvec.c:175-183 | The same through the sub-bitmaps |
| `BitvecObject.Bitvec.SetHash` | sqlite_src_doc/source_code/src/bitvec.c:188-231 | The same in the hash form, including the case that it must be split |
| `BitvecObject.Bitvec.Rehash` | sqlite_src_doc/source_code/src/bitvec.c:209-227 | The conversion from hash to radix form keeps the set and terminates |
| `BitvecObject.Bitvec.Distribute` | sqlite_src_doc/source_code/src/bitvec.c:220-223 | Setting all old values again reproduces them, and nothing else, unless an allocation fails |
| `BitvecObject.Bitvec.Clear` | sqlite_src_doc/source_code/src/bitvec.c:240-272 | Removes exactly bit i, in all three forms |
| `BitvecObject.BinInRange` | sqlite_src_doc/source_code/src/bitvec.c:134-141 | Every bin index is below BITVEC_NPTR and the remainder below iDivisor |
| `BitvecObject.DivisorBounds` | sqlite_src_doc/source_code/src/bitvec.c:219-219 | The divisor covers all bits and is strictly smaller than iSize, so recursion ends |
| `BitvecObject.JoinedSet` | sqlite_src_doc/source_code/src/bitvec.c:175-183 | Setting a bit in one sub-bitmap sets the corresponding bit of the whole and no other |
| `BitvecObject.JoinedClear` | sqlite_src_doc/source_code/src/bitvec.c:244-251 | The same for clearing |
| `BitvecHash.Find` | sqlite_src_doc/source_code/src/bitvec.c:145-151 | The probe loop terminates at the value or at an empty slot, and the value is present exactly in the first case |
| `BitvecHash.Rebuild` | sqlite_src_doc/source_code/src/bitvec.c:255-270 | The rebuilt table holds all values but one and is in order again |
| `BitvecHash.ProbeEnds` | sqlite_src_doc/source_code/src/bitvec.c:145-151 | No probe goes all the way round |
| `BitvecHash.ProbeMisses` | sqlite_src_doc/source_code/src/bitvec.c:145-151 | An empty slot on the probe path proves absence |
| `BitvecHash.InsertOk` | sqlite_src_doc/source_code/src/bitvec.c:228-231 | Storing at the end of the probe keeps the table in order |
| `BitvecHash.BitmapUpdate` | sqlite_src_doc/source_code/src/bitvec.c:184-187 | Setting or clearing a bit of the byte array changes that bit only |
| `Keccak.KeccakF1600Step` | sqlite3/shell.c:892-1207 | The in-place unrolled loop computes Keccak-f[1600] of FIPS 202 on every state; KeccakBits.KeccakBitByBit says what that is in single bits |
| `KeccakBits.KeccakBitByBit` | sqlite3/shell.c:892-1207 | Bit (x, y, z) after the 24 rounds on lanes is the one that theta, rho, pi, chi and iota of section 3.2 of FIPS 202, written on booleans A(x, y, z), give after 24 rounds with the constants of Algorithms 5 and 6 |
| `KeccakBits.RoundBit` | sqlite3/shell.c:938-1004 | Every bit of one round on lanes is that of Rnd (section 3.3) on the state array |
| `KeccakBits.ThetaBit` | sqlite3/shell.c:939-949 | Bit z of a lane after theta is the sum of the eleven bits that section 3.2.1 names |
| `KeccakBits.RhoPiBit` | sqlite3/shell.c:950-954 | After rho and pi (sections 3.2.2 and 3.2.3) a bit comes from lane (x + 3y, x), turned by the amount of Algorithm 2 |
| `KeccakBits.ChiBit` | sqlite3/shell.c:955-960 | After chi (section 3.2.4) a bit is A(x, y, z) changed when A(x+1, y, z) is 0 and A(x+2, y, z) is 1 |
| `KeccakBits.RoundConstantBits` | sqlite3/shell.c:897-910 | Bit 2^j - 1 of the constant of round i is rc(j + 7i) for j = 0..6, all others are 0, with rc computed on a register of eight booleans as in Algorithm 5 |
| `LaneBits.BitRol` | sqlite3/shell.c:936-936 | Bit z of a lane rotated by n places is bit (z - n) mod 64 of the lane |
| `Keccak.FourRounds` | sqlite3/shell.c:938-1206 | One iteration equals four standard rounds, with every lane back in its place |
| `Keccak.QuarterIsRound` | sqlite3/shell.c:938-1004 | Each quarter is one standard round, the lanes then being kept in other rows |
| `Keccak.LanesReturn` | sqlite3/shell.c:938-1206 | The four placements follow from one another and the last leads home |
| `Keccak.QuarterInPlace` | sqlite3/shell.c:938-1004 | The in-place quarter computes the value-level one |
| `Keccak.BlockInPlace` | sqlite3/shell.c:950-960 | The five assignments of a block overwrite only lanes already read |
| `KeccakConstants.OffsetsAreStandard` | sqlite3/shell.c:938-1206 | The rotation amount at each of the 24 steps of the walk over the lanes is the one generated by section 3.2.2 of FIPS 202 |
| `KeccakConstants.AllOffsetsAreStandard` | sqlite3/shell.c:938-1206 | The walk visits every lane but (0, 0), so every lane has its standard rotation amount |
| `KeccakConstants.RoundConstantsAreStandard` | sqlite3/shell.c:897-910 | All 24 constants are those generated by the shift register of section 3.2.5 of FIPS 202 |
| `Sponge.SHA3Context.constructor` | sqlite3/shell.c:1214-1237 | An empty message and a rate that is a multiple of 8 |
| `Sponge.SHA3Context.Update` | sqlite3/shell.c:1243-1275 | The data is appended to the message, whatever its alignment, split or the fill of the block; nLoaded stays below nRate |
| `Sponge.SHA3Context.AddWords` | sqlite3/shell.c:1250-1259 | The word path absorbs the same bytes as the byte path |
| `Sponge.SHA3Context.AddBytes` | sqlite3/shell.c:1261-1274 | The byte path absorbs the data |
| `Sponge.SHA3Context.Pad` | sqlite3/shell.c:1284-1293 | The message is padded to whole blocks, also with one byte left |
| `Sponge.SHA3Context.Final` | sqlite3/shell.c:1282-1298 | The result is the first block of the sponge over the padded message |
| `Sponge.Sha3Func` | sqlite3/shell.c:1311-1338 | SHA3-d of FIPS 202 for the four sizes, an error for all others |
| `Sponge.AbsorbConcat` | sqlite3/shell.c:1243-1275 | Hashing does not depend on how the input is split |
| `Sponge.AbsorbIsSponge` | sqlite3/shell.c:1243-1275 | Absorbing byte by byte equals the block-wise sponge of section 4 of FIPS 202 |
| `Sponge.WordIsEightBytes` | sqlite3/shell.c:1250-1263 | One 64-bit exclusive-or equals eight byte-wise ones |
| `Sponge.WordBytes` | sqlite3/shell.c:1252-1252 | A 64-bit little-endian load holds the eight bytes in address order |
| `Sponge.XorByteMeans` | sqlite3/shell.c:1263-1263 | u.x[k] ^= b changes byte k of the overlaid lanes and no other |
| `Sponge.AbsorbZeros` | sqlite3/shell.c:1288-1292 | Moving nLoaded forward is absorbing zero bytes |
| `Sponge.PaddingIsStandard` | sqlite3/shell.c:1284-1293 | Bit for bit the padding is suffix 01 followed by pad10*1 (sections 5.1, 6.1 and B.2 of FIPS 202) |
| `Sponge.DigestPrefix` | sqlite3/shell.c:1337-1337 | The bytes handed out are the first d bits of the sponge with capacity 2d |
| `Sha3Query.UniquelyDecodable` | sqlite3/shell.c:1365-1388 | Two lists of statements and rows with the same stream are equal |
| `Sha3Query.HashedGrammar` | sqlite3/shell.c:1365-1388 | The stream read from front to back is, for each statement, S with length and text, then for each row R and its values as N, I or F with eight bytes, B or T with length and bytes, without delimiters |
| `Sha3Query.SegmentReads` | sqlite3/shell.c:1438-1492 | The first segment of any stream can be read back and the rest is left |
| `Sha3Query.StreamInjective` | sqlite3/shell.c:1365-1388 | Equal streams have equal segments |
| `Sha3Query.SegmentsInjective` | sqlite3/shell.c:1435-1493 | Equal segments come from equal statements |
| `Sha3Query.NineBytes` | sqlite3/shell.c:1450-1477 | The loop produces the tag and the eight bytes, high byte first |
| `Sha3Query.OrdersAgreeIff` | sqlite3/shell.c:1376-1379 | High byte first and low byte first agree if and only if the eight bytes read the same from both ends |
| `Sha3Query.DocumentedOrder` | sqlite3/shell.c:1376-1379 | An integer is hashed in the byte order of the comment exactly under that condition, which 1 does not meet |
| `Sha3Query.Query.AddValue` | sqlite3/shell.c:1445-1492 | Hashes exactly the segment of the value |
| `Sha3Query.Query.AddStatement` | sqlite3/shell.c:1435-1494 | Hashes exactly the segments of the statement and its rows |
| `Sha3Query.Sha3QueryFunc` | sqlite3/shell.c:1389-1498 | The SHA-3 digest of the stream for the four sizes, an error for all others |
| `Escape.OutputQuotedEscapedString` | sqlite3/shell.c:2385-2441 | Evaluating the printed SQL text returns the string, with nothing left over, and the text has no CR or LF, for every string |
| `Escape.UnusedString` | sqlite3/shell.c:2327-2339 | The first unused one of zA, zB, (zA0), (zA1), ..., found after at most as many tries as z has characters |
| `Escape.FewTokens` | sqlite3/shell.c:2335-2337 | A string contains at most as many generated tokens as characters |
| `Escape.MadeUnique` | sqlite3/shell.c:2336-2336 | Two generated tokens at the same place are the same token |
| `Escape.TokenFits` | sqlite3/shell.c:2336-2336 | A generated token is shorter than its buffer |
| `Escape.PrintInside` | sqlite3/shell.c:2411-2431 | The run-wise loop prints tokens for line ends and doubles quotes |
| `Escape.RoundTrip` | sqlite3/shell.c:2385-2441 | Undoubling quotes, then replacing the CR token, then the NL token, gives back the string |
| `Escape.ReplaceUndoes` | sqlite3/shell.c:2433-2438 | replace() undoes the substitution of an unused token, also next to other tokens |
| `Escape.TokensApart` | sqlite3/shell.c:2402-2409 | CR and NL tokens never overlap each other |
| `Escape.NoLineEnds` | sqlite3/shell.c:2376-2384 | The printed text contains no line ends |
| `Csv.OutputCsv` | sqlite3/shell.c:2537-2567 | The field, quoted exactly when it must be, and the separator if asked for |
| `Csv.OutputRow` | sqlite3/shell.c:2872-2888 | The fields joined by separators and ended by the row separator |
| `Csv.Export` | sqlite3/shell.c:2872-2888 | Row after row, the text of the whole table |
| `Csv.ImportCtx.ReadOneField` | sqlite3/shell.c:4581-4657 | The field, terminator, rest of the stream, line count and complaints are those of the reading function, for every input; the backward search for a quote always finds one |
| `Csv.ImportCtx.ReadQuoted` | sqlite3/shell.c:4592-4627 | The loop over a quoted field |
| `Csv.ImportCtx.ReadUnquoted` | sqlite3/shell.c:4644-4652 | The loop over an unquoted field |
| `Csv.ImportCtx.Import` | sqlite3/shell.c:6007-6048 | For every stream and every table width, the inserted rows and the number of complaints are those of the whole file read row by row: each row of the file gives one inserted row of exactly nCol cells, a short one filled with NULL behind the fields it has, a long one cut, and one complaint for each wrong width |
| `Csv.ExportThenImport` | sqlite3/shell.c:2872-2888 | Rows written by the CSV writer and read by the importer come back fitted to the table with one complaint for each row of another width, hence exactly and without complaint when all have its width |
| `Csv.ImportCtx.ReadCells` | sqlite3/shell.c:6009-6030 | One row of any stream: the cells are its fields fitted to nCol, with a complaint for a short row; of a long row the extra fields are left to be read |
| `Csv.ImportCtx.SkipExtras` | sqlite3/shell.c:6031-6040 | The extra fields are read up to the end of the row, with exactly one complaint |
| `Csv.WrittenImports` | sqlite3/shell.c:6007-6048 | A written file of rows of any widths (LF or CRLF, any one-byte ASCII separator, with or without byte order mark, the last row perhaps ended by the end of the file) is imported as exactly its rows, each filled up or cut to nCol, with one complaint for each row of another width |
| `Csv.WrittenRowReads` | sqlite3/shell.c:6009-6040 | A written row is read as exactly its fields, whatever their number, and the rest of the stream is what follows it |
| `Csv.RightWidth` | sqlite3/shell.c:6007-6048 | Rows of the right width are stored as they are and without complaint |
| `Csv.FieldReads` | sqlite3/shell.c:4581-4657 | Reading what was written for a field gives the field, the right terminator, the right number of lines and no complaint |
| `Csv.QuotedReads` | sqlite3/shell.c:4592-4627 | The same for quoted fields with any content |
| `Csv.UnquotedReads` | sqlite3/shell.c:4644-4652 | The same for unquoted fields |
| `Csv.BomSkips` | sqlite3/shell.c:4629-4643 | A byte order mark at the start is skipped |
| `DropTable.DestroyTable` | sqlite_src_doc/source_code/src/build.c:2393-2418 | Every root page of the table and its indexes exactly once, in strictly decreasing order |
| `DropTable.NextLargest` | sqlite_src_doc/source_code/src/build.c:2396-2409 | The largest root page not yet erased, or 0 |
| `DropTable.Database.Drop` | sqlite_src_doc/source_code/src/build.c:2339-2418 | The page numbers fixed beforehand hit the table's own b-trees: exactly those are gone afterwards and every other b-tree is still there once; the records are still the same tables and indexes, each surviving one names its own b-tree, and entries of unmoved root pages did not change |
| `DropTable.Database.DestroyRootPage` | sqlite_src_doc/source_code/src/build.c:2339-2360 | Erasing one root page removes that b-tree only, moves no smaller one, and changes in all three lists exactly the entries of the moved page |
| `DropTable.Database.EraseAll` | sqlite_src_doc/source_code/src/build.c:2396-2418 | Erasing in decreasing order hits the b-trees that were at these pages in the beginning |
| `DropTable.Database.RootPageMoved` | sqlite_src_doc/source_code/src/build.c:2309-2330 | All table and index entries with the old number get the new one |
| `DropTable.RecordsFollow` | sqlite_src_doc/source_code/src/build.c:2291-2308 | Changing all entries with the old number keeps survivors right, also when stale entries share it |
| `DropTable.RecordsStay` | sqlite_src_doc/source_code/src/build.c:2339-2360 | An entry of a surviving b-tree that did not move is unchanged |
| `DropTable.ErasedKeeps` | sqlite_src_doc/source_code/src/build.c:2377-2392 | No other b-tree is lost, duplicated, or moved unless it was the largest |
| `DropTable.SmallestFirstFails` | sqlite_src_doc/source_code/src/build.c:2382-2391 | The counterexample for the other order |
| `WithoutRowid.Table.Convert` | sqlite_src_doc/source_code/src/build.c:1693-1816 | After success the primary key lists its distinct columns in order of first occurrence and then every other column (nColumn equals nCol), every other index its key and then the primary key columns it lacked; NOT NULL flags, keys and the virtual table case as documented; key columns keep their own collating sequences exactly when those fit; iPKey is -1 once an INTEGER PRIMARY KEY has got its index, the primary key is marked covering and has the table's root page, and uniqNotNull is set unless the table is an imposter |
| `WithoutRowid.Table.SettleKey` | sqlite_src_doc/source_code/src/build.c:1723-1756 | The primary key index without repetitions, or a new one for an INTEGER PRIMARY KEY; its collating sequences are those of the declaration exactly when they fit |
| `WithoutRowid.Table.ExtendOthers` | sqlite_src_doc/source_code/src/build.c:1774-1798 | Every other index is extended; keys stay as they were |
| `WithoutRowid.Index.DropRepeats` | sqlite_src_doc/source_code/src/build.c:1743-1755 | The key becomes its distinct columns; collating sequences stay at their positions, so they are right if and only if they fit there |
| `WithoutRowid.Compacted` | sqlite_src_doc/source_code/src/build.c:1743-1755 | The compaction loop |
| `WithoutRowid.Index.ReplaceRowid` | sqlite_src_doc/source_code/src/build.c:1780-1797 | The index lists its key followed by exactly the primary key columns it lacked |
| `WithoutRowid.Index.FillColumns` | sqlite_src_doc/source_code/src/build.c:1800-1816 | The primary key lists every table column; the asserts about j and nColumn hold |
| `WithoutRowid.Index.Resize` | sqlite_src_doc/source_code/src/build.c:1612-1631 | Room for n columns with the old entries kept, or a failure that changes nothing |
| `WithoutRowid.HasColumn` | sqlite_src_doc/source_code/src/build.c:1664-1667 | Membership in the first nCol entries |
| `WithoutRowid.DistinctOrder` | sqlite_src_doc/source_code/src/build.c:1743-1755 | The order of first occurrence is kept |
| `WithoutRowid.EveryColumnOnce` | sqlite_src_doc/source_code/src/build.c:1800-1816 | Key columns and the others together are every column exactly once |
| `WithoutRowid.LackedMeans` | sqlite_src_doc/source_code/src/build.c:1789-1795 | The appended parts are exactly those of the primary key that the index lacked |
| `WithoutRowid.LackedNoRepeats` | sqlite_src_doc/source_code/src/build.c:1789-1795 | Appending lacking columns creates no repetition |
| `WithoutRowid.OwnCollsIff` | sqlite_src_doc/source_code/src/build.c:1748-1755 | For a key reduced to its distinct columns with collating sequences left in place, every column has its own if and only if each new column has the one declared at the position it moves to |
| `WithoutRowid.CollationLost` | sqlite_src_doc/source_code/src/build.c:1748-1755 | For PRIMARY KEY(a, a, b COLLATE nocase) column b always ends with the collating sequence of a |
| `Affinity.AffinityType` | sqlite_src_doc/source_code/src/build.c:1154-1189 | The affinity of the priority table over case-insensitive substring containment, for every type name; the table itself compares letters with both of their cases and does not use the lower-casing of the code |
| `Affinity.TableIgnoresCase` | sqlite_src_doc/source_code/src/build.c:1129-1153 | Names that differ only in the case of letters have the same affinity |
| `Affinity.ContainsMeans` | sqlite_src_doc/source_code/src/build.c:1133-1138 | A word is contained exactly when its letters, each in either case, follow one another somewhere in the name |
| `Affinity.WindowIsWord` | sqlite_src_doc/source_code/src/build.c:1160-1183 | The 32-bit window equals a four-letter code exactly when the text read so far ends with the word |
| `Affinity.WindowIsInt` | sqlite_src_doc/source_code/src/build.c:1185-1185 | The masked window equals INT exactly when the text ends with it |
| `Affinity.UpdatedIsTable` | sqlite_src_doc/source_code/src/build.c:1163-1188 | One step of the branches computes the table's answer for the longer prefix |
| `Affinity.IntegerStays` | sqlite_src_doc/source_code/src/build.c:1185-1188 | The early exit is right: nothing after INT matters |

## Left out

- The pager, b-tree, VFS and journal layers; they appear only as stated above.
- Code generation for the virtual machine in build.c and analyze.c, and the parser.
- STAT3-only branches, the STAT_GET_NEQ, STAT_GET_NLT and STAT_GET_NDLT branches of statGet, which print arrays, and out-of-memory in sampleSetRowid.
- sqlite3BtreeCopyFile (VACUUM), where a backup has no destination connection; codecs; the bookkeeping of transactions on the source.
- How the source gets smaller: backup.c is not told about it, so `Backup.Source.Shrink` is an event of the surroundings that every backup must survive.
- Backup.Source.Finish: rolling back an unfinished transaction on the destination is the pager's work and not modelled.
- Destroying a Bitvec and sqlite3BitvecSize, which are plain traversals and accessors.
- BitvecObject.Bitvec.Set: the descent through sub-bitmaps is a recursive call instead of a loop, and the union of the three arrays is three fields of which one is in use.
- BtMutex.StepInv: the protocol is a transition system on values with a program counter for each connection, since its subject is interleaving; cursors, holds-mutex predicates and the single-threaded build are not modelled.
- Sponge.SHA3Context.Final: returns the digest; that the code stores it over the capacity part of the state, so that the context cannot be used again, is not modelled.
- Big-endian SHA-3 paths.
- Sha3Query.Sha3QueryFunc: statements and rows are given; preparing and stepping SQL, and its error messages, are not modelled.
- output_quoted_string and the other output modes of the shell.
- CSV separators of several characters, NULL fields on output, interrupts, the growth of the field buffer, creating the table of an import, and ascii_read_one_field.
- The size estimate that sqlite3AffinityType stores through its second argument.
- Sort orders of index columns (aSortOrder) in the WITHOUT ROWID conversion, and changes to already generated code.
- alter.c, attach.c, auth.c and the other tools of the repository.
