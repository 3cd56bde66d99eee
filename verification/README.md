# SQLite 3.11.1 algorithms, modelled and proved

The repository carries the SQLite 3.11.1 sources under
`atom_comm_3/src/main/java/com/me/LootSplit/database/bld/sqlite-src-3110100/src/`. This project
models seven of their components in Dafny and proves what their comments, asserts and callers rely
on. `dafny verify dfyconfig.toml` checks everything.

Code that changes things step by step is written as classes and methods with loops, proved against
specifications; the specifications are functions and predicates about which lemmas prove what the
source promises.

* **Bitvec** (`bitvec.c`; BitvecHash, Bitvecs, BitvecProgram). A set of integers kept as a bitmap, as
  an open-addressed hash, or as a tree of 62 sub-bitvecs. It refines a plain set across all three
  representations and their changes. The constants are those of a 64-bit build: 496 usable bytes,
  3968 bits, 124 hash slots, 62 sub-bitvecs. The union of the C structure is three buffers, of
  which one is live.
* **ANALYZE** (`analyze.c` with SQLITE_ENABLE_STAT4; Stat4Groups, Stat4Samples, Stat4Steps,
  Stat4Cover, Stat4, Stat4Rows, Stat1Text). One pass over a sorted index maintains exact counters
  and at most 24 samples. Stat4Samples and Stat4Steps hold the array invariants and the asserts;
  Stat4Cover says which rows are sampled; Stat4 has the accumulator as a class; Stat4Rows goes from
  real sorted rows to the stored statistics; Stat1Text prints and reads back the lists.
* **Online backup** (`backup.c`; BackupPages, BackupFinish, BackupSync, Backup, BackupErrors,
  BackupRun). An incremental page copy between databases of any two page sizes while the source is
  written. BackupErrors says which error codes the protocol survives; BackupRun puts any number of
  backups, begun and finished at any time, and source events into one run.
* **Btree mutexes** (`btmutex.c`; BtreeProtocol, BtreeLocks). BtreeProtocol is a state machine of
  any number of connections that acquire and release shared mutexes one atomic step at a time.
  BtreeLocks is the code of one connection, each of whose routines is proved to be a path of that
  state machine.
* **Schema building** (`build.c`; Affinity, DestroyTable, KeyColumns, WithoutRowid). The affinity of a
  declared type by rolling hash; the order in which root pages are destroyed under auto-vacuum; and
  the rewriting of the indices of a WITHOUT ROWID table.
* **sqlite3_complete** (`complete.c`; Ascii, Complete, CompleteGrammar, CompleteConcat,
  CompleteTexts). The scanner and its table, a grammar of complete texts that it recognises exactly,
  what joining two complete texts gives, and which texts are complete letter by letter.
* **Function registry** (`callback.c`; FuncTable, FuncRegistry). Hash buckets of overload chains,
  linked by pHash and pNext, with best-match lookup and creation.

Arithmetic, Sequences and Memory hold what several of them share.

Where an outcome depends on something outside the code it is a parameter: which allocation requests
succeed, what each call of a pager comes to, whether a mutex is found locked. Contracts say both
what holds whatever happens and what holds when nothing fails.

Places where the code and its own comments differ, or where a property holds only under a condition:

* The size limit of a bitvec. Nothing in `bitvec.c` limits iSize, but line 219 wraps for the 61
  largest 32-bit sizes; `Bitvecs.DivisorCovers` shows that the bins cover the range exactly when it
  does not. A bitvec of any size may be created and used; Set requires that the sum does not wrap
  only when the insertion has to subdivide.
* Members lost for want of memory. A Set that returns NOMEM has lost members only if it had copied
  out the values of a leaf to insert them again (`Bitvecs.Bitvec.Set`); `BitvecProgram.MembersCanBeLost`
  shows that it then can lose all of them.
* `sqlite3_complete`. The comment says that CREATE may follow EXPLAIN; the table also accepts other
  tokens between the two (as in EXPLAIN QUERY PLAN), and so does the grammar.
* Joining complete texts. Closure under concatenation fails when the first text ends inside a `--`
  comment; `CompleteConcat.JoinComplete` gives the exact answer and `CompleteConcat.CommentBreaksJoin`
  an example.
* The round trip of statistics. It holds if and only if every number fits in tRowcnt
  (`Stat1Text.RoundTrip`).
* An error of the backup that is not fatal. `iNext` advances even when a page copy fails, and an
  unfatal code lets the backup go on. `BackupErrors.ErrorsMustBeFatal` proves that all runs of steps
  keep their guarantees if and only if calls of the pagers fail neither with BUSY nor with LOCKED, the
  codes that `isFatalError` does not count; `BackupErrors.BusyLosesThePage` has the code itself lose a page to
  BUSY or LOCKED and report DONE.

## Model

| member | source | states |
|---|---|---|
| `BitvecHash.UsedUpdate` | atom_comm_3/src/main/java/com/me/LootSplit/database/bld/sqlite-src-3110100/src/bitvec.c:145-149 | Filling an empty slot makes the number of occupied slots, which nSet must equal, one larger |
| `BitvecHash.FreeSlot` | atom_comm_3/src/main/java/com/me/LootSplit/database/bld/sqlite-src-3110100/src/bitvec.c:188-207 | While fewer slots are occupied than there are, some slot is empty, which is why every probe loop ends |
| `BitvecHash.AbsentAfterMiss` | atom_comm_3/src/main/java/com/me/LootSplit/database/bld/sqlite-src-3110100/src/bitvec.c:145-149 | A probe that meets an empty slot without meeting the value proves that the value is nowhere in the table |
| `BitvecHash.InsertKeepsTable` | atom_comm_3/src/main/java/com/me/LootSplit/database/bld/sqlite-src-3110100/src/bitvec.c:188-207 | Putting a value into the empty slot its probe ended in keeps the whole table invariant (nSet exact and at most 123, entries distinct, each reachable from its home slot) and adds that one member |
| `BitvecHash.Probe` | atom_comm_3/src/main/java/com/me/LootSplit/database/bld/sqlite-src-3110100/src/bitvec.c:188-207 | The probe loop ends, finds the value exactly when it is in the table, and otherwise ends in the empty slot that its chain leads to |
| `BitvecHash.Rebuild` | atom_comm_3/src/main/java/com/me/LootSplit/database/bld/sqlite-src-3110100/src/bitvec.c:255-270 | Clear's rebuild re-inserts all members but the cleared one: the member set loses exactly it, the invariant holds again, and the count returned is right |
| `BitvecHash.InsertNew` | atom_comm_3/src/main/java/com/me/LootSplit/database/bld/sqlite-src-3110100/src/bitvec.c:262-268 | A value that is not in the table goes to the end of its probe, and the table gains exactly it |
| `BitvecHash.MembersStep` | atom_comm_3/src/main/java/com/me/LootSplit/database/bld/sqlite-src-3110100/src/bitvec.c:261-269 | The slots copied out up to j hold the members met so far, each counted once |
| `BitvecHash.NotYetIn` | atom_comm_3/src/main/java/com/me/LootSplit/database/bld/sqlite-src-3110100/src/bitvec.c:261-269 | A copied-out value has not been put back before its turn, so no re-insertion meets a duplicate |
| `Bitvecs.DivisorCovers` | atom_comm_3/src/main/java/com/me/LootSplit/database/bld/sqlite-src-3110100/src/bitvec.c:219 | The 62 bins cover 1..iSize if and only if the sum in line 219 does not wrap in 32 bits; then the divisor is non-zero and smaller than iSize |
| `Bitvecs.DepthWithin` | atom_comm_3/src/main/java/com/me/LootSplit/database/bld/sqlite-src-3110100/src/bitvec.c:134-141 | A size that n subdivisions can bring down to flat bitmaps needs no more than n of them |
| `Bitvecs.DepthBound` | atom_comm_3/src/main/java/com/me/LootSplit/database/bld/sqlite-src-3110100/src/bitvec.c:134-141 | Every admissible size needs at most 4 levels of subdivision |
| `Bitvecs.SetBit` | atom_comm_3/src/main/java/com/me/LootSplit/database/bld/sqlite-src-3110100/src/bitvec.c:184-187 | Or-ing the mask into its byte adds exactly i to the set that the bitmap stands for |
| `Bitvecs.ClearBit` | atom_comm_3/src/main/java/com/me/LootSplit/database/bld/sqlite-src-3110100/src/bitvec.c:252-254 | And-ing with the complement removes exactly i |
| `Bitvecs.BitOn` | atom_comm_3/src/main/java/com/me/LootSplit/database/bld/sqlite-src-3110100/src/bitvec.c:184-187 | The in-place update of the bitmap adds exactly i |
| `Bitvecs.BitOff` | atom_comm_3/src/main/java/com/me/LootSplit/database/bld/sqlite-src-3110100/src/bitvec.c:252-254 | The in-place update of the bitmap removes exactly i |
| `Bitvecs.BinRange` | atom_comm_3/src/main/java/com/me/LootSplit/database/bld/sqlite-src-3110100/src/bitvec.c:175-183 | Every bin computed is below 62 and every offset lies in 1..iDivisor |
| `Bitvecs.BinOffInjective` | atom_comm_3/src/main/java/com/me/LootSplit/database/bld/sqlite-src-3110100/src/bitvec.c:175-183 | Bin and offset together determine the value, so no two values collide in the tree |
| `Bitvecs.GatherUpdate` | atom_comm_3/src/main/java/com/me/LootSplit/database/bld/sqlite-src-3110100/src/bitvec.c:175-183 | Adding or removing one value in one sub-bitvec adds or removes exactly the matching value of the whole |
| `Bitvecs.Bitvec.constructor` | atom_comm_3/src/main/java/com/me/LootSplit/database/bld/sqlite-src-3110100/src/bitvec.c:115-123 | A new bitvec of any 32-bit size is well formed and empty |
| `Bitvecs.Bitvec.Test` | atom_comm_3/src/main/java/com/me/LootSplit/database/bld/sqlite-src-3110100/src/bitvec.c:130-155 | Test is true exactly for the members, in all three representations; a null bitvec and an out-of-range value test false |
| `Bitvecs.Bitvec.Descend` | atom_comm_3/src/main/java/com/me/LootSplit/database/bld/sqlite-src-3110100/src/bitvec.c:134-140 | One level down, the sub-bitvec and the remainder answer for exactly the same value; without a sub-bitvec the value is no member |
| `Bitvecs.Bitvec.TestLeaf` | atom_comm_3/src/main/java/com/me/LootSplit/database/bld/sqlite-src-3110100/src/bitvec.c:142-151 | Below the tree, the bitmap byte or the hash probe answers for exactly that value |
| `Bitvecs.Bitvec.Set` | atom_comm_3/src/main/java/com/me/LootSplit/database/bld/sqlite-src-3110100/src/bitvec.c:169-232 | Set ends although it re-inserts recursively; when it succeeds, as it does whenever memory suffices, exactly i has been added; out of memory it never invents a member, and it loses members only if the values of a hash leaf that had to be subdivided had been copied out already: every other failure changes nothing. A leaf so copied out ends empty if no later request succeeds |
| `Bitvecs.BitvecSet` | atom_comm_3/src/main/java/com/me/LootSplit/database/bld/sqlite-src-3110100/src/bitvec.c:169-171 | Setting a bit of a null bitvec succeeds and does nothing |
| `Bitvecs.BitvecClear` | atom_comm_3/src/main/java/com/me/LootSplit/database/bld/sqlite-src-3110100/src/bitvec.c:240-242 | Clearing a bit of a null bitvec does nothing |
| `Bitvecs.Bitvec.SetInBitmap` | atom_comm_3/src/main/java/com/me/LootSplit/database/bld/sqlite-src-3110100/src/bitvec.c:184-187 | A flat bitmap takes the value and nothing else changes |
| `Bitvecs.Bitvec.SetInHash` | atom_comm_3/src/main/java/com/me/LootSplit/database/bld/sqlite-src-3110100/src/bitvec.c:188-231 | The hash takes the value unless it is too full for it, in which case it is left untouched; it is too full exactly when MustSubdivide says so |
| `Bitvecs.Bitvec.SetInBin` | atom_comm_3/src/main/java/com/me/LootSplit/database/bld/sqlite-src-3110100/src/bitvec.c:175-183 | The sub-bitvec is created on demand and takes the value, with the guarantees of Set; members in other bins stay whatever happens, and without memory for the sub-bitvec nothing changes |
| `Bitvecs.Bitvec.CreateSub` | atom_comm_3/src/main/java/com/me/LootSplit/database/bld/sqlite-src-3110100/src/bitvec.c:178-181 | An absent sub-bitvec is created empty, which changes no membership |
| `Bitvecs.Bitvec.SetInSub` | atom_comm_3/src/main/java/com/me/LootSplit/database/bld/sqlite-src-3110100/src/bitvec.c:175-183 | Setting the offset in the sub-bitvec sets exactly i in the whole |
| `Bitvecs.Bitvec.Subdivide` | atom_comm_3/src/main/java/com/me/LootSplit/database/bld/sqlite-src-3110100/src/bitvec.c:210-226 | If the request for the copy fails, at lines 213-215, everything stays as it was; after it, turning the hash into a tree and re-inserting its values and the new one loses none of them unless memory runs out, and all of them if no later request succeeds |
| `Bitvecs.Bitvec.Reinsert` | atom_comm_3/src/main/java/com/me/LootSplit/database/bld/sqlite-src-3110100/src/bitvec.c:220-226 | After the re-insertion loop a value can be missing only if an insertion into its own bin returned NOMEM; rc is NOMEM exactly if some insertion did; nothing else has got in |
| `Bitvecs.Bitvec.InsertAgain` | atom_comm_3/src/main/java/com/me/LootSplit/database/bld/sqlite-src-3110100/src/bitvec.c:220-226 | One insertion of the loop keeps what other bins hold |
| `Bitvecs.RestoredAfter` | atom_comm_3/src/main/java/com/me/LootSplit/database/bld/sqlite-src-3110100/src/bitvec.c:220-226 | Whatever one insertion comes to, only its own bin can be missing values more |
| `BitvecProgram.CountIsSize` | atom_comm_3/src/main/java/com/me/LootSplit/database/bld/sqlite-src-3110100/src/bitvec.c:188-231 | nSet is the number of members of a hash leaf |
| `BitvecProgram.SetWithRoom` | atom_comm_3/src/main/java/com/me/LootSplit/database/bld/sqlite-src-3110100/src/bitvec.c:188-210 | A hash leaf with fewer than 62 members takes any value without a request for memory |
| `BitvecProgram.MembersCanBeLost` | atom_comm_3/src/main/java/com/me/LootSplit/database/bld/sqlite-src-3110100/src/bitvec.c:210-226 | The loss is real: a bitvec for 1..4000 that holds 1..62 is empty after setting 125 if the request for the copy succeeds and no later one does |
| `Bitvecs.Bitvec.Clear` | atom_comm_3/src/main/java/com/me/LootSplit/database/bld/sqlite-src-3110100/src/bitvec.c:240-272 | Clear removes exactly i in all three representations and allocates nothing |
| `Bitvecs.Bitvec.ClearInSub` | atom_comm_3/src/main/java/com/me/LootSplit/database/bld/sqlite-src-3110100/src/bitvec.c:244-251 | Clearing the offset in the sub-bitvec clears exactly i in the whole |
| `Bitvecs.Bitvec.LevelsWithinDepth` | atom_comm_3/src/main/java/com/me/LootSplit/database/bld/sqlite-src-3110100/src/bitvec.c:134-141 | No bitvec, whatever its history, is subdivided more than 4 levels deep |
| `BitvecProgram.RunProgram` | atom_comm_3/src/main/java/com/me/LootSplit/database/bld/sqlite-src-3110100/src/bitvec.c:355-387 | The loop over the opcodes ends, and after any program that memory suffices for, the bitvec and the linear array hold the plain-set meanings of the operations that the program unrolls to |
| `BitvecProgram.Instruction` | atom_comm_3/src/main/java/com/me/LootSplit/database/bld/sqlite-src-3110100/src/bitvec.c:357-387 | One turn of the loop carries out the first operation of what is left of the program |
| `BitvecProgram.Fetch` | atom_comm_3/src/main/java/com/me/LootSplit/database/bld/sqlite-src-3110100/src/bitvec.c:358-377 | Opcode and operand, in 1..sz, from the program or the random numbers; the count goes down, a regular operand goes on, and the program counter moves on when the count is used up |
| `BitvecProgram.ProgramStays` | atom_comm_3/src/main/java/com/me/LootSplit/database/bld/sqlite-src-3110100/src/bitvec.c:358-377 | Changing the operands of an instruction changes nothing about the instructions from it on |
| `BitvecProgram.OpcodeMeaning` | atom_comm_3/src/main/java/com/me/LootSplit/database/bld/sqlite-src-3110100/src/bitvec.c:318-333 | The opcodes as documented: 1 and 3 set, 2 and 4 clear on both, 5 sets in the array only |
| `BitvecProgram.RegularInstruction` | atom_comm_3/src/main/java/com/me/LootSplit/database/bld/sqlite-src-3110100/src/bitvec.c:318-323 | 1 N S X, 2 N S X and 5 N S X stand for N operations that begin with S and go up by X, then the rest of the program; an N below one counts as one |
| `BitvecProgram.RegularAt` | atom_comm_3/src/main/java/com/me/LootSplit/database/bld/sqlite-src-3110100/src/bitvec.c:318-323 | The k-th of them is on bit S+kX, brought into 1..sz |
| `BitvecProgram.RandomInstruction` | atom_comm_3/src/main/java/com/me/LootSplit/database/bld/sqlite-src-3110100/src/bitvec.c:321-322 | 3 N and 4 N stand for N operations on random bits, then the rest of the program |
| `BitvecProgram.Execute` | atom_comm_3/src/main/java/com/me/LootSplit/database/bld/sqlite-src-3110100/src/bitvec.c:378-386 | One operation has its plain-set effect on both |
| `BitvecProgram.Compare` | atom_comm_3/src/main/java/com/me/LootSplit/database/bld/sqlite-src-3110100/src/bitvec.c:397-402 | The comparison loop returns the first value on which the two meanings differ, and 0 if there is none |
| `BitvecProgram.OutOfRange` | atom_comm_3/src/main/java/com/me/LootSplit/database/bld/sqlite-src-3110100/src/bitvec.c:394-396 | A null bitvec, zero and the number after the last all test false, and the size is as requested |
| `BitvecProgram.BuiltinTest` | atom_comm_3/src/main/java/com/me/LootSplit/database/bld/sqlite-src-3110100/src/bitvec.c:337-410 | The built-in test returns -1 only when memory is short, else the first difference of the plain-set meanings of the program, 0 if they agree |
| `BitvecProgram.SameMeaning` | atom_comm_3/src/main/java/com/me/LootSplit/database/bld/sqlite-src-3110100/src/bitvec.c:325-333 | A program without opcode 5 means the same set for the array and the bitvec, so that its test can only return 0 or -1 |
| `Stat4Groups.SizeCoarser` | atom_comm_3/src/main/java/com/me/LootSplit/database/bld/sqlite-src-3110100/src/analyze.c:723-743 | A group of rows equal in more columns is never larger than the coarser group it lies in |
| `Stat4Groups.EndExtend` | atom_comm_3/src/main/java/com/me/LootSplit/database/bld/sqlite-src-3110100/src/analyze.c:732-741 | A new row extends exactly the groups it agrees with and closes the others |
| `Stat4Groups.SizeExtend` | atom_comm_3/src/main/java/com/me/LootSplit/database/bld/sqlite-src-3110100/src/analyze.c:732-741 | Only the sizes of groups that the new row belongs to change, each by one |
| `Stat4Samples.BetterWeak` | atom_comm_3/src/main/java/com/me/LootSplit/database/bld/sqlite-src-3110100/src/analyze.c:524-545 | The preference between non-periodic samples is a strict weak order: asymmetric, and any third sample falls on one side of a strict preference |
| `Stat4Samples.MostPreferredMoves` | atom_comm_3/src/main/java/com/me/LootSplit/database/bld/sqlite-src-3110100/src/analyze.c:567-577 | Keeping the better of the best so far and the next one keeps a most preferred sample |
| `Stat4Samples.BetterPostDependsOn` | atom_comm_3/src/main/java/com/me/LootSplit/database/bld/sqlite-src-3110100/src/analyze.c:500-517 | The post-preference depends only on the counts from the given column on and on the hash |
| `Stat4Samples.BetterPostMeans` | atom_comm_3/src/main/java/com/me/LootSplit/database/bld/sqlite-src-3110100/src/analyze.c:500-517 | The post-preference, said without recursion: in the left-most later column with different counts the preferred sample has the larger one, or there is none and its hash is larger |
| `Stat4Samples.BetterMeans` | atom_comm_3/src/main/java/com/me/LootSplit/database/bld/sqlite-src-3110100/src/analyze.c:524-545 | The preference, said as the comment has it: the larger group, else the earlier column, else the post-preference |
| `Stat4Samples.CandidateWins` | atom_comm_3/src/main/java/com/me/LootSplit/database/bld/sqlite-src-3110100/src/analyze.c:571-572 | The asserts of lines 571 and 572: a sample that awaits the candidate's column was kept for a later column, and the candidate is preferred to it |
| `Stat4Samples.RepresentativeWins` | atom_comm_3/src/main/java/com/me/LootSplit/database/bld/sqlite-src-3110100/src/analyze.c:558-583 | A sample kept for a current prefix is preferred to one that still awaits that prefix |
| `Stat4Samples.PeriodicSpacing` | atom_comm_3/src/main/java/com/me/LootSplit/database/bld/sqlite-src-3110100/src/analyze.c:756-764 | Periodic samples are at least nPSample rows apart, so there are at most as many as periods have passed |
| `Stat4Samples.SomeNonPeriodic` | atom_comm_3/src/main/java/com/me/LootSplit/database/bld/sqlite-src-3110100/src/analyze.c:449 | With the period that statInit computes, a full array always has a non-periodic sample: the assert of line 629 |
| `Stat4Steps.SkipKeeps` | atom_comm_3/src/main/java/com/me/LootSplit/database/bld/sqlite-src-3110100/src/analyze.c:645-654 | Not inserting a candidate that is not preferred to the worst sample keeps the invariant of the loop over columns |
| `Stat4Steps.AwaitingIsBeaten` | atom_comm_3/src/main/java/com/me/LootSplit/database/bld/sqlite-src-3110100/src/analyze.c:558-583 | A sample that awaits two columns is never the most preferred one awaiting the earlier of them |
| `Stat4Steps.UpgradeIsFilled` | atom_comm_3/src/main/java/com/me/LootSplit/database/bld/sqlite-src-3110100/src/analyze.c:567-583 | The sample chosen for the upgrade has all the later counts that its new column makes relevant |
| `Stat4Steps.UpgradeKeeps` | atom_comm_3/src/main/java/com/me/LootSplit/database/bld/sqlite-src-3110100/src/analyze.c:578-583 | Lowering the chosen sample's column and filling its count keeps order, exactness and the invariant of the loop |
| `Stat4Steps.RemoveKeeps` | atom_comm_3/src/main/java/com/me/LootSplit/database/bld/sqlite-src-3110100/src/analyze.c:587-600 | Removing a sample keeps the others ordered and exact |
| `Stat4Steps.AppendSamples` | atom_comm_3/src/main/java/com/me/LootSplit/database/bld/sqlite-src-3110100/src/analyze.c:603-616 | The samples with the candidate at their end are as they should be, and the candidate is a best row of its group |
| `Stat4Steps.AppendKeeps` | atom_comm_3/src/main/java/com/me/LootSplit/database/bld/sqlite-src-3110100/src/analyze.c:603-616 | The assert of line 606: a candidate whose prefix nobody shares lies after every sample, and appending it with its earlier counts zeroed keeps the invariant |
| `Stat4Steps.PeriodicAppend` | atom_comm_3/src/main/java/com/me/LootSplit/database/bld/sqlite-src-3110100/src/analyze.c:756-764 | The periodic sample of the newest row may be appended with all counts but the last zeroed |
| `Stat4Steps.FilledIsGood` | atom_comm_3/src/main/java/com/me/LootSplit/database/bld/sqlite-src-3110100/src/analyze.c:656-661 | After the second loop a zero count means exactly that this prefix is still the current one, for every sample and column |
| `Stat4Steps.FilledPreference` | atom_comm_3/src/main/java/com/me/LootSplit/database/bld/sqlite-src-3110100/src/analyze.c:656-661 | Filling in counts changes no preference between non-periodic samples |
| `Stat4Steps.FilledSamples` | atom_comm_3/src/main/java/com/me/LootSplit/database/bld/sqlite-src-3110100/src/analyze.c:656-661 | The whole array is as it should be for the next row |
| `Stat4Steps.FilledWorst` | atom_comm_3/src/main/java/com/me/LootSplit/database/bld/sqlite-src-3110100/src/analyze.c:656-661 | iMin stays a worst sample across the fill |
| `Stat4Steps.FilledFinally` | atom_comm_3/src/main/java/com/me/LootSplit/database/bld/sqlite-src-3110100/src/analyze.c:871-874 | After the last row all counts of all samples are exact |
| `Stat4Steps.AdvanceKeeps` | atom_comm_3/src/main/java/com/me/LootSplit/database/bld/sqlite-src-3110100/src/analyze.c:723-743 | The counter updates give the new row its exact counts of equal, smaller and distinct smaller prefixes |
| `Stat4Steps.BestKept` | atom_comm_3/src/main/java/com/me/LootSplit/database/bld/sqlite-src-3110100/src/analyze.c:766-772 | A best sample that the newest row does not replace stays right for its group |
| `Stat4Steps.OtherSizes` | atom_comm_3/src/main/java/com/me/LootSplit/database/bld/sqlite-src-3110100/src/analyze.c:766-772 | A new row leaves every other group of the next column as it was, or no larger than its own |
| `Stat4Steps.BestReplaced` | atom_comm_3/src/main/java/com/me/LootSplit/database/bld/sqlite-src-3110100/src/analyze.c:766-772 | A newest row that is preferred or starts a group is right for its group |
| `Stat4Steps.BestNext` | atom_comm_3/src/main/java/com/me/LootSplit/database/bld/sqlite-src-3110100/src/analyze.c:766-772 | Whichever of the two is kept, aBest[i] is a row of the current group of column i whose later counts are final, in a largest group of column i+1 |
| `Stat4Steps.BestAgainstNewest` | atom_comm_3/src/main/java/com/me/LootSplit/database/bld/sqlite-src-3110100/src/analyze.c:766-772 | The post-preference between the newest row and aBest[i] compares how many rows up to each agree with it in the columns after i |
| `Stat4Steps.BestRowKept` | atom_comm_3/src/main/java/com/me/LootSplit/database/bld/sqlite-src-3110100/src/analyze.c:766-772 | A best sample that is not replaced is still a best row of its group, the newest row included |
| `Stat4Steps.BestRowReplaced` | atom_comm_3/src/main/java/com/me/LootSplit/database/bld/sqlite-src-3110100/src/analyze.c:766-772 | A newest row that is preferred to the best one so far is a best row of its group |
| `Stat4Steps.BestRowExtend` | atom_comm_3/src/main/java/com/me/LootSplit/database/bld/sqlite-src-3110100/src/analyze.c:723-741 | The next row closes the group of a best row or leaves it alone, so it stays one |
| `Stat4Steps.ChosenExtend` | atom_comm_3/src/main/java/com/me/LootSplit/database/bld/sqlite-src-3110100/src/analyze.c:641-662 | From row to row every non-periodic sample stays a best row of the group that it was taken for |
| `Stat4Steps.ChosenMoves` | atom_comm_3/src/main/java/com/me/LootSplit/database/bld/sqlite-src-3110100/src/analyze.c:578-582 | Also when it takes over an earlier column |
| `Stat4Cover.StandsAtLeast` | atom_comm_3/src/main/java/com/me/LootSplit/database/bld/sqlite-src-3110100/src/analyze.c:551-632 | A non-periodic sample was kept for a group at least as large as any group that it stands for |
| `Stat4Cover.SkipCovers` | atom_comm_3/src/main/java/com/me/LootSplit/database/bld/sqlite-src-3110100/src/analyze.c:645-654 | A group for which nothing is inserted is outranked by every non-periodic sample of the full array |
| `Stat4Cover.UpgradeCovers` | atom_comm_3/src/main/java/com/me/LootSplit/database/bld/sqlite-src-3110100/src/analyze.c:578-583 | An upgraded sample stands for all that it stood for before and for the coarser group too |
| `Stat4Cover.ReplaceCovers` | atom_comm_3/src/main/java/com/me/LootSplit/database/bld/sqlite-src-3110100/src/analyze.c:586-616 | When the worst sample gives way to a preferred one, every group that only it stood for is outranked by all that remain |
| `Stat4Cover.FillCovers` | atom_comm_3/src/main/java/com/me/LootSplit/database/bld/sqlite-src-3110100/src/analyze.c:656-661 | Moving on to the next row keeps every closed group covered, and the groups that the row closes are covered too |
| `Stat4Cover.FinalCovers` | atom_comm_3/src/main/java/com/me/LootSplit/database/bld/sqlite-src-3110100/src/analyze.c:871-874 | After the last row every group of every column but the last is stood for or outranked |
| `Stat4Cover.PeriodsStay` | atom_comm_3/src/main/java/com/me/LootSplit/database/bld/sqlite-src-3110100/src/analyze.c:756-764 | No step that keeps the periodic samples loses a periodic row |
| `Stat4Cover.CandidatePlaced` | atom_comm_3/src/main/java/com/me/LootSplit/database/bld/sqlite-src-3110100/src/analyze.c:586-616 | All that inserting a candidate keeps, whether or not the worst sample had to go |
| `Stat4Cover.PeriodicPlaced` | atom_comm_3/src/main/java/com/me/LootSplit/database/bld/sqlite-src-3110100/src/analyze.c:586-616 | All that inserting a periodic sample keeps, and that its row is sampled from then on |
| `Stat4.Stat4Accum.constructor` | atom_comm_3/src/main/java/com/me/LootSplit/database/bld/sqlite-src-3110100/src/analyze.c:394-475 | statInit: 24 places, the period for the given row count, and an empty state that meets every invariant |
| `Stat4.Stat4Accum.SampleIsBetterPost` | atom_comm_3/src/main/java/com/me/LootSplit/database/bld/sqlite-src-3110100/src/analyze.c:500-517 | True exactly if in the left-most later column with different counts the new sample has the larger one, or there is no such column and its hash is larger |
| `Stat4.Stat4Accum.SampleIsBetter` | atom_comm_3/src/main/java/com/me/LootSplit/database/bld/sqlite-src-3110100/src/analyze.c:524-545 | The comparison computes the preference |
| `Stat4.Stat4Accum.FindUpgrade` | atom_comm_3/src/main/java/com/me/LootSplit/database/bld/sqlite-src-3110100/src/analyze.c:565-577 | The search finds a most preferred sample that awaits the column, or a periodic one, or that there is none |
| `Stat4.Stat4Accum.FindNewMin` | atom_comm_3/src/main/java/com/me/LootSplit/database/bld/sqlite-src-3110100/src/analyze.c:618-631 | Once the array is full iMin is a least preferred non-periodic sample; the assert of line 629 holds |
| `Stat4.Stat4Accum.SampleInsert` | atom_comm_3/src/main/java/com/me/LootSplit/database/bld/sqlite-src-3110100/src/analyze.c:551-632 | What becomes of the array, case by case: a periodic sample goes to the end; a candidate changes nothing if a periodic sample awaits its column, else a most preferred awaiting one takes its column over, else it goes to the end in place of the worst sample of a full array. It keeps a[] strictly increasing, at most 24 long, exact where non-zero, covering, and of best rows; a periodic row is sampled from then on |
| `Stat4.Stat4Accum.InsertCandidate` | atom_comm_3/src/main/java/com/me/LootSplit/database/bld/sqlite-src-3110100/src/analyze.c:551-632 | The same for a candidate |
| `Stat4.Stat4Accum.UpgradeOld` | atom_comm_3/src/main/java/com/me/LootSplit/database/bld/sqlite-src-3110100/src/analyze.c:558-583 | The upgrade branch, with what it leaves when it does not apply |
| `Stat4.Stat4Accum.Upgrade` | atom_comm_3/src/main/java/com/me/LootSplit/database/bld/sqlite-src-3110100/src/analyze.c:578-582 | The sample chosen takes over the candidate's column and count |
| `Stat4.Stat4Accum.Place` | atom_comm_3/src/main/java/com/me/LootSplit/database/bld/sqlite-src-3110100/src/analyze.c:586-616 | The array is the old one, without its worst sample if it was full, with the new one at the end |
| `Stat4.Stat4Accum.AppendCandidate` | atom_comm_3/src/main/java/com/me/LootSplit/database/bld/sqlite-src-3110100/src/analyze.c:586-631 | The insertion of a candidate whose prefix nobody shares |
| `Stat4.Stat4Accum.AppendPeriodic` | atom_comm_3/src/main/java/com/me/LootSplit/database/bld/sqlite-src-3110100/src/analyze.c:586-631 | The insertion of a periodic sample |
| `Stat4.Stat4Accum.PlacePeriodic` | atom_comm_3/src/main/java/com/me/LootSplit/database/bld/sqlite-src-3110100/src/analyze.c:586-616 | The periodic sample is put at the end |
| `Stat4.Stat4Accum.OfferBest` | atom_comm_3/src/main/java/com/me/LootSplit/database/bld/sqlite-src-3110100/src/analyze.c:645-654 | What is offered for column i is a best row of its current group with exact counts, and it is inserted exactly if there is room or it is preferred to the worst sample; afterwards the group is stood for or outranked, and the array invariants hold for the next column |
| `Stat4.Stat4Accum.InsertIfBetter` | atom_comm_3/src/main/java/com/me/LootSplit/database/bld/sqlite-src-3110100/src/analyze.c:650-652 | The test and the insertion |
| `Stat4.Stat4Accum.OfferBests` | atom_comm_3/src/main/java/com/me/LootSplit/database/bld/sqlite-src-3110100/src/analyze.c:645-654 | After the loop that holds for every column from iChng on |
| `Stat4.Stat4Accum.FillCounts` | atom_comm_3/src/main/java/com/me/LootSplit/database/bld/sqlite-src-3110100/src/analyze.c:656-661 | Exactly the zero counts from column iChng on are filled from the current row |
| `Stat4.Stat4Accum.SamplePushPrevious` | atom_comm_3/src/main/java/com/me/LootSplit/database/bld/sqlite-src-3110100/src/analyze.c:641-662 | Both loops together bring the samples up to date for a change of column iChng |
| `Stat4.Stat4Accum.AdvanceCounters` | atom_comm_3/src/main/java/com/me/LootSplit/database/bld/sqlite-src-3110100/src/analyze.c:732-741 | The two loops advance the counters column by column |
| `Stat4.Stat4Accum.StatPush` | atom_comm_3/src/main/java/com/me/LootSplit/database/bld/sqlite-src-3110100/src/analyze.c:707-775 | One more row keeps every invariant of the accumulator: exact counters, ordered exact samples, no group uncovered, no periodic row lost, right best samples and iMin |
| `Stat4.Stat4Accum.NextRow` | atom_comm_3/src/main/java/com/me/LootSplit/database/bld/sqlite-src-3110100/src/analyze.c:723-753 | The part of statPush up to the counters |
| `Stat4.Stat4Accum.Advance` | atom_comm_3/src/main/java/com/me/LootSplit/database/bld/sqlite-src-3110100/src/analyze.c:728-741 | The samples are brought up to date and the counters advanced |
| `Stat4.Stat4Accum.PeriodicSample` | atom_comm_3/src/main/java/com/me/LootSplit/database/bld/sqlite-src-3110100/src/analyze.c:755-764 | The newest row is sampled exactly when it is the last of its period |
| `Stat4.Stat4Accum.UpdateBests` | atom_comm_3/src/main/java/com/me/LootSplit/database/bld/sqlite-src-3110100/src/analyze.c:766-773 | Every aBest[i] is right for the newest row |
| `Stat4.Stat4Accum.UpdateBest` | atom_comm_3/src/main/java/com/me/LootSplit/database/bld/sqlite-src-3110100/src/analyze.c:768-771 | The newest row replaces aBest[i] when it starts a group of column i or is preferred, so that aBest[i] lies in a largest group of the next column |
| `Stat4.Stat4Accum.StatGetStat1` | atom_comm_3/src/main/java/com/me/LootSplit/database/bld/sqlite-src-3110100/src/analyze.c:825-868 | The text is the row count followed by one estimate for each key column |
| `Stat4.Stat4Accum.StatGetRowid` | atom_comm_3/src/main/java/com/me/LootSplit/database/bld/sqlite-src-3110100/src/analyze.c:870-883 | The first call finishes the counts; the samples are then exact, in order and covering, and are handed out one after the other |
| `Stat4Rows.PrefixChange` | atom_comm_3/src/main/java/com/me/LootSplit/database/bld/sqlite-src-3110100/src/analyze.c:1138-1150 | The left-most changed column is above j exactly when the first j+1 columns are equal; else they have grown |
| `Stat4Rows.GroupBefore` | atom_comm_3/src/main/java/com/me/LootSplit/database/bld/sqlite-src-3110100/src/analyze.c:723-743 | Over sorted rows, a group of the counters is exactly a run of rows with equal prefixes, and everything before it has a smaller prefix |
| `Stat4Rows.EqualRowsAreTheGroup` | atom_comm_3/src/main/java/com/me/LootSplit/database/bld/sqlite-src-3110100/src/analyze.c:723-743 | anEq counts exactly the rows with the same prefix |
| `Stat4Rows.SmallerRowsComeBefore` | atom_comm_3/src/main/java/com/me/LootSplit/database/bld/sqlite-src-3110100/src/analyze.c:723-743 | anLt counts exactly the rows with a smaller prefix |
| `Stat4Rows.SmallerPrefixCount` | atom_comm_3/src/main/java/com/me/LootSplit/database/bld/sqlite-src-3110100/src/analyze.c:723-743 | anDLt counts exactly the distinct smaller prefixes |
| `Stat4Rows.ExactEntry` | atom_comm_3/src/main/java/com/me/LootSplit/database/bld/sqlite-src-3110100/src/analyze.c:107-124 | A finished sample is a sqlite_stat4 entry with the documented meaning, exactly and in every column |
| `Stat4Rows.GroupAddsOne` | atom_comm_3/src/main/java/com/me/LootSplit/database/bld/sqlite-src-3110100/src/analyze.c:858-864 | A group adds exactly one prefix to those of the rows before it |
| `Stat4Rows.BreaksGiveDistinct` | atom_comm_3/src/main/java/com/me/LootSplit/database/bld/sqlite-src-3110100/src/analyze.c:858-864 | anDLt of the last row plus one is the number of distinct prefixes of the index |
| `Stat4Rows.Stat1Bounds` | atom_comm_3/src/main/java/com/me/LootSplit/database/bld/sqlite-src-3110100/src/analyze.c:44-57 | The estimates lie in 1..nRow, never increase along the columns, are the quotients rounded up, and end in 1 for a unique index |
| `Stat4Rows.FirstDiffMeans` | atom_comm_3/src/main/java/com/me/LootSplit/database/bld/sqlite-src-3110100/src/analyze.c:1043-1052 | The left-most changed column: all before it are equal, and it is not |
| `Stat4Rows.TestsFindFirstDiff` | atom_comm_3/src/main/java/com/me/LootSplit/database/bld/sqlite-src-3110100/src/analyze.c:1140-1150 | Testing n columns from the left finds the left-most changed column of all when it is at most n |
| `Stat4Rows.TestColumns` | atom_comm_3/src/main/java/com/me/LootSplit/database/bld/sqlite-src-3110100/src/analyze.c:1115-1164 | The tests jump at the first column that differs from regPrev; afterwards regPrev holds the tested columns of this row; with the skip of a single UNIQUE column nothing is touched |
| `Stat4Rows.Load` | atom_comm_3/src/main/java/com/me/LootSplit/database/bld/sqlite-src-3110100/src/analyze.c:1160-1164 | Entered at chng_addr_i, the loads renew regPrev from column i on |
| `Stat4Rows.NextChange` | atom_comm_3/src/main/java/com/me/LootSplit/database/bld/sqlite-src-3110100/src/analyze.c:1026-1166 | Though only nColTest columns are tested, and after a value in a single UNIQUE column none, regChng is the left-most changed column of the whole row |
| `Stat4Rows.PushNext` | atom_comm_3/src/main/java/com/me/LootSplit/database/bld/sqlite-src-3110100/src/analyze.c:1132-1198 | One turn of the scan: the row is pushed with its left-most changed column |
| `Stat4Rows.PushRow` | atom_comm_3/src/main/java/com/me/LootSplit/database/bld/sqlite-src-3110100/src/analyze.c:1169-1198 | The push of a row whose left-most changed column is known |
| `Stat4Rows.AllPushed` | atom_comm_3/src/main/java/com/me/LootSplit/database/bld/sqlite-src-3110100/src/analyze.c:723-743 | The counters of the last row pushed are exact in terms of the rows |
| `Stat4Rows.PushAll` | atom_comm_3/src/main/java/com/me/LootSplit/database/bld/sqlite-src-3110100/src/analyze.c:1102-1198 | The scan pushes every row with its left-most changed column, found by the column tests of the generated program, and its rowid; the counters of the last row are then exact in terms of the rows |
| `Stat4Rows.AnalyzeStat1` | atom_comm_3/src/main/java/com/me/LootSplit/database/bld/sqlite-src-3110100/src/analyze.c:1200-1206 | The stat column of sqlite_stat1 has its documented meaning for the rows scanned |
| `Stat4Rows.FinishedIsWellSampled` | atom_comm_3/src/main/java/com/me/LootSplit/database/bld/sqlite-src-3110100/src/analyze.c:551-662 | In terms of the rows: every nPSample-th row is sampled, and for every row and column some sample agrees with the row up to that column and was kept for that column or an earlier one, or for its position, or else 24 samples were all kept for at least as many rows |
| `Stat4Rows.BestRowIsBest` | atom_comm_3/src/main/java/com/me/LootSplit/database/bld/sqlite-src-3110100/src/analyze.c:766-772 | A best row in terms of the rows: it is the last of those that agree with it on columns 0..i+1, and no other such last row of its group of column i has, in the left-most of the columns from i+1 on in which they differ, more rows equal to it |
| `Stat4Rows.ChosenIsWellChosen` | atom_comm_3/src/main/java/com/me/LootSplit/database/bld/sqlite-src-3110100/src/analyze.c:641-662 | Every non-periodic sample is such a row for its column or a later one |
| `Stat4Rows.ReadOut` | atom_comm_3/src/main/java/com/me/LootSplit/database/bld/sqlite-src-3110100/src/analyze.c:1223-1247 | The read-out loop returns every sample, in order |
| `Stat4Rows.ReadSamples` | atom_comm_3/src/main/java/com/me/LootSplit/database/bld/sqlite-src-3110100/src/analyze.c:1210-1248 | What is read out are the finished samples, with all that they promise |
| `Stat4Rows.Analyze` | atom_comm_3/src/main/java/com/me/LootSplit/database/bld/sqlite-src-3110100/src/analyze.c:1102-1248 | ANALYZE of any sorted index stores the exact sqlite_stat1 text and at most 24 sqlite_stat4 entries that are exact, in index order, and the right ones: every nPSample-th row, every other a best row of the group that it was taken for, and every group stood for or outranked by 24 |
| `Stat1Text.NumbersJoin` | atom_comm_3/src/main/java/com/me/LootSplit/database/bld/sqlite-src-3110100/src/analyze.c:1438-1454 | Reading a printed list from any number on gives the numbers printed |
| `Stat1Text.RoundTrip` | atom_comm_3/src/main/java/com/me/LootSplit/database/bld/sqlite-src-3110100/src/analyze.c:1438-1454 | The decoded list equals the printed one if and only if every number fits in 32 bits |
| `Stat1Text.ReadNumber` | atom_comm_3/src/main/java/com/me/LootSplit/database/bld/sqlite-src-3110100/src/analyze.c:1439-1443 | The digit loop reads the number modulo the width of tRowcnt |
| `Stat1Text.DecodeIntArray` | atom_comm_3/src/main/java/com/me/LootSplit/database/bld/sqlite-src-3110100/src/analyze.c:1421-1454 | decodeIntArray reads number behind number, each with all the digits there are and at most one space behind them, until it has nOut or the text ends, and returns them modulo the width of tRowcnt |
| `Stat1Text.EstimateIsCeiling` | atom_comm_3/src/main/java/com/me/LootSplit/database/bld/sqlite-src-3110100/src/analyze.c:842-860 | An estimate is the quotient rounded up, lies in 1..nRow, and is 1 when all prefixes are distinct |
| `Stat1Text.EstimateDecreases` | atom_comm_3/src/main/java/com/me/LootSplit/database/bld/sqlite-src-3110100/src/analyze.c:842-860 | More distinct prefixes never give a larger estimate |
| `BackupPages.PendingBytes` | atom_comm_3/src/main/java/com/me/LootSplit/database/bld/sqlite-src-3110100/src/backup.c:294-295 | A byte lies on the pending page exactly when it lies in one page's length from 0x40000000 on, for every page size |
| `BackupPages.Aligned` | atom_comm_3/src/main/java/com/me/LootSplit/database/bld/sqlite-src-3110100/src/backup.c:292-301 | Of two page sizes one divides the other, so no copied chunk straddles a page |
| `BackupPages.PendingChunk` | atom_comm_3/src/main/java/com/me/LootSplit/database/bld/sqlite-src-3110100/src/backup.c:294-295 | The test of line 298 is right for all bytes of a chunk at once |
| `BackupPages.CopyChunk` | atom_comm_3/src/main/java/com/me/LootSplit/database/bld/sqlite-src-3110100/src/backup.c:292-317 | One turn of the loop changes exactly the bytes of its chunk, and copies them unless they belong to the destination's pending page |
| `BackupPages.CopyChunks` | atom_comm_3/src/main/java/com/me/LootSplit/database/bld/sqlite-src-3110100/src/backup.c:292-317 | The loop over the destination pages that one source page spans |
| `BackupPages.BackupOnePage` | atom_comm_3/src/main/java/com/me/LootSplit/database/bld/sqlite-src-3110100/src/backup.c:234-320 | For any two page sizes the bytes of the source page, but for the destination's pending page and a fresh page count, are at the same offsets in the destination, and nothing else has changed, also when it fails; it returns READONLY for an in-memory destination of another page size, and otherwise OK or what a call of the pager came to |
| `BackupPages.Dest.GetForWriting` | atom_comm_3/src/main/java/com/me/LootSplit/database/bld/sqlite-src-3110100/src/backup.c:296-298 | Getting a page for writing changes no byte of the destination, which at most grows to hold the page |
| `BackupFinish.TruncateIsEnough` | atom_comm_3/src/main/java/com/me/LootSplit/database/bld/sqlite-src-3110100/src/backup.c:477-510 | The asserts of lines 486 and 506-510: with larger destination pages the truncated destination reaches the source size or stops just before its pending page, with the source ending on that page |
| `BackupFinish.TruncateIsExact` | atom_comm_3/src/main/java/com/me/LootSplit/database/bld/sqlite-src-3110100/src/backup.c:477-486 | Otherwise the truncated destination has exactly the size of the source |
| `BackupFinish.WriteTail` | atom_comm_3/src/main/java/com/me/LootSplit/database/bld/sqlite-src-3110100/src/backup.c:533-548 | The last loop puts the rest of the destination's pending page in place and touches no other byte |
| `BackupFinish.WriteTailLoop` | atom_comm_3/src/main/java/com/me/LootSplit/database/bld/sqlite-src-3110100/src/backup.c:535-548 | The same for the loop itself, up to any end |
| `BackupFinish.EndedIsCopy` | atom_comm_3/src/main/java/com/me/LootSplit/database/bld/sqlite-src-3110100/src/backup.c:440-569 | If everything but the destination's own pending page had been copied before, every source byte outside the source's pending page and the rewritten header fields equals the destination byte at the same offset, and the destination is no longer than the source |
| `BackupFinish.FinishedIsEnded` | atom_comm_3/src/main/java/com/me/LootSplit/database/bld/sqlite-src-3110100/src/backup.c:440-452 | Writing the header beforehand changes header fields only, and the schema cookie is the one to be written |
| `BackupFinish.TruncatedIsFinished` | atom_comm_3/src/main/java/com/me/LootSplit/database/bld/sqlite-src-3110100/src/backup.c:322-337 | Truncating to the size of the source loses no byte of its range |
| `BackupFinish.FinishCopy` | atom_comm_3/src/main/java/com/me/LootSplit/database/bld/sqlite-src-3110100/src/backup.c:440-569 | Whatever the destination held, when the end of the backup reports DONE, as it does unless a call fails, it has kept its bytes in the range of the source but for its pending page and the rewritten header fields, has the source's bytes on that page, is no longer than the source, has the new schema cookie, and is committed; any other code was the outcome of a call, and then nothing is committed |
| `BackupFinish.Commit` | atom_comm_3/src/main/java/com/me/LootSplit/database/bld/sqlite-src-3110100/src/backup.c:563-567 | DONE means committed |
| `BackupFinish.FinishLarger` | atom_comm_3/src/main/java/com/me/LootSplit/database/bld/sqlite-src-3110100/src/backup.c:498-556 | The branch for larger destination pages |
| `BackupFinish.JournalFrom` | atom_comm_3/src/main/java/com/me/LootSplit/database/bld/sqlite-src-3110100/src/backup.c:477-531 | The asserts before it hold, and journalling changes no byte |
| `BackupFinish.WriteAndTruncate` | atom_comm_3/src/main/java/com/me/LootSplit/database/bld/sqlite-src-3110100/src/backup.c:533-556 | The tail is written and the file cut to size |
| `BackupFinish.FinishSmaller` | atom_comm_3/src/main/java/com/me/LootSplit/database/bld/sqlite-src-3110100/src/backup.c:557-560 | The branch for equal or smaller destination pages |
| `BackupFinish.JournalRest` | atom_comm_3/src/main/java/com/me/LootSplit/database/bld/sqlite-src-3110100/src/backup.c:512-531 | Journalling the pages beyond the truncation point changes no byte |
| `BackupSync.MovedOne` | atom_comm_3/src/main/java/com/me/LootSplit/database/bld/sqlite-src-3110100/src/backup.c:420-428 | A page that has been copied extends what is in sync by that page; one whose copy failed extends nothing, though iNext moves on, and disturbs no other page |
| `BackupSync.MovedPending` | atom_comm_3/src/main/java/com/me/LootSplit/database/bld/sqlite-src-3110100/src/backup.c:420 | Skipping the pending page keeps the rest in sync |
| `BackupSync.MovedOn` | atom_comm_3/src/main/java/com/me/LootSplit/database/bld/sqlite-src-3110100/src/backup.c:418-429 | Pages copied in turn are all copied |
| `BackupSync.MovedKeepsSync` | atom_comm_3/src/main/java/com/me/LootSplit/database/bld/sqlite-src-3110100/src/backup.c:418-429 | A run of the loop without error extends what is in sync to all pages below iNext |
| `BackupSync.AllInSync` | atom_comm_3/src/main/java/com/me/LootSplit/database/bld/sqlite-src-3110100/src/backup.c:440-486 | When iNext is past the last page everything but the destination's pending page is in place |
| `BackupSync.UpdateKeepsSync` | atom_comm_3/src/main/java/com/me/LootSplit/database/bld/sqlite-src-3110100/src/backup.c:693-711 | Copying a changed page again keeps everything copied before in sync with the new content |
| `BackupSync.AheadKeepsSync` | atom_comm_3/src/main/java/com/me/LootSplit/database/bld/sqlite-src-3110100/src/backup.c:695 | A change of a page not copied yet needs no update |
| `BackupSync.CookieIs` | atom_comm_3/src/main/java/com/me/LootSplit/database/bld/sqlite-src-3110100/src/backup.c:440-452 | The cookie is stored with its largest part first |
| `BackupSync.CookieChanges` | atom_comm_3/src/main/java/com/me/LootSplit/database/bld/sqlite-src-3110100/src/backup.c:440-452 | The schema version of the destination really does change, as the comment demands: it goes up by one on 32 bits |
| `Backup.BackupInit` | atom_comm_3/src/main/java/com/me/LootSplit/database/bld/sqlite-src-3110100/src/backup.c:147-218 | A backup is made exactly when the connections differ, memory suffices, both databases are found and no transaction is open on the destination; it has copied nothing and is in step with any source, and nBackup counts it |
| `Backup.Backup.constructor` | atom_comm_3/src/main/java/com/me/LootSplit/database/bld/sqlite-src-3110100/src/backup.c:189-196 | The fields of a new backup: it has copied nothing and is in step with any source |
| `Backup.Backup.CopyPages` | atom_comm_3/src/main/java/com/me/LootSplit/database/bld/sqlite-src-3110100/src/backup.c:418-429 | The copy loop goes through nPage more pages or to the end; all of them have been copied unless it reports the outcome of a failed call, and then all but the last; no other byte has changed |
| `Backup.Backup.CopyNext` | atom_comm_3/src/main/java/com/me/LootSplit/database/bld/sqlite-src-3110100/src/backup.c:419-428 | One page further whatever happens, copied unless an error is reported; a failure of the first call leaves the destination alone |
| `Backup.Backup.CopyOrSkip` | atom_comm_3/src/main/java/com/me/LootSplit/database/bld/sqlite-src-3110100/src/backup.c:420-427 | One page copied, or skipped if it is the pending one |
| `Backup.Backup.CopyPage` | atom_comm_3/src/main/java/com/me/LootSplit/database/bld/sqlite-src-3110100/src/backup.c:421-426 | One page read from the source and copied, or the outcome of a failed call |
| `Backup.Backup.Update` | atom_comm_3/src/main/java/com/me/LootSplit/database/bld/sqlite-src-3110100/src/backup.c:693-711 | The callback keeps what has been copied in sync with the new content, and changes rc only to the outcome of a failed call; the assert of line 256 holds |
| `Backup.Backup.TakeLocks` | atom_comm_3/src/main/java/com/me/LootSplit/database/bld/sqlite-src-3110100/src/backup.c:378-411 | BUSY while the source is written; else the error of locking the destination, if it was not locked before; else that of the source; else READONLY for a WAL destination with other pages; else OK. The schema cookie is read when the destination is locked first |
| `Backup.Backup.Step` | atom_comm_3/src/main/java/com/me/LootSplit/database/bld/sqlite-src-3110100/src/backup.c:355-594 | After DONE, READONLY, NOMEM or IOERR a step does nothing; after OK, BUSY or LOCKED it either reports how locking failed, which changes nothing but rc, or goes through the pages asked for and ends the backup if none is left, in the sense of BackupSync.Through, and its code is exactly what the number of pages asked for and left makes it, or the outcome of a failed call; if no call fails with BUSY or LOCKED, every source byte below iNext, but for both pending pages and the page count, is in the destination or the backup is over, and DONE means a full copy with a new schema version |
| `Backup.Backup.StepOn` | atom_comm_3/src/main/java/com/me/LootSplit/database/bld/sqlite-src-3110100/src/backup.c:372-586 | The same for a backup that is not over |
| `Backup.Backup.CopyAndFinish` | atom_comm_3/src/main/java/com/me/LootSplit/database/bld/sqlite-src-3110100/src/backup.c:416-569 | The same from the moment both databases are locked |
| `Backup.Backup.Stop` | atom_comm_3/src/main/java/com/me/LootSplit/database/bld/sqlite-src-3110100/src/backup.c:582-587 | An error while copying ends the backup, if it is fatal |
| `Backup.Backup.Conclude` | atom_comm_3/src/main/java/com/me/LootSplit/database/bld/sqlite-src-3110100/src/backup.c:430-569 | Nothing is left to copy and the backup ends, or it goes on the pager's list |
| `Backup.Backup.Continue` | atom_comm_3/src/main/java/com/me/LootSplit/database/bld/sqlite-src-3110100/src/backup.c:435-437 | With pages left the backup is on the list and goes on |
| `Backup.Backup.ClosedIsCopy` | atom_comm_3/src/main/java/com/me/LootSplit/database/bld/sqlite-src-3110100/src/backup.c:440-569 | A backup whose pages were all in sync when it ended is a full copy with a new schema version |
| `Backup.Backup.CopiedInSync` | atom_comm_3/src/main/java/com/me/LootSplit/database/bld/sqlite-src-3110100/src/backup.c:418-429 | Pages copied without error leave the backup in sync |
| `Backup.Backup.AllSound` | atom_comm_3/src/main/java/com/me/LootSplit/database/bld/sqlite-src-3110100/src/backup.c:687-711 | The list is sound when this backup and all others on it are |
| `Backup.Backup.FinishNow` | atom_comm_3/src/main/java/com/me/LootSplit/database/bld/sqlite-src-3110100/src/backup.c:440-569 | The end of the backup changes only what BackupFinish says, or reports the outcome of a failed call |
| `Backup.Backup.Attach` | atom_comm_3/src/main/java/com/me/LootSplit/database/bld/sqlite-src-3110100/src/backup.c:343-350 | The backup is at the head of the source pager's list, once |
| `Backup.Backup.Finish` | atom_comm_3/src/main/java/com/me/LootSplit/database/bld/sqlite-src-3110100/src/backup.c:599-645 | The backup leaves the list and is counted no more, all others stay on it, DONE is reported as success, and unless it had ended, the rollback gives the destination the content it had before the backup |
| `Backup.Backup.Detach` | atom_comm_3/src/main/java/com/me/LootSplit/database/bld/sqlite-src-3110100/src/backup.c:617-623 | The walk along the list finds the backup and takes it out |
| `Backup.Source.BackupUpdate` | atom_comm_3/src/main/java/com/me/LootSplit/database/bld/sqlite-src-3110100/src/backup.c:687-715 | Every backup on the list is brought in sync with the new content and none loses its place |
| `Backup.Source.UpdateNext` | atom_comm_3/src/main/java/com/me/LootSplit/database/bld/sqlite-src-3110100/src/backup.c:693-711 | One turn of its loop leaves the backups before and after it as they were |
| `Backup.Source.WritePage` | atom_comm_3/src/main/java/com/me/LootSplit/database/bld/sqlite-src-3110100/src/backup.c:687-715 | A page write with its callback keeps every attached backup in sync |
| `Backup.Source.AppendPage` | atom_comm_3/src/main/java/com/me/LootSplit/database/bld/sqlite-src-3110100/src/backup.c:687-715 | Growth of the source keeps every attached backup in sync |
| `Backup.Source.Truncate` | atom_comm_3/src/main/java/com/me/LootSplit/database/bld/sqlite-src-3110100/src/backup.c:413-418 | Shrinking the source keeps every attached backup in sync |
| `Backup.Source.ChangedOutside` | atom_comm_3/src/main/java/com/me/LootSplit/database/bld/sqlite-src-3110100/src/backup.c:727-733 | After a change from outside every backup on the list starts again at page 1, so whatever the new content is, all are in sync |
| `Backup.Source.RestartNext` | atom_comm_3/src/main/java/com/me/LootSplit/database/bld/sqlite-src-3110100/src/backup.c:729-732 | One turn of its loop |
| `BackupErrors.ErrorsMustBeFatal` | atom_comm_3/src/main/java/com/me/LootSplit/database/bld/sqlite-src-3110100/src/backup.c:220-429 | Every run of steps, over every source and destination, keeps what it has copied in sync as long as it goes on and has a full copy when it reports DONE, if and only if the calls of the pagers fail neither with BUSY nor with LOCKED |
| `BackupErrors.FatalErrorsAreSafe` | atom_comm_3/src/main/java/com/me/LootSplit/database/bld/sqlite-src-3110100/src/backup.c:418-429 | If they all are, every state of every run is sound |
| `BackupErrors.FatalErrorsKeep` | atom_comm_3/src/main/java/com/me/LootSplit/database/bld/sqlite-src-3110100/src/backup.c:418-429 | If they all are, one step keeps that |
| `BackupErrors.PageLost` | atom_comm_3/src/main/java/com/me/LootSplit/database/bld/sqlite-src-3110100/src/backup.c:418-429 | If one is not, a run over one page loses it |
| `BackupErrors.StepIsStep` | atom_comm_3/src/main/java/com/me/LootSplit/database/bld/sqlite-src-3110100/src/backup.c:355-594 | Each step of the code, on a source that does not change, is a step of those runs, with the codes that its calls can come to |
| `BackupErrors.FirstStep` | atom_comm_3/src/main/java/com/me/LootSplit/database/bld/sqlite-src-3110100/src/backup.c:418-429 | The code moves past the page that it failed to copy with BUSY or LOCKED |
| `BackupErrors.BusyLosesThePage` | atom_comm_3/src/main/java/com/me/LootSplit/database/bld/sqlite-src-3110100/src/backup.c:418-429 | The next step of the code then reports DONE, and the destination is not a copy |
| `BackupErrors.PutOff` | atom_comm_3/src/main/java/com/me/LootSplit/database/bld/sqlite-src-3110100/src/backup.c:220-227 | A backup that was put off with BUSY or LOCKED, stepped again with -1 pages and everything free, reports DONE and has made a copy |
| `BackupErrors.RefusedThenDone` | atom_comm_3/src/main/java/com/me/LootSplit/database/bld/sqlite-src-3110100/src/backup.c:370-386 | So does one that meets a writer of the source, or a locked database, and is stepped again |
| `BackupRun.SourceEventKeeps` | atom_comm_3/src/main/java/com/me/LootSplit/database/bld/sqlite-src-3110100/src/backup.c:687-733 | Backups that are not attached have copied nothing and need no callback |
| `BackupRun.SourceChange` | atom_comm_3/src/main/java/com/me/LootSplit/database/bld/sqlite-src-3110100/src/backup.c:687-733 | A change of the source, whichever it is, keeps the attached backups sound and ends none |
| `BackupRun.SourceEvent` | atom_comm_3/src/main/java/com/me/LootSplit/database/bld/sqlite-src-3110100/src/backup.c:687-733 | Any source event keeps all backups sound |
| `BackupRun.OnTheList` | atom_comm_3/src/main/java/com/me/LootSplit/database/bld/sqlite-src-3110100/src/backup.c:343-350 | Only backups in progress are on the list, each with a destination of its own |
| `BackupRun.BeginEvent` | atom_comm_3/src/main/java/com/me/LootSplit/database/bld/sqlite-src-3110100/src/backup.c:147-218 | Beginning a backup, or failing to, keeps all others sound |
| `BackupRun.FinishEvent` | atom_comm_3/src/main/java/com/me/LootSplit/database/bld/sqlite-src-3110100/src/backup.c:599-645 | Finishing a backup keeps all others sound; unless it had ended its destination is as before it began, and otherwise as it was at its end |
| `BackupRun.StepKeeps` | atom_comm_3/src/main/java/com/me/LootSplit/database/bld/sqlite-src-3110100/src/backup.c:355-594 | What a step leaves to be shown for the other backups |
| `BackupRun.OneEvent` | atom_comm_3/src/main/java/com/me/LootSplit/database/bld/sqlite-src-3110100/src/backup.c:147-733 | Any event keeps the invariant of the run |
| `BackupRun.StepEvent` | atom_comm_3/src/main/java/com/me/LootSplit/database/bld/sqlite-src-3110100/src/backup.c:355-594 | A step of any one backup keeps all the others sound |
| `BackupRun.Run` | atom_comm_3/src/main/java/com/me/LootSplit/database/bld/sqlite-src-3110100/src/backup.c:147-733 | Over any run in which any number of backups are begun, stepped and finished while the source is written, grown, shrunk and changed from outside, the first step that reports DONE for a backup leaves a full copy of the source as it is then, if no call for its destination fails with BUSY or LOCKED |
| `BtreeProtocol.LocalStepKeeps` | atom_comm_3/src/main/java/com/me/LootSplit/database/bld/sqlite-src-3110100/src/btmutex.c:71-152 | Outside btreeLockCarefully a sharable Btree is locked exactly when wantToLock is positive; inside, p and the later Btrees released so far are not |
| `BtreeProtocol.OpsAreMatched` | atom_comm_3/src/main/java/com/me/LootSplit/database/bld/sqlite-src-3110100/src/btmutex.c:27-50 | The asserts of lockBtreeMutex and unlockBtreeMutex: only what is not held is acquired, only what is held is released |
| `BtreeProtocol.LocalPathSnoc` | atom_comm_3/src/main/java/com/me/LootSplit/database/bld/sqlite-src-3110100/src/btmutex.c:105-137 | A path of one connection may be extended by a step |
| `BtreeProtocol.LocalPathCons` | atom_comm_3/src/main/java/com/me/LootSplit/database/bld/sqlite-src-3110100/src/btmutex.c:105-137 | A step may come before a path |
| `BtreeProtocol.LocalPathJoin` | atom_comm_3/src/main/java/com/me/LootSplit/database/bld/sqlite-src-3110100/src/btmutex.c:105-137 | Paths of one connection compose |
| `BtreeProtocol.StepKeepsInv` | atom_comm_3/src/main/java/com/me/LootSplit/database/bld/sqlite-src-3110100/src/btmutex.c:71-152 | Every step of any connection keeps the global invariant that ties mutex holders, locked flags and db fields together |
| `BtreeProtocol.RunsKeepInv` | atom_comm_3/src/main/java/com/me/LootSplit/database/bld/sqlite-src-3110100/src/btmutex.c:71-152 | So does every run |
| `BtreeProtocol.Reachable` | atom_comm_3/src/main/java/com/me/LootSplit/database/bld/sqlite-src-3110100/src/btmutex.c:71-152 | Every state reachable from the start meets the invariant |
| `BtreeProtocol.RunsProject` | atom_comm_3/src/main/java/com/me/LootSplit/database/bld/sqlite-src-3110100/src/btmutex.c:71-203 | What any run does to one connection is a path of that connection alone, in the sense in which the routines of the code, EnterAll and LeaveAll included, are paths; so NoDeadlock and Progress speak of them all, however they are interleaved |
| `BtreeProtocol.MutualExclusion` | atom_comm_3/src/main/java/com/me/LootSplit/database/bld/sqlite-src-3110100/src/btmutex.c:27-50 | Each BtShared is locked through at most one Btree, and its db field names the holder's connection |
| `BtreeProtocol.BlockedHoldsSmaller` | atom_comm_3/src/main/java/com/me/LootSplit/database/bld/sqlite-src-3110100/src/btmutex.c:110-137 | A connection blocked on a BtShared mutex holds only mutexes with smaller addresses |
| `BtreeProtocol.NoDeadlock` | atom_comm_3/src/main/java/com/me/LootSplit/database/bld/sqlite-src-3110100/src/btmutex.c:110-137 | In any set of blocked connections one waits for a mutex held outside the set, so the waits-for relation has no cycle |
| `BtreeProtocol.LargestWait` | atom_comm_3/src/main/java/com/me/LootSplit/database/bld/sqlite-src-3110100/src/btmutex.c:110-137 | Of any set of blocked connections one waits for the largest address |
| `BtreeProtocol.Progress` | atom_comm_3/src/main/java/com/me/LootSplit/database/bld/sqlite-src-3110100/src/btmutex.c:105-137 | As long as any connection is inside sqlite3BtreeEnter some connection can go on, or waits for one that is between calls |
| `BtreeProtocol.WantUnchanged` | atom_comm_3/src/main/java/com/me/LootSplit/database/bld/sqlite-src-3110100/src/btmutex.c:105-137 | Inside a call no claim changes |
| `BtreeProtocol.EnterEffect` | atom_comm_3/src/main/java/com/me/LootSplit/database/bld/sqlite-src-3110100/src/btmutex.c:71-137 | Whatever the other connections do meanwhile, sqlite3BtreeEnter ends holding exactly the old locks plus p, even after releasing and re-taking later ones |
| `BtreeLocks.Connection.constructor` | atom_comm_3/src/main/java/com/me/LootSplit/database/bld/sqlite-src-3110100/src/btmutex.c:71-98 | A connection between calls, with nothing claimed or locked |
| `BtreeLocks.Connection.WaitFor` | atom_comm_3/src/main/java/com/me/LootSplit/database/bld/sqlite-src-3110100/src/btmutex.c:32 | Other connections act until the mutex is free; what is held here stays held |
| `BtreeLocks.Connection.LockBtreeMutex` | atom_comm_3/src/main/java/com/me/LootSplit/database/bld/sqlite-src-3110100/src/btmutex.c:27-35 | A free mutex is taken; it, the locked flag and the db field go together |
| `BtreeLocks.Connection.UnlockBtreeMutex` | atom_comm_3/src/main/java/com/me/LootSplit/database/bld/sqlite-src-3110100/src/btmutex.c:41-50 | The mutex and the locked flag go together |
| `BtreeLocks.Connection.ReleaseLater` | atom_comm_3/src/main/java/com/me/LootSplit/database/bld/sqlite-src-3110100/src/btmutex.c:118-130 | The loop follows the protocol's release steps and keeps every claim |
| `BtreeLocks.Connection.RelockLater` | atom_comm_3/src/main/java/com/me/LootSplit/database/bld/sqlite-src-3110100/src/btmutex.c:132-136 | The loop re-takes exactly the later Btrees that are wanted |
| `BtreeLocks.Connection.BtreeLockCarefully` | atom_comm_3/src/main/java/com/me/LootSplit/database/bld/sqlite-src-3110100/src/btmutex.c:105-137 | Both ways through the routine, without waiting only if the mutex is free, are paths of the protocol that end between calls with all claims kept |
| `BtreeLocks.Connection.BtreeEnter` | atom_comm_3/src/main/java/com/me/LootSplit/database/bld/sqlite-src-3110100/src/btmutex.c:71-98 | One more claim on p; the locks are the old ones and p; the code's steps are steps of the protocol |
| `BtreeLocks.Connection.BtreeLeave` | atom_comm_3/src/main/java/com/me/LootSplit/database/bld/sqlite-src-3110100/src/btmutex.c:143-152 | One claim less on p; the lock goes exactly with the last claim |
| `BtreeLocks.Connection.BtreeEnterAll` | atom_comm_3/src/main/java/com/me/LootSplit/database/bld/sqlite-src-3110100/src/btmutex.c:186-194 | Every Btree named by a slot is locked; each is wanted as many times more as there are slots that name it, and is locked exactly if it is wanted; in aDb order whatever the addresses, and the whole call is a path of the protocol |
| `BtreeLocks.Connection.EnterSlots` | atom_comm_3/src/main/java/com/me/LootSplit/database/bld/sqlite-src-3110100/src/btmutex.c:190-193 | The loop over the slots |
| `BtreeLocks.Connection.BtreeLeaveAll` | atom_comm_3/src/main/java/com/me/LootSplit/database/bld/sqlite-src-3110100/src/btmutex.c:195-203 | Every sharable Btree is wanted as many times less as there are slots that name it, and stays locked exactly if it is still wanted; the whole call is a path of the protocol |
| `BtreeLocks.Connection.LeaveSlots` | atom_comm_3/src/main/java/com/me/LootSplit/database/bld/sqlite-src-3110100/src/btmutex.c:199-202 | The loop over the slots |
| `BtreeLocks.SameClaims` | atom_comm_3/src/main/java/com/me/LootSplit/database/bld/sqlite-src-3110100/src/btmutex.c:71-152 | Between calls the claims determine the locks |
| `BtreeLocks.Connection.EnterAndLeaveAll` | atom_comm_3/src/main/java/com/me/LootSplit/database/bld/sqlite-src-3110100/src/btmutex.c:186-203 | EnterAll then LeaveAll restores every count and lock |
| `BtreeLocks.IdleLocks` | atom_comm_3/src/main/java/com/me/LootSplit/database/bld/sqlite-src-3110100/src/btmutex.c:71-137 | Between calls the locks follow from the claims, so a claim more is exactly a lock more |
| `Complete.TransIsTheTable` | atom_comm_3/src/main/java/com/me/LootSplit/database/bld/sqlite-src-3110100/src/complete.c:112-123 | The transition function used in the statements is the 8 by 8 table of the source |
| `Complete.Find` | atom_comm_3/src/main/java/com/me/LootSplit/database/bld/sqlite-src-3110100/src/complete.c:170-196 | The first occurrence of a character from a position on, or the end |
| `Complete.FindClose` | atom_comm_3/src/main/java/com/me/LootSplit/database/bld/sqlite-src-3110100/src/complete.c:163-165 | The first place where the block comment is closed, or the end |
| `Complete.IdEnd` | atom_comm_3/src/main/java/com/me/LootSplit/database/bld/sqlite-src-3110100/src/complete.c:204 | The end of the run of identifier characters |
| `Complete.Next` | atom_comm_3/src/main/java/com/me/LootSplit/database/bld/sqlite-src-3110100/src/complete.c:145-258 | Every token ends strictly after its start and within the text |
| `Complete.KeywordMeans` | atom_comm_3/src/main/java/com/me/LootSplit/database/bld/sqlite-src-3110100/src/complete.c:201-249 | Which words are tokens of their own, in either case: create, trigger, temp and temporary, end, explain, and no others |
| `Complete.NextWord` | atom_comm_3/src/main/java/com/me/LootSplit/database/bld/sqlite-src-3110100/src/complete.c:201-249 | Where a word begins the next token ends with its whole run of identifier characters and is that of the word |
| `Complete.ReadWord` | atom_comm_3/src/main/java/com/me/LootSplit/database/bld/sqlite-src-3110100/src/complete.c:201-249 | The whole run of identifier characters is read, and the token is the one that its letters spell, ignoring case |
| `Complete.ReadKeyword` | atom_comm_3/src/main/java/com/me/LootSplit/database/bld/sqlite-src-3110100/src/complete.c:205-247 | The switch on the first letter and the length gives the keyword |
| `Complete.SkipTo` | atom_comm_3/src/main/java/com/me/LootSplit/database/bld/sqlite-src-3110100/src/complete.c:175-192 | The scanning loop stops at the first occurrence |
| `Complete.SkipComment` | atom_comm_3/src/main/java/com/me/LootSplit/database/bld/sqlite-src-3110100/src/complete.c:163-164 | The scanning loop stops where the comment closes |
| `Complete.ReadToken` | atom_comm_3/src/main/java/com/me/LootSplit/database/bld/sqlite-src-3110100/src/complete.c:145-256 | The switch on the current character reads the next token |
| `Complete.IsComplete` | atom_comm_3/src/main/java/com/me/LootSplit/database/bld/sqlite-src-3110100/src/complete.c:104-261 | The scanner ends, never passes the terminator, and returns whether its run over the tokens ends in START |
| `CompleteGrammar.ScanIsRun` | atom_comm_3/src/main/java/com/me/LootSplit/database/bld/sqlite-src-3110100/src/complete.c:97-98 | White space and comments never change the answer: it depends on the other tokens and on whether something is left open |
| `CompleteGrammar.BodyState` | atom_comm_3/src/main/java/com/me/LootSplit/database/bld/sqlite-src-3110100/src/complete.c:76-83 | Since entry to the body of a trigger the scanner is in state 6 exactly when the tokens end in SEMI and in state 7 exactly when they end in SEMI END |
| `CompleteGrammar.PlainEndIsFirst` | atom_comm_3/src/main/java/com/me/LootSplit/database/bld/sqlite-src-3110100/src/complete.c:117 | The end of an ordinary statement is its first semicolon |
| `CompleteGrammar.BodyEndIsFirst` | atom_comm_3/src/main/java/com/me/LootSplit/database/bld/sqlite-src-3110100/src/complete.c:120-122 | The end of the body of a trigger is its first SEMI END SEMI |
| `CompleteGrammar.BodyRun` | atom_comm_3/src/main/java/com/me/LootSplit/database/bld/sqlite-src-3110100/src/complete.c:120-122 | It first gets back to START exactly after the first SEMI END SEMI |
| `CompleteGrammar.NormalRun` | atom_comm_3/src/main/java/com/me/LootSplit/database/bld/sqlite-src-3110100/src/complete.c:117 | An ordinary statement ends at its first semicolon |
| `CompleteGrammar.CreateRun` | atom_comm_3/src/main/java/com/me/LootSplit/database/bld/sqlite-src-3110100/src/complete.c:119 | CREATE TEMP* TRIGGER starts the body of a trigger, anything else an ordinary statement |
| `CompleteGrammar.ExplainRun` | atom_comm_3/src/main/java/com/me/LootSplit/database/bld/sqlite-src-3110100/src/complete.c:118 | EXPLAIN OTHER* may come before CREATE |
| `CompleteGrammar.StatementRun` | atom_comm_3/src/main/java/com/me/LootSplit/database/bld/sqlite-src-3110100/src/complete.c:112-123 | From START the table recognises exactly one statement of the grammar |
| `CompleteGrammar.RunIsStatements` | atom_comm_3/src/main/java/com/me/LootSplit/database/bld/sqlite-src-3110100/src/complete.c:112-123 | A run ends in START if and only if the tokens are whole statements |
| `CompleteGrammar.CompleteIsStatements` | atom_comm_3/src/main/java/com/me/LootSplit/database/bld/sqlite-src-3110100/src/complete.c:60-98 | A text is complete if and only if nothing is left open, there is something besides white space, and the tokens are whole statements |
| `CompleteConcat.NextShifts` | atom_comm_3/src/main/java/com/me/LootSplit/database/bld/sqlite-src-3110100/src/complete.c:145-258 | What comes before a token does not matter to it |
| `CompleteConcat.ScanShifts` | atom_comm_3/src/main/java/com/me/LootSplit/database/bld/sqlite-src-3110100/src/complete.c:144-261 | Nor to the rest of the scan |
| `CompleteConcat.NextStays` | atom_comm_3/src/main/java/com/me/LootSplit/database/bld/sqlite-src-3110100/src/complete.c:145-258 | What comes after a token that ends inside the text, or is a semicolon or white space, does not matter to it |
| `CompleteConcat.LineCommentStarts` | atom_comm_3/src/main/java/com/me/LootSplit/database/bld/sqlite-src-3110100/src/complete.c:170-176 | A text ends inside a -- comment only after two dashes with no line end behind them |
| `CompleteConcat.JoinInComment` | atom_comm_3/src/main/java/com/me/LootSplit/database/bld/sqlite-src-3110100/src/complete.c:170-176 | After a text that ends inside a -- comment the first line of the next one is lost |
| `CompleteConcat.StartSimulatesInvalid` | atom_comm_3/src/main/java/com/me/LootSplit/database/bld/sqlite-src-3110100/src/complete.c:115-116 | INVALID and START differ only in whether white space alone is complete |
| `CompleteConcat.JoinComplete` | atom_comm_3/src/main/java/com/me/LootSplit/database/bld/sqlite-src-3110100/src/complete.c:104-261 | For a complete s, s+t is complete if and only if t, or t without its first line if s ends inside a -- comment, is complete from START; so s+t is complete whenever t is and s does not end so |
| `CompleteConcat.CommentBreaksJoin` | atom_comm_3/src/main/java/com/me/LootSplit/database/bld/sqlite-src-3110100/src/complete.c:170-176 | The condition on the comment is needed: two complete texts whose join is not complete |
| `CompleteTexts.SpaceIsWhite` | atom_comm_3/src/main/java/com/me/LootSplit/database/bld/sqlite-src-3110100/src/complete.c:150-157 | Blanks, tabs, line ends and form feeds are white space |
| `CompleteTexts.QuotedIsOther` | atom_comm_3/src/main/java/com/me/LootSplit/database/bld/sqlite-src-3110100/src/complete.c:180-196 | Nothing between quotes or brackets matters to the scan |
| `CompleteTexts.BlockCommentIsWhite` | atom_comm_3/src/main/java/com/me/LootSplit/database/bld/sqlite-src-3110100/src/complete.c:158-169 | Nor does anything in a block comment |
| `CompleteTexts.LineCommentIsWhite` | atom_comm_3/src/main/java/com/me/LootSplit/database/bld/sqlite-src-3110100/src/complete.c:170-179 | Nor in a comment to the end of the line |
| `CompleteTexts.PlainStays` | atom_comm_3/src/main/java/com/me/LootSplit/database/bld/sqlite-src-3110100/src/complete.c:112-123 | Plain text changes neither an ordinary statement nor the body of a trigger |
| `CompleteTexts.TriggerHead` | atom_comm_3/src/main/java/com/me/LootSplit/database/bld/sqlite-src-3110100/src/complete.c:119-120 | CREATE TRIGGER, in either case, and any plain text are in the body of a trigger after the first semicolon |
| `CompleteTexts.TriggerIsComplete` | atom_comm_3/src/main/java/com/me/LootSplit/database/bld/sqlite-src-3110100/src/complete.c:60-98 | The definition of a trigger with any plain body is complete with ;END; behind it, in either case, and not before |
| `CompleteTexts.ExplainedIsComplete` | atom_comm_3/src/main/java/com/me/LootSplit/database/bld/sqlite-src-3110100/src/complete.c:60-98 | So is that of a TEMP or TEMPORARY trigger, with EXPLAIN before it |
| `CompleteTexts.LongerThanEnd` | atom_comm_3/src/main/java/com/me/LootSplit/database/bld/sqlite-src-3110100/src/complete.c:60-98 | A longer word that begins with END does not end it |
| `CompleteTexts.OrdinaryIsComplete` | atom_comm_3/src/main/java/com/me/LootSplit/database/bld/sqlite-src-3110100/src/complete.c:60-98 | Any other first word makes a statement that is complete at the first semicolon |
| `Affinity.HashIsWindow` | atom_comm_3/src/main/java/com/me/LootSplit/database/bld/sqlite-src-3110100/src/build.c:1136 | The 32-bit rolling hash is exactly the last four letters, in lower case, whatever came before |
| `Affinity.WindowIsWord` | atom_comm_3/src/main/java/com/me/LootSplit/database/bld/sqlite-src-3110100/src/build.c:1138-1157 | Comparing the hash with a constant compares the last four letters with the word |
| `Affinity.WindowIsShortWord` | atom_comm_3/src/main/java/com/me/LootSplit/database/bld/sqlite-src-3110100/src/build.c:1160 | So does the masked comparison for INT |
| `Affinity.BestStep` | atom_comm_3/src/main/java/com/me/LootSplit/database/bld/sqlite-src-3110100/src/build.c:1138-1158 | The conditions on aff in the branches are just the priorities of the table |
| `Affinity.LetterKeeps` | atom_comm_3/src/main/java/com/me/LootSplit/database/bld/sqlite-src-3110100/src/build.c:1135-1164 | One turn of the loop keeps the affinity of the letters so far, and the first INT decides for the whole name |
| `Affinity.Classify` | atom_comm_3/src/main/java/com/me/LootSplit/database/bld/sqlite-src-3110100/src/build.c:1138-1163 | The chain of branches computes that step |
| `Affinity.FindAffinity` | atom_comm_3/src/main/java/com/me/LootSplit/database/bld/sqlite-src-3110100/src/build.c:1108-1164 | The one-pass loop computes what the table gives |
| `Affinity.TableMeans` | atom_comm_3/src/main/java/com/me/LootSplit/database/bld/sqlite-src-3110100/src/build.c:1108-1123 | The table, row by row |
| `Affinity.AffinityType` | atom_comm_3/src/main/java/com/me/LootSplit/database/bld/sqlite-src-3110100/src/build.c:1108-1164 | For every type name: INTEGER if INT occurs anywhere, ignoring case; else TEXT for CHAR, CLOB or TEXT; else BLOB for BLOB; else REAL for REAL, FLOA or DOUB; else NUMERIC |
| `DestroyTable.DestroyKeeps` | atom_comm_3/src/main/java/com/me/LootSplit/database/bld/sqlite-src-3110100/src/build.c:2305-2326 | One OP_Destroy removes exactly one b-tree and keeps every other, moving at most one |
| `DestroyTable.RenumberKeeps` | atom_comm_3/src/main/java/com/me/LootSplit/database/bld/sqlite-src-3110100/src/build.c:2258-2296 | Renumbering every entry with the moved root keeps the schema right for all b-trees in the file, even when stale entries share a root |
| `DestroyTable.DecreasingIsSafe` | atom_comm_3/src/main/java/com/me/LootSplit/database/bld/sqlite-src-3110100/src/build.c:2346-2362 | In strictly decreasing order every OP_Destroy finds the root that it was coded for: no pending root is ever moved |
| `DestroyTable.OthersSurvive` | atom_comm_3/src/main/java/com/me/LootSplit/database/bld/sqlite-src-3110100/src/build.c:2305-2326 | After a safe list exactly the b-trees named are gone, and every other one is where the renumbered schema has it |
| `DestroyTable.SafeHasAll` | atom_comm_3/src/main/java/com/me/LootSplit/database/bld/sqlite-src-3110100/src/build.c:2346-2362 | A list is safe only if all its roots are in the file at the start |
| `DestroyTable.SafeIsDecreasing` | atom_comm_3/src/main/java/com/me/LootSplit/database/bld/sqlite-src-3110100/src/build.c:2346-2362 | In a file that holds only the pending roots no other order is safe |
| `DestroyTable.SafeExactlyWhenDecreasing` | atom_comm_3/src/main/java/com/me/LootSplit/database/bld/sqlite-src-3110100/src/build.c:2346-2362 | An order of destruction is safe in every file if and only if it is strictly decreasing |
| `DestroyTable.DestroyTable` | atom_comm_3/src/main/java/com/me/LootSplit/database/bld/sqlite-src-3110100/src/build.c:2334-2386 | The nested loops end and emit each distinct root of the table and its indices exactly once, in strictly decreasing order |
| `DestroyTable.DropTable` | atom_comm_3/src/main/java/com/me/LootSplit/database/bld/sqlite-src-3110100/src/build.c:2334-2386 | Executed on any file, the emitted list destroys exactly the roots of the table and its indices and leaves every other b-tree in place or renumbered |
| `KeyColumns.DistinctInOrder` | atom_comm_3/src/main/java/com/me/LootSplit/database/bld/sqlite-src-3110100/src/build.c:1729-1742 | Removing repeats keeps each column once, in the order of first occurrence |
| `KeyColumns.MissingGrows` | atom_comm_3/src/main/java/com/me/LootSplit/database/bld/sqlite-src-3110100/src/build.c:1774-1782 | The place j never passes the n places counted before |
| `KeyColumns.ExtendedHasBoth` | atom_comm_3/src/main/java/com/me/LootSplit/database/bld/sqlite-src-3110100/src/build.c:1759-1783 | The added columns are exactly the primary key columns that the index lacked, each once |
| `KeyColumns.MissingInOrder` | atom_comm_3/src/main/java/com/me/LootSplit/database/bld/sqlite-src-3110100/src/build.c:1774-1782 | They come in the order of the primary key |
| `KeyColumns.OthersComplete` | atom_comm_3/src/main/java/com/me/LootSplit/database/bld/sqlite-src-3110100/src/build.c:1789-1796 | Key first, then the missing table columns in ascending order, nothing twice |
| `KeyColumns.Pigeons` | atom_comm_3/src/main/java/com/me/LootSplit/database/bld/sqlite-src-3110100/src/build.c:1797-1798 | Distinct columns of a table of n are at most n, and exactly n only if none is missing |
| `KeyColumns.OthersPermute` | atom_comm_3/src/main/java/com/me/LootSplit/database/bld/sqlite-src-3110100/src/build.c:1785-1801 | A key without repeats, completed, is a permutation of all table columns with the key as its prefix |
| `KeyColumns.Converted` | atom_comm_3/src/main/java/com/me/LootSplit/database/bld/sqlite-src-3110100/src/build.c:1677-1682 | The primary key index ends as a permutation of all columns that starts with the key freed of repeats, and every other index ends with all primary key columns |
| `WithoutRowid.HasColumn` | atom_comm_3/src/main/java/com/me/LootSplit/database/bld/sqlite-src-3110100/src/build.c:1656-1659 | The search answers whether the column is among the first nCol entries |
| `WithoutRowid.Index.Resize` | atom_comm_3/src/main/java/com/me/LootSplit/database/bld/sqlite-src-3110100/src/build.c:1604-1623 | It fails exactly when there is no room and no memory, and then changes nothing; the assert of line 1608 holds when the index has not been resized before; the old columns keep their places and nothing is allocated when there is room |
| `WithoutRowid.Index.RemoveRepeats` | atom_comm_3/src/main/java/com/me/LootSplit/database/bld/sqlite-src-3110100/src/build.c:1734-1741 | The in-place loop leaves the key freed of repeats, with nColumn adjusted to it |
| `WithoutRowid.Index.CountMissing` | atom_comm_3/src/main/java/com/me/LootSplit/database/bld/sqlite-src-3110100/src/build.c:1765-1767 | n is the number of primary key columns that the index lacks |
| `WithoutRowid.Index.AddKeyOf` | atom_comm_3/src/main/java/com/me/LootSplit/database/bld/sqlite-src-3110100/src/build.c:1763-1782 | The rowid slot makes way for exactly those columns; with none missing the index ends at its key |
| `WithoutRowid.Index.FillKeyOf` | atom_comm_3/src/main/java/com/me/LootSplit/database/bld/sqlite-src-3110100/src/build.c:1774-1782 | The asserts of lines 1781 and 1782 hold |
| `WithoutRowid.Index.AddAllColumns` | atom_comm_3/src/main/java/com/me/LootSplit/database/bld/sqlite-src-3110100/src/build.c:1787-1801 | All other columns follow the key; the asserts of lines 1797 and 1798 hold |
| `WithoutRowid.Index.FillAllColumns` | atom_comm_3/src/main/java/com/me/LootSplit/database/bld/sqlite-src-3110100/src/build.c:1789-1796 | The assert of line 1791 holds and the columns are completed in ascending order |
| `WithoutRowid.MarkNotNull` | atom_comm_3/src/main/java/com/me/LootSplit/database/bld/sqlite-src-3110100/src/build.c:1749-1752 | Exactly the key columns become NOT NULL |
| `WithoutRowid.AddKeyTo` | atom_comm_3/src/main/java/com/me/LootSplit/database/bld/sqlite-src-3110100/src/build.c:1762-1783 | One index is extended and all others stay as they were |
| `WithoutRowid.AddKeyToOthers` | atom_comm_3/src/main/java/com/me/LootSplit/database/bld/sqlite-src-3110100/src/build.c:1762-1783 | Every index but the primary key's is extended |
| `WithoutRowid.PrepareKey` | atom_comm_3/src/main/java/com/me/LootSplit/database/bld/sqlite-src-3110100/src/build.c:1729-1754 | The key loses its repeats and its columns become NOT NULL, except for imposter tables |
| `WithoutRowid.CompleteKey` | atom_comm_3/src/main/java/com/me/LootSplit/database/bld/sqlite-src-3110100/src/build.c:1785-1801 | Completing the primary key index leaves the others as extended |
| `WithoutRowid.Convert` | atom_comm_3/src/main/java/com/me/LootSplit/database/bld/sqlite-src-3110100/src/build.c:1684-1802 | Unless memory is short every index ends with the columns that KeyColumns describes, and only key columns became NOT NULL |
| `FuncTable.HashIgnoresCase` | atom_comm_3/src/main/java/com/me/LootSplit/database/bld/sqlite-src-3110100/src/callback.c:309-311 | Names that differ only in case go to the same bucket |
| `FuncTable.ExtendedMembers` | atom_comm_3/src/main/java/com/me/LootSplit/database/bld/sqlite-src-3110100/src/callback.c:313-316 | Insertion adds one definition to a chain and drops none |
| `FuncTable.LinkSecond` | atom_comm_3/src/main/java/com/me/LootSplit/database/bld/sqlite-src-3110100/src/callback.c:315-316 | Relinking pNext puts the definition second on its chain and keeps the rest in order |
| `FuncTable.LinkFirst` | atom_comm_3/src/main/java/com/me/LootSplit/database/bld/sqlite-src-3110100/src/callback.c:318-320 | Relinking pHash makes the definition the head of its bucket and keeps the rest in order |
| `FuncTable.FileFirst` | atom_comm_3/src/main/java/com/me/LootSplit/database/bld/sqlite-src-3110100/src/callback.c:317-321 | A new name is filed in its own bucket and nowhere else |
| `FuncTable.FileSecond` | atom_comm_3/src/main/java/com/me/LootSplit/database/bld/sqlite-src-3110100/src/callback.c:313-316 | An overload changes the bucket lists not at all |
| `FuncTable.SearchBucket` | atom_comm_3/src/main/java/com/me/LootSplit/database/bld/sqlite-src-3110100/src/callback.c:293-298 | The walk along pHash finds the chain of the name, ignoring case, if and only if the bucket has one |
| `FuncTable.ChainReplaced` | atom_comm_3/src/main/java/com/me/LootSplit/database/bld/sqlite-src-3110100/src/callback.c:313-316 | Replacing one chain leaves the others linked |
| `FuncTable.BucketReplaced` | atom_comm_3/src/main/java/com/me/LootSplit/database/bld/sqlite-src-3110100/src/callback.c:317-321 | Replacing one bucket leaves the others linked |
| `FuncTable.AddSecond` | atom_comm_3/src/main/java/com/me/LootSplit/database/bld/sqlite-src-3110100/src/callback.c:313-316 | The overload branch keeps the whole table |
| `FuncTable.AddFirst` | atom_comm_3/src/main/java/com/me/LootSplit/database/bld/sqlite-src-3110100/src/callback.c:317-321 | The new-name branch keeps the whole table |
| `FuncTable.FuncDefHash.constructor` | atom_comm_3/src/main/java/com/me/LootSplit/database/bld/sqlite-src-3110100/src/callback.c:304-307 | An empty table is well formed |
| `FuncTable.FuncDefHash.Search` | atom_comm_3/src/main/java/com/me/LootSplit/database/bld/sqlite-src-3110100/src/callback.c:286-299 | functionSearch returns the head of the chain of the name, or null when the whole table has none |
| `FuncTable.FuncDefHash.Insert` | atom_comm_3/src/main/java/com/me/LootSplit/database/bld/sqlite-src-3110100/src/callback.c:304-322 | The definition is on the chain of its name, second or first, every other chain is unchanged, and the table stays well formed |
| `FuncTable.FuncDefHash.InsertSecond` | atom_comm_3/src/main/java/com/me/LootSplit/database/bld/sqlite-src-3110100/src/callback.c:313-316 | The overload branch |
| `FuncTable.FuncDefHash.InsertFirst` | atom_comm_3/src/main/java/com/me/LootSplit/database/bld/sqlite-src-3110100/src/callback.c:317-321 | The new-name branch |
| `FuncTable.PutChain` | atom_comm_3/src/main/java/com/me/LootSplit/database/bld/sqlite-src-3110100/src/callback.c:304-322 | What an insertion makes of the chain of any given name |
| `FuncTable.OneChain` | atom_comm_3/src/main/java/com/me/LootSplit/database/bld/sqlite-src-3110100/src/callback.c:304-322 | After any sequence of insertions all definitions whose names are equal ignoring case, and no others, are on one chain, with the first one still at its head |
| `FuncTable.InsertNext` | atom_comm_3/src/main/java/com/me/LootSplit/database/bld/sqlite-src-3110100/src/callback.c:304-322 | One insertion of such a sequence |
| `FuncTable.InsertAll` | atom_comm_3/src/main/java/com/me/LootSplit/database/bld/sqlite-src-3110100/src/callback.c:304-322 | Any sequence of insertions leaves a well formed table in which every name has the chain that OneChain describes |
| `FuncRegistry.QualityRanks` | atom_comm_3/src/main/java/com/me/LootSplit/database/bld/sqlite-src-3110100/src/callback.c:222-280 | The scores rank as documented: 0 exactly for a wrong number of arguments, 6 exactly for a perfect match, an exact argument count above any number, and the encodings in their order |
| `FuncRegistry.AnyArguments` | atom_comm_3/src/main/java/com/me/LootSplit/database/bld/sqlite-src-3110100/src/callback.c:246-259 | With -2 for the number of arguments just the implemented functions match, perfectly |
| `FuncRegistry.BestExists` | atom_comm_3/src/main/java/com/me/LootSplit/database/bld/sqlite-src-3110100/src/callback.c:364-372 | A first best match always exists, or nothing matches |
| `FuncRegistry.BestIsImplemented` | atom_comm_3/src/main/java/com/me/LootSplit/database/bld/sqlite-src-3110100/src/callback.c:246-259 | With -2 the best match is an implemented function, if the chain has one |
| `FuncRegistry.BestIsUnique` | atom_comm_3/src/main/java/com/me/LootSplit/database/bld/sqlite-src-3110100/src/callback.c:364-372 | There is only one first best match |
| `FuncRegistry.PerfectIsBest` | atom_comm_3/src/main/java/com/me/LootSplit/database/bld/sqlite-src-3110100/src/callback.c:400-412 | The best score is 6 exactly when the chain has a perfect match, and the best match is then the first perfect one |
| `FuncRegistry.SearchChain` | atom_comm_3/src/main/java/com/me/LootSplit/database/bld/sqlite-src-3110100/src/callback.c:365-372 | The loop returns a first definition of maximal score, and keeps what it was given if none matches |
| `FuncRegistry.BestOf` | atom_comm_3/src/main/java/com/me/LootSplit/database/bld/sqlite-src-3110100/src/callback.c:364-372 | The same for a name in a table |
| `FuncRegistry.NewIsFirstPerfect` | atom_comm_3/src/main/java/com/me/LootSplit/database/bld/sqlite-src-3110100/src/callback.c:400-412 | A definition created for want of a perfect match is the first perfect one from then on |
| `FuncRegistry.FindPerfect` | atom_comm_3/src/main/java/com/me/LootSplit/database/bld/sqlite-src-3110100/src/callback.c:364-402 | The search ends with the first perfect match on the chain, if there is one |
| `FuncRegistry.Create` | atom_comm_3/src/main/java/com/me/LootSplit/database/bld/sqlite-src-3110100/src/callback.c:404-412 | A blank definition with the name, argument count and encoding asked for is in the table |
| `FuncRegistry.FindOrCreate` | atom_comm_3/src/main/java/com/me/LootSplit/database/bld/sqlite-src-3110100/src/callback.c:345-418 | With createFlag the result is null exactly if there was no perfect match and no memory; else it is the first perfect match on the chain of the name; if there was one nothing changes, else exactly one blank definition has been added |
| `FuncRegistry.FindTwice` | atom_comm_3/src/main/java/com/me/LootSplit/database/bld/sqlite-src-3110100/src/callback.c:345-418 | Asking again, in whatever case the name is spelt, gives the same definition and changes nothing |
| `FuncRegistry.Database.constructor` | atom_comm_3/src/main/java/com/me/LootSplit/database/bld/sqlite-src-3110100/src/callback.c:345-360 | A connection has no functions of its own and shares the built-in ones |
| `FuncRegistry.Database.Lookup` | atom_comm_3/src/main/java/com/me/LootSplit/database/bld/sqlite-src-3110100/src/callback.c:345-418 | Without createFlag: the first best match among the application's functions if there is one and the built-in ones are not preferred; without one, or if they are preferred, the first best match among those, and failing that the application's; null if that has no implementation. With -2 for the number of arguments a result is found exactly if either table has an implemented function of the name |
| `FuncRegistry.Database.CreateFunction` | atom_comm_3/src/main/java/com/me/LootSplit/database/bld/sqlite-src-3110100/src/callback.c:380-412 | Creating a function never touches a built-in one |

## Left out

- Bitvecs.Bitvec.Set: requires iSize + 61 < 2^32 of an insertion that has to subdivide; for the 61 sizes above, line 219 wraps and the bins do not cover the range. The descent of its while loop is a recursive call, as is that of Clear; the union of the three representations is three buffers, so reuse of the same memory is not captured.
- sqlite3BitvecDestroy and sqlite3BitvecSize are not modelled; Dafny objects are not freed.
- BitvecProgram.BuiltinTest: counts and operands of a program are unbounded where the source has 32-bit integers; a program that runs past its array is not modelled.
- Stat4.Stat4Accum.StatPush: a[] and aBest[] are sequences, so the reuse of their slots by the memmove and sampleCopy calls is not captured; counters are unbounded where tRowcnt has 32 or 64 bits; the tie-breaker hash is any number.
- Stat4.Stat4Accum.StatPush: no more rows are pushed than statInit was told of, as the generated program counts them first.
- Stat4Rows.Analyze: the generated program of analyzeOneTable is the loop that it codes, with its column tests; the opcodes are not modelled. Column values are given by their ranks in the collation, NULL first. Rows that are equally good are not told apart by hash. A sample that has taken over an earlier column need not be a best row for it, and is none in general; what is shown is that it is one for the column that it was taken for, and which sample takes over (Stat4Accum.OfferBest).
- Stat1Text.DecodeIntArray: the LogEst form and the option keywords that may follow the numbers are not modelled.
- BackupPages.BackupOnePage: pager, WAL, codec, journal and file system are a byte sequence, what a rollback leads back to, and the outcomes of the calls; page numbers and offsets are unbounded.
- BackupFinish.FinishCopy: bytes 18-19, 24-31, 40-43 and 92-99 of the first page, which the schema cookie, the version, the page count and the commit rewrite, are excepted.
- Backup.Backup.Step: nRemaining is an integer where the source has an unsigned 32-bit count; database mutexes are held.
- Backup.BackupInit: the page size of the destination is the one that setDestPgsz leaves; opening the temp database is not modelled.
- Backup.Source.WritePage: no two backups have the same destination, of which the caller of sqlite3_backup_init has to take care.
- BackupRun.Run: takes any events; an event that is not possible in the current state is no event.
- BtreeProtocol.Progress: connections between calls are not obliged to leave, as in the source; fairness of the operating system's mutexes is not modelled.
- BtreeLocks.Connection.BtreeEnter: operating-system mutexes are atomic acquire, try and release, the other connections act at the waits, and the connection mutex is held; sqlite3BtreeHoldsMutex and the other assert helpers are not modelled.
- Affinity.AffinityType: the size estimate pszEst is not modelled.
- DestroyTable.DropTable: OP_Destroy moves the largest root page, as the comment in destroyTable has it; pointer-map pages are not modelled, nor are the other instructions that DROP TABLE codes.
- WithoutRowid.Convert: azColl is not modelled, since line 1738 does not reorder it along with aiColumn; nor are aSortOrder, tnum, isCovering, the VDBE opcodes, and the creation of the index for an INTEGER PRIMARY KEY, which is given.
- Complete.IsComplete: characters below 128 are ASCII; the EBCDIC and UTF-16 variants and SQLITE_OMIT_TRIGGER are not modelled.
- FuncTable.FuncDefHash.Insert: an empty name hashes as if it began with NUL; user data, destructors and finalizers of definitions are not modelled.
- FuncRegistry.FindOrCreate: encodings are the three concrete ones, to which callers reduce SQLITE_UTF16 and SQLITE_ANY.
- The Java bot around these sources, and the code generator, parser, authorizer and virtual tables of SQLite, are not modelled.
