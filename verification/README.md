# A Dafny model of QArmDroid's boot and image core

QArmDroid builds bootable Android images for an ARM virtual machine and carries the
platform sources it relies on. This project models three parts of it and proves what
they promise.

**Staged package sessions (apexd).** Over the types of `apex_types.dfy`,
`apex_sessions.dfy` is the store of staged sessions as a state machine in which any
number of threads take the install lock, check, commit, and write stale copies without
the lock. `apex_staging.dfy` is what staging does to the active directory, and
`apex_daemon.dfy` the daemon as a class (backup, restore, stage, activate, revert,
submit, ready, abort, success), proved against specification functions, with theorems
over whole histories of operations that run one at a time. `apex_protocol.dfy` says what
each operation stores and shows that every history of the daemon is a run of the
interleaved session machine. `apex_repository.dfy` is the scan of package files and the
choice of what to activate, `apex_scan.dfy` what the scans store and when they stop, told
from the file lists alone, and `apex_workers.dfy` the pool of activation workers as
interleaved steps.

**Image formats and the disk builder.** `lz4.dfy` is the LZ4 block and legacy frame
codec, `sparse.dfy` both expanders of Android sparse images, `cpio.dfy` the newc
archives (two writers and the reader), `cpio_splice.dfy` the splice of files into an
archive, `gpt.dfy` the partition tables, and `disk_image.dfy` the allocator, the
hole-skipping copy and the assembly of the disk. Each format is also written down on its
own: `lz4_frames.dfy` (frames of any blocks), `sparse_format.dfy` (an encoder of sparse
images), `cpio_format.dfy` (the newc header by offsets, and extraction by mode bits) and
`gpt_reader.dfy` (a reader that checks a header and follows it to its entries), with
theorems that the code agrees with it. `wrappers.dfy`, `bytes.dfy`, `sequences.dfy`,
`utf8.dfy`, `text.dfy` and `disk_file.dfy` hold optional results, byte strings,
searching, UTF-8, text and files.

**Boot-time text and state machines.** `fstab_types.dfy` and `fstab.dfy` are the
fstab parser; `fstab_words.dfy` has the keywords and prefixes of the flags as tables, and
`fstab_meaning.dfy` what a line and a file mean, column by column. `avb_strip.dfy` is
the builder's rewriting of an fstab and the theorem that connects it with the parser
across the two languages, `dsu.dfy` the transformation for a Dynamic System Update and
`dsu_meaning.dfy` what it makes of each entry, `mount_retry.dfy` the retry loop of a
mount, `rc_parser.dfy` the section machine of the rc parser and `rc_files.dfy` which of
its calls the lines of a file ask for, `touch.dfy` the touch daemon and its client, and
`touch_reports.dfy` what the receiver of its events sees.

Loops and objects of the source are methods and classes here, proved against functions;
the laws are lemmas about those functions. Where a law one would expect is not true of
the code, the code is kept as it is, a lemma gives an input for which the law fails, and
another states exactly when it holds: narrowed package versions, reverts after a
success, ready calls that overlap a revert, CRC chunks that claim blocks, copies into
existing files, archive paths that are not ASCII, the trailer's text inside an archive,
emptied fstab columns, a DSU partition about `/data`, and kernels that answer EAGAIN for
ever. For standard LZ4 frames with a header checksum, which the code reads one byte
early, there is a failing family and the law for frames without it.

What the environment decides is a parameter: which calls fail, the order in which
directories and session stores are listed, replies of the kernel, sizes of reads, random
GUIDs, the CRC function, number parsing in the fstab, the names libgsi gives. Package
ids (`name@version`) are taken to be as distinct as their parts. A session counts as
finalized in the states SUCCESS, REVERTED, REVERT_FAILED and ACTIVATION_FAILED; the
session class itself is not part of the repository. The files of a staged session are
taken not to change between submit and activation. Emptying a directory either succeeds
or leaves it as it was, but the clean-up after a failed link may leave any part of what
was linked. The default values of an fstab entry are those of a default-constructed
FstabEntry.

A submit first makes a new backup and only then checks the session, so a submit that is
rejected has already replaced what a revert goes back to
(`ApexDaemon.RejectedSubmitRecaptures`); the model follows the code in this.

## Model

| member | source | states |
|---|---|---|
| `ApexSessions.VerifyNoOverlap` | research/aosp-src/apexd.cpp:695-716 | Accepts exactly when no known session is VERIFIED and no STAGED one bears a name of the incoming packages; a refusal names a session, and a package, that is really to blame |
| `ApexSessions.CommitKeepsSafe` | research/aosp-src/apexd.cpp:2806-2879 | A commit made under the lock that passed the overlap check keeps at most one VERIFIED session and disjoint names |
| `ApexSessions.StepKeepsInv` | research/aosp-src/apexd.cpp:2806-2900 | Every step of every thread, with submit split into its check and its commit under the install lock, keeps the session invariant |
| `ApexSessions.UnlockedKeepsInv` | research/aosp-src/apexd.cpp:1872-1998 | The state updates that take no lock (activation, revert, success) write a stale copy of a session and still keep the invariant |
| `ApexSessions.DropKeepsInv` | research/aosp-src/apexd.cpp:1420-1435 | Deleting a session keeps the invariant |
| `ApexSessions.RunIsSafe` | research/aosp-src/apexd.cpp:695-716 | In every state of every interleaved run at most one session is VERIFIED and the package names of VERIFIED and STAGED sessions are pairwise disjoint |
| `ApexSessions.FinalizedComesBack` | research/aosp-src/apexd.cpp:2881-2900 | In every interleaved run a finalized session becomes VERIFIED exactly by the commit of a submit that reuses its id, and STAGED exactly by the commit of a ready call, which had read it VERIFIED before it was finalized and has held the lock since |
| `ApexSessions.LastWriterDecides` | research/aosp-src/apexd.cpp:2881-2900 | Over any stretch of a run in which a session is stored, or was not STAGED at the start, it ends STAGED if and only if the last step that stored it is the commit of a ready call |
| `ApexSessions.RevertLeavesNothingStaged` | research/aosp-src/apexd.cpp:2123-2187 | Over any stretch of a run in which every session STAGED at its start is finalized, as a revert without failed commits does, a session is STAGED at the end if and only if a ready call was the last to store it |
| `ApexSessions.RevertedComesBack` | research/aosp-src/apexd.cpp:2881-2900 | That does happen: a run in which a REVERTED session becomes STAGED again, because the ready call had read it before the revert, which takes no lock |
| `ApexSessions.ChecksWithoutTheLock` | research/aosp-src/apexd.cpp:2806-2879 | Without the lock the law fails: a run in which two submits both check before either commits ends with two VERIFIED sessions of the same names |
| `ApexStaging.StageReplacesPackages` | research/aosp-src/apexd.cpp:2009-2079 | Staging a session leaves the files of all other packages and exactly the staged files of its own packages |
| `ApexStaging.StagedFilesOfDistinctNames` | research/aosp-src/apexd.cpp:2001-2079 | With distinct names every package of the session is present under its own package id |
| `ApexStaging.StageTwice` | research/aosp-src/apexd.cpp:2009-2079 | Staging the same session again after an interrupted boot changes nothing |
| `ApexStaging.StageAllOutcome` | research/aosp-src/apexd.cpp:1872-1998 | Staging pairwise disjoint sessions one after the other leaves the untouched packages plus all staged files |
| `ApexStaging.OutcomeIsUnique` | research/aosp-src/apexd.cpp:1872-1998 | That description determines the directory: it depends only on which sessions there were |
| `ApexStaging.StagingOrderIrrelevant` | research/aosp-src/apexd.cpp:1872-1998 | Any two orders of the same disjoint sessions end with the same active directory |
| `ApexStaging.StagingOrderMattersOnOverlap` | research/aosp-src/apexd.cpp:2009-2079 | Without disjointness the order shows: two sessions of one package end differently |
| `ApexDaemon.Apexd.Commit` | research/aosp-src/apexd.cpp:2902-2927 | A commit stores the new state of one known session, or fails and changes nothing |
| `ApexDaemon.Apexd.BackupActivePackages` | research/aosp-src/apexd.cpp:792-851 | The backup becomes a copy of the active directory by package id, with every early return of the code; a missing active directory leaves the old backup as it is, and after a failed link whatever the clean-up leaves, always active packages, stays in the backup |
| `ApexDaemon.Apexd.LinkAll` | research/aosp-src/apexd.cpp:829-851 | When all links succeed the ids were distinct and the backup holds every active package |
| `ApexDaemon.Apexd.RestoreActivePackages` | research/aosp-src/apexd.cpp:853-892 | The active directory is replaced by the backup, which is gone afterwards, with every early return of the code |
| `ApexDaemon.Apexd.RemovePreviouslyActive` | research/aosp-src/apexd.cpp:277-312 | Removes exactly the old files of the affected packages; on failure only such files are missing |
| `ApexDaemon.Apexd.UnlinkStaged` | research/aosp-src/apexd.cpp:2039-2045 | The clean-up after a failed link removes exactly the linked files, except those whose unlink fails |
| `ApexDaemon.Apexd.StagePackages` | research/aosp-src/apexd.cpp:2009-2079 | Links the new files, then removes the old ones; a failed link takes back what was linked, except what cannot be unlinked |
| `ApexDaemon.Apexd.ActivateSession` | research/aosp-src/apexd.cpp:1872-1998 | One session's turn: skipped on a fingerprint change, failed, or staged and committed as ACTIVATED |
| `ApexDaemon.Apexd.ActivateStagedSessions` | research/aosp-src/apexd.cpp:1872-1998 | The list is the STAGED sessions as listed, with checkpoints the ACTIVATED ones behind them, and the loop does their turns one after the other |
| `ApexDaemon.ListingIsOrder` | research/aosp-src/apexd.cpp:1876-1889 | That list holds exactly those sessions, each once, the STAGED ones first |
| `ApexDaemon.Apexd.MarkEach` | research/aosp-src/apexd.cpp:2123-2187 | Commits one state for every listed session and goes on after a failed commit |
| `ApexDaemon.Apexd.RevertActiveSessions` | research/aosp-src/apexd.cpp:2123-2187 | The whole revert: which sessions are marked, what is restored, and every error return |
| `ApexDaemon.Apexd.SubmitStagedSession` | research/aosp-src/apexd.cpp:2806-2879 | The whole submit, backup first; it keeps at most one VERIFIED session and disjoint names |
| `ApexDaemon.Apexd.MarkStagedSessionReady` | research/aosp-src/apexd.cpp:2881-2900 | VERIFIED becomes STAGED, STAGED stays, anything else is an error; the session invariant is kept |
| `ApexDaemon.Apexd.AbortStagedSession` | research/aosp-src/apexd.cpp:1420-1435 | Only VERIFIED and STAGED sessions can be deleted |
| `ApexDaemon.Apexd.MarkStagedSessionSuccessful` | research/aosp-src/apexd.cpp:2902-2928 | ACTIVATED becomes SUCCESS after the backup is emptied; SUCCESS is a no-op |
| `ApexDaemon.ActivationOfAll` | research/aosp-src/apexd.cpp:1872-1998 | When nothing fails, with or without checkpoints, activation marks every session of the list ACTIVATED, stages them all in that order and leaves the backup alone |
| `ApexDaemon.ActivationOutcome` | research/aosp-src/apexd.cpp:1872-1998 | Without checkpoints, in a safe store, the outcome is the same for every processing order, is the old files of unaffected packages plus the staged files, and leaves no STAGED session |
| `ApexDaemon.CheckpointOutcome` | research/aosp-src/apexd.cpp:1876-1889 | With checkpoints the ACTIVATED sessions are staged again behind the STAGED ones; in a safe store with disjoint ACTIVATED sessions the outcome is the same for every order within the two groups |
| `ApexDaemon.ActivatedOverwrites` | research/aosp-src/apexd.cpp:1876-1889 | Between the two groups the order shows: an ACTIVATED session of version 1 replaces a STAGED one of version 2 in a safe store |
| `ApexDaemon.HistoryKeepsInv` | research/aosp-src/apexd.cpp:792-892 | Over every history of operations, run one at a time from a fresh daemon, the backup holds what the last completed backup captured, or what a later success or a later failed backup left of it |
| `ApexDaemon.RevertFinalizes` | research/aosp-src/apexd.cpp:2123-2187 | A successful revert leaves unfinalized only the sessions whose commit failed, and no STAGED one when none failed |
| `ApexDaemon.RevertRestores` | research/aosp-src/apexd.cpp:2123-2187 | At any point of any history of operations run one at a time, a successful revert restores exactly the packages captured by the latest completed backup if and only if no success and no failed backup has emptied it since, or what those left is just these packages; unfinalized remain exactly the sessions whose commit failed, and when none failed the next activation does nothing |
| `ApexDaemon.RevertAfterSuccessLosesAll` | research/aosp-src/apexd.cpp:2902-2928 | The failing case: a revert after a session was marked successful restores no package at all |
| `ApexDaemon.RejectedSubmitRecaptures` | research/aosp-src/apexd.cpp:2806-2879 | A submit that is rejected after its backup has already replaced what a revert restores: the packages active now |
| `ApexDaemon.OpKeepsSafe` | research/aosp-src/apexd.cpp:1420-1435 | Every operation of the daemon, whatever fails in it, keeps the session invariant |
| `ApexDaemon.FinalizedStays` | research/aosp-src/apexd.cpp:2123-2187 | While operations run one at a time, a finalized session is never changed again unless a submit reuses its id |
| `ApexProtocol.SubmitStores` | research/aosp-src/apexd.cpp:2806-2879 | A submit succeeds exactly when the session is acceptable: backup, no VERIFIED session, no clash with a STAGED one, rollback flags and files in order; it then stores exactly that session as VERIFIED with exactly the opened packages and the current fingerprint and leaves every other session, and the active directory, as they were |
| `ApexProtocol.ReadyStores` | research/aosp-src/apexd.cpp:2881-2900 | Readying succeeds exactly on a STAGED session, or on a VERIFIED one whose commit succeeds, and then changes nothing but that session's state |
| `ApexProtocol.SuccessStores` | research/aosp-src/apexd.cpp:2902-2928 | Marking successful succeeds exactly on a SUCCESS session, or on an ACTIVATED one once the backup is emptied and the commit done, and changes nothing else |
| `ApexProtocol.BackupOutcome` | research/aosp-src/apexd.cpp:792-851 | A backup succeeds exactly when nothing fails and no two active packages share an id, or there is no active directory; it then holds exactly the active packages, each under its id, or what it held before; failing before the links it holds the old packages or none |
| `ApexProtocol.FailedLinkTouchesOwn` | research/aosp-src/apexd.cpp:2009-2055 | A staging that fails in a link leaves every file but those at the ids of its own packages as it was |
| `ApexProtocol.StaleSessionsFail` | research/aosp-src/apexd.cpp:1895-1910 | After a build change every session of the list fails and no directory is touched |
| `ApexProtocol.RestoreLosesNothing` | research/aosp-src/apexd.cpp:853-892 | Whatever fails during a restore, every backed-up package is still in one of the two directories |
| `ApexProtocol.RevertOutcome` | research/aosp-src/apexd.cpp:2123-2187 | The state a revert leaves each session in: REVERTED, REVERT_FAILED, or REVERT_IN_PROGRESS when its commit failed; finalized sessions are left alone |
| `ApexProtocol.OperationIsRun` | research/aosp-src/apexd.cpp:2806-2928 | Each daemon operation is a run of steps of the interleaved session machine: submit and ready check and commit under one lock, the others commit without it |
| `ApexProtocol.HistoryIsRun` | research/aosp-src/apexd.cpp:2806-2928 | Every history of operations from a fresh daemon is a run of that machine which ends with the same sessions |
| `ApexProtocol.SubmittedIsActivated` | research/aosp-src/apexd.cpp:1872-2079 | A session that is submitted, readied and activated, all succeeding, ends ACTIVATED, and under the names of its packages the active directory holds exactly them, whatever other sessions are activated with it and in whatever order |
| `ApexRepository.Repository.ScanBuiltInDir` | research/aosp-src/afr.cpp:65-160 | The scan of a pre-installed directory, file by file, with its duplicate, multi-install and abort branches |
| `ApexRepository.Repository.AddPreInstalledApex` | research/aosp-src/afr.cpp:167-176 | The scans of all pre-installed directories; the first that does not finish ends them |
| `ApexScan.ScanStores` | research/aosp-src/afr.cpp:65-160 | What a finished scan of a directory leaves under every name, told from the file list alone: none when multi-install files of the name carry different keys, else the package that was there, else the first file of the name that is ordinary or selected, with the directory's partition |
| `ApexScan.ScanEnds` | research/aosp-src/afr.cpp:75-150 | A scan finishes exactly when every file opens and no file conflicts with what is stored under its name; otherwise the first file that does not decides, an error when it cannot be opened and an abort when it conflicts |
| `ApexScan.DirsStore` | research/aosp-src/afr.cpp:167-176 | After the scans of all directories from an empty repository each name has exactly the package and partition the file lists say |
| `ApexScan.ScansFromEmpty` | research/aosp-src/afr.cpp:317-396 | After all scans from an empty repository: the pre-installed copies the files say, and a data copy exactly of the names for which some data file is allowed, the first of the highest version |
| `ApexScan.SelectionFromFiles` | research/aosp-src/apexd.cpp:2384-2466 | From the file lists to the choice: only a data copy gives that one, only a pre-installed copy gives that one, and with both the rule decides between the pre-installed copy and the newest allowed data file |
| `ApexRepository.Repository.AddDataApex` | research/aosp-src/afr.cpp:317-396 | The scan of the data directory, file by file, with every reason to skip a file |
| `ApexRepository.BuiltInScanIsConsistent` | research/aosp-src/afr.cpp:65-160 | Every package is stored under its own name, whatever the file list |
| `ApexRepository.DataScanKeepsNewest` | research/aosp-src/afr.cpp:317-396 | A data package is present exactly when some file offers it, and it is the first of the highest version offered |
| `ApexRepository.DataScanIsConsistent` | research/aosp-src/afr.cpp:317-396 | The data scan changes no pre-installed package and stores each package under its own name |
| `ApexRepository.Repository.SelectApexForActivation` | research/aosp-src/apexd.cpp:2384-2466 | The activation list is the choice for each grouped name, in order |
| `ApexRepository.ChoiceFollowsRule` | research/aosp-src/apexd.cpp:2384-2466 | With both copies present the choice is the documented rule (newest, data on a tie, both shared-library copies when data is newer) if and only if narrowing the versions to int does not swap or merge them |
| `ApexRepository.InRangeIsHarmless` | research/aosp-src/apexd.cpp:2415-2461 | 32-bit versions are never harmed by the narrowing |
| `ApexRepository.NarrowingCanActivateBoth` | research/aosp-src/apexd.cpp:2415-2461 | The failing case: versions 1 and 2^32 activate both copies of an ordinary package |
| `ApexRepository.SelectionAfterScans` | research/aosp-src/apexd.cpp:2384-2466 | After both scans of any file lists, a package with 32-bit versions gets a highest-version candidate by the rule |
| `ApexRepository.BrandNewSelection` | research/aosp-src/apexd.cpp:2384-2466 | A package without a pre-installed copy gets its newest accepted data file |
| `ApexWorkers.StepConserves` | research/aosp-src/apexd.cpp:1441-1476 | No step of any worker loses or duplicates a package between queue, flight and results |
| `ApexWorkers.StepKeepsInv` | research/aosp-src/apexd.cpp:1441-1476 | Mutual exclusion under the queue lock and the conservation law survive every step |
| `ApexWorkers.RunKeepsInv` | research/aosp-src/apexd.cpp:1441-1525 | They hold in every state of every interleaving of any number of workers |
| `ApexWorkers.EveryPackageOnce` | research/aosp-src/apexd.cpp:1441-1525 | Queued, in-flight and attempted packages together are the input multiset, so at the end each was attempted exactly once |
| `ApexWorkers.RunsEnd` | research/aosp-src/apexd.cpp:1441-1476 | No run is longer than a bound fixed at its start |
| `ApexWorkers.NoDeadlock` | research/aosp-src/apexd.cpp:1441-1476 | While a worker is left, some step is possible |
| `ApexWorkers.CountResults` | research/aosp-src/apexd.cpp:1478-1525 | Successes and failures counted from the workers add up to the input count |
| `Lz4.WrapIsRemainder` | tools/imgtools.py:105-108 | The position in the period of an overlapping match is the remainder by the offset |
| `Lz4.CopyIsPeriodic` | tools/imgtools.py:105-108 | Copying byte by byte from the growing output repeats the last offset bytes periodically |
| `Lz4.DecodeSequence` | tools/imgtools.py:80-108 | One serialised sequence decodes to its literals and its periodic match |
| `Lz4.DecodeSerialized` | tools/imgtools.py:80-108 | A serialised list of well-formed sequences decodes to its meaning from any position |
| `Lz4.BlockRoundTrip` | tools/imgtools.py:80-108 | Decoding any serialised block appends the meaning of its sequences to the prior output |
| `Lz4.BlockLengthIsOrdinary` | tools/imgtools.py:45-77 | No emitted block length reads as the end mark or as a raw block |
| `Lz4.BlocksOfFrame` | tools/imgtools.py:111-145 | The block loop gives back the data of the frame's blocks |
| `Lz4.FrameRoundTrip` | tools/imgtools.py:69-145 | Decompressing a compressed frame gives back every byte string, the empty one included |
| `Lz4Frames.FrameDecodes` | tools/imgtools.py:111-145 | Any frame as the code reads it, with the legacy header or the standard one with or without a content size, and any blocks the format allows, raw or packed, with matches into earlier blocks, decodes to the meaning of its blocks; the end mark ends it, whatever follows |
| `Lz4Frames.HeaderChecksumIsNotSkipped` | tools/imgtools.py:117-125 | A standard frame with the header checksum byte of the LZ4 Frame Format is read one byte early: every such frame of one raw block of one to four bytes decodes with the four bytes of its end mark added |
| `Lz4Frames.WriterEmitsBlocks` | tools/imgtools.py:69-77 | The writer's blocks are blocks of the format, literals only, 4 MiB in each but the last, and mean the data |
| `Lz4Frames.CopyOutcome` | tools/imgtools.py:105-108 | A match of any offset raises exactly when the offset is zero or more than twice the output; otherwise every byte is the one the offset names, counted from the end when it lies before the start |
| `Lz4.CompressLiterals` | tools/imgtools.py:45-66 | The literals-only block of a chunk, with its length extension |
| `Lz4.Compress` | tools/imgtools.py:69-77 | The frame writer produces the frame, and the frame decompresses to its input |
| `Lz4.Decoder.CopyMatch` | tools/imgtools.py:105-108 | The copy loop, with the IndexError of an offset that reaches before the output |
| `Lz4.Decoder.ReadLength` | tools/imgtools.py:85-104 | The extension loop of a length, with the IndexError at the end of the block |
| `Lz4.Decoder.Iteration` | tools/imgtools.py:80-108 | One pass of the decoder's loop |
| `Lz4.Decoder.DecompressBlock` | tools/imgtools.py:80-108 | The block decoder over any bytes, well formed or not |
| `Lz4.Decoder.Decompress` | tools/imgtools.py:111-145 | The frame decoder over any bytes |
| `DiskFile.WriteAt` | tools/m0_build.py:217-236 | A write at a position changes exactly its bytes; a gap before it reads as zeros |
| `DiskFile.Resize` | tools/m0_build.py:209-210 | Truncating keeps the bytes that remain and extends with zeros |
| `Sparse.Unsparse` | tools/imgtools.py:163-193 | The in-memory expansion of any bytes, with its exceptions |
| `Sparse.SparseToFile` | tools/imgtools.py:196-244 | The streaming expansion into a new or existing file, with seeks over holes and the final truncate |
| `Sparse.CopyAll` | tools/imgtools.py:196-212 | A source that is not sparse is copied byte for byte |
| `Sparse.StreamIsOverlay` | tools/imgtools.py:205-244 | Streaming changes exactly the written bytes of the destination |
| `Sparse.StreamingAgrees` | tools/imgtools.py:163-244 | On well-formed chunks both expansions agree if and only if the destination was zero under the holes |
| `Sparse.CrcAgreement` | tools/imgtools.py:163-244 | Into an empty file, with CRC chunks of any length, both agree if and only if no data follows a CRC chunk that claims blocks |
| `Sparse.StreamingAgreesExactly` | tools/imgtools.py:163-244 | Any chunks into any destination: the two expansions agree if and only if every written byte stands where the in-memory one has it and the destination already holds the others |
| `Sparse.CrcCanShiftData` | tools/imgtools.py:188-241 | The failing case: a CRC chunk with blocks before data shifts the data |
| `Sparse.ExpandersAgree` | tools/imgtools.py:163-244 | For every well-formed image the in-memory expansion has the announced length, and streaming into an empty file gives the same bytes if and only if no data follows a CRC chunk with blocks |
| `Sparse.ExpandersAgreeOnExistingFile` | tools/imgtools.py:225-244 | Into an existing file, for every well-formed image, they agree if and only if no written byte is shifted by a CRC chunk with blocks and the file already holds the rest; without such chunks that means zeros under the holes |
| `SparseFormat.FillIsPeriodic` | tools/imgtools.py:181-183 | Byte i of a fill chunk is byte i mod 4 of its pattern |
| `SparseFormat.ImageRoundTrip` | tools/imgtools.py:163-244 | For every image written by the format, any header sizes and any raw, fill, hole and CRC chunks: the in-memory expansion is its blocks, byte for byte, and streaming into a new file gives them if and only if nothing but zeros follows a CRC chunk that claims blocks |
| `SparseFormat.ImageOntoFile` | tools/imgtools.py:225-244 | Into an existing file such an image without CRC chunks comes out if and only if its holes fall on zeros or behind the end |
| `Gpt.ReadTable` | tools/read_gpt.py:8-15 | The reader's loop lists the non-empty entries in order |
| `Gpt.NameRoundTrip` | tools/m0_build.py:153-154 | A padded name reads back if and only if it neither begins nor ends with a NUL |
| `Gpt.EntryReadsBack` | tools/m0_build.py:144-156 | A written entry reads back as its name and first and last LBA |
| `Gpt.EntryLayout` | tools/m0_build.py:144-156 | The type GUID, unique GUID, first and last LBA, attributes and name of an entry at their UEFI offsets |
| `Gpt.TableReadsBack` | tools/read_gpt.py:8-15 | Reading a written array of up to 128 partitions, wherever it stands on the disk, gives every one, in order, and nothing else |
| `Gpt.SealedIsValid` | tools/m0_build.py:180-183 | A sealed header carries the CRC of itself with the CRC field zero |
| `Gpt.PrimaryFields` | tools/m0_build.py:166-184 | The primary header, every field at its UEFI offset: signature, revision, size, own and other LBA, first and last usable LBA, disk GUID, entry LBA, count, size and CRC; and it is valid |
| `Gpt.BackupMirrors` | tools/m0_build.py:197-207 | The backup header says the same with the two LBAs swapped and its own entries, is valid, and equals the primary everywhere else |
| `DiskImage.Allocate` | tools/m0_build.py:519-527 | The calls of add lay the partitions out one after the other |
| `DiskImage.LayoutIsDisjoint` | tools/m0_build.py:519-527 | Starts are aligned to 2048 sectors and no two extents meet, whatever the sizes |
| `DiskImage.LayoutFits` | tools/m0_build.py:160-160 | Every extent ends before the backup tables |
| `DiskImage.CopyImage` | tools/m0_build.py:217-236 | The copy loop writes the non-zero pieces at their places and skips the others |
| `DiskImage.CopyIsDense` | tools/m0_build.py:217-236 | Skipping holes equals a plain write if and only if the disk was zero where it skipped |
| `DiskImage.BuildEntries` | tools/m0_build.py:161-165 | The entry array, or an exception exactly when an entry does not fit |
| `DiskImage.PutTables` | tools/m0_build.py:186-210 | The writes of both copies, the closing one-byte write and the truncate, in order |
| `DiskImage.TablesAreWritten` | tools/m0_build.py:186-210 | Byte by byte, both copies are on the disk and the closing write and truncate damage neither |
| `DiskImage.MakeGpt` | tools/m0_build.py:158-211 | make_gpt as a whole: it fails exactly on an empty list, on entries that do not fit, or on more than 2^64 sectors, and then writes nothing |
| `DiskImage.AssemblyIsDense` | tools/m0_build.py:579-590 | On a fresh disk, assembling with holes equals assembling densely |
| `DiskImage.AssembledByte` | tools/m0_build.py:519-590 | Every byte of the finished disk is an image byte, a table byte or zero |
| `DiskImage.TablesSurvive` | tools/m0_build.py:190-236 | Both copies of the tables survive the copying of all images |
| `DiskImage.PartitionHoldsImage` | tools/m0_build.py:579-590 | Every partition holds its image, padded with zeros to its extent |
| `DiskImage.FinishedDiskReadsBack` | tools/read_gpt.py:8-15 | Reading the finished disk lists every partition with its name and LBAs |
| `DiskImage.BuildDisk` | tools/m0_build.py:519-590 | The disk stage on a new file succeeds exactly when the list is not empty and entries and sectors fit, and ends with the assembled disk |
| `GptReader.BothTablesAreValid` | tools/m0_build.py:158-211 | On the finished disk both headers pass the checks of the UEFI specification, each names the other's LBA, and a reader that follows the header lists exactly the recorded partitions from either copy |
| `GptReader.PartitionsAreUsable` | tools/m0_build.py:519-527 | Every recorded partition lies within the usable LBAs that both headers announce |
| `GptReader.MbrFields` | tools/m0_build.py:189-193 | The protective MBR: one partition of type EE from LBA 1 over the disk, up to 32 bits, the boot signature, and zeros |
| `Cpio.HexReadsBack` | tools/m0_build.py:245-248 | A number that fits its width reads back from its hexadecimal digits |
| `Cpio.FieldsReadBack` | tools/imgtools.py:270-275 | A row of header fields reads back, in both letter cases |
| `Utf8.DecodeOfEncode` | tools/imgtools.py:277-278 | Decoding with replacement gives back every encoded text |
| `Utf8.CountedInCharacters` | tools/m0_build.py:245-250 | Cut to as many bytes as it has characters, an encoded text decodes to itself if and only if it is ASCII, or ASCII and one final replacement character |
| `Utf8.DecodedHolds` | tools/imgtools.py:277-278 | ASCII text that stands in a decoded name stands in its bytes |
| `Cpio.RecordReadsBack` | tools/imgtools.py:265-284 | A record with a truthful header gives its decoded name, mode and data and the position of the next; the trailer ends the walk |
| `Cpio.EntryReadsBack` | tools/m0_build.py:242-253 | A written entry, exactly: it comes back with the reader behind it, or comes back with the reader four bytes short, or the reader stops or finds another record, as its path and data decide |
| `Cpio.NewcRoundTrip` | tools/m0_build.py:238-265 | Reading what cpio_newc wrote gives the debug_ramdisk directory and exactly the given entries in order, if and only if no path is the trailer's name and each is ASCII, or ASCII up to one final replacement character where the padding, or for the last entry the data, makes up for the miscounted name |
| `Cpio.OutsideAscii` | tools/m0_build.py:242-253 | A path of one accented letter does not come back, whatever its data; the letter a and a replacement character do |
| `CpioSplice.RecordIsLocal` | tools/imgtools.py:265-284 | A record depends on no byte behind it |
| `CpioSplice.CutAtTrailer` | tools/build_sdk_initrd.py:26-31 | When no path and no content of an archive holds the trailer's name, the cut is exactly where its trailer begins |
| `CpioSplice.SpliceKeeps` | tools/build_sdk_initrd.py:26-76 | Then the spliced archive reads as all old files and all new ones, whatever the new ones hold |
| `CpioSplice.TextBreaksSplice` | tools/build_sdk_initrd.py:26-31 | For any bytes that begin with records one of which holds the trailer's name, the splice does not read as those records and then the new ones |
| `CpioSplice.SpliceKeepsAll` | tools/build_sdk_initrd.py:26-76 | The spliced archive reads as all old files and then all new ones, if and only if no path and no content of the old files holds the trailer's name |
| `CpioSplice.SpliceCanLoseAll` | tools/build_sdk_initrd.py:26-31 | One failing case in full: a file that contains the trailer's name makes the spliced archive read as empty |
| `Cpio.Pad` | tools/m0_build.py:251-253 | The padding loop stops at the next multiple of four |
| `Cpio.AppendRecord` | tools/m0_build.py:242-253 | One call of rec appends exactly the record |
| `Cpio.WriteNewc` | tools/m0_build.py:238-265 | The writer's loop produces the archive |
| `Cpio.ReadHeader` | tools/imgtools.py:270-275 | The thirteen fields, or the ValueError of the first bad one |
| `Cpio.Extract` | tools/imgtools.py:259-310 | The extraction loop does the actions of all records up to the trailer or the first bad field, with names and link targets decoded |
| `Cpio.DotDotTest` | tools/imgtools.py:286-290 | The reader's test finds exactly the paths with a parent-directory component between slashes |
| `Cpio.ActionsStayRelative` | tools/imgtools.py:286-308 | No extracted path begins with a slash or has a parent-directory component between slashes, whatever the archive says; this is about '/' as the separator, and says nothing of the backslashes and drive names of Windows |
| `CpioFormat.RecordLayout` | tools/m0_build.py:242-253 | A written record field by field: magic, inode, mode, link count and sizes at their newc offsets, every other field zero, the name at byte 110 with its zero, the data on the next multiple of four |
| `CpioFormat.HeaderIsFollowed` | tools/imgtools.py:265-284 | On any bytes with a readable header the reader takes the name and data the fields at the newc offsets count, and goes on at the next multiple of four, or ends at the trailer's name |
| `CpioFormat.BadHeaderEnds` | tools/imgtools.py:265-275 | Without the magic, or with too few bytes, the reader ends; with a field that is not hexadecimal it raises |
| `CpioFormat.RecordExtracts` | tools/imgtools.py:286-308 | By the bits of its mode a record becomes a directory, a link to its decoded data, or a file, made executable with its nine permission bits exactly when the owner may execute it; with a parent-directory component it becomes nothing |
| `CpioFormat.RelativeStrips` | tools/imgtools.py:286-287 | The path of a record is its name without all leading slashes |
| `CpioFormat.NewcExtracts` | tools/imgtools.py:259-310 | Extracting what cpio_newc wrote makes the debug_ramdisk directory and then does, in order, what the mode of each entry says |
| `Fstab.ParseMountFlags` | research/aosp-src/fs_mgr_fstab.cpp:123-150 | The mount-flag loop: known flags, file-system options, reserve_root and lowerdir |
| `Fstab.ParseFsMgrFlags` | research/aosp-src/fs_mgr_fstab.cpp:176-357 | The fs_mgr-flag loop over every flag, with its two ways to fail |
| `Fstab.ParseOneLine` | research/aosp-src/fs_mgr_fstab.cpp:575-613 | One line of either kind of file: skipped, bad, or its entry |
| `Fstab.ParseFstabFromString` | research/aosp-src/fs_mgr_fstab.cpp:575-628 | The line loop, for a fstab file and for /proc/mounts: comments skipped, the first bad line fails the parse, an empty fstab fails |
| `FstabWords.SimpleFlags` | research/aosp-src/fs_mgr_fstab.cpp:185-213 | A word sets a plain fs_mgr bit if and only if it is the keyword of that bit, keyword by keyword |
| `FstabWords.MountBits` | research/aosp-src/fs_mgr_fstab.cpp:61-92 | A word of the fourth column sets a mount bit if and only if it is the word of that bit |
| `FstabWords.WordOfKind` | research/aosp-src/fs_mgr_fstab.cpp:215-345 | A word that begins with the prefix of a flag with an argument is read as that flag with exactly the rest as its argument |
| `FstabWords.KindByFlag` | research/aosp-src/fs_mgr_fstab.cpp:215-345 | And only such words are |
| `FstabMeaning.LineMeans` | research/aosp-src/fs_mgr_fstab.cpp:575-613 | A line gives an entry if and only if it has five columns and an allowed fifth, and the entry is exactly the one its columns describe: each column in its own member, each bit set by its keyword, each member with an argument set by the last word of its kind or left at its default, every user device in order |
| `FstabMeaning.DescribedIsUnique` | research/aosp-src/fs_mgr_fstab.cpp:575-613 | The columns fix every member of the entry |
| `FstabMeaning.MountsLineMeans` | research/aosp-src/fs_mgr_fstab.cpp:575-613 | The same for a line of /proc/mounts, of four columns |
| `FstabMeaning.FileMeans` | research/aosp-src/fs_mgr_fstab.cpp:575-628 | Parsing succeeds if and only if some line is not a comment and all those lines give an entry, and the result is exactly those entries in order |
| `AvbStrip.FilterFlags` | tools/m0_build.py:348-350 | The flags that stay, joined again |
| `AvbStrip.StripFstab` | tools/m0_build.py:333-353 | The builder's rewriting loop |
| `AvbStrip.FlagsAboutAvb` | research/aosp-src/fs_mgr_fstab.cpp:201-340 | The parser reads a flag as AVB if and only if the builder drops it or it is a stray avb-prefixed one |
| `AvbStrip.OtherFlagsCommute` | research/aosp-src/fs_mgr_fstab.cpp:176-345 | Every other flag does the same before and after the AVB members are cleared |
| `AvbStrip.KeptFlags` | research/aosp-src/fs_mgr_fstab.cpp:176-345 | Dropping the flags before the parse is clearing the entry after it |
| `AvbStrip.ColumnSplits` | tools/m0_build.py:348-350 | A column that is not emptied splits into exactly the kept flags |
| `AvbStrip.FieldsCommute` | tools/m0_build.py:341-351 | One line: parsing the stripped columns is clearing the parsed columns |
| `AvbStrip.SameColumns` | research/aosp-src/fs_mgr_fstab.cpp:575-592 | On plain text both languages see the same columns |
| `AvbStrip.StrippedColumns` | tools/m0_build.py:341-351 | What the parser sees of a rewritten line, also when a column was emptied |
| `AvbStrip.LinesAgree` | tools/m0_build.py:334-334 | splitlines and the parser's split at newlines see the same lines |
| `AvbStrip.StripThenParse` | tools/m0_build.py:333-353 | Stripping and then parsing is parsing and then clearing the AVB bit, the vbmeta partition and the AVB keys, for both file-system settings and also when the parse fails |
| `AvbStrip.StripThenParseExt4` | tools/m0_build.py:333-353 | Under the ext4 setting nothing but AVB changes |
| `AvbStrip.StripExact` | research/aosp-src/fs_mgr_fstab.cpp:575-613 | On five-column files that parse, this holds if and only if no column is emptied and no flag is stray |
| `AvbStrip.EmptiedLineIsBad` | research/aosp-src/fs_mgr_fstab.cpp:588-592 | Any good five-column line whose flags are all dropped makes the parse fail |
| `AvbStrip.EmptiedColumnFails` | tools/m0_build.py:348-351 | A file that parses before the rewriting and not after it |
| `Dsu.Fstab.ConvertDataEntries` | research/aosp-src/fs_mgr_fstab.cpp:641-651 | Every entry of /data is pointed at the DSU userdata |
| `Dsu.Fstab.ConvertMatching` | research/aosp-src/fs_mgr_fstab.cpp:664-689 | The early-mounted entries of the mount point are converted; the missing file systems are returned |
| `Dsu.Fstab.InsertMissing` | research/aosp-src/fs_mgr_fstab.cpp:691-708 | The missing entries are put at the end of the first matching group, or of the fstab |
| `Dsu.Fstab.TransformForDsu` | research/aosp-src/fs_mgr_fstab.cpp:630-710 | The whole transformation, partition by partition, on the fstab in place |
| `Dsu.LackingMeans` | research/aosp-src/fs_mgr_fstab.cpp:664-689 | The list of missing file systems holds exactly those no matching entry has |
| `Dsu.StepFrame` | research/aosp-src/fs_mgr_fstab.cpp:630-710 | A partition changes entries of its own mount point only, and keeps the order of the others |
| `Dsu.TransformFrame` | research/aosp-src/fs_mgr_fstab.cpp:630-710 | Entries of mount points no partition is about survive unchanged and in order |
| `Dsu.ThroughTwice` | research/aosp-src/fs_mgr_fstab.cpp:630-710 | A second pass over the partitions changes no entry that went through the first |
| `Dsu.TransformIsIdempotent` | research/aosp-src/fs_mgr_fstab.cpp:630-710 | Transforming twice is transforming once, if and only if no read-only partition about /data comes behind every userdata and has entries to put in |
| `Dsu.NotIdempotent` | research/aosp-src/fs_mgr_fstab.cpp:630-710 | The smallest list for which a second pass changes something |
| `Dsu.IdempotentApartFromData` | research/aosp-src/fs_mgr_fstab.cpp:630-710 | Idempotent whenever no read-only partition is about /data |
| `Dsu.BothTypesServed` | research/aosp-src/fs_mgr_fstab.cpp:653-708 | Every read-only partition of the list ends with a logical ext4 and a logical erofs entry of its own |
| `Dsu.ReadOnlyKeepsTogether` | research/aosp-src/fs_mgr_fstab.cpp:691-708 | A read-only partition keeps equal mount points together if and only if it does not have to append away from late-mounted entries of its mount point |
| `Dsu.TransformKeepsTogetherExactly` | research/aosp-src/fs_mgr_fstab.cpp:630-710 | Over a whole list equal mount points stay together if and only if no partition of it has to append away from late-mounted entries of its mount point |
| `Dsu.TransformKeepsTogether` | research/aosp-src/fs_mgr_fstab.cpp:630-710 | On a first-stage fstab equal mount points stay together through the whole list |
| `DsuMeaning.ThroughMeans` | research/aosp-src/fs_mgr_fstab.cpp:630-710 | What all partitions make of one entry, member by member: block device, mount point, file system, key directory and every bit |
| `DsuMeaning.TransformMeans` | research/aosp-src/fs_mgr_fstab.cpp:630-710 | The transformed fstab holds exactly the old entries as the partitions about them make them, and the entries made where a file system was lacking, member by member |
| `MountRetry.Mount` | research/aosp-src/fs_mgr.cpp:827-870 | The do-while loop makes exactly the attempts of the run and stops where the run stops |
| `MountRetry.MountsBounded` | research/aosp-src/fs_mgr.cpp:827-870 | At most 13 mounts, plus one for each EAGAIN given while no allowance is in use |
| `MountRetry.AtMostThirteen` | research/aosp-src/fs_mgr.cpp:827-870 | At most 13 mounts when EAGAIN is given only while the allowance is in use |
| `MountRetry.ThirteenHappen` | research/aosp-src/fs_mgr.cpp:827-870 | Thirteen mounts do happen |
| `MountRetry.AllowanceGrows` | research/aosp-src/fs_mgr.cpp:834-870 | While the allowance is in use, mount n tries 10n percent, up to 100 |
| `MountRetry.AttemptsInOrder` | research/aosp-src/fs_mgr.cpp:834-870 | The options go up by ten percent, then plain, then none, and never back |
| `MountRetry.EndsUnlessStuck` | research/aosp-src/fs_mgr.cpp:827-870 | The loop ends if and only if the kernel does not answer EAGAIN for ever once the allowance is off and not used up |
| `MountRetry.CanBeStuck` | research/aosp-src/fs_mgr.cpp:867-870 | A mount without checkpoints and EAGAIN for ever does not end |
| `RcParser.Parser.ParseData` | research/aosp-src/parser.cpp:45-132 | The token loop makes the calls and counts the errors of the state machine |
| `RcParser.Parser.OneLine` | research/aosp-src/parser.cpp:85-126 | What the machine does with one line |
| `RcParser.Parser.AtEndOfFile` | research/aosp-src/parser.cpp:77-84 | The open section is ended and every section parser is told of the end of the file |
| `RcParser.SectionOpened` | research/aosp-src/parser.cpp:101-118 | An opened section gets its lines and then exactly one end, whatever comes next |
| `RcParser.SectionFailed` | research/aosp-src/parser.cpp:101-123 | A section that failed to open gets neither lines nor an end, and its lines are dropped without errors |
| `RcParser.SectionBySection` | research/aosp-src/parser.cpp:45-132 | From an idle state the machine makes exactly the calls that reading section by section gives |
| `RcParser.CallsAreBracketed` | research/aosp-src/parser.cpp:45-132 | Those calls are well bracketed |
| `RcParser.ParseMeaning` | research/aosp-src/parser.cpp:45-132 | For every token stream and every pattern of failures: the calls are the sections' calls and then the file ends, they are well bracketed, and the errors are the failed calls plus the orphan lines |
| `RcFiles.LinesOfFile` | research/aosp-src/parser.cpp:52-130 | The machine sees exactly the lines of the file that have words, with their line numbers; words behind the last newline are dropped |
| `RcFiles.CallsAreAsked` | research/aosp-src/parser.cpp:85-126 | Every call is the one its line asks for: a prefix of a single-line parser first, then a section name, then the open section |
| `RcFiles.EveryLineOnce` | research/aosp-src/parser.cpp:45-132 | When every call succeeds and no line is an orphan, the lines called for are the lines of the file, each once and in order |
| `RcFiles.FileIsCalled` | research/aosp-src/parser.cpp:45-132 | For a whole file and every pattern of failures: the calls, each asked for by its line, the ends of the file in the order of the sections, and the count of errors |
| `Touch.PacketRoundTrip` | tools/touch_client.py:36-58 | The daemon decodes a client packet to its fields |
| `Touch.StreamRoundTrip` | tools/touch_daemon.c:236-252 | A stream of client packets decodes to those packets |
| `Touch.Daemon.Read` | tools/touch_daemon.c:240-240 | One read puts the next bytes of the stream behind those already in the buffer |
| `Touch.Daemon.Fill` | tools/touch_daemon.c:236-246 | The buffer ends up with the next 14 bytes however the reads are split |
| `Touch.Daemon.EvDown` | tools/touch_daemon.c:137-145 | Position, both buttons on, one report |
| `Touch.Daemon.EvMove` | tools/touch_daemon.c:146-152 | Position and one report |
| `Touch.Daemon.EvUp` | tools/touch_daemon.c:153-157 | Both buttons off and one report |
| `Touch.Daemon.StepCount` | tools/touch_daemon.c:164-167 | The number of steps is between 5 and 60 and follows the duration |
| `Touch.Daemon.EvSwipe` | tools/touch_daemon.c:163-178 | The swipe loop writes the events of the path |
| `Touch.Daemon.Interpret` | tools/touch_daemon.c:254-260 | What one packet writes; an unknown command writes nothing |
| `Touch.Daemon.Serve` | tools/touch_daemon.c:234-262 | One connection, with any splitting into reads, writes the events of the stream's packets, all of them unless a read fails |
| `Touch.ServeClient` | tools/touch_daemon.c:234-262 | Whatever the splitting, the daemon acts on the client's packets, in order, all of them unless a read fails |
| `Touch.ButtonsTogether` | tools/touch_daemon.c:137-179 | Over every sequence of packets BTN_TOUCH equals BTN_LEFT at each report |
| `Touch.AxisIsMonotone` | tools/touch_daemon.c:170-175 | Each axis of a swipe is monotone, stays between its ends and ends exactly at the target |
| `Touch.DeviceIsMonotone` | tools/touch_daemon.c:137-152 | The scaled device positions never turn back either |
| `Touch.SwipeNeverOverflows` | tools/touch_daemon.c:163-179 | No intermediate result of a swipe of any 16-bit fields leaves the 32-bit range |
| `Touch.SwipeEndsAtTarget` | tools/touch_daemon.c:163-179 | A swipe presses at its start, its last move is to its target, and it releases there |
| `TouchReports.PacketReports` | tools/touch_daemon.c:137-260 | What the receiver sees of any packet from any state: a tap is pressed and released at its point, a swipe is pressed at its start, passes n equal steps of its path and is released at its end, where n is the number of sixtieths of a second in the duration, held between 5 and 60; each point is its scaled device position; an unknown command shows nothing |

## Left out

- Lz4Frames.HeaderChecksumIsNotSkipped: shows a failing family, not all of it; with the checksum byte taken into the first block size, what a longer conforming standard frame decodes to depends on its data. Lz4Frames.FrameDecodes covers every frame without that byte, and dictionary ids and block checksums are not modelled, as the code does not read them.
- Lz4.BlockRoundTrip: well-formed sequences have offsets from 1 to the output length, as the LZ4 Block Format demands; for other offsets Lz4Frames.CopyOutcome says what one match does.
- Cpio.Extract: states the actions on the disk, not what the file system makes of them (links that are followed, files that exist, permissions that fail, the separators of Windows).
- Cpio.ReadHeader: fields are plain hexadecimal digits; the signs, underscores and blanks that Python's int also accepts are not modelled.
- Cpio.NewcRoundTrip: numbers fit eight hexadecimal digits and paths can be encoded; a wider number makes a longer header and is not read back.
- CpioSplice.SpliceKeepsAll: the only-if half is for at least one new file and new files that do not hold the trailer's name, as the three the script adds are; cpio_entry raises on a path that is not ASCII, where the model goes on as cpio_newc does.
- AvbStrip.StripThenParse: white space is blanks, tabs and newlines; other characters that Python, but not the parser, takes for space are excluded.
- AvbStrip.StripThenParseExt4: the same texts are excluded.
- AvbStrip.StripExact: lines of more than five columns are covered in one direction only, since a sixth column can take the place of an emptied one.
- Fstab.ParseFstabFromString: the slot-select update, whose code is not part of the repository, is left out.
- ApexRepository.SelectionAfterScans: versions fit 32 bits, and data files lie outside the pre-installed and decompression directories; ApexRepository.ChoiceFollowsRule has the exact condition on the versions.
- ApexScan.SelectionFromFiles: the same two conditions.
- ApexProtocol.SubmittedIsActivated: without file-system checkpoints, with distinct package names in the session, and with staging calls that do not fail; the failing branches are in ApexDaemon.Apexd.StagePackages and ApexDaemon.Apexd.ActivateSession.
- SparseFormat.ImageOntoFile: for images without CRC chunks; Sparse.ExpandersAgreeOnExistingFile has the exact condition for those with them.
- GptReader.BothTablesAreValid: for names that neither begin nor end with a NUL and at most 128 partitions; Gpt.NameRoundTrip has the exact condition on names.
- RcFiles.EveryLineOnce: for runs in which every call succeeds; RcParser.SectionFailed says which lines a failed opener drops.
- ApexDaemon.RevertRestores: without file-system checkpoints, as the code itself backs up only then; operations run one at a time, and ApexSessions.RevertLeavesNothingStaged has the exact condition for overlapping ones.
- ApexDaemon.FinalizedStays: operations run one at a time; ApexSessions.FinalizedComesBack has the exact condition for overlapping ones.
- DiskImage.BuildEntries: more than 128 partitions, for which the code writes a longer array, are excluded, here and in DiskImage.MakeGpt and DiskImage.BuildDisk.
- Gpt.ReadTable: a file shorter than the entry array, which the reader would read as shorter entries, is excluded; so are more than 128 partitions.
- Touch.ServeClient: fields fit 16 bits, as the client's packing demands; sleeping, the choice of the event device and the accept loop are left out.
- Block apexes, decompression, brand-new credentials, key comparison of multi-install packages beyond its outcome, and the non-staged install of a single package in apexd.
- Verification inside temporary mounts, loop devices, dm-verity, SELinux, vold, libavb and real mounts: results of code outside the repository.
- The format-and-replay path of fs_mgr_mount_all, first_stage_mount.cpp, fsm.cpp, first_stage_init.cpp, bdi.cpp and devices.cpp: mostly calls into the environment.
- The tokenizer below the rc parser, the bootconfig and build.prop strings, and the fs_mgr EnableMandatoryFlags and skip-mount filters: easy or constant.
- The user interface, the downloaders, the adb and QMP scripts, init_wrapper.c and stub_daemon.c.
