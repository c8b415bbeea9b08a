# Verified models of staged installation, archive extraction and gated execution

The Rust workspace modelled here installs files and trees atomically, extracts archives into
confined roots, and runs programs through a policy gateway with an audit log. Its promises are about
what is left behind: after a failure, after a crash, next to other writers, or while the file system
changes underfoot. This project states those promises about Dafny models of the code and proves them
for every input, every failure schedule and every interleaving.

## How it fits together

- `Filesystem` is an inode heap. Directories map names to inodes; links are never followed; a
  directory has one name and cannot contain itself. `HeapUpdates` gives `rename`, `link`, `unlink`
  and recursive removal their POSIX meaning, including that renaming one of two names of an inode
  onto the other does nothing. `Disk` is the kernel: one method per system call, each of which may
  fail as an oracle decides; a failing recursive removal or write may stop half way. A ghost history
  keeps the heap after every call, so that what holds of its members holds if the process dies at
  any point.
- `StagedNames`, `AtomicDirectory`, `StagedDirectory` and `AtomicFile` are staged commits with
  backup, rollback and clean-up on drop; `ConcurrentWriters` interleaves any number of them;
  `CandidateInstall` is the download, verify, stage and commit loop on top.
- `TreeView`, `ArchiveLeaves`, `ArchiveEntries`, `HardLinks`, `CaseCollision` and `TreeExtraction`
  are the archive installer and the walk that drives it; `DeclaredTrees` says what tree an archive
  declares and `Extractability` which archives can be extracted; `TreeInstall` puts the installer
  into a staged directory and commits that.
- `AuditAppend` is the locked append of many writers, as a state machine and as one call;
  `GatewayLifecycle` is the life of a gated execution and of its audit sink; `ProgramBinding` binds,
  revalidates and starts a program while anything else may happen; `WrapperCommands` looks through
  wrapper programs.
- `LexicalPaths` and `PathBoundary` are the three lexical normalizations and the root check;
  `Redaction` is the two-buffer redactor; `BinaryArchive` is the search for one binary in an archive.

`Wrappers` holds `Option` and `Result`, `Primitives` a few operations on numbers and text. Clocks,
process ids, downloads, digests, pattern matching,
archive decoding and the outcome of every system call are parameters.

## Where the code and what is said about it differ

- `create_directory_component` accepts a directory that exists, so a staged or backup directory is
  fresh only because its generated name is (`AtomicDirectory.TakenBackupIsLost`); a rollback that
  works leaves an empty holder behind.
- A hard link leaves its staged leaf behind exactly when its output already named its target's inode
  (`HardLinks.TryCreateHardLink`, `HardLinks.StrayExample`); entries with pairwise distinct paths
  never meet this.
- A write that fails, or a crash, in the middle of an audit record leaves its beginning in the file,
  and the next record continues that line. A record reported as written is a line of its own exactly
  when nothing was left open before it (`AuditAppend.ReportedRecordReads`,
  `AuditAppend.FailedWriteSpoilsTheNextRecord`); no other failure matters
  (`AuditAppend.FragmentsComeFromDamage`).
- Where a program is started by its path, a swap after the last check is not noticed; it is the bound
  program that runs exactly when the path names it at the moment of opening
  (`ProgramBinding.PrepareAndRun`, `ProgramBinding.SwapIsNotNoticed`).
- The installer's lexical normalization drops or keeps a `..` depending on how often the path climbs
  (`LexicalPaths.InstallerAgreesAbsolute`, `LexicalPaths.InstallerAgreesRelative`).
- For relative roots without a name the lexical root check misjudges some requests
  (`PathBoundary.UnanchoredRootMisjudges`); policy validation only lets absolute roots through.
- The empty prefix can be stripped from every path, but only paths that normalize to a lone dot
  start with it (`PathBoundary.StripAgreesWithStartsWith`).

## Model

| member | source | states |
|---|---|---|
| AtomicDirectory.CommitReplaceDirectory | crates/omne-fs-primitives/src/atomic_write.rs:785-903 | For every failure schedule: a committed result leaves the destination equal to the staged tree down to every byte; an I/O or validation error leaves it exactly as before; a failed rollback leaves the old tree whole at the reported backup path. Neighbouring entries never change, and after every single system call the old tree is at the destination or in the backup, or the new tree is installed. Without faults it succeeds exactly when the destination is replaceable (or absent, when overwriting is off), and otherwise says which of the two it was; the staged name is gone whenever the rename is what is reported to have failed. |
| AtomicDirectory.MoveAside | crates/omne-fs-primitives/src/atomic_write.rs:809-846 | Up to the backup rename: on failure nothing but the staged tree has changed; on success the old tree is the only entry of a new holder directory. |
| AtomicDirectory.Install | crates/omne-fs-primitives/src/atomic_write.rs:848-903 | From the backup to the end: the promise of each result variant, and safety of every intermediate state; a rollback that works leaves its empty holder behind. |
| AtomicDirectory.RollBack | crates/omne-fs-primitives/src/atomic_write.rs:856-888 | Removing the staged tree, wholly or in part, and putting the old one back never leaves a state from which the old tree cannot be recovered. |
| AtomicDirectory.FinishCommit | crates/omne-fs-primitives/src/atomic_write.rs:890-902 | Removing the backup, even half way, harms neither the new tree nor its neighbours. |
| AtomicDirectory.CreateDirectoryComponent | crates/omne-fs-primitives/src/cap_root.rs:183-200 | Makes the directory or accepts one that is already there; without faults it succeeds exactly when the name is free or a directory has it. |
| AtomicDirectory.CreateStagedDirectory | crates/omne-fs-primitives/src/atomic_write.rs:434-457 | What it hands out is a new empty directory exactly when the generated name was free; a directory that has the name already is handed out as it is, with nothing changed. Without faults it fails exactly when things that are no directories have all the names it may try. |
| AtomicDirectory.TakenBackupIsLost | crates/omne-fs-primitives/src/atomic_write.rs:434-476 | If a directory has the next backup name, it is taken for the holder and cleared away with the backup. |
| StagedDirectory.StagedAtomicDirectory.Commit | crates/omne-fs-primitives/src/atomic_write.rs:623-639 | The commit including the drop that ends it keeps the promise of its result, and only trees without special files are committed. Where overwriting is refused, a destination that exists is never replaced. Without faults it succeeds exactly when the tree has no special files and the destination is absent or, if overwriting, a directory; and then the staged name is gone. |
| StagedDirectory.StagedAtomicDirectory.Drop | crates/omne-fs-primitives/src/atomic_write.rs:478-483 | Dropping removes at most the staged name and what is below it, and no promise of an earlier commit is broken by that, finished or not. |
| StagedDirectory.SyncDirectoryTree | crates/omne-fs-primitives/src/atomic_write.rs:691-733 | Changes nothing, and without faults succeeds exactly when the whole tree holds only directories, files and links. |
| StagedDirectory.DropKeepsOutcome | crates/omne-fs-primitives/src/atomic_write.rs:478-483 | Whatever part of the staged tree a removal takes, the outcome of the commit before it stands. |
| StagedNames.GeneratedNamesDiffer | crates/omne-fs-primitives/src/atomic_write.rs:459-469 | Two generated names with different counter values differ, whatever their prefixes, process ids and clock readings. |
| StagedNames.EntryNameInjective | crates/omne-fs-primitives/src/atomic_write.rs:459-469 | Under one prefix, equal names were made from the same process id, clock reading and counter. |
| StagedNames.GeneratedNameIsNotDestination | crates/omne-fs-primitives/src/atomic_write.rs:347-373 | A staged name made for a destination is never the destination itself. |
| AtomicFile.StageFile | crates/omne-fs-primitives/src/atomic_write.rs:407-432 | An exclusive create: the staged file is a new inode under a name nothing had. Without faults it fails exactly when all 128 names it may try are taken. |
| AtomicFile.StagedAtomicFile.Commit | crates/omne-fs-primitives/src/atomic_write.rs:567-599 | A committed result leaves exactly the staged bytes and mode, validated, at the destination; any other leaves the destination alone; every intermediate state shows one or the other; without overwriting an existing destination is never replaced. |
| AtomicFile.StagedAtomicFile.Seal | crates/omne-fs-primitives/src/atomic_write.rs:567-592 | Validation accepts exactly the files that are non-empty and executable where that is required. |
| AtomicFile.ExecutableDigits | crates/omne-fs-primitives/src/atomic_write.rs:661-670 | A file counts as executable exactly when the digit of owner, group or others is odd. |
| AtomicFile.StagedAtomicFile.Drop | crates/omne-fs-primitives/src/atomic_write.rs:471-476 | A drop detaches the staged name or changes nothing. |
| ConcurrentWriters.DestinationIsAlwaysWhole | crates/omne-fs-primitives/src/atomic_write.rs:407-483 | Every interleaving of any number of writers in any number of processes, with any failures: the destination is absent, what it was at the start, or one writer's complete validated file. |
| ConcurrentWriters.LeavesDifferExactly | crates/omne-fs-primitives/src/atomic_write.rs:459-469 | Writers never share a staged name if and only if no two processes agree in their id and in the clock at the same count. |
| ConcurrentWriters.DropsSpareTheDestination | crates/omne-fs-primitives/src/atomic_write.rs:471-483 | In every reachable state no writer's drop changes what the destination names. |
| ConcurrentWriters.PresentDestinationSurvives | crates/omne-fs-primitives/src/atomic_write.rs:744-762 | If all writers refuse to overwrite, a destination that exists keeps its inode and its bytes for the rest of the run. |
| ConcurrentWriters.AtMostOneCommits | crates/omne-fs-primitives/src/atomic_write.rs:937-951 | If all writers refuse to overwrite, at most one commits, and none if the destination was there at the start. |
| ConcurrentWriters.RunKeepsInv | crates/omne-fs-primitives/src/atomic_write.rs:567-599 | Every step of every writer keeps the invariant that ties staged names, inodes and phases together. |
| ConcurrentWriters.UndisturbedWriter | crates/omne-fs-primitives/src/atomic_write.rs:567-599 | A writer whose steps come one after the other and all work, under a free name, commits exactly when what it wrote is acceptable and the destination lets it, and then leaves nothing but its file there. |
| CandidateInstall.InstallFirst | crates/omne-artifact-install-primitives/src/binary_artifact.rs:107-155 | Whatever the downloads, the digest and the disk do: at the end the destination is as before or holds the full bytes of a candidate that passed; success names the candidate that is installed, and the attempts at all earlier ones failed; an error that has tried all lists the failure of each, in order, and is an install error exactly when one of them is. Without faults the first installable candidate wins and each failure has the kind its candidate calls for. |
| CandidateInstall.TryDirect | crates/omne-artifact-install-primitives/src/binary_artifact.rs:118-152 | One direct candidate: without faults it is installed exactly when it passes and the destination is replaceable. |
| CandidateInstall.TryArchive | crates/omne-artifact-install-primitives/src/binary_artifact.rs:157-229 | One archive candidate: the same, with the binary found in the archive going through a second staged file. |
| CandidateInstall.InstallFound | crates/omne-artifact-install-primitives/src/binary_artifact.rs:231-257 | The binary found in an archive is staged, validated and committed, or the destination is as before. |
| CandidateInstall.Verify | crates/omne-artifact-install-primitives/src/binary_artifact.rs:275-291 | Accepts what hashes to the expected digest, and without faults nothing else is refused. |
| CaseCollision.CaseCollisionKey | crates/omne-artifact-install-primitives/src/archive_tree.rs:1180-1202 | The loops compute the key that the theorems are about: each component folded, in hexadecimal, joined by slashes. |
| CaseCollision.KeysAgree | crates/omne-artifact-install-primitives/src/archive_tree.rs:1180-1202 | Two paths have the same key exactly when they agree component by component up to ASCII case: hexadecimal joined by slashes can be read in one way only. |
| CaseCollision.KeysTellCaseOnly | crates/omne-artifact-install-primitives/src/archive_tree.rs:1180-1202 | Two paths have the same key exactly when they have the same length and differ in ASCII letter case at most. |
| CaseCollision.CaseCollisionTracker.RecordExactPath | crates/omne-artifact-install-primitives/src/archive_tree.rs:465-481 | A path is accepted exactly when it folds together with no different recorded path. |
| CaseCollision.CaseCollisionTracker.RecordPathChain | crates/omne-artifact-install-primitives/src/archive_tree.rs:432-443 | A path is accepted exactly when all its prefixes and all recorded paths are fold-injective; the record stays prefix-closed even if it is refused. |
| CaseCollision.CaseCollisionTracker.EnsureExactCaseMatch | crates/omne-artifact-install-primitives/src/archive_tree.rs:445-463 | A referenced path is accepted exactly when no recorded path differs from it in case only. |
| CaseCollision.RecordAll | crates/omne-artifact-install-primitives/src/archive_tree.rs:426-482 | A whole archive is accepted exactly when the set of all prefixes of its paths is fold-injective. |
| CaseCollision.OrderDoesNotMatter | crates/omne-artifact-install-primitives/src/archive_tree.rs:426-482 | Acceptance does not depend on the order of the entries. |
| TreeView.PutEvolves | crates/omne-artifact-install-primitives/src/archive_tree.rs:393-424 | One new entry keeps the run invariant: directories and links stay, a file may only become a file or a link, and of the old inodes only directories reached from the root change. |
| TreeView.EvolvesTrans | crates/omne-artifact-install-primitives/src/archive_tree.rs:393-424 | The run invariant composes, so it holds over any sequence of visits. |
| ArchiveLeaves.TryOpenChain | crates/omne-artifact-install-primitives/src/archive_tree.rs:1104-1148 | Walks through real directories only; makes at most the missing ones on the way; without faults it ends at the directory, reports a missing component, or refuses what is not a directory, exactly as the tree says. |
| ArchiveEntries.ValidateLinkTarget | crates/omne-artifact-install-primitives/src/archive_tree.rs:1024-1061 | Accepts exactly the relative targets that never climb above the extraction root, at any point of the path. |
| ArchiveEntries.WriteRegularFile | crates/omne-artifact-install-primitives/src/archive_tree.rs:795-830 | Success places a new inode with exactly the bytes and mode given, makes the parents directories, and changes nothing else that can be seen; failure only evolves the tree. Without faults it succeeds exactly when the content can be read, the parents are directories or missing, and the path is missing or a file. |
| ArchiveEntries.CreateSymlink | crates/omne-artifact-install-primitives/src/archive_tree.rs:625-660 | The same for a link; without faults it succeeds exactly when moreover the target is relative and stays inside. |
| ArchiveEntries.PrepareHardLink | crates/omne-artifact-install-primitives/src/archive_tree.rs:662-682 | Only the parents are made now; the pending target is the sanitized one; without faults it succeeds exactly when there is one and the parents are directories or missing. |
| HardLinks.TryCreateHardLink | crates/omne-artifact-install-primitives/src/archive_tree.rs:720-793 | Without faults the attempt is refused, put off or made exactly as the two paths say; when it is made, something other than the output comes into view if and only if the output already resolved to the inode of the target. |
| HardLinks.ResolvePending | crates/omne-artifact-install-primitives/src/archive_tree.rs:684-718 | Terminates because the pending count falls in every round; with one absent output per link and no faults it succeeds exactly when every link's chain of targets ends at an extracted file; what it leaves is a function of the set of links. |
| HardLinks.PendingOrderDoesNotMatter | crates/omne-artifact-install-primitives/src/archive_tree.rs:684-718 | Any permutation of the pending list is resolvable under the same condition and gives the same tree. |
| HardLinks.ChainsAgree | crates/omne-artifact-install-primitives/src/archive_tree.rs:684-718 | With one link per output a chain of links ends at one file only. |
| HardLinks.ProgressStep | crates/omne-artifact-install-primitives/src/archive_tree.rs:684-718 | Making one link adds exactly its output to what has been made so far. |
| HardLinks.AllStuck | crates/omne-artifact-install-primitives/src/archive_tree.rs:696-714 | When a round gets nowhere, no remaining link leads to a file: the fixpoint reached is the least one. |
| HardLinks.StrayWhenSame | crates/omne-artifact-install-primitives/src/archive_tree.rs:785-791 | A link that was made shows its target's file at the output, and leaves a stray leaf exactly when the output named that inode before: the rename then does nothing. |
| HardLinks.RepeatedLinkLeavesStray | crates/omne-artifact-install-primitives/src/archive_tree.rs:720-793 | Making any new link twice is accepted and leaves a stray leaf. |
| HardLinks.StrayExample | crates/omne-artifact-install-primitives/src/archive_tree.rs:720-793 | It happens to the file `a` and the link `b` to it, given twice, from an empty root and without faults. |
| ArchiveEntries.SanitizePath | crates/omne-archive-primitives/src/archive_tree.rs:379-405 | The loop computes the sanitized path: relative, without `..`, and not empty. |
| ArchiveEntries.SanitizeLeads | crates/omne-archive-primitives/src/archive_tree.rs:379-405 | A path is sanitized exactly when it is relative, has no `..` and has a name; what comes out leads where the path does, from wherever one starts. |
| TreeExtraction.ArchiveTreeBudget.ReserveBytes | crates/omne-archive-primitives/src/archive_tree.rs:522-540 | Accepts exactly while the sum is within the limit; overflow counts as over it. |
| TreeExtraction.WalkTarTree | crates/omne-archive-primitives/src/archive_tree.rs:289-377 | A successful walk has visited every entry, within both budgets, and left what they declare apart from pending links; without faults the walk of an extractable archive succeeds. |
| TreeExtraction.PermissionBitsKeep | crates/omne-archive-primitives/src/archive_tree.rs:487-489 | The mode bits kept are those of owner, group and others, digit for digit, and no more. |
| TreeExtraction.CompleteIsAsArchived | crates/omne-archive-primitives/src/archive_tree.rs:438-489 | Where the declared tree is complete, every file entry is shown with its own bytes and the three permission digits of its own mode. |
| Extractability.NextEnterable | crates/omne-artifact-install-primitives/src/archive_tree.rs:393-424 | After any part of an extractable archive, nothing stands in the way of the next entry. |
| Extractability.SolvableSame | crates/omne-artifact-install-primitives/src/archive_tree.rs:684-718 | The pending links can be resolved exactly when every hard link entry comes, over hard links perhaps, from a file entry, and in its letter case where that is tracked. |
| Extractability.ShownNothingBelow | crates/omne-artifact-install-primitives/src/archive_tree.rs:393-424 | Where all entries are shown, only directories have entries below them. |
| TreeExtraction.ExtractTree | crates/omne-artifact-install-primitives/src/archive_tree.rs:185-199 | However it ends, with any faults and duplicate entries, the tree has only evolved; success on pairwise distinct paths from an empty root leaves exactly the declared tree: bytes, the permission digits of each entry's own mode, link targets, hard links sharing their source's inode, parents, and nothing else, no staging leaf included. Without faults it succeeds exactly when every entry declares something, the archive is within both limits, only directories have entries below them, links stay inside, hard links come from files, and no paths fold together where that matters. |
| DeclaredTrees.VisitPartial | crates/omne-artifact-install-primitives/src/archive_tree.rs:393-424 | One successful visit extends the declared tree by exactly its entry. |
| DeclaredTrees.FinishComplete | crates/omne-artifact-install-primitives/src/archive_tree.rs:375-381 | Resolving the links turns the tree of the visits into the complete declared tree. |
| TreeInstall.InstallArchiveTree | crates/omne-artifact-install-primitives/src/archive_tree.rs:161-183 | Staging, extraction and commit together: the destination ends up as the complete declared tree, each file with the permission digits of its entry, or as it was, or whole at the reported backup; its neighbours never change; where overwriting is refused, a destination that exists stays. Without faults, for entries with distinct paths, it succeeds exactly when the archive is within its limits and can be extracted, in its letter case where that is asked for, and the destination is absent or, if overwriting, a directory. |
| AuditAppend.EveryRunAppends | crates/omne-execution-gateway/src/audit_log.rs:178-204 | Any interleaving, any failures and crashes: the file grows by beginnings of records in lock order, each record at most once and in its writer's order, and a call that reported success has its whole record there. |
| AuditAppend.EveryRunReads | crates/omne-execution-gateway/src/audit_log.rs:178-204 | Reading the file back after any run gives the old lines and then one line for each whole record, in lock order, each behind whatever text had been left open before it. |
| AuditAppend.ReportedRecordReads | crates/omne-execution-gateway/src/audit_log.rs:178-204 | A record reported as written always ends a line, and is that line if and only if the file ended in a line break, or was empty, when it was written. |
| AuditAppend.NothingOpen | crates/omne-execution-gateway/src/audit_log.rs:178-204 | That is so exactly when all that was written after the last whole record, or after old contents that end in a line break, is empty. |
| AuditAppend.ReadsAsRecords | crates/omne-execution-gateway/src/audit_log.rs:178-204 | After any run the file reads as the old lines and the whole records, and nothing else, if and only if it ended in a line break at the start and no record is there in part. |
| AuditAppend.FragmentsComeFromDamage | crates/omne-execution-gateway/src/audit_log.rs:178-204 | Apart from the record being written, one is there in part exactly when a write failed, or a writer crashed, after some but not all of it was written. |
| AuditAppend.AtEveryMoment | crates/omne-execution-gateway/src/audit_log.rs:178-204 | As long as that has not happened, whatever locks, seeks, flushes, unlocks and crashes have failed otherwise, the file is at every moment whole records and at most a beginning of one, whose writer holds the lock. |
| AuditAppend.RecordsInterleave | crates/omne-execution-gateway/src/audit_log.rs:178-204 | When all writers have finished or crashed, the whole records of each are exactly those whose lock, seek and writes worked, each once and in order; and the file reads as the old lines and an interleaving of them exactly when no record was left half written. |
| AuditAppend.FailedWriteSpoilsTheNextRecord | crates/omne-execution-gateway/src/audit_log.rs:178-204 | For every two records and every place to stop in the first: a run in which that write fails, the second record is reported as written, and yet is no line of the file. |
| AuditAppend.AuditFile.TryWriteRecord | crates/omne-execution-gateway/src/audit_log.rs:178-189 | One call under the lock appends a beginning of the record, and the whole of it if it reports success; the lock is kept only if unlocking failed. |
| AuditAppend.LinesRecord | crates/omne-execution-gateway/src/audit_log.rs:181-186 | Appending a record completes exactly one line. |
| GatewayLifecycle.CombinePreservesCompletion | crates/omne-execution-gateway/src/gateway.rs:1935-1967 | A failed audit write hides neither a completed status nor a failure. |
| GatewayLifecycle.AuditLogger.TryOpenSink | crates/omne-execution-gateway/src/audit_log.rs:94-122 | The log is opened exactly when one of four attempts opens it after only missing paths; any other failure ends the attempts. |
| GatewayLifecycle.ClassifyTells | crates/omne-execution-gateway/src/audit_log.rs:257-340 | What a reader of the log can tell: prepared, exited, detached and spawn errors stand for just those records, and an error is anything but a preparation that worked or an exit without a signal. |
| GatewayLifecycle.PreparedChild.TryWait | crates/omne-execution-gateway/src/gateway.rs:170-176 | The sink is spent exactly when a status is seen, on one record of just that status; the status is returned or carried by the error. |
| GatewayLifecycle.PreparedChild.Wait | crates/omne-execution-gateway/src/gateway.rs:178-186 | One closing record in all, whether waiting works or not; of the status, if it works. |
| GatewayLifecycle.PreparedChild.Drop | crates/omne-execution-gateway/src/gateway.rs:207-225 | A child dropped with its sink makes one closing record, of what a last poll answers: an exit, a process still there, or an error. |
| GatewayLifecycle.Lifetime | crates/omne-execution-gateway/src/gateway.rs:170-225 | Any calls of `try_wait` and `kill`, then `wait` or a drop: exactly one closing record is attempted, for the child's event. |
| GatewayLifecycle.PreparedCommand.Spawn | crates/omne-execution-gateway/src/gateway.rs:250-281 | Succeeds exactly when revalidation, sandbox and spawning all work, hands the sink to the child and attempts nothing; failure carries what the first of the three that failed had to say, and attempts exactly one record, of that denial. |
| GatewayLifecycle.ExecGateway.Execute | crates/omne-execution-gateway/src/gateway.rs:360-409 | The event says run exactly when there is a completed status; a program runs exactly when preflight permits the request, revalidation, sandbox and spawning work, and its audit sink is open or none is wanted; a refusal carries what the first of these that failed had to say; the status is the one the child was waited for; at most one record is attempted, exactly one when the log can be opened, of denials too, it carries the returned event, and it says that a process exited exactly when the event says run. |
| GatewayLifecycle.ExecGateway.PrepareCommand | crates/omne-execution-gateway/src/gateway.rs:417-471 | A prepared command has left exactly one record, of its preparation, and holds the sink; a refusal leaves at most one, that says so; where the log works, it is prepared exactly when preflight permits it. |
| GatewayLifecycle.PreflightDecides | crates/omne-execution-gateway/src/gateway.rs:479-562 | Preflight permits exactly what the paths, the program, the policy's isolation and the mutation policy permit; it gives an event that says run and an isolation the host supports, or one that says deny with a reason. |
| GatewayLifecycle.Session | crates/omne-execution-gateway/src/gateway.rs:250-281 | Prepare, perhaps spawn, use and end: two records with a spawn attempt, one without, whatever fails in between. |
| ProgramBinding.BindProgram | crates/omne-execution-gateway/src/gateway.rs:1340-1383 | Success means that, while the world changed as it liked, the path named the bound inode and read as the bound fingerprint, and on Linux the descriptor is open on that inode and reads so too. |
| ProgramBinding.RevalidateProgram | crates/omne-execution-gateway/src/gateway.rs:1397-1443 | Success means that path identity, descriptor identity and the fingerprints of both equalled the bound values when each was checked, and in a world that holds still it succeeds. |
| ProgramBinding.RevalidateExecutable | crates/omne-execution-gateway/src/gateway.rs:1626-1653 | The descriptor's part of that; where nothing changes it succeeds for a descriptor on the bound inode. |
| ProgramBinding.BindExecutable | crates/omne-execution-gateway/src/gateway.rs:1589-1624 | The descriptor opened at binding is on the inode that was identified, and reads as its fingerprint; where nothing changes and no call is refused, binding succeeds. |
| ProgramBinding.Kernel.FingerprintOpen | crates/omne-execution-gateway/src/gateway.rs:1566-1586 | The digest is of bytes each of which the file held at its place at some moment of the reading; a steady file is read to its end in a number of reads its length tells. |
| ProgramBinding.StableRead | crates/omne-execution-gateway/src/gateway.rs:1566-1586 | A file that nobody writes to meanwhile is fingerprinted as it is. |
| ProgramBinding.PrepareAndRun | crates/omne-execution-gateway/src/gateway.rs:1486-1526 | With arbitrary changes before and after every step, what is started is the inode bound at preparation if and only if it is started by descriptor, as on Linux, or the path names that inode still at the moment of opening; so a path that nobody renames from its last check on is safe. Where nothing changes and no call is refused, the program that the path names is started, on Linux as elsewhere. |
| ProgramBinding.SwapIsNotNoticed | crates/omne-execution-gateway/src/gateway.rs:1515-1526 | Where programs are started by path, for every program and every other inode there is a world in which binding and revalidation pass and the other inode is started. |
| ProgramBinding.UnchangedContent | crates/omne-execution-gateway/src/gateway.rs:1589-1653 | If the bound file is not written to during either check and the digest tells contents apart, the content checked last is the content bound. |
| WrapperCommands.ScanSubcommand | crates/omne-execution-gateway/src/gateway.rs:780-870 | The option loops of the four wrappers compute the same scan, never out of range, and leave a strictly shorter argument list. |
| WrapperCommands.NiceTakes | crates/omne-execution-gateway/src/gateway.rs:809-832 | `-n` and `--adjustment` take the next argument, whatever it is. |
| WrapperCommands.StdbufTakes | crates/omne-execution-gateway/src/gateway.rs:851-870 | `-i`, `-o` and `-e` take the next argument. |
| WrapperCommands.TimeoutTakes | crates/omne-execution-gateway/src/gateway.rs:780-807 | `-k`, `--kill-after`, `-s` and `--signal` take the next argument, and a duration comes before the command. |
| WrapperCommands.OthersTakeNothing | crates/omne-execution-gateway/src/gateway.rs:809-870 | Any other option of `nice`, `setsid` and `stdbuf` stands for itself only. |
| WrapperCommands.OthersOfTimeout | crates/omne-execution-gateway/src/gateway.rs:780-807 | So does any other option of `timeout`. |
| WrapperCommands.NohupPasses | crates/omne-execution-gateway/src/gateway.rs:771-778 | `nohup` passes everything on, after at most one `--`. |
| WrapperCommands.WrappersAnywhere | crates/omne-execution-gateway/src/gateway.rs:756-769 | The five wrappers are known by the last component of the program path. |
| WrapperCommands.LaunchersAnywhere | crates/omne-execution-gateway/src/gateway.rs:684-719 | Shells, interpreters and package runners are opaque, wherever they are. |
| WrapperCommands.VersionsAreOpaque | crates/omne-execution-gateway/src/gateway.rs:717-727 | So are Python and pip with any version of digits and dots. |
| WrapperCommands.SuffixesAndCase | crates/omne-execution-gateway/src/gateway.rs:905-925 | Letter case and an executable suffix of the name are of no account. |
| WrapperCommands.OnlyAsciiIsKnown | crates/omne-execution-gateway/src/gateway.rs:905-917 | A program whose name is not ASCII has no name to be judged by, and any other has. |
| WrapperCommands.UnwrapsPrinted | crates/omne-execution-gateway/src/gateway.rs:756-870 | Unwrapping undoes printing, for every accepted way to write a wrapper. |
| WrapperCommands.UnwrappedIsPrinted | crates/omne-execution-gateway/src/gateway.rs:756-870 | Everything that can be unwrapped is the printing of an accepted layer around what is found. |
| WrapperCommands.OpaqueSomewhere | crates/omne-execution-gateway/src/gateway.rs:746-754 | The check says yes exactly when some program on the chain is an opaque launcher. |
| WrapperCommands.NestingIsTransparent | crates/omne-execution-gateway/src/gateway.rs:746-769 | Any nesting of wrappers around a command is judged as the command itself. |
| LexicalPaths.NormalizePathLexical | crates/omne-fs/src/path_utils.rs:116-184 | The loop computes the normal form. |
| LexicalPaths.SegmentsAreLex | crates/omne-fs/src/path_utils.rs:116-142 | The normal form is `..`s, then names, and has no `..` when rooted. |
| LexicalPaths.NormalizeIdempotent | crates/omne-fs/src/path_utils.rs:116-184 | Normalizing again changes nothing. |
| LexicalPaths.NormalizeCanonical | crates/omne-fs/src/path_utils.rs:116-184 | Two paths normalize to the same path exactly when they lead to the same place from every starting point of a link-free tree. |
| LexicalPaths.AbsolutePathLexical | crates/omne-execution-gateway/src/gateway.rs:1127-1147 | The gateway's form is the normal form of the path, joined to the working directory when relative. |
| LexicalPaths.LexicallyNormalizePath | crates/omne-artifact-install-primitives/src/archive_tree.rs:276-291 | The installer's loop computes a form that can keep one `..`. |
| LexicalPaths.InstallerAgreesAbsolute | crates/omne-artifact-install-primitives/src/archive_tree.rs:276-291 | On absolute paths the installer's form is the normal form exactly when the path climbs above the root an even number of times. |
| LexicalPaths.InstallerAgreesRelative | crates/omne-artifact-install-primitives/src/archive_tree.rs:276-291 | On relative paths it is so exactly when the path climbs at most once, but for a lone dot written as nothing. |
| PathBoundary.NormalizedForBoundary | crates/omne-fs/src/path_utils.rs:229-265 | The fast path returns the normal form for every path, and borrows exactly the paths that are names only or dots only. |
| PathBoundary.StripPrefixNormalized | crates/omne-fs/src/path_utils.rs:312-319 | For every prefix but the empty one it finds something exactly when the path starts with the prefix, and joining the two gives the path back. |
| PathBoundary.StripAgreesWithStartsWith | crates/omne-fs/src/path_utils.rs:273-319 | For every path and prefix, stripping finds something exactly when the path starts with the prefix, if and only if the prefix is not empty or the path normalizes to a lone dot. |
| PathBoundary.StartsWithEmpty | crates/omne-fs/src/path_utils.rs:273-319 | A path starts with the empty prefix exactly when it normalizes to a lone dot, that is, leads nowhere else. |
| PathBoundary.PathsEqual | crates/omne-fs/src/path_utils.rs:325-341 | Equal are exactly the paths that lead to the same place from everywhere. |
| PathBoundary.ResolvePathChecked | crates/omne-fs/src/policy.rs:567-594 | For an absolute root, or one that ends in a name, a request is accepted exactly when it leads to the root or below it from every starting point; the path returned leads where the request does: where an absolute request leads by itself, or on from the root. |
| PathBoundary.RequestedLeads | crates/omne-fs/src/policy.rs:567-594 | A request leads where it leads by itself if absolute, and otherwise on from where the root leads. |
| PathBoundary.UnanchoredRootMisjudges | crates/omne-fs/src/policy.rs:567-594 | For any other root the check is wrong about some request. |
| Redaction.RedactTextOutcome | crates/omne-fs/src/redaction.rs:129-192 | The two alternating buffers compute the passes one after the other; what a buffer held before never matters. |
| Redaction.ReplaceRegexWithLimit | crates/omne-fs/src/redaction.rs:277-307 | One pass writes the text with every match replaced, each piece at its position and nothing else, or reports that its full length is over the limit. |
| Redaction.LimitWhenSomePassIsTooLong | crates/omne-fs/src/redaction.rs:129-192 | The limit is reported exactly when the full output of some pass is over it, and otherwise makes no difference. |
| Redaction.RedactorBorrows | crates/omne-fs/src/redaction.rs:129-192 | The input is returned as it is exactly when it is empty or no pattern matches it. |
| Redaction.ResultWithinLimit | crates/omne-fs/src/redaction.rs:258-307 | What a redaction that replaced something returns is within the limit. |
| Redaction.ReplacedLength | crates/omne-fs/src/redaction.rs:277-307 | A pass takes out what matched and puts in one replacement for each match. |
| Redaction.ReplacedByPosition | crates/omne-fs/src/redaction.rs:277-307 | Every piece of the output is where it belongs: the replacement at each match and the text between the matches around it, moved by what was put in and taken out before. |
| Redaction.PassMeaning | crates/omne-fs/src/redaction.rs:129-192 | What one pass does to the outcome of the passes before it: nothing if the text is empty or not matched, the limit if the output would be over it, and otherwise that output by position. |
| BinaryArchive.CopyEntryWithLimit | crates/omne-archive-primitives/src/binary_archive.rs:818-858 | The outcome depends on the content only, and what has been written is a beginning of it within the limit. |
| BinaryArchive.ExtractBuffered | crates/omne-archive-primitives/src/binary_archive.rs:338-398 | The buffered scan computes the selection. |
| BinaryArchive.ExtractToWriter | crates/omne-archive-primitives/src/binary_archive.rs:400-472 | While the writer takes what it is given, the outcome is that of the buffered scan and the writer gets exactly its bytes; without a hint an extraction error leaves the writer untouched, with one it has at most a beginning within the limit. |
| BinaryArchive.UnhintedExtraction | crates/omne-archive-primitives/src/binary_archive.rs:338-398 | Without a hint a binary is extracted exactly when all entries can be read and counted and exactly one matches, is regular and fits; and then it is that one. |
| BinaryArchive.HintedExtraction | crates/omne-archive-primitives/src/binary_archive.rs:360-384 | With a hint the first entry at that path decides, whatever follows it: its content if it is regular and fits, and otherwise the error that says what is wrong with it. |
| BinaryArchive.HintedNotFound | crates/omne-archive-primitives/src/binary_archive.rs:360-398 | Nothing is found exactly when all entries can be read and counted and none is at the hint. |
| BinaryArchive.UnhintedRefusal | crates/omne-archive-primitives/src/binary_archive.rs:338-398 | Without a hint the first entry that is unreadable, one too many, an unfit match or a second match decides which error it is, and names the paths it is about. |
| BinaryArchive.UnhintedNotFound | crates/omne-archive-primitives/src/binary_archive.rs:786-795 | Nothing is found exactly when all entries can be read and counted and none matches. |
| BinaryArchive.MatchesAreInBin | crates/omne-archive-primitives/src/binary_archive.rs:931-933 | A match is the binary in `bin` at the top or in the `bin` of some directory. |
| BinaryArchive.HintMeans | crates/omne-archive-primitives/src/binary_archive.rs:924-929 | A hint loses the white space at its ends and then its leading slashes and backslashes, its other backslashes become slashes, and if nothing is left it is no hint. |
| BinaryArchive.ChunkingDoesNotMatter | crates/omne-archive-primitives/src/binary_archive.rs:818-858 | How readers divide their data changes neither result nor error. |

## Left out

- AtomicDirectory.CommitReplaceDirectory: assumes that no entry of the parent has a directory name this process has yet to generate, because the code accepts a directory that has it; and that a call reports a missing name only when it is missing.
- AtomicDirectory.MoveAside: the same assumption about generated backup names.
- StagedDirectory.StagedAtomicDirectory.Commit: the same assumption about generated names.
- TreeInstall.InstallArchiveTree: the same assumption, and the advisory lock around it is taken as held.
- CandidateInstall.InstallFirst: assumes that the destination is not itself a name that will be generated for the asset; the advisory lock is one parameter, taken or not.
- AtomicFile.StageFile: the same assumption about the destination's name, which holds whenever the staged name is made from it.
- ConcurrentWriters.DestinationIsAlwaysWhole: assumes, as do the theorems beside it, that process ids and clocks tell the processes apart, without which two writers can have one staged name.
- HardLinks.ResolvePending: the exact condition for success is stated for links with one absent output each; the general case is stated as far as the run invariant and the outputs that are directories.
- TreeExtraction.ExtractTree: what exactly is left, and which archives succeed, is stated for pairwise distinct paths and an empty root, the latter when no archive path uses a name that is going to be generated; otherwise only the run invariant is.
- ArchiveEntries.ValidateLinkTarget: lexical, as in the code; where a stored link leads physically is not modelled.
- ProgramBinding.Kernel.FingerprintOpen: files have a largest size, without which reading a file that keeps growing need not end.
- Directory identities in revalidation, and the sandbox backends: one outcome each in the life of an execution.
- Parents of a destination: resolving and creating them; a commit starts from the opened parent directory.
- Durability: `fsync` is a call that can fail; what a power loss would lose is not modelled.
- Tar, zip, gzip and xz decoding: an archive is a sequence of typed entries; only the tar walk is modelled, the zip walk has the same visits.
- SHA-256, regular expressions and globs: functions of bytes or text.
- Error texts, JSON, URL redaction, and the detail attached to a single failed candidate.
- Windows path rules and platform aliases of root directories.
- Policy loading, limit checks, PATH search and the mutation policy's allowlists: single lookups or branches.
- Custom names for staged files: only as the asset name from which a staged name is made.
