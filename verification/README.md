# Verified core of the archive manager

A Dafny model of the parts of the archive manager that hold algorithms of their
own: transactional replacement of extracted files, atomic publication of output
files, the error-correction coder for raw CD sectors, the MTREE, CPIO and AR
readers, the lzop decoder, the archive planner with its gitignore rules, RAR link
targets and MSI packages. The theorems are statements about all inputs, all runs or
all reachable states of the model. Where a property fails of the code, a lemma shows
a single failing input or run, and a theorem beside it says exactly when the
property holds.

`dafny verify dfyconfig.toml` checks everything.

## What is modelled, and how

**Transactional replacement** (`FileSystem`, `RarReplacements`, `RarCleanup`,
`RarExtraction`). The disk is a map from paths to nodes. The undo log of a RAR
extraction is a state machine over that map whose steps are displacing an
original, reserving a temporary, writing to it, and creating absent files and
directories. The proofs rest on one idea: every displacement relabels paths, so
the disk can be *viewed* through the log as the tree it would become if the log
were undone, and every step keeps that view equal to the starting tree.
`RarExtraction` holds the log as the class the program uses, with every failure
point of the commit as a parameter, and shows that planned entries, in the order
the stable sort gives them, only take steps of that machine.

**Atomic publication** (`AtomicPublish`, `AtomicFile`, `SecretFile`). Names lead to inodes, and
any number of writers take the individual file-system calls of the protocol in any
interleaving, with crashes anywhere. `AtomicFile` is the output-file object, whose
methods are shown to take exactly those steps, and the copy loop on top of it.
`SecretFile` is the protocol of the secret-file writer, which removes a candidate
name that is taken before it tries the next.

**Raw Mode 1 sectors** (`Galois`, `ByteTables`, `SectorCoder`, `SectorErrors`,
`Edc`, `SectorImage`, `DivMod`). Section 14.3 and Annex A of ECMA-130: the parity bytes
are proved to complete Reed-Solomon codewords for every table, walk and data
vector, from the laws of the field alone, and a wrong byte to be found by its
syndromes; the table-driven checksum is proved equal to the bit-serial one.

**MTREE** (`Text`, `Mtree`, `MtreeForms`, `MtreeDefaults`), **CPIO** (`Cpio`,
`CpioForms`, `CpioFaults`), **AR** (`Ar`, `ArForms`, `ArFaults`) and **lzop**
(`ByteOrder`, `Lzop`, `LzopReader`, `LzopForms`). Each reader is a method with the
program's loops, proved equal to a function; each format has a printer of its own,
and the function is proved to invert it. Faulty lines, records, members, headers and
blocks are printed as well, and the problem each is reported with is proved. For MTREE the elimination
of `/set` defaults is proved to preserve meaning. For lzop and the bounded decoder
the result is proved independent of buffer sizes and of the pieces in which the
input arrives.

**Planner** (`Wildcard`, `Gitignore`, `Pruning`, `SortedPaths`, `Planner`,
`PlanProperties`, `PlanExclusions`). The walk over a source tree with its shared rule
stack, what it accounts for, exactly which nodes it leaves out, and when a directory
it prunes holds nothing the rules would keep.

**Links and packages** (`RarLinks`, `Msi`, `MsiForms`). Relative link targets, the
names and paths of installer tables, directory resolution, cabinet grouping and the
account kept of every file row.

Bytes of the text formats are characters below 256. Clock readings, process
identifiers, inode numbers, read sizes, I/O failures, the block decompressor, the
lzop checksums and path normalization are parameters.

Where the code is narrower than its comments, the model follows the code and states
the exact condition: a doubled backslash at the end of an MTREE word
(`MtreeForms.DoubledBackslashIff`) and octal escapes above 377
(`MtreeForms.OctalTripleIff`), the unreduced CPIO byte sum (`CpioForms.CrcAccepts`)
and the owner taken for the device of a hard link (`CpioForms.LinkedByOwner`),
the check-then-rename fallback (`AtomicPublish.AtMostOneWinnerIff`), clearing before
a rename (`AtomicPublish.FinalStaysIff`), secret-file writers that share candidate
names (`SecretFile.OwnershipIff`), a failed move onto a directory
(`RarReplacements.FailingFinalKeptIff`), and wildcards in gitignore pruning
(`Pruning.PassesDownIff`, `Pruning.ReachesBelowIff`, `Pruning.PruningIsExact`).

## Model

| member | source | states |
|---|---|---|
| `RarReplacements.RollbackRestoresStart` | crates/zmanager-core/src/rar_backend.rs:538-616 | after every run of the log, dropping it gives each path of the starting tree its node back and leaves no temporary or aside name; only plain paths the run created remain besides |
| `RarReplacements.RunKeepsInvariant` | crates/zmanager-core/src/rar_backend.rs:551-590 | every run keeps the invariant that the tree seen through the log is the starting tree, temporaries are in place and hidden names are in order |
| `RarReplacements.DropLookup` | crates/zmanager-core/src/rar_backend.rs:605-616 | what dropping the log leaves at every single path, paths displaced twice and temporaries below displaced paths included |
| `RarReplacements.CommitReplaces` | crates/zmanager-core/src/rar_backend.rs:593-603 | for finals that are distinct and not nested, a successful commit gives each final its temporary's content, leaves no hidden name, and leaves every path that was neither displaced nor replaced as it was |
| `RarReplacements.FailedCommitRestores` | crates/zmanager-core/src/rar_backend.rs:593-636 | a move that fails at file `i` leaves the finals before `i` new, restores everything displaced, leaves the final of `i` as it was unless it was a directory, leaves the later ones as they were, and leaves no hidden name |
| `RarReplacements.FailingFinalKeptIff` | crates/zmanager-core/src/rar_backend.rs:593-636 | in every reached state, a move that fails at file `i` gives back all that was at or below its final, however far clearing got, if and only if the final is not a directory when the move starts, or was displaced, or was not there at the start |
| `RarReplacements.FailedMoveLosesDirectory` | crates/zmanager-core/src/rar_backend.rs:623-636 | the failing input: for any two names, a move that fails after clearing a directory loses what the directory held |
| `RarReplacements.LossIsReached` | crates/zmanager-core/src/rar_backend.rs:551-569 | the state of that loss is reached by a run of the log |
| `RarReplacements.DisplacingAfterReservingLeaks` | crates/zmanager-core/src/rar_backend.rs:738-745 | displacing a directory after reserving a temporary in it would bring the temporary back, which is why directories are committed first |
| `RarCleanup.FailedCleanup` | crates/zmanager-core/src/rar_backend.rs:593-616 | when deleting the displaced original at `k` fails, after any part of it is gone, everything below originals displaced before `k` is as at the start, what is left of the one at `k` stands at its aside, and every other path is as a successful commit leaves it, so that the finals are new and the later originals deleted |
| `FileSystem.ReplaceIsMove` | crates/zmanager-core/src/safety.rs:1158-1173 | clearing a destination and renaming a sibling over it moves the whole subtree |
| `FileSystem.MoveBack` | crates/zmanager-core/src/rar_backend.rs:605-616 | moving a subtree away and back restores the tree |
| `RarExtraction.PendingReplacements.Reserve` | crates/zmanager-core/src/rar_backend.rs:538-569 | takes the reserving step of the log, or changes nothing; it gives up only when all candidate names are taken |
| `RarExtraction.PendingReplacements.Displace` | crates/zmanager-core/src/rar_backend.rs:571-591 | takes the displacing step of the log, or changes nothing |
| `RarExtraction.PendingReplacements.MoveOver` | crates/zmanager-core/src/rar_backend.rs:623-636 | succeeds as a subtree move; a failure only removes paths at or below the final, and nothing when the final is not a directory |
| `RarExtraction.PendingReplacements.Commit` | crates/zmanager-core/src/rar_backend.rs:593-603 | for every pattern of faults: it succeeds exactly when no fault comes to bear on a move or a deletion; success is the commit of the log, a failed move is its interruption at that file followed by the rollback, and a failed cleanup, which may have deleted part of an aside, is its stop at that aside followed by putting back the earlier ones |
| `RarExtraction.PendingReplacements.Drop` | crates/zmanager-core/src/rar_backend.rs:605-616 | removes the temporaries and restores the originals in reverse order, ignoring errors |
| `RarExtraction.SortPlansFacts` | crates/zmanager-core/src/rar_backend.rs:738-745 | the plan sort puts directories first, parents before children, is a permutation, and keeps archive order within each key |
| `RarExtraction.CommitPlannedEntry` | crates/zmanager-core/src/rar_backend.rs:799-819 | committing one planned entry is a run of the log; on success a directory stands in place, a file has its parent, and the log has grown by what the plan replaces; a failure means that something other than a directory is in the way, that the path to displace is missing, or that all names are taken |
| `RarExtraction.CommitPlans` | crates/zmanager-core/src/rar_backend.rs:738-752 | committing all plans in sorted order is a run of the log from its beginning that displaces outermost paths first; on success every planned directory and the parent of every planned file is a directory, the finals of the log are the replaced files in archive order, and the displaced originals are the replaced directories by depth and in archive order within each depth; a failure has a plan that is blocked |
| `FileSystem.CreateDirectoriesIff` | crates/zmanager-core/src/rar_backend.rs:806-813 | creating a directory with its parents succeeds exactly when nothing but directories stands at or above it, and adds exactly the missing ones |
| `RarLinks.RelativePath` | crates/zmanager-core/src/rar_backend.rs:1059-1072 | the loops climb from the parent to the last common directory and descend to the target |
| `RarLinks.LinkTargetsAgree` | crates/zmanager-core/src/rar_backend.rs:1011-1072 | for all normalized links and targets that survive stripping, the relative target resolves from the stripped link's directory to the stripped target, which is the materializer's source, and no path there climbs less |
| `AtomicPublish.TemporaryHasOneOwner` | crates/zmanager-core/src/atomic_file.rs:18-41 | in every reachable state of every interleaving, a temporary in use exists, holds what its writer wrote, and belongs to that writer alone |
| `AtomicPublish.ReaderSeesOldOrComplete` | crates/zmanager-core/src/atomic_file.rs:55-108 | a reader of a final path always sees the old content or the content some writer had when it closed its file, whatever crashes |
| `AtomicPublish.FinalNeverDisappears` | crates/zmanager-core/src/atomic_file.rs:78-96 | a final path that exists keeps existing as long as nobody clears it, which atomic replacement never does |
| `AtomicPublish.FinalStaysIff` | crates/zmanager-core/src/atomic_file.rs:55-110 | over any stretch of a run, a final that can be read stays readable in every state if and only if no step of the stretch clears it |
| `AtomicPublish.AtMostOneWinnerIff` | crates/zmanager-core/src/atomic_file.rs:98-128 | refusing writers on an absent final have at most one winner in every state if and only if every check-then-rename still finds the path absent when it renames |
| `AtomicPublish.WinnerStays` | crates/zmanager-core/src/atomic_file.rs:98-128 | once a refusing call has been made there is a winner; it stays the only one and its content is what readers see from then on |
| `AtomicPublish.CheckThenRenameClobbers` | crates/zmanager-core/src/atomic_file.rs:112-128 | a run in which the fallback lets two writers win |
| `AtomicPublish.ClobberNeedsRace` | crates/zmanager-core/src/atomic_file.rs:112-128 | a check-then-rename overwrites a path only if another writer published it after the check had found it absent |
| `AtomicPublish.ClearingCanLoseTheFile` | crates/zmanager-core/src/atomic_file.rs:98-110 | the failing run: a crash between clearing and renaming loses the old file, unlike atomic replacement |
| `SecretFile.OwnershipIff` | crates/zmanager-core/src/atomic_file.rs:229-283 | in every state of every run each writer finds its own bytes under its temporary name, if and only if no two writers share candidate names |
| `SecretFile.SharedKeyLosesTemporary` | crates/zmanager-core/src/atomic_file.rs:266-273 | for any two writers that share candidate names, a run in which one removes the temporary of the other |
| `SecretFile.SecretIsOldOrComplete` | crates/zmanager-core/src/atomic_file.rs:229-283 | when no two writers share candidate names, the secret file holds its bytes of the start or the complete bytes of some writer, in every state and whatever crashes |
| `SecretFile.NoLeftovers` | crates/zmanager-core/src/atomic_file.rs:246-283 | without crashes and with distinct candidate names, every candidate name that was not there at the start is that of a writer at work |
| `SecretFile.HundredAttempts` | crates/zmanager-core/src/atomic_file.rs:247-282 | a writer that finds a candidate taken tries the next, and gives up after exactly a hundred |
| `AtomicFile.Create` | crates/zmanager-core/src/atomic_file.rs:18-41 | creates a temporary under a name nobody has, or fails changing nothing after a hundred taken names |
| `AtomicFile.AtomicOutputFile.CommitWithReplace` | crates/zmanager-core/src/atomic_file.rs:55-110 | publishes with the clearing rename or the exclusive rename, succeeding exactly when replacement is allowed or the path is absent; replacing, the entries seen on the way are those without the path and then the new ones |
| `AtomicFile.AtomicOutputFile.CommitWithAtomicReplace` | crates/zmanager-core/src/atomic_file.rs:78-96 | publishes by one replacing rename, with nothing seen on the way |
| `AtomicFile.AtomicOutputFile.Drop` | crates/zmanager-core/src/atomic_file.rs:322-329 | removes the temporary unless it was committed |
| `AtomicFile.CopyFileEntry` | crates/zmanager-core/src/extract_loop.rs:170-207 | all or nothing: success publishes exactly the concatenated chunks, failure leaves every name as it was, and failure happens only for a read error, a refused replacement or exhausted names |
| `Galois.ParityCompletesWord` | scripts/make_raw_mode1_cue.py:55-71 | in any lawful arithmetic, the two parity symbols found from the running sums make both syndromes zero |
| `SectorCoder.BuildEccTables` | scripts/make_raw_mode1_cue.py:28-37 | the forward table doubles in GF(2^8) mod 0x11D and the backward table inverts `x xor 2x`, for every byte |
| `SectorCoder.Ecc` | scripts/make_raw_mode1_cue.py:55-71 | for every data vector and every walk, each pair of emitted bytes completes the codeword of its walk |
| `SectorErrors.OneErrorIsLocated` | scripts/make_raw_mode1_cue.py:55-71 | after any change of one byte of a codeword of up to 45 bytes, the longest of both parities, the plain syndrome is the change and never zero, the weighted syndrome fits the changed place and no other, and adding the plain syndrome there gives the codeword back |
| `SectorCoder.VisitDirectly` | scripts/make_raw_mode1_cue.py:58-65 | the stepwise index walk stands at the closed-form index after any number of steps |
| `SectorImage.PVisitsOnce` | scripts/make_raw_mode1_cue.py:90-91 | each byte of the P area is visited by exactly one codeword at exactly one step |
| `SectorImage.QVisitsOnce` | scripts/make_raw_mode1_cue.py:90-91 | each byte of the Q area is visited by exactly one codeword at exactly one step, along the diagonals |
| `Edc.BuildTable` | scripts/make_raw_mode1_cue.py:18-25 | the table holds eight shifts of every byte |
| `Edc.Checksum` | scripts/make_raw_mode1_cue.py:48-52 | the table-driven checksum equals the bit-serial CRC with polynomial 0xD8018001, for every byte string |
| `Edc.StepIsFeedBits` | scripts/make_raw_mode1_cue.py:48-52 | one table step feeds the eight bits of a byte |
| `Edc.PolynomialFactors` | scripts/make_raw_mode1_cue.py:18-25 | the polynomial is the product of the two that ECMA-130 gives, lowest power first |
| `Edc.ResidueIsZero` | scripts/make_raw_mode1_cue.py:84-88 | appending the little-endian checksum gives residue zero |
| `SectorImage.HeaderNamesBlock` | scripts/make_raw_mode1_cue.py:44-45 | the header holds the sync pattern, three binary-coded decimals in the ranges of minutes, seconds and frames that decode to the block number plus 150, and mode 1 |
| `SectorImage.RawSector` | scripts/make_raw_mode1_cue.py:74-93 | succeeds exactly on whole sectors within 99 minutes, and then gives a sector with the right header, the payload, a zero checksum residue and both parities complete |
| `SectorImage.WriteImage` | scripts/make_raw_mode1_cue.py:96-120 | writes a valid raw sector for every sector of the image |
| `SectorImage.CookedIsIso` | scripts/make_raw_mode1_cue.py:108-110 | bytes 16 to 2063 of the sectors give the image back |
| `Mtree.DecodeWord` | crates/zmanager-core/src/mtree_backend.rs:75-97 | the index loop computes the recursive decoding of escapes |
| `Mtree.Parse` | crates/zmanager-core/src/mtree_backend.rs:148-231 | the loop over lines computes the reader's run over them, with the line number of the first error |
| `Mtree.List` | crates/zmanager-core/src/mtree_backend.rs:340-368 | succeeds exactly when all paths but the tree root are safe and distinct, and then numbers them in order, each with its kind, type name, size and link |
| `Mtree.TreeRootIff` | crates/zmanager-core/src/mtree_backend.rs:475-479 | a path is the tree root exactly when it is `.` or nothing behind any number of `./` |
| `MtreeForms.UnescapeEscape` | crates/zmanager-core/src/mtree_backend.rs:75-97 | decoding undoes octal escaping for every byte string |
| `MtreeForms.DoubledBackslashIff` | crates/zmanager-core/src/mtree_backend.rs:79-83 | a doubled backslash decodes to one backslash if and only if something follows it |
| `MtreeForms.OctalTripleIff` | crates/zmanager-core/src/mtree_backend.rs:84-91 | an octal triple decodes to its value if and only if its first digit is at most 3, and otherwise to the value modulo 256 |
| `MtreeForms.EscapeLimits` | crates/zmanager-core/src/mtree_backend.rs:79-91 | the failing words: a lone doubled backslash, and 400, which decodes as 000 |
| `MtreeForms.ReadsEntry` | crates/zmanager-core/src/mtree_backend.rs:193-228 | reading a printed directory tree appends its records and leaves the directory stack as it was, from any reader state without defaults |
| `MtreeForms.NestedRoundTrip` | crates/zmanager-core/src/mtree_backend.rs:148-231 | reading the nested form of any forest gives its preorder records with full paths, types, sizes and links |
| `MtreeForms.FullRoundTrip` | crates/zmanager-core/src/mtree_backend.rs:193-228 | reading the full-path form gives any list of records back, under a leading `./` |
| `MtreeForms.FormsAgree` | crates/zmanager-core/src/mtree_backend.rs:193-228 | both forms of one forest read alike up to the leading `./` |
| `MtreeForms.ClosingRootClosesParent` | crates/zmanager-core/src/mtree_backend.rs:215-220 | closing `.` inside a directory closes that directory instead |
| `MtreeForms.DefaultElimination` | crates/zmanager-core/src/mtree_backend.rs:167-228 | every manifest reads to the same records, or the same error on the same line, when its `/set` and `/unset` lines are blanked and its records carry their effective keywords, inherited `type=dir` included |
| `MtreeDefaults.ManifestMeaning` | crates/zmanager-core/src/mtree_backend.rs:148-231 | any printed manifest of `/set`, `/unset`, bare and full-path entries, closing lines, remarks and foreign keywords reads to the records the lines mean one after the other: what a line says wins over the defaults, and bare directories nest |
| `MtreeDefaults.UnsetClears` | crates/zmanager-core/src/mtree_backend.rs:174-185 | `/unset` clears exactly the keywords that some word mentions, alone or with a value |
| `MtreeDefaults.UnsetTypeForgets` | crates/zmanager-core/src/mtree_backend.rs:174-185 | after `/unset` of `type`, an entry without a type has none and encloses nothing |
| `MtreeDefaults.FaultIsReported` | crates/zmanager-core/src/mtree_backend.rs:186-240 | a type that is none, a size that is no 64-bit number, or an unknown directive stops the reader with that problem and its line number, whatever follows |
| `MtreeDefaults.WordsAreSeparated` | crates/zmanager-core/src/mtree_backend.rs:121-125 | words are what spaces, tabs and carriage returns separate |
| `Wildcard.WildcardMatches` | crates/zmanager-core/src/wildcard.rs:11-43 | the greedy loop decides exactly the recursive meaning of the pattern, for any tokens |
| `Wildcard.LiteralMatchesItself` | crates/zmanager-core/src/wildcard.rs:47-49 | a pattern without wildcards matches itself only |
| `Gitignore.ParseRule` | crates/zmanager-core/src/gitignore.rs:103-129 | a rule's pattern is never empty and has no slash at either end |
| `Gitignore.RuleRoundTrip` | crates/zmanager-core/src/gitignore.rs:103-129 | every rule can be written with any number of slashes and any spaces around its pattern and reads back, its negation, anchoring and restriction to directories included |
| `Gitignore.RulesRoundTrip` | crates/zmanager-core/src/gitignore.rs:88-100 | rules written one to a line, with remarks and empty lines between, read back in the order in which they are written |
| `Gitignore.DoubleStarSpans` | crates/zmanager-core/src/gitignore.rs:158-171 | `**` between two patterns stands for any number of segments |
| `Gitignore.RulesStayBelow` | crates/zmanager-core/src/gitignore.rs:21-63 | a rule matches nothing that is not below its base |
| `Gitignore.Decision` | crates/zmanager-core/src/gitignore.rs:132-139 | the last matching rule decides |
| `Pruning.PassesDownIff` | crates/zmanager-core/src/gitignore.rs:21-47 | a rule that matches a directory matches all files, or all directories, below it if and only if, for a path rule, the directory is at or below the literal pattern or the pattern has a `**` segment after which every segment matches every name, and, for another rule, a segment matches or, for directories and a rule not restricted to them, only `?` follow its last `*` |
| `Pruning.ReachesBelowIff` | crates/zmanager-core/src/gitignore.rs:49-67 | an including rule that pruning does not see matches something below the directory if and only if some of its segments, but not all, match the directory |
| `Pruning.PruningIsSound` | crates/zmanager-core/src/gitignore.rs:21-67 | when a directory is pruned, its deciding rule passes down and no later including rule reaches below, every path below is ignored by the same rules |
| `Pruning.PruningIsExact` | crates/zmanager-core/src/gitignore.rs:21-67 | with one ignoring rule and any including rules, everything below a pruned directory is ignored if and only if that condition holds |
| `Pruning.LiteralRulesSettle` | crates/zmanager-core/src/gitignore.rs:21-67 | rules without wildcards meet that condition at every directory they prune |
| `Pruning.WildcardDoesNotPassDown` | crates/zmanager-core/src/gitignore.rs:154-156 | a failing input: an anchored wildcard rule prunes a directory whose files it does not match |
| `Pruning.WildcardIncludeIsMissed` | crates/zmanager-core/src/gitignore.rs:49-63 | a failing input: a wildcard including rule missed by pruning |
| `Pruning.WholePathDoesNotPassDown` | crates/zmanager-core/src/gitignore.rs:21-47 | a failing input: a rule without a slash that matches a directory by its whole path only |
| `Planner.ManifestPlanner.Walk` | crates/zmanager-core/src/manifest.rs:278-357 | the walk appends the plan of its node to both lists, keeps the totals the saturating sums, and returns with the rule stack as it found it |
| `Planner.PlanArchiveRoots` | crates/zmanager-core/src/manifest.rs:240-260 | the manifest is the sorted plan of all roots with its totals, or the first error |
| `PlanProperties.EveryNodeOnce` | crates/zmanager-core/src/manifest.rs:278-357 | every node is exactly one of planned, excluded, and strictly below exactly one excluded path; nothing is listed twice |
| `PlanProperties.OrderIndependence` | crates/zmanager-core/src/manifest.rs:240-260 | the order in which directories list their children, and roots are given, has no effect on whether planning succeeds or on the manifest |
| `PlanProperties.ExplicitIncludesWin` | crates/zmanager-core/src/manifest.rs:359-433 | without gitignore rules, an existing node at or below an include path is planned if and only if no directory above it, other than the root, is a `.DS_Store` that the profile excludes and no include reaches |
| `PlanProperties.PrunedNodesAreIgnored` | crates/zmanager-core/src/manifest.rs:335-350 | whatever lies below a directory the walk dropped because of gitignore is ignored by the rules on the stack there, whose bases all lie strictly above it |
| `PlanExclusions.ExclusionIff` | crates/zmanager-core/src/manifest.rs:359-433 | a node the walk comes to is excluded if and only if it is no root, no include reaches it, and it is Finder metadata, or unclean or listed by name or path without being a folder above an include, or not listed and ignored by the last matching rule in force there, with no later rule that could include below a folder; otherwise it is planned |
| `PlanExclusions.ReasonsAreRight` | crates/zmanager-core/src/manifest.rs:359-417 | every exclusion is reported with the first reason that applies and the size of the file left out |
| `PlanExclusions.EntriesDescribeNodes` | crates/zmanager-core/src/manifest.rs:278-312 | every planned entry has the type and size of its node, sizes counting for regular files only |
| `PlanExclusions.ManifestIsSorted` | crates/zmanager-core/src/manifest.rs:248-251 | the manifest lists exactly what is planned and what is excluded, each in the byte order of the paths |
| `PlanExclusions.TotalsAreSums` | crates/zmanager-core/src/manifest.rs:303-318 | the totals are the sums of sizes over the two lists, capped at the largest 64-bit number |
| `Cpio.Parse` | crates/zmanager-core/src/cpio_backend.rs:362-388 | the record loop computes the entries up to the trailer, or the first error |
| `Cpio.AssignHardlinks` | crates/zmanager-core/src/cpio_backend.rs:569-584 | editing in place gives each entry its closed form, for every order of the candidates |
| `Cpio.CopyPayload` | crates/zmanager-core/src/cpio_backend.rs:600-619 | copies exactly the payload through buffers of any size; the result is the byte sum for crc archives and the length otherwise |
| `Cpio.VerifyPayload` | crates/zmanager-core/src/cpio_backend.rs:586-598 | computes the verdict: accepted exactly when the payload is complete and its byte sum equals the stored checksum, if there is one |
| `CpioForms.LinksAreDirect` | crates/zmanager-core/src/cpio_backend.rs:569-584 | an entry becomes a hard link exactly when it is an empty file with several links and a non-empty file has its key; it names the first such file, which stays a file; nothing else changes |
| `CpioForms.PayloadsAreAligned` | crates/zmanager-core/src/cpio_backend.rs:527-567 | in every archive that reads, payloads start at multiples of the encoding's alignment, none before its predecessor has ended, and entries are numbered in order |
| `CpioForms.ArchiveRoundTrip` | crates/zmanager-core/src/cpio_backend.rs:362-628 | in all four encodings, reading a printed archive gives its members in order, each with the kind its mode was printed for, its mode, time, inode, owner or device, link count, checksum and link target, an empty file with several names and a twin with data being a hard link to the first such twin |
| `CpioForms.LinkedByOwner` | crates/zmanager-core/src/cpio_backend.rs:475-490 | in newc and crc archives an empty file with several names is linked to a file with data exactly when inode and owner agree, whatever their devices |
| `CpioForms.NumbersRead` | crates/zmanager-core/src/cpio_backend.rs:630-637 | hexadecimal fields read in either case, octal fields with spaces around them, and blank octal fields as zero |
| `CpioForms.PlusReads` | crates/zmanager-core/src/cpio_backend.rs:630-637 | a plus sign may precede the digits of a field, but not stand alone |
| `CpioFaults.DetectIff` | crates/zmanager-core/src/cpio_backend.rs:409-426 | the format is the one whose magic the archive starts with, in both byte orders |
| `CpioFaults.FaultIsReported` | crates/zmanager-core/src/cpio_backend.rs:427-545 | behind any good members, a short header, another magic, a field that is no number, a name that is empty, too long, cut off or not terminated, or a link target cut off fails the archive with that problem |
| `CpioForms.PrintedPayloads` | crates/zmanager-core/src/cpio_backend.rs:427-567 | each entry of a printed archive names its member, and its payload lies at the entry's data offset |
| `CpioForms.CrcAccepts` | crates/zmanager-core/src/cpio_backend.rs:586-619 | in every printed crc archive, verification accepts a member if and only if it is neither a file nor a symbolic link once hard links are resolved, or its byte sum is below 2^32 |
| `Ar.Advance` | crates/zmanager-core/src/ar_backend.rs:242-302 | one turn of the loop, moving the position as the program does, ends exactly at the member's end |
| `Ar.Parse` | crates/zmanager-core/src/ar_backend.rs:231-320 | the two passes compute the archive's entries, or the first error |
| `Ar.PayloadsAreDisjoint` | crates/zmanager-core/src/ar_backend.rs:241-320 | in every archive that reads, each entry's index is its position, its payload lies inside the file, and payloads are disjoint and increasing |
| `Ar.FindPathOccurrence` | crates/zmanager-core/src/ar_backend.rs:206-219 | finds the entry with a given number of namesakes before it exactly when there is one |
| `ArForms.ArchiveRoundTrip` | crates/zmanager-core/src/ar_backend.rs:231-346 | for any mix of short, string-table and BSD names, and wherever the string table stands, reading a printed archive gives names, sizes, offsets, times and modes |
| `ArForms.PrintedPayloads` | crates/zmanager-core/src/ar_backend.rs:258-306 | each entry's range holds the payload of its file |
| `ArFaults.FaultIsReported` | crates/zmanager-core/src/ar_backend.rs:241-300 | behind any good members, a short header, a missing header trailer, a column that is no number, a payload beyond the archive, a bad or too long name length, or a wrong padding byte fails the archive with that problem |
| `ArFaults.MissingMagicIff` | crates/zmanager-core/src/ar_backend.rs:231-240 | an archive is refused for its magic exactly when it does not start with it |
| `ArFaults.SignedNumbersRead` | crates/zmanager-core/src/ar_backend.rs:335-346 | octal columns read with leading zeros, and numbers with a plus sign |
| `ArFaults.TableOffsets` | crates/zmanager-core/src/ar_backend.rs:322-331 | a name that points beyond the string table stands for itself, and one that points at its end for nothing |
| `LzopReader.Reader.ReadNextBlock` | crates/zmanager-core/src/lzop_decoder.rs:177-258 | reads the next block across part boundaries, for any pattern of short reads and interruptions |
| `LzopReader.Reader.Read` | crates/zmanager-core/src/lzop_decoder.rs:262-278 | the bytes delivered and those still to come are those that were to come before; zero bytes mean the end, and the end is final |
| `LzopReader.BoundedDecoder.Read` | crates/zmanager-core/src/decoded_reader.rs:34-57 | the same, for the stream cut off at the limit |
| `LzopReader.DecodeFile` | crates/zmanager-core/src/decoded_reader.rs:34-57 | for any input, short-read pattern and buffer sizes, the output is the whole stream if it fits the limit, else its first bytes followed by the size error |
| `LzopForms.HeaderParses` | crates/zmanager-core/src/lzop_decoder.rs:86-165 | a printed header of any fields reads back and leaves what follows, or fails with the first thing wrong with it: version, method, level or checksum |
| `LzopForms.RawBlockParses` | crates/zmanager-core/src/lzop_decoder.rs:177-258 | a printed block of any content gives its data and leaves what follows, or fails with the first thing wrong with it: size, either checksum, or decompression |
| `LzopForms.BadBlockEndsStream` | crates/zmanager-core/src/lzop_decoder.rs:177-258 | a block that goes wrong, a stored checksum that differs among them, ends the file's stream with that error after the data of the blocks before it |
| `LzopForms.BadHeaderEndsStream` | crates/zmanager-core/src/lzop_decoder.rs:74-165 | a header that goes wrong ends the stream before any data, with the first thing wrong with it |
| `LzopForms.FileRoundTrip` | crates/zmanager-core/src/lzop_decoder.rs:74-258 | decoding a printed file of any parts, stored or compressed blocks and checksums gives the data of all blocks in order, whatever trailer follows |
| `Msi.TargetDirComponents` | crates/zmanager-core/src/msi_backend.rs:133-143 | the loop collects the components in order |
| `MsiForms.DirectoryRoundTrip` | crates/zmanager-core/src/msi_backend.rs:133-143 | a printed `DefaultDir` adds the names of its target in order, in their long form, without the parent's own directory and the root, whatever the source |
| `Msi.ComponentsAreNames` | crates/zmanager-core/src/msi_backend.rs:133-143 | every component is the long name of a part, and never empty, `.`, or the root name |
| `MsiForms.LeafIsShown` | crates/zmanager-core/src/msi_backend.rs:149-156 | a file name shows its long half, or the short one when the long half is empty, or itself, and is missing exactly when nothing is left |
| `Msi.CollectLevels` | crates/zmanager-core/src/msi_backend.rs:161-178 | the walk stops on every parent graph, cycles included, and collects one level per hop |
| `Msi.ResolveDirectoryPath` | crates/zmanager-core/src/msi_backend.rs:161-181 | the levels put together outermost first |
| `Msi.ResolvesOnTrees` | crates/zmanager-core/src/msi_backend.rs:161-181 | on every forest of rows the bounded walk gives the recursive parent path |
| `Msi.ReadManifest` | crates/zmanager-core/src/msi_backend.rs:228-264 | every keyed file row becomes one entry, in order, or is counted as skipped |
| `MsiForms.RowBecomesEntry` | crates/zmanager-core/src/msi_backend.rs:228-264 | a file row becomes the entry whose path is the recursive path of its component's directory followed by the shown name, with its size, key and the cabinet of the first media row that covers its sequence number |
| `MsiForms.RowIsSkippedIff` | crates/zmanager-core/src/msi_backend.rs:240-262 | a file row is skipped exactly when its name shows nothing, no media row covers it, or the first that does names no cabinet |
| `Msi.GroupEntries` | crates/zmanager-core/src/msi_backend.rs:321-343 | groups stand in first-seen order, each is the manifest-order subsequence of its stream, and with the external entries they account for all entries |
| `Msi.GroupedWeight` | crates/zmanager-core/src/msi_backend.rs:321-343 | any sum over the entries of the manifest is the sum over its cabinet groups |
| `Msi.Extract` | crates/zmanager-core/src/msi_backend.rs:313-417 | succeeds exactly when no entry of the manifest fails and every present cabinet they are in opens; then the written count and bytes are those of the manifest entries that fare so, and written plus skipped entries equal the file rows with a key |

## Left out

- Symbolic links on the way to a path, permissions, quotas and name limits of the file system: a path names one node, and a lookup does not traverse links.
- Power loss and the order in which a disk writes: a crash stops a writer between two calls, and what the calls did stays.
- Directories as destinations of `AtomicOutputFile`, and the platform variants of the exclusive rename: the machine has one exclusive step and the hard-link and check-then-rename fallbacks.
- RarCleanup.FailedCleanup: stated for logs that displace outermost paths first, which `RarExtraction.CommitPlans` proves of every log the extraction builds.
- Permissions and disk synchronisation of secret files; the parts of a candidate name (file, process, clock) are one key.
- Modes, times, ownership and read-only flags, and the deferred link pass of RAR extraction.
- The path normalizer: MTREE listing takes it as a parameter, and RAR link targets start from normalized paths.
- MtreeForms.NestedRoundTrip: names are not empty, directories are closed by `..` except `.`, which the format never closes; octal escapes above 377 wrap as in a release build.
- UTF-8: names and patterns are byte strings, and blanks are the ASCII ones.
- Following symbolic links while planning, warnings, and path collisions between roots: the planner is modelled without link following, and the order theorem is for roots with distinct names.
- Pruning.PruningIsExact: the exact condition is stated for stacks with one ignoring rule. With several, one rule may cover for another below the directory, and no condition short of the property itself was found; `Pruning.PruningIsSound` and the conditions rule by rule hold for all stacks.
- 64-bit overflow of CPIO and AR offsets, which field widths rule out, and I/O errors of the underlying reader other than interruption.
- The lzop reader after it has reported an error: only the bytes and the error up to then are described.
- SectorErrors.OneErrorIsLocated: several wrong bytes in one codeword are not described, and the program has no decoder.
- MSI table access and the cabinet reader: how an entry fares is a parameter; only the account is modelled. Media rows are taken as sorted.
- Listing and extraction plumbing of the readers, progress events, cancellation (except in the bounded decoder), and the other backends, command line, scripts and fixtures.
