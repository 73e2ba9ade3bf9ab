# duplicity: backup, restore and the machinery around them

This project models the core of duplicity, a program that keeps encrypted incremental backups in tar
files, and proves what that core promises. One module stands for one component of the program.

**Backing up and restoring.** A tree is a stream of `ROPath`s in index order (`Paths`, `Indices`).
`Collate` defines the outer join of sorted streams; `MergeLoops` and `CombineIters` are the merging loops of
`diffdir` and `patchdir`, each proved to compute it. `DiffDir` decides what one session writes, `PatchDir`
puts deltas back together, and `Sessions` runs any number of sessions. The result: restoring after session
k gives back the tree of session k, for every k of every run, **if and only if** between consecutive trees
no regular file's data changes while its metadata stays equal and the root directory does not disappear.
Both conditions come from the code: `__eq__` compares no data, with mtimes in whole seconds, and the index
`()` is never deleted. `UntrackableRuns` gives a run for each that is not restored. Without any condition,
what is restored is what the signatures record, and no assertion of `patch_seq2ropath` can fail.

**Tar files.** `TarNames`, `DeltaTar` and `DifftarReader` are the member names, the splitting of large files
into volumes and the reader that joins them again from a shared look-ahead. A consumer may read each file
wholly, partly or not at all. `Archives` runs the sessions through tar files and keeps the equivalence above.

**Trees out of streams.** `TreeReducer` is `IterTreeReducer`, proved against a recursive definition. `TreeShape`
proves what that definition says about every index and branch. `TreeEffects` uses it for `ROPath_IterWriter`, and
`Restores` goes the whole way, from what `Select` lists through the tar files onto an empty place on disk: what
is restored there after each session is the tree of that session under the same condition as above. `Patching` is
the other way to restore, `patch_diff_tarfile`: each session's deltas are patched into the tree that the sessions
before it left. It never fails and leaves the same paths, but only a directory with a delta of its own gets its
attributes back after its contents were patched; so the archived attributes are all there **if and only if** no
session changed what is directly in a directory without changing the directory too. `PatchedFileLosesTime` gives
a run where a patched file takes its directory's time away. `Deltree` is `Path.deltree`: a tree is deleted to
nothing **if and only if** it holds no socket and nothing unreadable; otherwise exactly the entries passed over
and the directories above them stay.

**Selection.** `Selection` is the lazy traversal of `Select.Iterate`, and `Globs` the glob matcher. What is
iterated is said path by path, from the verdicts on the way to it, and what a glob selects, to include or to
exclude, from what its pieces stand for. Together: a file that the first include glob matches is always iterated,
and what an exclude glob matches first is not. The one directory above a matched name that may
not even be scanned is `/`; `GlobRoot` says for exactly which globs.

**Buffers.** `Multiplex` is `Iter.multiplex` and `IterMultiplex2`; `LibrsyncBuffers` is the buffering around
librsync.

**Bookkeeping.** `Quoting`, `Volumes`, `VolumeText` and `Manifests` are the manifest; `Collections` turns file
names into sets and sets into chains; `SortedChains` and `Statuses` sort the chains, match one with signatures,
find the sets a restore needs and what belongs to no chain. Through all of it every chain stays without a gap, and
every backup file listed stays accounted for: its set is in a chain, an orphan, incomplete or replaced by a later
set. Each step's assertions fail exactly where its contract says.
`FileNaming` is the short names.

## Assumptions

* librsync is a value with one law: a patch made from a delta against the signature of a basis gives back
  the new file (`Librsync.Lawful`). Its incremental makers are state machines whose total output depends only on their
  total input (`Lawful` in `LibrsyncBuffers`). Both laws are shown to be satisfiable.
* Every delta file is read to its end before its new signature is used; `FileWithSignature` is proved to
  make sure of that for the signature.
* An mtime is an integer. A tar header stores no negative one.
* Components of an index are non-empty, hold no `/` and are neither `.` nor `..`, as file names are.

## Where the code departs from its description

* `PathPatcher` is documented to process a basis and a diff; a file diff is patched through a temporary file renamed in
  its directory, and only a directory with a delta of its own gets its time back.
* `IterTreeReducer` is documented to need indices under the first one; when an index leaves it, the stack is
  emptied and the call says so. The model does the same and claims nothing about a later `Finish`.
* The comment in `add_inc` speaks of preferring a later set, but the code compares a time with a set object.
  Either outcome of the comparison is allowed, and the properties of chains hold for both.
* `get_all_sets()[-2].end_time` is None when the last set but one is the full set, so only an incremental set
  before the last one lets `set_matched_chain_pair` drop the last.
* Giving up a chain's last set leaves the chain's recorded end time as it was, so a chain may be taken to cover a
  time after its last set; its sets are linked all the same.
* `get_backup_chain_at_time` is documented to fall back on the earliest chain before the time; the code takes the
  latest.
* `Path.delete` ignores a missing path, and an error in deleting is logged and passed over, so `deltree` never fails
  on a directory that still holds something: it leaves it.
* A block number 0 is printed as an empty field and read back as None.
* `SigGenerator.gotsig` is never set, so nothing stops a second use; the model asks the caller not to.
* The branch for an extra `Volume` line in `VolumeInfo.from_string` compares a lower-cased word with `Volume` and
  never runs.

## Model

| member | source | states |
|---|---|---|
| Indices.Total | duplicity/patchdir.py:352-402 | indices are totally ordered: exactly one of less, equal, greater |
| Indices.Transitive | duplicity/patchdir.py:352-402 | the order of indices is transitive |
| Indices.PrefixAtMost | duplicity/lazy.py:274-295 | a directory precedes everything under it |
| Indices.PrefixInterval | duplicity/lazy.py:274-295 | what lies under a directory is an interval of the order |
| Indices.FirstByteDecides | duplicity/patchdir.py:352-402 | byte strings compare by the first byte in which they differ, a prefix being less |
| Indices.FirstComponentDecides | duplicity/patchdir.py:352-402 | indices compare by the first component in which they differ |
| Indices.TakeMonotone | duplicity/manifest.py:458-471 | cutting two indices to the same length keeps their order |
| Paths.EqualIffSameIdentity | duplicity/path.py:322-345 | equality is sameness of the attributes that count for the type, never of data; mtimes up to 0 are all equal |
| Paths.Archived | duplicity/path.py:255-320 | a tar header keeps an equal path of the same index and type |
| Paths.SortedExtensional | duplicity/diffdir.py:263-304 | a sorted stream is determined by what it holds at each index |
| Collate.OuterJoinIsOuterJoin | duplicity/patchdir.py:352-402 | the join has a row at an index exactly when some stream has an element there, and the row holds every stream's element |
| Collate.OuterJoinSorted | duplicity/patchdir.py:352-402 | each index is yielded once, in increasing order |
| MergeLoops.MergeIsOuterJoin | duplicity/diffdir.py:263-304 | comparing the first elements of two streams joins them, whatever the streams |
| MergeLoops.Collate2Iters | duplicity/diffdir.py:263-304 | the two-stream loop yields the rows of the outer join |
| MergeLoops.SetRorps | duplicity/patchdir.py:373-381 | refilling loses no element; a stream overflows exactly when it is used up |
| MergeLoops.GetLeastIndex | duplicity/patchdir.py:383-385 | the least index among all streams |
| MergeLoops.YieldAt | duplicity/patchdir.py:387-399 | the tuple holds every element at the index, and only those are used up |
| MergeLoops.NextTuple | duplicity/patchdir.py:387-399 | one round yields the row of the least index, or none once all streams are used up |
| MergeLoops.YieldTuples | duplicity/patchdir.py:387-399 | the general loop yields the outer join for any number of streams |
| MergeLoops.CollateIters | duplicity/patchdir.py:352-402 | both loops of collate_iters, special and general, compute the same outer join |
| CombineIters.CombinedLookup | duplicity/diffdir.py:307-354 | the combination is sorted and holds at each index the element of the last stream that has one |
| CombineIters.RefreshTripleList | duplicity/diffdir.py:332-347 | exactly the streams standing at the least index move on; a used-up stream leaves the list |
| CombineIters.CombinePathIters | duplicity/diffdir.py:307-354 | the triple-list loop yields that combination |
| DiffDir.GetDeltaIter | duplicity/diffdir.py:112-230 | over sorted streams, index by index: a changed regular file with a signature becomes a diff made against that signature, anything else new or changed a snapshot with its own data, what is gone a deletion, the root never; and the new signatures to match |
| DiffDir.DeltasAreDecided | duplicity/diffdir.py:112-230 | the same of the specification functions; both outputs are sorted |
| PatchDir.NormalizePs | duplicity/patchdir.py:454-473 | the backward loop keeps the last patch that is no diff and the diffs after it |
| PatchDir.PatchSeqToROPath | duplicity/patchdir.py:476-509 | the loop applies the diffs in order, or fails where one of its assertions does |
| PatchDir.IntegratePatchIters | duplicity/patchdir.py:512-533 | yields the final path of every row that is not deleted |
| PatchDir.IntegratedLookup | duplicity/patchdir.py:512-533 | the integrated stream is sorted and holds at each index what the patches there come to |
| PatchDir.PatchFailsIff | duplicity/patchdir.py:287-310 | patching one path fails exactly on a regular file whose delta is no snapshot, no deletion and no diff of a regular file |
| PatchDir.NormalizingPreservesMeaning | duplicity/patchdir.py:287-310 | for patches whose diffs meet regular files, dropping all before the last non-diff gives what applying every patch in turn gives |
| Sessions.RunSession | duplicity/diffdir.py:357-382 | a session is the tree against the combination of all earlier signature sets |
| Sessions.SignaturesDescribeRecorded | duplicity/diffdir.py:112-157 | after any run the combined signatures are those of what the deltas restore, and every diff finds a regular file |
| Sessions.WrittenAsDiffIff | duplicity/diffdir.py:112-230 | in any run, session k writes a diff at an index if and only if the path recorded before and the path of its tree are both regular and not equal; the diff is made from the recorded data; and exactly when it writes a snapshot, a deletion or nothing |
| Sessions.PrefixOfRun | duplicity/patchdir.py:512-533 | the first k sessions of a run are the run of the first k trees |
| Sessions.RestoreGivesRecorded | duplicity/patchdir.py:512-533 | integrating all deltas of any run gives, at every index, the recorded path |
| Sessions.RestoreNeverFails | duplicity/patchdir.py:476-509 | no assertion of patch_seq2ropath fails on any row of any run |
| Sessions.MatchesIffTrackable | duplicity/diffdir.py:194-226 | at one index, restoring is right after every session so far exactly when no step was untrackable |
| Sessions.RestoreIsFaithfulIff | duplicity/diffdir.py:180-230 | restoring after every session gives back its tree if and only if no data changes under equal metadata and the root stays |
| Sessions.UntrackableRuns | duplicity/diffdir.py:198-206 | two runs that are not restored: replaced data under equal metadata, and a root that is gone |
| TarNames.SplitJoin | duplicity/patchdir.py:150-186 | splitting a joined index gives the index back |
| TarNames.SingleNameLabel | duplicity/patchdir.py:150-186 | the name of an unsplit path is read as its index and difftype |
| TarNames.VolumeNameLabel | duplicity/patchdir.py:150-186 | the name of each volume of a split file is read as its index and difftype, for every volume number |
| TarNames.TarinfoNameIsPath | duplicity/path.py:255-320 | the name in a header is the path, a dot for the root, with one slash more for a directory |
| TarNames.AcceptedNames | duplicity/patchdir.py:150-186 | a name is accepted only if it is one of the five words, a path and for a volume its number, and read as just that; none goes up |
| DeltaTar.DeltaTarBlockIter.GetDataBlock | duplicity/diffdir.py:679-690 | the next 64 KiB, last exactly when the read is short |
| DeltaTar.DeltaTarBlockIter.Process | duplicity/diffdir.py:632-677 | the first block of a path; with the blocks still due it makes up all blocks of the path; no assertion on the difftype fails for the deltas it may be given |
| DeltaTar.DeltaTarBlockIter.ProcessContinued | duplicity/diffdir.py:692-711 | the next volume of a split file |
| DeltaTar.DeltaTarBlockIter.Next | duplicity/diffdir.py:509-532 | blocks come one by one in order, a queued one first; None exactly when none is left; the previous and the remembered index and block move with every block but a queued one |
| DeltaTar.DeltaTarBlockIter.QueueIndexData | duplicity/diffdir.py:547-551 | a queued block is the next to be returned, before all that is still to be processed |
| DeltaTar.WriteBlocks | duplicity/diffdir.py:632-729 | for every path in order: a large file as blocks of 64 KiB named multivol_snapshot/ or multivol_diff/, path and number from 1, anything else as one member named snapshot/, diff/ or deleted/ and path; each with the header and its part of the data |
| DifftarReader.TarCursor.Advance | duplicity/patchdir.py:113-147 | the shared look-ahead moves past one member |
| DifftarReader.MultivolFilelike.AddToBuffer | duplicity/patchdir.py:220-242 | one more volume of the same file into the buffer, never one of the next file |
| DifftarReader.MultivolFilelike.Read | duplicity/patchdir.py:204-218 | the next bytes of the joined file, short only at its end |
| DifftarReader.MultivolFilelike.Close | duplicity/patchdir.py:244-251 | what is unread is skipped, and nothing after it |
| DifftarReader.DifftarPathIter.Next | duplicity/patchdir.py:113-147 | the next path in order, however much of the file before was read |
| DifftarReader.Consume | duplicity/patchdir.py:113-147 | with any mix of full, partial and no reads a consumer gets every path once, in order, with exactly the bytes it asked for, of split and of whole members |
| Archives.DifftarRoundTrip | duplicity/diffdir.py:632-711 | reading a written difftar gives the deltas with their data, at every data length |
| Archives.WrittenNamesAreGood | duplicity/patchdir.py:150-186 | the reader refuses no name that was written |
| Archives.ConsumeWritten | duplicity/patchdir.py:113-147 | over a written difftar a consumer never fails: it gets every delta in order with the bytes it asks for, and all data for a read without a length |
| Archives.SigEntryNamed | duplicity/diffdir.py:603-621 | the member of a regular file is named signature/ and path, of anything else snapshot/ or deleted/ |
| Archives.SigtarRoundTrip | duplicity/diffdir.py:233-260 | reading a written sigtar gives the signature set back |
| Archives.ArchivesReadBack | duplicity/diffdir.py:357-382 | a run through tar files is the run of sessions |
| Archives.ArchivesRestoreFaithfullyIff | duplicity/patchdir.py:536-547 | the equivalence of RestoreIsFaithfulIff for the whole path through tar files |
| TreeReducer.IterTreeReducer.FinishBranches | duplicity/lazy.py:274-295 | ends every branch left, innermost first, each processed by its parent; the stack is emptied when the root is left |
| TreeReducer.IterTreeReducer.ProcessInside | duplicity/lazy.py:342-356 | starts a branch, handles in place or skips, and keeps the bases strictly nested |
| TreeReducer.IterTreeReducer.Call | duplicity/lazy.py:320-356 | the calls made now and later are those of the recursive definition, however the stream goes on; stale indices are ignored |
| TreeReducer.IterTreeReducer.Finish | duplicity/lazy.py:311-318 | empties the stack, and the calls made are those of the recursive definition |
| TreeReducer.PushStep | duplicity/lazy.py:344-351 | starting a branch is the first thing it still asks for |
| TreeReducer.Reduce | duplicity/lazy.py:252-356 | over any increasing stream under its first index the reducer makes exactly the calls of the tree |
| TreeShape.BranchesAreBracketed | duplicity/lazy.py:274-356 | every started branch is ended after everything under it and before anything outside it, and only once; nothing else is ended |
| TreeShape.BranchesEndOnce | duplicity/lazy.py:274-356 | an index is ended once if a branch was started for it, and otherwise never |
| TreeShape.BranchesAreProcessed | duplicity/lazy.py:274-309 | a branch is processed right after its end, once, by the innermost branch around it, and nothing else is processed |
| TreeShape.EveryIndexVisitedOnce | duplicity/lazy.py:320-356 | each index is started, handled in place or skipped, once, in stream order |
| TreeShape.SkippedIffUnderFailed | duplicity/lazy.py:342-356 | exactly the indices under a branch whose start failed are skipped |
| TreeEffects.RestoredAttributesSurvive | duplicity/patchdir.py:550-614 | after a restore every path has its archived attributes, though creating entries disturbs their directories |
| TreeEffects.MakingDisturbs | duplicity/patchdir.py:570-614 | making a path takes the attributes of its directory away, and only the end of a branch gives any back |
| Restores.IteratedIsTree | duplicity/selection.py:104-197 | the paths iterated for a backup hold the directory of every path |
| Restores.RecordedIsTree | duplicity/patchdir.py:512-533 | what a run records has the shape of its last tree, whatever changed between sessions |
| Restores.WritingKeepsAll | duplicity/patchdir.py:550-614 | writing a restored tree to an empty place leaves exactly its paths there, all with their archived attributes |
| Restores.DiskHoldsRecorded | duplicity/patchdir.py:536-563 | after any run a restore leaves on disk exactly what the run records |
| Restores.RestoreOntoDiskIff | duplicity/patchdir.py:536-563 | over iterated trees, a restore after every session puts that session's tree on disk if and only if no data changes under equal metadata and the root stays |
| Restores.ListedThroughArchivesOntoDiskIff | duplicity/patchdir.py:536-563 | the same equivalence from the listing of Select, through writing and reading every tar file, onto the disk |
| Patching.FastStep | duplicity/patchdir.py:287-310 | fast_process leaves what the delta describes, with nothing below a replaced path, and touches exactly the directory whose contents it changed; no assertion fails on a delta that fits |
| Patching.StartStep | duplicity/patchdir.py:261-277 | start_process leaves a directory there and everything else as it was |
| Patching.FastFailsIff | duplicity/patchdir.py:287-310 | fast_process fails exactly where patching the one path does, or where there is no directory to make something new in |
| Patching.BodyPatches | duplicity/patchdir.py:254-310 | everything under a branch is patched: its paths are the target's, others are as before, and which of them keep their attributes |
| Patching.DeltaFacts | duplicity/diffdir.py:180-230 | each delta of a run fits the path recorded before it, makes it the one recorded after it, and exists exactly where the path is new, changed or gone |
| Patching.SessionPatches | duplicity/patchdir.py:60-96 | one session patched into the tree recorded before it leaves the tree recorded after it, without failing |
| Patching.PatchingGivesRecorded | duplicity/patchdir.py:60-96 | patching all sessions in turn never fails and leaves the recorded tree; a path has its archived attributes exactly where no session since its last delta changed the contents of it as a directory |
| Patching.PatchingIsIntegrating | duplicity/patchdir.py:512-533 | patching session by session and integrating all deltas first give the same paths |
| Patching.PatchingGivesBackIff | duplicity/patchdir.py:60-96 | patching gives back every session's tree with all attributes if and only if the run is trackable and no session changed the contents of an unchanged directory |
| Patching.PatchedFileLosesTime | duplicity/path.py:664-675 | a run that integrating gives back and patching does not: the renamed temporary file changes the time of its unchanged directory |
| Patching.CollateGivesRows | duplicity/patchdir.py:67-76 | collating the deltas with any listing of the disk that has its root gives rows as the patcher needs them |
| Deltree.SubtreeDeletes | duplicity/path.py:799-811 | a directory is deleted after all that it holds, unless something there is left |
| Deltree.DeltreeDeletes | duplicity/path.py:615-623 | deltree over any listing deletes exactly the listed paths with nothing unlisted under them |
| Deltree.DeltreeOfTree | duplicity/path.py:615-623 | with the listing of Select, exactly the entries it passes over and the directories above them stay |
| Deltree.ListsAllIff | duplicity/selection.py:131-155 | without selection functions everything is listed if and only if nothing is a socket or unreadable |
| Deltree.DeltreeDeletesAllIff | duplicity/path.py:615-623 | deltree leaves nothing if and only if nothing in the tree is a socket or unreadable |
| Selection.SelectPath | duplicity/selection.py:199-234 | the first verdict to include or exclude decides; a scan before an exclusion, or alone, wins over it |
| Selection.IncludeStep | duplicity/selection.py:185-194 | an included path first flushes the delayed directories |
| Selection.ScanStep | duplicity/selection.py:195-197 | a directory to scan is delayed together with its generator |
| Selection.Iterate | duplicity/selection.py:131-197 | exactly the selected paths are yielded: nothing on the way is unreadable, all above are included or scanned directories, and the path is included, or a scanned directory with an included path under it |
| Selection.IteratedIff | duplicity/selection.py:131-197 | the same of the recursive definition |
| Selection.ExcludedIsNotIterated | duplicity/selection.py:148-163 | a path with the verdict to exclude is not yielded, and nothing under it is |
| Selection.IterateRoot | duplicity/selection.py:165-174 | the root comes first, whatever is selected; one that cannot be read lists nothing |
| Selection.IteratedTree | duplicity/selection.py:131-155 | what is iterated strictly increases, starts with the root and holds the directory of everything in it |
| Globs.GlobToRegex | duplicity/globmatch.py:149-194 | the loop translates the glob into an expression that matches exactly the names that can be cut into parts, one for each piece: ** anything, * anything without a slash, ? one character but a slash, any other character itself, also a bracket that nothing closes |
| Globs.CutMatch | duplicity/globmatch.py:105-114 | cutting a matched name at a slash cuts the glob at a slash or in its first double star |
| Globs.TokensInStep | duplicity/globmatch.py:105-107 | up to its first double star a glob and its translation run in step, so truncating the one truncates the other |
| Globs.ScanHas | duplicity/globmatch.py:42-55 | the scan patterns include the glob cut before any slash, and the whole glob |
| Globs.IncludedAncestors | duplicity/globmatch.py:116-146 | if an include glob returns 1 on a name it returns 1 or 2 on every directory above it other than / |
| Globs.RootNotScanned | duplicity/globmatch.py:116-146 | the exception: the glob */x matches /x but neither matches nor scans / |
| GlobRoot.RootSilentIff | duplicity/globmatch.py:95-146 | for an include glob that returns 1 on an absolute name, / gets no verdict if and only if the glob starts with */ and its next component needs a character before any double star in it |
| GlobRoot.DoubleStarRootScanned | duplicity/globmatch.py:105-107 | a glob that goes on after */** always gives / a verdict, whatever its component holds after the double star: that is cut |
| Globs.IncludedFilesAreIterated | duplicity/selection.py:104-197 | with an include glob first, every readable file it matches below readable directories is iterated, whatever other selections say |
| Globs.GlobRefusedIff | duplicity/globmatch.py:42-55 | a glob is refused exactly for two slashes in a row, not counting a final slash or what its first double star cuts off |
| Globs.GlobSelects | duplicity/globmatch.py:58-146 | what any glob selects, to include or to exclude: the names it matches, without a final slash, and what is under them, plain files of that name left out if it had one; only to include it scans what its parts match, up to a slash and its first double star |
| Globs.LiteralGlob | duplicity/globmatch.py:58-146 | a glob without wildcards includes, or excludes, exactly the path it names and what is under it; to include it scans exactly what is above it |
| Globs.LiteralFolderGlob | duplicity/globmatch.py:72-139 | with a final slash it selects no plain file of that name |
| Globs.ExcludeGlob | duplicity/globmatch.py:116-146 | an exclude glob excludes exactly what the same glob would include, and never scans or includes |
| Globs.ExcludedIsNotIteratedByGlob | duplicity/selection.py:148-234 | where an exclude glob matches and no function before it has an opinion, neither the path nor anything under it is iterated |
| Globs.ContentsIncluded | duplicity/globmatch.py:116-139 | the contents of an included folder are included, except a plain file that itself matches a glob with a final slash |
| Multiplex.EachForkYieldsTheSource | duplicity/lazy.py:149-207 | under every interleaving each fork yields the source in order, as far as it asks |
| Multiplex.Forks.Insert | duplicity/lazy.py:177-190 | a new element moves every position by one |
| Multiplex.Forks.Trim | duplicity/lazy.py:195-200 | an element is dropped exactly when no fork is behind it; the assertion there never fails |
| Multiplex.Forks.GetNext | duplicity/lazy.py:177-201 | the next element of that fork; final_func has had exactly what every fork has passed, once each, in order |
| Multiplex.RunForks | duplicity/lazy.py:203-207 | any schedule of calls is answered from the source |
| Multiplex.IterMultiplex2.YieldA | duplicity/lazy.py:223-235 | the first fork's next element, whichever fork leads |
| Multiplex.IterMultiplex2.YieldB | duplicity/lazy.py:237-249 | the second fork's next element, whichever fork leads |
| Multiplex.RunTwo | duplicity/lazy.py:210-249 | the special case answers every schedule as the general one does |
| LibrsyncBuffers.MadeIsPrefix | duplicity/librsync.py:95-104 | what a maker has made is a prefix of its total output, whatever input is still to come |
| LibrsyncBuffers.LikeFile.AddToInbuf | duplicity/librsync.py:106-116 | no input is lost, and an empty buffer means the end of the file |
| LibrsyncBuffers.LikeFile.CycleOnce | duplicity/librsync.py:95-104 | the maker gets an empty block only after all input |
| LibrsyncBuffers.LikeFile.Read | duplicity/librsync.py:80-93 | the next slice of the total output, short only at its end |
| LibrsyncBuffers.ReadInPieces | duplicity/librsync.py:80-93 | the joined reads do not depend on how they are cut |
| LibrsyncBuffers.SigGenerator.Update | duplicity/librsync.py:209-216 | all data seen is kept in order, and no premature end is reported |
| LibrsyncBuffers.SigGenerator.GetSig | duplicity/librsync.py:218-232 | the signature of all the data, however it was cut |
| LibrsyncBuffers.FileWithSignature.Read | duplicity/diffdir.py:429-432 | what is read is what the signature sees |
| LibrsyncBuffers.FileWithSignature.Close | duplicity/diffdir.py:434-441 | the callback gets the signature of the whole file, once |
| LibrsyncBuffers.SignatureAfterReads | duplicity/diffdir.py:407-441 | the reported signature does not depend on the reads before close |
| Quoting.Quote | duplicity/manifest.py:477-489 | the loop quotes whitespace, backslashes and quotes |
| Quoting.QuotedForm | duplicity/manifest.py:474-489 | a string without such characters is left as it is; any other stands in double quotes with exactly those replaced by a backslash, x and two lower-case hexadecimal digits, and none of them stands there but the backslash |
| Quoting.Unquote | duplicity/manifest.py:492-511 | the loop reads the quoted form, or fails where the source raises |
| Quoting.UnquotedByParts | duplicity/manifest.py:492-511 | any text between double quotes is read part by part, in either case of its digits |
| Quoting.HexPairIff | duplicity/manifest.py:492-511 | which two characters after the x are read as a byte |
| Quoting.HexPairIs | duplicity/manifest.py:492-511 | and as which byte |
| Quoting.QuoteRoundTrip | duplicity/manifest.py:477-511 | unquoting undoes quoting for every string but the empty one, on which it raises |
| Quoting.QuotedNoSpace | duplicity/manifest.py:477-489 | quoted text has no whitespace |
| Volumes.ContainsExact | duplicity/manifest.py:458-471 | a volume contains a prefix if and only if some index with that prefix lies between its ends |
| VolumeText.ToString | duplicity/manifest.py:352-375 | the printed lines, with the hashes in any order |
| VolumeText.PrintedLines | duplicity/manifest.py:352-375 | the text of the first line and of the hash lines, and their places |
| VolumeText.PathLinePrinted | duplicity/manifest.py:352-375 | the text of both path lines, a dot for the root and a blank for no block or block 0 |
| VolumeText.FromString | duplicity/manifest.py:377-425 | the loop over lines sets the fields, or fails where the source raises |
| VolumeText.HeaderIff | duplicity/manifest.py:390-396 | the first line is the word Volume in any case, a number and a colon |
| VolumeText.ParsedSays | duplicity/manifest.py:390-425 | of any text: each field is that of the last line of its name, in any case; it fails exactly on a bad first line, a malformed line or a missing end |
| VolumeText.TextCutIntoLines | duplicity/manifest.py:390-390 | stripping and splitting gives the printed lines back but for trailing blanks |
| VolumeText.VolumeTextRead | duplicity/manifest.py:352-425 | what is printed is read back, with block 0 as None |
| VolumeText.VolumeTextRoundTripIff | duplicity/manifest.py:352-425 | the round trip is exact if and only if no block number is 0 |
| Manifests.RestartsRecord | duplicity/manifest.py:197-212 | after restarts the records fill 1 to the highest number, and up to the latest they are those of a stack cut back at every restart |
| Manifests.Manifest.AddVolumeInfo | duplicity/manifest.py:125-137 | a record replaces an earlier one of the same number |
| Manifests.Manifest.DelVolumeInfo | duplicity/manifest.py:139-151 | removes a record, and fails exactly when there is none |
| Manifests.Manifest.Discard | duplicity/manifest.py:207-212 | removes the numbers above the latest, and fails exactly when one is missing |
| Manifests.Manifest.FromRecords | duplicity/manifest.py:197-212 | raises exactly when a number above the latest was never recorded; after restarts never, and then exactly the volumes of the stack remain |
| Manifests.Manifest.GetContainingVolumes | duplicity/manifest.py:280-286 | no volume that holds something under the prefix is missed, and no other is returned |
| Collections.BackupSet.AddFilename | duplicity/collections.py:78-132 | takes a file exactly when its type and times fit; the assertion fails exactly when its place is taken |
| Collections.BackupSet.GetFilenames | duplicity/collections.py:266-282 | all files of the set but a partial manifest: the volumes by number, then the manifest |
| Collections.ClashStep | duplicity/collections.py:78-132 | one more file listed clashes if and only if its stamp and place are those of a file before it |
| Collections.AddToSets | duplicity/collections.py:845-862 | the file joins the one set it fits, or starts one, or is no backup file; the assertion fails exactly when a file already there has the same stamp and place: both are manifests, or the volume numbers are equal |
| Collections.GetSortedSets | duplicity/collections.py:890-903 | the complete sets by end time and the rest, none lost or repeated |
| Collections.LinkedIsSorted | duplicity/collections.py:339-361 | in a linked chain end times never decrease |
| Collections.OlderIsPrefix | duplicity/collections.py:372-377 | the sets up to a time are a gap-free prefix of a linked chain |
| Collections.BackupChain.AddInc | duplicity/collections.py:339-361 | each set starts where the one before it ends, for sets offered in any order, and end times never decrease if it comes in order; a set that starts where the chain ends is always taken |
| Collections.BackupChain.GetSetsAtTime | duplicity/collections.py:372-377 | the full set and exactly the incrementals up to the time, without a gap, also of a chain that gave up its last set |
| Collections.AddToExistingChain | duplicity/collections.py:867-886 | the first chain that ends where the set starts takes it, as its last, and no other chain changes; a set it replaces has the same start and no later end; without a taker no chain ends where the set starts |
| Collections.AddToChains | duplicity/collections.py:867-887 | a full set starts a chain, an incremental continues one or becomes an orphan |
| Collections.BuildChains | duplicity/collections.py:862-888 | all chains are linked and share no set; every set is in a chain, an orphan or replaced; an orphan is an incremental, and none that advances fits the end of a chain |
| Collections.GetBackupChains | duplicity/collections.py:831-888 | fails exactly when two listed files have the same stamp and place; else every backup file is in a set, every set is in a chain, orphaned, incomplete or replaced, and the incomplete ones are those without a manifest |
| SortedChains.GetSortedChains | duplicity/collections.py:960-989 | a permutation in order of end time, at a tie the remote one first; fails exactly when three chains end together |
| Statuses.GetSortedBackupChains | duplicity/collections.py:733-742 | sorting permutes the chains found and keeps them linked, disjoint and every set accounted for; fails exactly on a clash of files or on three chains that end together |
| Statuses.ShorterIsIntact | duplicity/collections.py:770-778 | a chain without its last set is still linked |
| Statuses.CollectionsStatus.DropLast | duplicity/collections.py:770-778 | a chain's last set moves to the incomplete ones and is then in no chain; all chains stay linked |
| Statuses.CollectionsStatus.MatchLatest | duplicity/collections.py:762-788 | the last signature chain in sorted order that fits the latest chain is matched; at most the last set of the latest chain is given up, as incomplete, and every other chain keeps its sets |
| Statuses.CollectionsStatus.SetMatchedChainPair | duplicity/collections.py:752-788 | the same after sorting the signature chains, which fails exactly when three of them end together; a matched chain then ends with its signature chain, and no set is lost or in two places |
| Statuses.CollectionsStatus.GetBackupChainAtTime | duplicity/collections.py:991-1013 | the one chain that covers the time, else the latest that ends before it, else the first; fails exactly when there is no chain or two cover the time |
| Statuses.CollectionsStatus.GetSetsToRestore | bin/duplicity:740-742 | a restore of a time reads the full set and exactly the incrementals up to the time, without a gap, of the one chain that covers it, else of the latest that ends before it, else of the first; fails exactly when there is no chain or two cover the time |
| Statuses.CollectionsStatus.GetExtraneous | duplicity/collections.py:1045-1073 | no file named belongs to a set in a chain, and every remote file is named of each set that is in no chain, except one that a later set replaced; of signature files exactly the orphaned ones and, to clean more, those of chains that differ from the matched one in start or end, local and remote apart |
| Statuses.MatchedIsKept | duplicity/collections.py:1057-1065 | a file of the matched signature chain counts as old only if another chain has it too |
| Statuses.NewStatus | duplicity/collections.py:731-747 | the status of the files listed, with every set accounted for, before any signature chain is matched; fails exactly on a clash or on three chains that end together |
| Statuses.SetValues | duplicity/collections.py:699-750 | after set_values every backup file listed is in a set and every set in a chain, orphaned, incomplete or replaced; chains are linked and in order of their recorded end times; the only complete set set aside is the one the matched chain gave up; fails exactly on a clash or where three chains, of backups or of signatures, end together |
| FileNaming.FromBase36 | duplicity/file_naming.py:158-172 | the loop computes the base-36 value, or fails on a digit out of range |
| FileNaming.Base36RoundTrip | duplicity/file_naming.py:143-172 | reading the base-36 form of a number gives the number |
| FileNaming.GetFailsIff | duplicity/file_naming.py:197-278 | the assertions of get fail exactly for signatures with a volume or a manifest, and for anything else with neither or both |
| FileNaming.NameOfFields | duplicity/file_naming.py:197-278 | a name is its fields with dots between them |
| FileNaming.FieldsChecked | duplicity/file_naming.py:307-383 | the expressions recognise exactly the right kind, also when a volume number reads m |
| FileNaming.NameRoundTripIff | duplicity/file_naming.py:281-409 | parsing what get made recovers everything if and only if the times are positive |

## Left out

- File systems: a tree is a value and a disk a map, and a path that cannot be read is a flag of the traversal; renaming, hard links, devices and errors in writing stay out.
- Restores.RestoreOntoDiskIff: the place restored to is empty; restoring over an existing tree with --force is not modelled.
- librsync, tar header encoding, gzip and GnuPG: replaced by the laws above and by tar members as values; hash collisions are outside the law.
- User and group names in tar headers: only the numbers are modelled.
- DeltaTar.DeltaTarBlockIter.Next: the offset and the footer, which count the bytes of encoded headers, are not modelled; nor is how a restart uses the remembered index.
- Volume files of one difftar: the reader sees one sequence of members, not the switch between files.
- The restriction of a restore to a subtree: a filter in front of the integration.
- Patching.PatchingGivesRecorded: the place patched into is empty at first and changed by nothing else between the sessions; a listing may be any part of the disk that holds its root.
- Patching: deltree removes all that is on the modelled disk below a path; `Deltree` says what it leaves where something is unreadable or a socket.
- IterTreeReducer inputs outside the first index's subtree, beyond the fact that the stack is emptied.
- A TreeReducer policy decides by index alone: what it depends on besides cannot change between the one visit of an index and the next.
- Globs.GlobToRegex: complete bracket expressions are not translated, since they can contain or match a slash.
- GlobRoot.RootSilentIff: globs with a complete bracket expression are outside it, as they are outside the translation.
- Globs.SelectFnFromGlob: the empty glob, on which the source raises an IndexError, is not modelled.
- Case-insensitive globs, file lists, regular expressions, device and time selections: other selection functions enter as arbitrary opinions.
- closing_func of Iter.multiplex: its called flag is never set, so nothing is claimed about it.
- librsyncError: a lawful maker raises none.
- The manifest's host name, directory, file list and the expression that cuts it into volume records.
- Collections.BackupSet.AddFilename: the lookup of a local manifest in set_manifest is left out, since it depends on the archive directory.
- Collections.BackupChain.AddInc: that end times never decrease needs sets offered in order of end time, as get_backup_chains does; out of order they could decrease.
- SignatureChain and get_signature_chains: signature chains enter as values with an end time and a place, local or remote.
- Deleting sets, local manifests and the chains older than a time.
- Long file names, file name prefixes and date parsing: they rest on the calendar.
- Names that end in a newline in file_naming's expressions.
- FileNaming.Parse: a regular expression is modelled by the fields between dots that it describes.
