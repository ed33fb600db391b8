# Domus: verified models

Domus keeps each user's files as client-side encrypted objects in an object store, with names and
directories in the inode table of a filesystem called DOFS. This project models five parts of it
and proves what they promise. Verify everything with `dafny verify dfyconfig.toml`.

**The mount manager** (`MountTable`, `MountProtocol`, `MountInvariants`, `MountCapacity`,
`MountTheorems`, `MountProgress`, `MountRefinement`). One daemon mounts one filesystem for each user on request. Its
mutex-protected maps are a class whose methods are the critical sections; the whole program is a
state machine whose actions are those sections, the durable marker writes and removals, the events
of mounted filesystems, and crashes. The class, driven by any run, holds exactly the state of the
run. Any number of calls run interleaved, each with a program counter. The theorems hold in every
reachable state of every run: whatever is mounted is marked on disk, calls of one user exclude each
other, an unmounted user stays unmounted until asked for again, and a clean shutdown is final. And from
every such state an ensure, an unmount, a retry and a shutdown succeed if the world outside
cooperates, and end in a state that is named if it does not. The mount limit holds as long as the two recorders of the reconciler do not overwrite the state of a
user that is being mounted, and when the slots are taken and someone waits for one it holds only
then.

**The encrypted format** (`ChunkFormat`, `CryptoStreams`, `Truncation`, `PartPlan`,
`UploadGeometry`, `ServiceWorker`). An object is a five-byte header and one sealed record for each
64 KiB of plaintext. The format is defined once; the Go encoder, the two Go decoders, the decrypting
stream of the service worker, the size formula and its inverse, the multipart planner of the server,
the uploader of the browser and the validator of the finished upload are all proved against it. The
cipher is a parameter with two laws: opening a sealed text gives it back, and sealing adds 16 bytes.
For what is reported of a cut object there is a third: a proper prefix of a sealed text does not
open; and for records that have been moved a fourth: what is sealed with one number does not open
with another.

**The file projection** (`Namespace`, `PathStrings`, `FileView`, `Subtrees`, `FileCopy`,
`Metadata`). Paths over an inode table with parent pointers: resolving and showing are inverse,
renaming moves exactly a subtree, copying lays one over what is there; and the metadata rows,
written by generation-guarded upserts that may arrive in any order.

**The trash** (`TreeMerge`, `FileRepo`, `MergeSteps`, `MergePlaces`, `MergeLosses`,
`MergeConflicts`, `TrashMerge`, `MergeBeyond`, `TrashTable`, `TrashInvariant`, `TrashPaths`,
`TrashSteps`, `TrashHandlers`, `TrashStartup`, `TrashRuns`). Trashing, restoring, merging, deleting,
emptying, recovery and startup change a namespace and a table in separate steps. Every call of
either may fail without effect, and a removal also after its effect. An oracle under which all calls
from some point on fail describes a crash at that point, so a postcondition proved for every oracle
holds at every crash point. A path is modelled as its names and whether its string ends in a slash,
because merges and listings make the paths of children by appending names to strings.

**Free names** (`Naming`). The numbered names tried for uploads and for restores.

`Wrappers`, `Arithmetic` and `FiniteSets` hold small helpers.

## What the proofs found

- The mount limit can be exceeded. A failure recorder that runs while a mount is in flight
  replaces the state `mounting`, the slot is no longer counted, and a second user is admitted: a
  reconcile pass that failed to mount a user, and records it while a caller's ensure is mounting
  that user, lets two users be served with a limit of one (`MountCapacity.RecorderBreaksCapacity`).
  This is the exact condition: in any state in which all slots are taken and another user waits for
  one, a recorder step can be followed by a run that exceeds the limit if and only if it overwrites
  such a state (`MountCapacity.LimitHoldsExactly`).
- Not every size below the object store's ceiling can be uploaded: a size is accepted exactly when
  its whole chunks fit 10,000 parts of the chosen size, which excludes sizes a little above
  1,270,000 chunks (`UploadGeometry.AcceptedExactlyWhenUploadable`,
  `UploadGeometry.SomeSmallFilesAreRefused`).
- A comment at `internal/auth/crypto.go:98` suggests that truncation is detected. The decoder
  accepts a stream that is cut between two records or inside a nonce, and gives the chunks before
  the cut as if they were all; exactly a cut behind a whole nonce is reported
  (`Truncation.CutObject`, `Truncation.DecryptCut`, `Truncation.OneByteLost`).
- `.profile` is numbered `.profile (1)` by an upload and `.profile (1).profile` by a restore
  (`Naming.NumberedAlike`).
- Collecting merge conflicts does not report a directory that meets a file. The merge then fails
  on it, because the name is taken: with every call working, a merge succeeds if and only if no
  directory meets a file and the conflicts are resolved or absent (`TrashMerge.MergeTrashDirectory`).
- Listings and merges append a child's name to the string of its directory. Without a slash at the
  end that string names a place beside the directory, not in it (`PathStrings.ListedChildPath`). The
  string of a merge's target is the one the directory was trashed by, that of its source the one in
  the request, and either may lack the slash. The merge then delivers nothing, although it may
  report success; if both have it, it delivers everything (`TrashMerge.DeliveredExactly`). Unless it
  is told to replace it loses no file, whatever the slashes, as long as no appended name gives a place
  above one of the two directories (`TrashMerge.MergeTrashDirectory`). Told
  to replace, it may remove files that no conflict is about: once it is through, exactly those that
  give way at the places the names are appended to (`MergeBeyond.UnagreedGoExactly`). If the
  target's string lacks the slash, that is everything there (`MergeBeyond.ExposedBesideTarget`):
  trashing `/project` and merging it back loses `/projectx` (`MergeBeyond.MergeLosesNeighbour`,
  `MergeBeyond.NeighbourIsBeyond`, `MergeBeyond.NeighbourIsOffered`). If only the source's does, a
  directory whose name continues that of the source is merged in place of the source's child, and
  removes what it meets (`MergeBeyond.ExposedBesideSource`, `MergeBeyond.TwinIsOffered`,
  `MergeBeyond.MergeLosesOther`). What restores and runs keep, and how they recover, is proved for
  all these merges; delivery and success for those whose two strings end in a slash.
- One family of merges breaks the trash itself: if a file's name completes the target's string to
  that of the private directory, as `us` does for `/.dom`, replacing removes that directory and with
  it every payload, the file itself included; then the merge fails, and the invariant is lost if any
  other entry is ready (`MergeBeyond.ReplacePrivate`, `MergeBeyond.PrivateBreaks`,
  `MergeBeyond.CompletedIsOffered`). A directory by that name has its contents merged into the private
  directory. The theorems about merges and handlers exclude appended names that give it; skipping or
  numbering such a file would do no harm, but is excluded with them.
- Trashing is not safe against a rename that is done and still reports an error: the request drops
  its row, and the next startup takes the payload for junk and removes it
  (`TrashStartup.LateRenameIsJunk`). Had it kept the row, recovery would have put it right.
- A publication and a probe of the same generation do not commute
  (`Metadata.PublicationErasesEarlierProbe`).
- Emptying the trash visits every entry exactly once if and only if no page before the last holds
  an entry whose transition and the lookup after it both fail; such an entry is not counted as
  retained, and the next page starts too early. If the table answers only its listings, the first
  page is read for ever (`TrashHandlers.Trash.EmptyTrash`). Whatever fails and however long it runs,
  nothing else goes.

## Model

| member | source | states |
|---|---|---|
| `MountTable.Manager.ActiveMounts` | `internal/dofs/manager_linux.go:556-561` | the loop counts exactly the entries with a handle or in state mounting |
| `MountTable.Manager.EnsureAdmit` | `internal/dofs/manager_linux.go:541-577` | served, unhealthy, pending at the limit, or a fresh mounting entry; the new table in each case |
| `MountTable.Manager.ReconcileSnapshot` | `internal/dofs/manager_linux.go:948-966` | the two sets a pass works on: users whose unmount has to be retried, and desired users |
| `MountTable.Manager.CollectHandles` | `internal/dofs/manager_linux.go:1143-1152` | shutdown collects exactly the handles stored in entries and marks those entries unmounting |
| `MountTable.LockIsExclusive` | `internal/dofs/manager_linux.go:427-456` | while a call holds a user's lock every other call of that user waits and the calls of other users do not; finishing gives back the table of before |
| `MountTable.AdmittedThenServed` | `internal/dofs/manager_linux.go:541-600` | admission adds exactly the user to those counted, within the limit; once the mount is recorded it still occupies that slot, every later ensure is served, and nothing has changed for other users |
| `MountTable.WatcherSpeaksForItsMount` | `internal/dofs/manager_linux.go:693-727` | a watcher whose mount is no longer the recorded one changes nothing; a failure makes its user one to retry, an exit gives up the slot, and reporting it twice is reporting it once |
| `MountTable.UnmountIsFinal` | `internal/dofs/manager_linux.go:753-845` | an explicit unmount leaves the user not desired and without a slot, and to be retried exactly if it failed; other users keep their slots, wishes and retries |
| `MountTable.EnsureTakesBackForget` | `internal/dofs/manager_linux.go:506-530` | a new external Ensure takes back a forget: the retry that was pending finds nothing to do, and the user may be mounted at once, or is reported unhealthy while the unmount has not got rid of its handle |
| `MountTable.RecordersKeepHandles` | `internal/dofs/manager_linux.go:1011-1104` | the recorders keep every handle and every wish, and take a user out of the count exactly if it was counted for a mount in flight only |
| `MountInvariants.StepInv` | `internal/dofs/manager_linux.go:427-854` | every action of every call, watcher, recorder, shutdown and crash keeps the joint invariant of locks, markers, desired and forgetting sets, handles and program counters |
| `MountInvariants.RunInv` | `internal/dofs/manager_linux.go:427-1183` | hence every run does, from a state loaded from the markers found on disk |
| `MountInvariants.BootInv` | `internal/dofs/manager_linux.go:332-384` | the state loaded from the markers satisfies the invariant |
| `MountTheorems.CallsAreSerializedPerUser` | `internal/dofs/manager_linux.go:427-458` | two calls past the operation lock of one user are the same call |
| `MountTheorems.CrashCoversEveryMount` | `internal/dofs/manager_linux.go:332-425` | in every reachable state every live mount, recorded or not, has a durable marker, so after a crash the reloaded desired set covers it |
| `MountTheorems.OneMountPerUser` | `internal/dofs/manager_linux.go:541-604` | no user ever has two live mounts |
| `MountTheorems.ForgettingExcludesDesired` | `internal/dofs/manager_linux.go:746-790` | no reachable state has a user both desired and being forgotten; the desired are marked on disk |
| `MountTheorems.RetryNeverTearsDownMounted` | `internal/dofs/manager_linux.go:753-773` | a reconcile retry that detaches a handle does not find it in state mounted |
| `MountTheorems.NoResurrection` | `internal/dofs/manager_linux.go:488-515` | after a successful explicit unmount no run without a new external Ensure mounts that user again, however old the snapshots of its reconcile passes, and across crashes |
| `MountCapacity.StepCapacity` | `internal/dofs/manager_linux.go:541-604` | one action keeps the count exact and the users with a slot within the limit, unless a recorder overwrites a mounting entry |
| `MountCapacity.RunCapacity` | `internal/dofs/manager_linux.go:541-730` | hence every such run does |
| `MountCapacity.RecorderKeepsCountExact` | `internal/dofs/manager_linux.go:1011-1028` | a recorder step keeps the count exact if and only if it does not overwrite a mounting entry without a handle; `MountCapacity.LimitHoldsExactly` says when the limit itself is exceeded |
| `MountCapacity.LimitHoldsExactly` | `internal/dofs/manager_linux.go:1011-1104` | from any state with all slots taken and a user waiting, a recorder step can be followed by a run that exceeds the limit if and only if it overwrites the state of a user being mounted |
| `MountCapacity.RecorderBreaksCapacity` | `internal/dofs/manager_linux.go:1022-1022` | a concrete run with a limit of one at whose end two users are served: a reconcile pass fails to mount a user and records it while a caller's ensure is mounting that user |
| `MountTheorems.CapacityIsRespected` | `internal/dofs/manager_linux.go:556-571` | from start, with the recorders waiting for running operations, the users with a slot never exceed MaxMounts |
| `MountTheorems.LiveFitsSlots` | `internal/dofs/manager_linux.go:541-730` | and the live mounts never exceed it either, since every live mount occupies its user's slot |
| `MountTheorems.ShutdownIsFinal` | `internal/dofs/manager_linux.go:1124-1183` | if Shutdown returned success nothing is live, and no later step mounts anything |
| `MountProgress.UnmountSucceeds` | `internal/dofs/manager_linux.go:753-845` | from any state of the invariant, for any user, the steps of an explicit unmount with good outcomes are a run, at whose end the user has no marker, is neither desired nor being forgotten, has nothing mounted and its entry says unmounted; a retry does the same and forgets only who was being forgotten; other users see nothing of it |
| `MountProgress.UnmountInTrouble` | `internal/dofs/manager_linux.go:753-845` | whatever goes wrong in an explicit unmount, the user is no longer desired and stays one to retry, its marker goes only if its removal was done all the same, and its entry says how far the unmount got |
| `MountProgress.RetryFinishes` | `internal/dofs/manager_linux.go:947-1009` | and a later retry that meets no trouble finishes it |
| `MountProgress.EnsureSucceeds` | `internal/dofs/manager_linux.go:488-604` | an external ensure with a free slot and good outcomes ends with the user marked, desired, no longer being forgotten and served by the new mount, which is watched; for new, desired and forgotten users alike |
| `MountProgress.EnsureWaits` | `internal/dofs/manager_linux.go:556-571` | without a free slot it still records the wish, and the user waits |
| `MountProgress.EnsureUnmarked` | `internal/dofs/manager_linux.go:506-530` | if the marker of a user that is not desired cannot be written nothing changes in memory, and on disk only if it was written all the same |
| `MountProgress.EnsureUnmounted` | `internal/dofs/manager_linux.go:577-592` | if the filesystem cannot be mounted the user stays desired and its entry says that it failed |
| `MountProgress.ReconcileSucceeds` | `internal/dofs/manager_linux.go:968-1009` | a reconcile pass mounts a desired user in the same way |
| `MountProgress.FailureIsReplaced` | `internal/dofs/manager_linux.go:681-730` | a mount whose watcher reports a failure is detached by the next reconcile pass, and the filesystem is mounted anew, without any caller asking |
| `MountProgress.ExitIsReplaced` | `internal/dofs/manager_linux.go:681-730` | likewise a mount that has ended by itself |
| `MountProgress.CrashIsRecovered` | `internal/dofs/manager_linux.go:332-384` | after a crash a user that was desired is served again, without any caller asking |
| `MountProgress.GivesUp` | `internal/dofs/manager_linux.go:427-456` | a call that gives up waiting for its user has changed nothing |
| `MountProgress.ShutdownEnds` | `internal/dofs/manager_linux.go:1124-1183` | with no operation running Shutdown ends, and with success if and only if every recorded mount goes; then nothing is mounted; wishes are kept on disk and in memory |
| `MountProgress.ShutdownGivesUp` | `internal/dofs/manager_linux.go:1131-1142` | or it gives up waiting for running operations, and does not succeed |
| `MountRefinement.EnsureStep` | `internal/dofs/manager_linux.go:488-604` | every section of an ensure, run on the mutable manager, leaves it with the table of the protocol's next state, and its result is what sends the call to its next step |
| `MountRefinement.UnmountStep` | `internal/dofs/manager_linux.go:753-845` | likewise every section of an unmount |
| `MountRefinement.OutsideStep` | `internal/dofs/manager_linux.go:693-727` | likewise the sections of watchers, recorders and Shutdown, which collects exactly the handles the protocol has pending |
| `MountRefinement.OnlySectionsTouchMemory` | `internal/dofs/manager_linux.go:427-854` | every other action leaves the manager's memory as it is, except a crash, after which only the markers are left |
| `MountRefinement.EntriesAreThere` | `internal/dofs/manager_linux.go:581-604` | where the code dereferences an entry without a check there is one, in every reachable state |
| `MountRefinement.Drive` | `internal/dofs/manager_linux.go:332-1183` | the manager driven by any run, and made anew after every crash, holds exactly the run's table: so it never desires a user it is forgetting, never has one of those recorded as mounted, and, if the recorders wait for running operations, never counts more than MaxMounts |
| `ChunkFormat.ObjectLength` | `internal/handler/upload.go:109-117` | the stored object is exactly as long as the size formula says |
| `ChunkFormat.RecordsAt` | `internal/auth/crypto.go:69-125` | the records from chunk i on are a suffix of the object at a computed offset, for full and short last chunks |
| `ChunkFormat.DefaultBytes` | `internal/auth/crypto.go:69-98` | the header of an object with the default chunk size and the associated data of its second chunk, byte by byte: the most significant byte comes first |
| `CryptoStreams.EncryptStream` | `internal/auth/crypto.go:69-125` | the loop writes the object of everything read, as far as the writer takes it, and reports the writer's failure if there is one, else the reader's |
| `CryptoStreams.DecryptStream` | `internal/auth/crypto.go:127-192` | for any bytes: the header checks, and then exactly what decoding record by record yields, as far as the writer takes it, with the writer's failure or the error that stops the decoding; a reader that fails makes it fail |
| `CryptoStreams.BrokenFails` | `internal/auth/crypto.go:153-158` | for any key, chunk size, position and bytes, decoding from a reader that fails ends with an error |
| `CryptoStreams.DecodedRecords` | `internal/auth/crypto.go:127-192` | decoding the records of a plaintext gives the plaintext and no error |
| `CryptoStreams.RoundTrip` | `internal/auth/crypto.go:69-192` | decrypting undoes encrypting for every plaintext, and the stored length is the promised one |
| `CryptoStreams.DecryptRange` | `internal/auth/crypto.go:232-304` | for any bytes and any trims: the clipped slice of what decrypting everything from that chunk yields, as far as the writer takes it, and an error exactly when the writer fails or that decryption fails before the slice is complete; a reader that fails makes it fail unless the slice is complete |
| `CryptoStreams.RangeOfObject` | `internal/auth/crypto.go:232-304` | on a stored object the slice is that part of the plaintext, counted from the start chunk |
| `Truncation.CutObject` | `internal/auth/crypto.go:127-192` | for every plaintext and every cut of its object behind the header: the whole chunks before the cut are given, and an error if and only if the cut is behind a whole nonce |
| `Truncation.DecryptCut` | `internal/auth/crypto.go:127-192` | the decoder does so on the cut object |
| `Truncation.FailedRecords` | `internal/auth/crypto.go:153-166` | a reader that fails instead of ending behind any prefix of the records yields the whole chunks before it and a read error |
| `Truncation.OneByteLost` | `internal/auth/crypto.go:98-98` | a concrete object whose last chunk, not empty, is lost without an error |
| `Truncation.AadInjective` | `internal/auth/crypto.go:98-98` | records with different numbers are sealed with different associated data |
| `Truncation.MovedRecord` | `internal/auth/crypto.go:98-98` | so a record is refused in the place of another, and nothing of it is given |
| `PartPlan.PartCount` | `internal/handler/upload.go:145-173` | the loop counts the parts of the next-fit plan |
| `PartPlan.PreparePart` | `frontend/src/uploads/engine.ts:160-236` | one round of the browser's part builder takes exactly the chunks the plan gives that part |
| `PartPlan.UploadParts` | `frontend/src/uploads/engine.ts:160-236` | the lengths of the parts the browser uploads are the plan's |
| `PartPlan.PartSizesSum` | `internal/handler/upload.go:142-173` | the parts of the plan sum to the encrypted size |
| `PartPlan.PartSizesBounded` | `internal/handler/upload.go:155-161` | every part fits the limit, and all but the last leave no room for another full chunk |
| `PartPlan.PartCountIsMinimal` | `internal/handler/upload.go:142-173` | no order-preserving partition at chunk boundaries within the limit has fewer parts, and the plan is one |
| `UploadGeometry.EncryptedFileSize` | `internal/handler/upload.go:109-117` | in 64-bit arithmetic the formula gives the mathematical size for every size it can hold |
| `UploadGeometry.UploadPartSizeFor` | `internal/handler/upload.go:123-140` | with wrap-around written out, the answer is the chosen part size or a refusal exactly as in unbounded arithmetic |
| `UploadGeometry.PartCountClosedForm` | `internal/handler/upload.go:145-173` | the count equals a closed form over header, full chunks and remainder |
| `UploadGeometry.AcceptedExactlyWhenUploadable` | `internal/handler/upload.go:123-140` | a size is accepted if and only if it fits 10,000 parts of whole chunks and the maximal part size |
| `UploadGeometry.SomeSmallFilesAreRefused` | `internal/handler/upload.go:128-138` | a concrete size far below the ceiling that is refused |
| `UploadGeometry.AuthoritativeCompleteParts` | `internal/handler/upload.go:180-207` | a reported list is accepted if and only if it is numbered 1 to n, every part has a tag and an allowed size, and the sizes sum to the expected size; without overflow |
| `UploadGeometry.PlannedUploadCompletes` | `internal/handler/upload.go:109-207` | for every accepted size the planned parts number at most 10,000, are of allowed sizes, and are accepted as the complete object |
| `UploadGeometry.DiscoverSize` | `frontend/public/sw.js:163-186` | an object length is accepted if and only if it is the encrypted length of some plaintext, and then that plaintext's length is returned |
| `UploadGeometry.SizeIsDetermined` | `frontend/public/sw.js:179-186` | two plaintext lengths with the same object length are equal |
| `ServiceWorker.FillHeader` | `frontend/public/sw.js:166-176` | the header buffer is the first five bytes of the body however it arrives in pieces, and is refused when there are fewer |
| `ServiceWorker.ParseHeader` | `frontend/public/sw.js:177-178` | for any five bytes: a chunk size is taken if and only if they are the header of objects with that chunk size and it is positive and at most 1 MiB |
| `ServiceWorker.RecordInObject` | `frontend/public/sw.js:282-288` | the ciphertext range computed for a chunk lies in the object and opens to that chunk |
| `ServiceWorker.BatchGeometry` | `frontend/public/sw.js:269-277` | a batch is at least one chunk, non-empty, inside the object and at most 4 MiB |
| `ServiceWorker.DecryptStream.FetchBatch` | `frontend/public/sw.js:269-277` | the fetched range starts behind everything fetched before and holds exactly the records of the next whole chunks, as many as fit a request |
| `ServiceWorker.DecryptStream.DecryptWindow` | `frontend/public/sw.js:279-299` | six chunks become ready, or what is left of the batch, cut to the requested range, in order; the batch is let go exactly when it is used up |
| `ServiceWorker.DecryptStream.Pull` | `frontend/public/sw.js:252-304` | one slice or the end; a measure decreases; only a failed fetch can fail the stream |
| `ServiceWorker.Respond` | `frontend/public/sw.js:197-313` | whatever the network does the slices are a prefix of the requested plaintext, and all of it unless a fetch failed; every request is a non-empty range inside the object of at most 4 MiB, and nothing is requested twice; what is kept for the cache is plaintext, and after a whole response that collects exactly the chunks that meet the range have been added |
| `ServiceWorker.RespondAndFlush` | `frontend/public/sw.js:93-105` | a whole response over the whole file writes the plaintext to the cache |
| `ServiceWorker.TryFlush` | `frontend/public/sw.js:93-105` | the cache is written exactly when every chunk has been collected, by one stream or several, and the entry is not closed, and with exactly the plaintext; then the file is no longer collected, and nothing else changes |
| `ServiceWorker.ParseRange` | `frontend/public/sw.js:323-338` | the bounds select exactly the positions the Range header names; a header is refused exactly when it names none or carries an unsafe number |
| `ServiceWorker.ResponseBounds` | `frontend/public/sw.js:123-133` | the bounds handed to the stream always satisfy what it needs, and a media response is a bounded prefix of the range |
| `Namespace.OnePath` | `internal/fileview/repo.go:140-168` | an inode has one path |
| `Namespace.WalkIsAt` | `internal/fileview/repo.go:99-118` | looking names up from the root and following parents to it are inverse |
| `Namespace.WalkBelow` | `internal/fileview/repo.go:99-118` | following names from any node leads exactly to the node whose path continues that node's path by them |
| `Namespace.RenameKeepsWellFormed` | `internal/fileview/mutations.go:213-246` | a rename to a free name outside the subtree keeps the tree well formed, and moves exactly that subtree |
| `Namespace.CreateKeepsWellFormed` | `internal/fileview/mutations.go:47-55` | creating a node at a free name keeps the tree well formed and all other paths |
| `Namespace.PruneKeepsWellFormed` | `internal/fileview/mutations.go:139-158` | removing a subtree keeps the tree well formed and all other paths |
| `PathStrings.SplitRender` | `internal/fileview/repo.go:81-97` | splitting the canonical string of names gives the names and the kind back |
| `PathStrings.ParentOfRendered` | `internal/fileview/repo.go:170-177` | the parent string of a canonical path is the canonical path of the parent directory |
| `PathStrings.ListedChildPath` | `internal/fileview/repo.go:370-373` | appending a child's name to the string of its directory gives the string of the place in the directory if and only if the directory's string ends in a slash, and otherwise of the place beside it |
| `FileView.Resolve` | `internal/fileview/repo.go:99-118` | the loop of lookups finds what the names lead to, if it is ready and of the kind asked for |
| `FileView.ReverseSegments` | `internal/fileview/repo.go:160-162` | the in-place loop reverses the array |
| `FileView.PathForNode` | `internal/fileview/repo.go:140-168` | the canonical path of the inode, or an error exactly beyond the depth guard or for a missing inode |
| `FileView.ShowThenResolve` | `internal/fileview/repo.go:81-168` | resolving the path shown for a ready inode gives the inode back |
| `FileView.ResolveThenShow` | `internal/fileview/repo.go:81-168` | the path shown for what a path resolves to is that path in canonical form |
| `FileView.ResolveParent` | `internal/fileview/repo.go:120-138` | the parent directory and last name of a path, or the refusal: a missing, unready or non-directory parent |
| `FileView.DestinationInsideSource` | `internal/fileview/service.go:139-152` | true exactly when the source is the destination parent or one of its ancestors; the loop ends at the root |
| `Subtrees.Collect` | `internal/fileview/repo.go:400-421` | the listing holds every node of the subtree exactly once |
| `FileCopy.Copier.CopyTree` | `internal/fileview/service.go:154-196` | copying to any name outside the source, free or taken: nothing moves or goes, only at or below that name is anything new or changed, and it ends, as nothing new lies deeper below the name than anything lies below the source; laid over itself a thing stays as it is; unless a child of the source goes to a place that contains the source, the destination on success holds the source laid over what was there, path by path, and every file is counted, it succeeds only if nowhere a file meets a directory, and if the store works that is all it takes |
| `FileCopy.Copier.CopyChildren` | `internal/fileview/service.go:191-195` | the loop over the children, likewise, into a new directory or one that is there |
| `FileCopy.ChildNext` | `internal/fileview/service.go:191-195` | wherever a copy goes, the next child is still there when its turn comes, does not contain the copy, and is less deep than its directory was: so the recursion ends although the tree grows |
| `FileCopy.OutsideIfApart` | `internal/fileview/service.go:198-239` | a copy over something that does not contain the source never sends a child to a place that does |
| `FileCopy.AllLaid` | `internal/fileview/service.go:154-196` | with every child laid over the destination, the directory is, at every path below it |
| `FileCopy.OtherName` | `internal/fileview/service.go:191-195` | copying one child changes nothing below any other name of the destination |
| `FileCopy.OverNothing` | `internal/fileview/service.go:154-196` | what has been laid over nothing has exactly the shape and contents of the source |
| `FileCopy.Copier.Copy` | `internal/fileview/service.go:198-239` | refused exactly when the source is missing, the destination's directory is missing, or a directory would be copied into itself; otherwise it ends, no node moves or goes and everything new or changed is at or below the destination, and what is copied over itself stays as it is; unless a directory is copied over one that contains it and has a child by the name of the way down to it: if the store works, it fails exactly when somewhere a file meets a directory, and on success the source has been laid over what was at the destination and done equals the announced total |
| `Metadata.Catalog.UpsertMetadata` | `internal/fileview/mutations.go:60-101` | the statement built in the loop changes the row as the generation rule says, and no other row |
| `Metadata.FinalRow` | `internal/fileview/mutations.go:60-101` | the row after any history: the newest generation, and in each column the last value supplied for it |
| `Metadata.GenerationNeverDecreases` | `internal/fileview/mutations.go:92-100` | a row's generation never decreases |
| `Metadata.ConvergesExactlyWhenAgreeing` | `internal/fileview/mutations.go:60-101` | all arrival orders end in the same row if and only if updates of the newest generation agree where they overlap |
| `Metadata.DistinctKeysConverge` | `internal/fileview/mutations.go:60-101` | updates with distinct generation and field keys converge in every order |
| `Metadata.PublicationErasesEarlierProbe` | `internal/fileview/mutations.go:129-136` | a publication and a probe of the same generation do not commute |
| `Metadata.PublicationResets` | `internal/fileview/mutations.go:129-136` | whatever came before, a publication of a newest generation leaves its own generation, content type and content hash and the defaults in the probed columns |
| `Metadata.Catalog.UpdateIfGeneration` | `internal/fileview/mutations.go:292-314` | a probe is applied exactly when inode, generation and status still match, stamped with the captured generation |
| `Metadata.Catalog.Publish` | `internal/fileview/mutations.go:103-137` | a publication is recorded only for the very content that is published; then a row no newer has its generation, its content type, its content hash and nothing else, and other rows are as before |
| `Metadata.FileShowsOnlyItsGeneration` | `internal/fileview/repo.go:203-223` | a file record shows only values supplied for the generation the file now has |
| `Metadata.DirectoryShowsItsRow` | `internal/fileview/repo.go:203-223` | the record of a directory shows its row whatever the row's generation, and never a type guessed from a name |
| `Metadata.NothingSupplied` | `internal/fileview/mutations.go:60-101` | a column that nothing was supplied for is empty |
| `Naming.FindFree` | `internal/handler/trash.go:526-538` | the first free numbered name, found within one more try than there are names |
| `Naming.NextAvailableName` | `internal/handler/upload.go:244-262` | the name is free and the first of its candidates that is |
| `Naming.NextAvailableRestorePath` | `internal/handler/trash.go:506-539` | a canonical path in the same directory with a free last name, within one more try than there are names |
| `Naming.NumberedAlike` | `internal/handler/trash.go:517-524` | uploads and restores number a file alike if and only if its last dot is not its first character |
| `Naming.SplitsReassemble` | `internal/handler/upload.go:256-262` | splitting off the extension loses nothing, except that a restore doubles the name of a dot file |
| `Naming.LastDotIsLast` | `internal/handler/upload.go:256-262` | a name is split at its last dot |
| `TreeMerge.FrameTrans` | `internal/handler/trash.go:583-639` | what merges may do adds up: the frame of a merge is transitive |
| `TreeMerge.MoveFrame` | `internal/handler/trash.go:593-598` | moving a child of the source to a free name of the target stays in the frame |
| `FileRepo.FileRepo.MoveNoReplace` | `internal/fileview/mutations.go:213-263` | the rename happens, whole, or nothing changes |
| `FileRepo.FileRepo.MoveAt` | `internal/handler/trash.go:202-208` | a move between two path strings happens whole or not at all, and if the store works exactly when something is at the one and the other is free in a directory not inside what is moved |
| `FileRepo.FileRepo.ListAt` | `internal/fileview/repo.go:334-373` | exactly the children of what the string names, directories before files; nothing for a string that names nothing, an error for a file |
| `FileRepo.FileRepo.Delete` | `internal/fileview/mutations.go:139-158` | children first, and each removal may be done although it reports an error: on success the subtree is gone, if the node is gone all below it is, and otherwise only nodes inside the subtree are; all else is unchanged |
| `FileRepo.FileRepo.EnsureDirectory` | `internal/fileview/mutations.go:22-58` | only missing directories of the path are created, also when a creation is done although it reports an error; it works only if no file is in the way, and always then if every call works |
| `FileRepo.FileRepo.Sweep` | `internal/handler/trash.go:968-977` | only what lies inside unexpected children goes; on success no unexpected child is left |
| `TrashMerge.MergeTrashDirectory` | `internal/handler/trash.go:583-639` | whatever the slashes and whatever fails, as long as no name appended to a string without one gives a place above a directory: it terminates, and unless it replaces no file is lost; replacing removes nothing but emptied source directories and what gives way at the places taken, and all of that if it gets through. If both strings end in a slash it also changes nothing outside the two directories, and replacing only removes what lies at or below the target's side of a conflict; it stops unresolved only if a conflict existed at the start; if every call works it succeeds if and only if no directory meets a file and the conflicts are resolved or absent; and after success every file of the source lies at its relative path in the target, or was skipped for a conflict there, or lies beside the taken place under the first free number, and unless conflicts were skipped the source is empty. If not, it only moves and removes at the places taken, leaves the source or the target as it was, and delivers nothing |
| `TrashMerge.MergeChild` | `internal/handler/trash.go:589-637` | one round touches only the child and its namesake, and on success has delivered every file of the child, in every mode; if a string lacks the slash it keeps to the two places taken beside the directories, loses nothing unless it replaces, and then exactly what gives way there |
| `MergeLosses.FitConserved` | `internal/handler/trash.go:583-639` | if both strings end in a slash, what gives way at the places taken is what lies at or below the target's side of a conflict: the one account of losses holds for all strings |
| `MergeLosses.OneMoreStray` | `internal/handler/trash.go:588-637` | the losses of the rounds add up, whatever the strings: those of the first k rounds and of the next are those of the first k + 1 |
| `MergeLosses.NoneLost` | `internal/handler/trash.go:583-639` | a merge that keeps to that account and does not replace loses no file, whatever the strings |
| `MergeSteps.OthersWait` | `internal/handler/trash.go:583-639` | one round leaves the other children and their namesakes as they were |
| `MergeSteps.DeliveredStays` | `internal/handler/trash.go:583-639` | later rounds do not disturb what an earlier one has delivered |
| `MergeSteps.RenumberedStays` | `internal/handler/trash.go:620-637` | later rounds keep what was renumbered, and the numbers it had to pass, where they are |
| `TrashMerge.DeliveredExactly` | `internal/handler/trash.go:583-639` | a merge that ended well has delivered the files that were not to be skipped if and only if both strings end in a slash |
| `MergeBeyond.MergeLosesNeighbour` | `internal/handler/trash.go:588-637` | whenever the only file of the source meets a file beside a target without a slash, replacing loses that file, which no conflict is about, delivers nothing, and reports success unless the store fails |
| `MergeBeyond.NeighbourIsBeyond` | `internal/handler/trash.go:113-120` | a concrete drive on which that happens: an entry trashed as `/project`, and `/projectx` beside it |
| `MergeBeyond.NeighbourIsOffered` | `internal/handler/trash.go:677-741` | the invariant of the handlers holds there, the request to merge the entry back is offered, and its two strings are those that do not fit |
| `MergeBeyond.UnagreedGoExactly` | `internal/handler/trash.go:588-637` | once a merge told to replace is through, a file no conflict is about is lost if and only if it gave way at one of the places taken |
| `MergeBeyond.ExposedBesideTarget` | `internal/handler/trash.go:588-637` | if the target's string lacks the slash, all files that give way are such files |
| `MergeBeyond.ExposedBesideSource` | `internal/handler/trash.go:598-612` | if only the source's string lacks it, such a file exists exactly where a directory of the source meets one of the target and the directory that is merged in its place has something in the way |
| `MergeBeyond.MergeLosesOther` | `internal/handler/trash.go:598-612` | whenever the only child of the source is such a directory and nothing stops the merge of the other, the merge reports success unless the store fails, and all such files are lost |
| `MergeBeyond.TwinIsSwapped` | `internal/handler/trash.go:598-612` | a concrete drive on which that happens: `sub/x` and `subx` in one payload |
| `MergeBeyond.TwinIsExposed` | `internal/handler/trash.go:598-612` | naming `sub` without its slash there exposes a file that nothing in `sub` is in the way of |
| `MergeBeyond.TwinIsOffered` | `internal/handler/trash.go:677-741` | the invariant of the handlers holds there, the request for `sub` without its slash is offered, and it exposes that file |
| `MergeBeyond.PrivateGivesWay` | `internal/handler/trash.go:591-594` | if a file's name completes a target without a slash to the private directory, every node of every payload gives way to it |
| `MergeBeyond.ReplacePrivate` | `internal/handler/trash.go:616-637` | the round for such a file, told to replace, fails whether or not the store does, and if the store does not, nothing is left of any payload |
| `MergeBeyond.PrivateBreaks` | `internal/handler/trash.go:616-637` | then the invariant does not hold, whatever was asked for, if any entry is ready |
| `MergeBeyond.CompletedIsOffered` | `internal/handler/trash.go:677-741` | a concrete drive: an entry trashed as `/.dom` that holds the file `us`; the invariant holds, the request to merge it back is offered, and that round is the merge's only one |
| `MergeBeyond.CompletedIsLost` | `internal/handler/trash.go:616-637` | and the file that was to be restored is lost |
| `TrashMerge.FreeName` | `internal/handler/trash.go:506-539` | the name for a renamed node is free and carries the smallest free number |
| `MergeConflicts.CollectMergeConflicts` | `internal/handler/trash.go:549-581` | reports exactly what the listed children meet at the places their names are appended to; if both strings end in a slash, exactly the files of the source that meet something at the same path |
| `MergeConflicts.NothingReported` | `internal/handler/trash.go:549-581` | an empty report means that no conflict exists anywhere below |
| `TrashTable.TrashTable.Create` | `internal/model/mem_repos.go:71-96` | a taken id or root inode is refused, else the row is added |
| `TrashTable.TrashTable.Transition` | `internal/model/repo_trash.go:51-68` | the compare-and-set: it happens exactly from the expected state, and changes nothing else |
| `TrashTable.TrashTable.MarkReady` | `internal/model/mem_repos.go:167-169` | the way back to ready, only from the expected state, with the operation cleared |
| `TrashTable.TrashTable.ListRecoverable` | `internal/model/mem_repos.go:139-150` | exactly the entries that are not ready, once each |
| `TrashTable.TrashTable.List` | `internal/model/mem_repos.go:108-137` | a page of the listing, newest first, with the limit rule |
| `TrashTable.OneListing` | `internal/model/mem_repos.go:116-125` | the order of the listing is total: there is only one listing |
| `TrashTable.TrashTable.ListAllReady` | `internal/handler/trash.go:887-899` | the pages together are the listing |
| `TrashInvariant.ConfinedKeepsSound` | `internal/handler/trash.go:641-666` | a step that puts nothing into a payload and leaves the other payloads alone keeps the joint invariant of tree and table |
| `TrashInvariant.MoveInKeepsSound` | `internal/handler/trash.go:210-228` | moving a file into the place of its pending entry keeps it, and puts the payload in place |
| `TrashInvariant.MergeConfined` | `internal/handler/trash.go:583-639` | a merge out of a payload is such a step |
| `TrashPaths.NormalForm` | `internal/handler/trash.go:54-81` | normalising refuses exactly the paths with a NUL or a climbing segment at either separator, and otherwise gives the canonical string of the names meant |
| `TrashPaths.NormalIsNormal` | `internal/handler/trash.go:54-81` | normalising is idempotent |
| `TrashPaths.ClimbUndoes` | `internal/handler/pathspace.go:16-29` | in an application path two dots undo the name before them, and climb no further than the root |
| `TrashPaths.CleanedIsClean` | `internal/handler/pathspace.go:16-29` | what cleaning leaves are names, and cleaning again changes nothing |
| `TrashPaths.StorageMeaning` | `internal/handler/trash.go:83-96` | the stored place is the names meant below the payload; only directory entries have anything below it |
| `TrashPaths.OriginalMeaning` | `internal/handler/trash.go:113-129` | the original place is the names meant below the original path, however that was written; its own slash shows only where the whole entry is meant |
| `TrashPaths.RelativeMeaning` | `internal/handler/trash.go:98-111` | a stored path has a path inside the entry if and only if it is the payload or, in a directory entry, below it |
| `TrashPaths.RelativeOfStorage` | `internal/handler/trash.go:83-111` | the path inside the entry of the stored place of a request is the request, normalised |
| `TrashSteps.MergedTidy` | `internal/handler/trash.go:583-639` | whatever a merge out of a payload does, all the user sees stays as it was except what may be replaced |
| `TrashSteps.StillDelivered` | `internal/handler/trash.go:734-741` | clearing up the payload after a merge disturbs nothing that was delivered |
| `TrashSteps.RoomBefore` | `internal/handler/trash.go:757-770` | there is room for a restored node after its parents are made only if no file was in the way and the place was free before |
| `TrashHandlers.Trash.CreateEntry` | `internal/handler/trash.go:230-300` | at every crash point the invariant holds, no file is lost and only missing internal directories are new; a created entry is ready with its payload in place, an accepted one pending with it in place, and its row is exactly the file's path as it was written, its kind and the time, no other node or row having changed; anything else has moved nothing, and left no row if the table works; and if every call works the reply is determined by the tree and the table |
| `TrashHandlers.Trash.FinishMutation` | `internal/handler/trash.go:641-666` | the entry is dropped if and only if its payload has left or was an empty directory, else it is ready with its payload in place; nothing goes but that empty directory |
| `TrashHandlers.Trash.TrashRecord` | `internal/handler/trash.go:146-163` | finds exactly the node a request names: a path inside the payload, which must be the entry's root inode if the path is empty |
| `TrashHandlers.Trash.DeleteItem` | `internal/handler/trash.go:783-819` | wherever it breaks off, nothing moves and nothing goes but what is at or below the requested node and a payload root left empty; a deleted reply means that the request named a ready entry's node, it is gone and the entry settled; one that is pending or broken off leaves the entry claimed, and any other changes nothing; and if every call works the reply is determined by the tree and the table |
| `TrashHandlers.Trash.RestoreMove` | `internal/handler/trash.go:751-781` | the direct restore: wherever it breaks off, all else the user sees is unchanged except what is replaced, only missing parents are new and other payloads are untouched; a restored reply means the inode is at the target and the entry settled; a refusal that follows no removal leaves the entry ready with its payload in place if the table works; and if every call works it is restored if and only if something was to be replaced there or the place had room, and else refused for the parents exactly if a file is in the way |
| `TrashHandlers.Trash.ReplaceAndMove` | `internal/handler/trash.go:765-777` | the part of it behind the claim: an entry whose removal of what is to be replaced broke off stays claimed, and one that could only not be moved is ready again |
| `TrashHandlers.Trash.RestoreMerge` | `internal/handler/trash.go:718-749` | the merging restore, whatever the strings, unless an appended name gives the private directory: wherever it breaks off, the invariant holds, other payloads are untouched, nothing else the user sees has changed, and no file is lost unless nested conflicts are to be replaced; then only what gives way, and all of it when the merge is through. If both strings end in a slash, only what the user agreed to replace is lost; it never meets an unresolved conflict after an empty report; when the merge is through every file has been delivered in the final tree and, unless conflicts were skipped, nothing is left in the merged directory; and if every call works it succeeds if and only if no directory meets a file and the nested conflicts are resolved or absent, and reports a conflict if and only if there is one that is not resolved |
| `TrashHandlers.Trash.MergeOut` | `internal/handler/trash.go:734-749` | the same of the merge of a claimed entry and clearing up after it: a failed reply exactly if the merge failed |
| `TrashHandlers.Trash.RestoreRenamed` | `internal/handler/trash.go:712-717` | the renaming restore: the node ends beside the taken place under the name with the smallest free number |
| `TrashHandlers.Trash.RestoreEntry` | `internal/handler/trash.go:677-781` | all resolutions and all strings, unless a name appended in a merge gives the private directory: wherever it breaks off, the invariant holds, nothing else the user sees has changed, and files are lost only where the user chose to replace: those the user agreed to and those a missing slash exposes, which a restored reply means are gone. If a directory to be merged is named with a slash and was trashed so, or nothing is merged, none is exposed, a restored reply means that the request named a ready entry's node and that it is where the resolution puts it, and if every call works the reply is determined by the tree and the table: skipped exactly if something is at the place and is to be skipped, a conflict exactly if one is left open, and so on. Of the entry: a restored reply settles it; one that is pending, or broken off while it was removing or merging, leaves it claimed; any other refusal leaves it ready with its payload in place if the table works |
| `TrashSteps.RestoreIsDue` | `internal/handler/trash.go:677-781` | the reply due to a restore is restored if and only if the place has room, or what is there is to be replaced or avoided by another name, or both are directories that merge without an open conflict |
| `TrashHandlers.Trash.RecoverEntry` | `internal/handler/trash.go:982-1018` | from any state in flight: nothing moves, only files of a pending deletion are lost, and when it gets through the entry is ready if and only if its payload is in place, else gone, no empty directory is kept behind a deletion or a restore, and a pending deletion is complete |
| `TrashHandlers.Trash.RecoverTrash` | `internal/handler/trash.go:1023-1041` | nothing moves and nothing outside the payloads of entries in flight goes; only files of pending deletions are lost, and when it gets through all of them are; all entries come to rest, ready ones are untouched, and a second recovery changes nothing |
| `TrashHandlers.Trash.EmptyEntry` | `internal/handler/trash.go:843-873` | an entry is gone, failed, or counted as retained; one that stays ready uncounted needs a transition and a lookup that both fail, and these two failures are enough |
| `TrashHandlers.Trash.EmptyPage` | `internal/handler/trash.go:843-876` | entries that stay ready keep their places in the listing, those counted as retained and the skipped ones; a page during which the table refuses everything changes nothing and counts nothing |
| `TrashHandlers.Trash.EmptyTrash` | `internal/handler/trash.go:821-885` | for any failures and any number of rounds: nothing moves and nothing outside the visited payloads goes, and what remains of the visited is in the failed list; every entry is visited exactly once, in listing order, if and only if no page before the last skipped an entry; then it ends after the last page and the failed list is exact; a table that answers only its listings keeps it on the first page for ever; and if every call works no ready entry is left |
| `TrashSteps.ListingDrop` | `internal/handler/trash.go:832-876` | an entry that stops being ready leaves the listing and the order of the others stays |
| `TrashStartup.CollectExpected` | `internal/handler/trash.go:922-944` | ready entries without payload are dropped, and the expected roots are exactly the payloads in place |
| `TrashStartup.Prepare` | `internal/handler/trash.go:905-980` | whatever happens, nothing moves and only junk and nodes of payloads in flight go; when it gets through the trash is at rest, the nodes of the items directory are one to one the ready entries, and the trash directory holds nothing else; and it gets through if every call works and no file stands where the internal directories belong; and if the invariant of the handlers held before, it holds after, however far it got |
| `TrashStartup.NoPayloadIsJunk` | `internal/handler/trash.go:961-977` | if the invariant held before, startup removes nothing of any payload unasked |
| `TrashStartup.OrphanIsJunk` | `internal/handler/trash.go:961-977` | a payload without a row is removed by the next startup |
| `TrashStartup.LateRenameIsJunk` | `internal/handler/trash.go:282-286` | if the rename into the trash is done although it reports an error, the request drops the row, the invariant is lost, and all that was moved is removed by the next startup |
| `TrashStartup.LateRestoreIsNoJunk` | `internal/handler/trash.go:770-773` | if the rename out of the trash is, the row is made ready without a payload, and nothing that was moved is removed |
| `TrashRuns.Run` | `internal/handler/trash.go:230-1041` | after any sequence of requests and restarts with any failures and crash points, each request has done what its reply says, and every file is still there unless one of them asked for its removal, or exposed it by a merge told to replace with a missing slash, in the state in which it was made; if no request was such a merge, nothing is lost that was not asked for; and a recovery that gets through leaves every entry ready and in place |
| `TrashRuns.Serve` | `internal/handler/trash.go:230-1041` | one request does what its reply says and loses only files it asks for or exposes, whatever fails |
| `TrashRuns.SlashedIsFitting` | `internal/handler/trash.go:113-163` | for a merge to deliver it is enough to name the directory with a slash, or the entry if it was trashed so |
| `TrashRuns.CarefulExposesNothing` | `internal/handler/trash.go:677-749` | a request that does not merge with replacing, or whose strings end in a slash, exposes nothing |
| `TrashRuns.ClearIsEnough` | `internal/handler/trash.go:588-594` | what the handlers need of a merge follows from what a caller can check: both strings end in a slash, or no appended name gives the private directory |
| `TrashRuns.NewTrash` | `internal/model/mem_repos.go:71-96` | an empty drive with an empty table satisfies the invariant the handlers rely on, for any failures of their calls |

## Left out

- Mountinfo, FUSE, unmount helpers, Unix sockets and file locks: outcomes of protocol actions.
- Entry pointers of the manager: an entry is a value in a map, so aliasing of a replaced entry by an older pointer is not captured; status texts, mount ids and timestamps are dropped.
- The orphan scan of mountpoints, `Status`, `List` and `Health`: reads and file system scans.
- `isProtectedMutationRoot` and `validateTrashConflict`: one-branch checks; the resolutions are a datatype.
- `MountTheorems.CapacityIsRespected`: holds for runs in which the recorders wait for a running operation of their user, because it is false otherwise.
- Real AES-GCM, key wrapping, nonces and hashes: the cipher is a parameter with two laws and, for cuts and for moved records, a third and a fourth, which no cipher keeps for certain; nonces are a parameter.
- `ServiceWorker.Respond`: covers failing fetches, not cancellation and not several streams that share an accumulator while they run. Key caching and the browser's queue are not modelled; numbers are exact integers within the safe range.
- The upload handlers around the geometry: tasks, quotas, presigned URLs, and the hash and spool of the browser's parts.
- `FileCopy.Copier.Copy`: does not say what is at the destination if a directory was copied over one that contains it and has a child by the name of the way down to it, as `/a/x` over `/a` if there is `/a/x/x`; the loops then read what they have written. That the store's clone replaces a file and refuses a directory is taken from its call; copied metadata rows are not modelled.
- `FileCopy.Copier.CopyTree`: likewise.
- Nodes that are reserved by a running upload: `FileView.Resolve` takes the set of ready nodes; listings and copies see ready nodes only.
- The DOFS backend is not part of this model: its rename, remove and create are taken to work atomically on the inode table, to refuse taken names and moves of a directory into itself. `ValidName` is taken to exclude empty names, slashes, NUL and the two dot names.
- Upload projection rows, thumbnails, renditions and shares: their cleanup during deletion and trashing is not modelled; a deletion removes the nodes of the subtree.
- A directory record shows its metadata row whatever the row's generation is, as the code does; the generation theorem is about files.
- `TrashHandlers.Trash.RestoreEntry`: excludes the merges that append a name giving the private directory, for which the invariant is false, see above.
- `TrashHandlers.Trash.RestoreMerge`: the same.
- `TrashRuns.Serve`: the same.
- `TrashRuns.Run`: ends before such a merge.
- `TrashMerge.MergeTrashDirectory`: with a string without a slash it requires that no appended name gives a place above one of the two directories; for a restore that is such a name.
- The trash handlers work on names and slashes; `TrashPaths` says what the strings of a request mean. The order of a listing is directories before files; the order of names within each is left open.
- Concurrency between trash requests, and changes of the private directory from outside, are not modelled; the compare-and-set is, and so is any failure of any call: without effect, or for removals and the creation of directories also after the effect. What a rename does that takes effect and still reports an error is said of one step (`TrashStartup.LateRenameIsJunk`, `TrashStartup.LateRestoreIsNoJunk`), not of runs; table calls are taken to have no effect when they report an error.
- `TrashTable.TrashTable.ListRecoverable`: the order by update time is left open; recovery is proved for any order.
- The depth guard of `FileView.PathForNode` is not repeated in the trash, where paths of any depth are compared.
- Entry ids are taken to be of one length, as UUIDs are, where the code compares path prefixes as strings; the operation and target paths of an entry are display data and are not modelled.
- The grace period of the periodic recovery, the removal of listed entries without payload in `handleListTrash`, history, access and audit of trashed files.
- Several users: the trash is modelled for one user at a time, the table being keyed by user.
- Backup, configuration, transcoding, e-mail, sessions, the command line and the user interface.
