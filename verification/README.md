# Verification of blobkit's local stores

A Dafny model of the parts of blobkit that keep bytes on one machine, and proofs about it.

* **The io_uring engine** (`src/io_uring_backend.rs`): cutting a buffer into chunks, the submit, wait, reap, resubmit
  loop, short transfers, zero counts and errors. `Kernel.dfy` is the environment as a step relation, `Transfer.dfy` the
  invariants and what each step does to them, `Leftovers.dfy` what a failed call leaves behind, `Engine.dfy` the loop itself.
* **The path-based stores** (`src/local.rs` and the store half of `src/io_uring_backend.rs`) and the in-memory store
  (`src/memory.rs`): `FileModel.dfy` says what each operation does to a directory tree, `Walk.dfy` what the pruned walk
  of `list` keeps, `Stores.dfy` holds the stores as classes over a file system of inodes, `Refinement.dfy` and `Runs.dfy`
  compare them with the map, and `Answers.dfy` says what every answer means without the functions that compute it.
* **The atomic-write protocol** under concurrency and crashes: `Protocol.dfy` is the state machine and its invariant,
  `Interleavings.dfy` what every step keeps, `Reachable.dfy` the results for every reachable state, `Calls.dfy` and
  `Progress.dfy` what each call gets and that it can always finish, `ConcurrentList.dfy` what `list` returns meanwhile.
* **Keys and ids** (`src/types.rs`): `Keys.dfy`, `Order.dfy`, `HexCodec.dfy`.

## What is proved

* Whatever the ring size, the chunk size, the order of completions and the pattern of short counts, a write that returns
  Ok has overlaid the file with the payload, and a read that returns Ok has filled the buffer with the file's bytes. Ok is
  returned if and only if the kernel never refused and never reported zero or an error. At most as many operations as bytes
  are submitted, no cast or offset loses anything, and a failed call can never, not even later, touch anything outside its
  target.
* `list` returns exactly the valid relative paths with the prefix, once each, in byte order, for every tree and prefix.
* For valid keys, the path-based stores (`Runs.ServeAll`) and the in-memory store answer every list of requests alike if and
  only if the keys are plain and prefix-free (`Keys.PlainSet`: no `.` segment, no `..` anywhere, none a directory of another).
* Every answer of every operation is described twice: by the function that computes it, and in terms of the files, the
  directories, the bytes or the earlier requests alone.
* Over such keys, if none has a segment beginning with `.blobkit-` (`Keys.CanonicalSet`), every interleaving of
  clients is linearizable to an atomic map: put at the rename, get at the open, delete at the unlink, exists at the stat. A crash
  at any step leaves each key with a whole earlier payload or absent.

## Assumptions

About the kernel (`Kernel.dfy`): it completes only operations it was given, each once, in any order; a result is negative or
a count of at most the requested length, of bytes that really moved; a read of a non-empty range reports 0 only at end of
file; a successful `submit_and_wait(1)` leaves at least one completion; the submission queue has at least the requested
number of entries. Bytes of an accepted operation may move one by one at any time, even if it later reports an error.

About the file system: `rename` and `unlink` are atomic; an open inode outlives its name; `sync_all` makes an inode's
contents durable; a temporary name is fresh. In a crash unsynced contents become arbitrary, directories may vanish, and each
name goes back, by itself, to what it was in some version of the directory since the last crash; a name that survives still
lies in a directory. Reading a directory hands out each name at most once and every name that is there throughout. The root is
an absolute path without dots. No symbolic links, no names
outside UTF-8, no other program in the root. Keys are byte strings in UTF-8.

`FileSystem.faults` and `Ring.refusals` are ghost counters that exist so that a contract can say that an operation fails
only if something outside it failed.

## Where the code and its documentation differ

* `src/lib.rs:49-50` and `README.md:34` call the local stores durable. The file is synced before the rename, but the
  directory never is, so an acknowledged put may be undone by a crash: `Reachable.DurableExactlyWhenUnchanged` says exactly
  when it cannot, `Reachable.AcknowledgedPutMayVanish` gives the run.
* `src/io_uring_backend.rs:189-193` says that all completions are reaped before `drive` returns. On an error return (lines
  251-269) they need not be. `Leftovers.ErrorLeavesRingBusy` gives the schedule; after an error or zero count the ring is sure
  to be idle if and only if the buffer is at most one chunk or the ring has one slot, and after a refused wait it never is.
  `Leftovers.LeftoverCompletionIsMistaken` goes on from there to a reused handle that returns Ok without writing. The contracts
  of `WriteAllAt` and `ReadAllAt` therefore ask for an idle ring, which every Ok leaves behind, and which is exactly what keeps
  the completions of other calls out (`Leftovers.AlienCompletionExactlyFromBusyRing`). The stores use each ring once.
* `src/io_uring_backend.rs:225-227` speaks of a failed push as a transient retry. If it could happen with nothing in flight,
  line 246 would return Ok with work left; the proof shows that it cannot happen.
* `src/types.rs:94` guards against `..` components only, `resolve` against `..` anywhere, so `a..b` is a valid key that no
  path-based store accepts (`Keys.ValidKeyRejectedExactly`).
* Keys with `.` segments are valid and share files with the keys without them (`Keys.DottedKeysCollide`), unlike in the
  in-memory store.
* `src/local.rs:112-114` says that what `resolve` returns remains under the root. The destination does, but for a key of `.`
  segments only it is the root itself, and the temporary file goes into its parent: a put of the key `.` writes and syncs the
  whole payload outside the root, and only then fails (`FileModel.TempDirBelowRootExactly`, `Stores.LocalStore.Put`).
* `exists` is true for directories, and directories are never removed, so `a` stays unusable after `a/b` was deleted
  (`Refinement.DirectoriesOutliveTheirFiles`).
* `BlobId::from_str` accepts a plus sign in front of a digit (`HexCodec.FromStr`).

## Model

| member | source | states |
|---|---|---|
| Engine.IoUringFile.WriteAllAt | src/io_uring_backend.rs:148-162 | For every ring size, chunk size and kernel schedule: Ok means the file is its old contents overlaid with `data` at `offset` (zero-filled gap, rest unchanged) and the ring is idle; whatever the outcome, and whatever still lands later, a byte that changed is inside the target range and is a hole zero or the matching byte of `data`; the outcome is the one the kernel's answers call for; a refused wait leaves the ring busy, an error or zero count leaves it idle if the buffer is one chunk or the ring one slot; an empty write returns Ok; at most one operation per byte is submitted. |
| Engine.IoUringFile.ReadAllAt | src/io_uring_backend.rs:170-185 | Ok means that the range lies within the file (when not empty) and the buffer equals it; on any outcome each buffer byte is old or the file byte it is aimed at; the file is untouched; failure only for a refusal, a reported error, or an end of file before the end of the range, and never for an empty buffer; what is left in the ring as for a write. |
| Engine.IoUringFile.Drive | src/io_uring_backend.rs:194-278 | The loop terminates (bytes left fall with every successful reap), returns Ok only with nothing queued, nothing in flight and every byte confirmed, although the exit looks only at the operations in flight; never reports an unknown completion; submits at most as many operations as there are bytes; says after which errors the ring is idle. |
| Engine.IoUringFile.Chunks | src/io_uring_backend.rs:149-160 | The pieces are non-empty, at most a chunk long, disjoint, aimed at their own part of the file, cover the buffer exactly, and are `Transfer.Cut`: whole chunks, then the rest. |
| Engine.IoUringFile.Fill | src/io_uring_backend.rs:201-244 | Submits until the ring is full or the queue is empty; the push never fails, in-flight never exceeds the ring depth, the number of bytes left does not change, and the result is `Leftovers.Filled`. |
| Engine.IoUringFile.Reap | src/io_uring_backend.rs:250-276 | After a successful wait at least one completion is reaped, strictly fewer bytes are left and the loop invariant holds again; otherwise the call ends with an outcome that the kernel's answers call for, and harmlessly. |
| Engine.IoUringFile.constructor | src/io_uring_backend.rs:124-132 | A fresh handle starts with an idle ring. |
| Engine.Ring.Push | src/io_uring_backend.rs:233 | Queues an entry exactly when the submission queue has a free slot. |
| Engine.Ring.SubmitAndWait | src/io_uring_backend.rs:251 | Any run of the kernel may happen while waiting; success means that a completion is there. |
| Engine.Ring.NextCompletion | src/io_uring_backend.rs:252 | Hands back the oldest completion, each once, while the kernel goes on running. |
| Engine.Ring.Churn | src/io_uring_backend.rs:250-252 | Moves the ring only along runs of the kernel's steps: accept, move one byte, complete in any order with any allowed count. |
| Engine.WriteSequence | src/io_uring_backend.rs:194-197 | Any number of Ok calls on one handle is the composition of their overlays, although ids start again at 0. |
| Engine.LastWriteOfAByteWins | src/io_uring_backend.rs:140-148 | After a sequence of writes each byte is that of the last write that hits it; one that none hits is old, or a hole zero. |
| Engine.WriteThenRead | src/io_uring_backend.rs:286-301 | What was written Ok through one ring is what is read Ok through another, and that read never ends in UnexpectedEof, not even for no bytes. |
| Transfer.CutWritesAll | src/io_uring_backend.rs:149-161 | Cutting loses nothing: writing the pieces one after the other, at their own offsets, is writing the buffer. |
| Bytes.OverlayMeans | src/io_uring_backend.rs:140-148 | An overlay byte by byte: the data in its range, the old bytes elsewhere, zeros in a gap. |
| Bytes.OverlayOfChunks | src/io_uring_backend.rs:149-161 | Writing two adjacent chunks is writing their concatenation; the step of `Transfer.CutWritesAll`. |
| Transfer.TilesPush | src/io_uring_backend.rs:149-160 | Cutting one more chunk keeps the pieces disjoint, aligned and covering. |
| Transfer.SubmitKeepsPartition | src/io_uring_backend.rs:202-238 | Moving a queued piece into flight keeps confirmed bytes, queue and in-flight pieces an exact partition of the buffer. |
| Transfer.ReapKeepsPartition | src/io_uring_backend.rs:260-275 | A full or short completion moves exactly its bytes to confirmed and requeues exactly the remainder; the partition is kept. |
| Transfer.PiecesAtMostBytes | src/io_uring_backend.rs:199-277 | There are never more pieces than bytes left. |
| Transfer.AcceptKeepsSound | src/io_uring_backend.rs:251 | The kernel taking an entry loses no operation and no confirmed byte. |
| Transfer.MoveKeepsSound | src/io_uring_backend.rs:215-219 | A byte moved by any operation of the call never undoes a confirmed byte nor falsifies a pending completion, and stays inside the frame. |
| Transfer.ReportIsTruthful | src/io_uring_backend.rs:256-264 | A count reported for an operation of the call confirms bytes of the call. |
| Transfer.CompleteKeepsSound | src/io_uring_backend.rs:252-256 | Completing any operation in any order keeps each operation in the ring exactly once and its report truthful. |
| Transfer.StepKeepsSound | src/io_uring_backend.rs:250-252 | Every kernel step keeps the call's invariant. |
| Transfer.ReachKeepsSound | src/io_uring_backend.rs:250-252 | Every kernel schedule, of any length, keeps the call's invariant. |
| Transfer.PushKeepsSound | src/io_uring_backend.rs:233-238 | Queueing under a fresh id keeps ids distinct and the ring's contents equal to the operations in flight. |
| Transfer.ReapIsKnown | src/io_uring_backend.rs:253-255 | A completion always belongs to an operation in flight and is its only trace in the ring, so the unknown user_data error is unreachable. |
| Transfer.ReapKeepsSound | src/io_uring_backend.rs:253-276 | Removing a completion and its operation keeps the invariant and confirms the bytes it reports. |
| Transfer.TransferredWriteIsOverlay | src/io_uring_backend.rs:142-148 | A write whose bytes are all confirmed and whose frame held has produced the overlay. |
| Transfer.OkExactlyWhenAnswersPositive | src/io_uring_backend.rs:246-270 | A call returns Ok if and only if the kernel never refused and every count it reported was positive. |
| Transfer.LongEnoughReadSucceeds | src/io_uring_backend.rs:164-170 | If the file is long enough and the kernel reports no error, every schedule of a read returns Ok. |
| Transfer.SubmitIsExact | src/io_uring_backend.rs:210-220 | The cast of a piece length to 32 bits loses nothing. |
| Transfer.AdvanceIsExact | src/io_uring_backend.rs:272-274 | Advancing a piece's 64-bit file offset never wraps. |
| Transfer.SubmitKeepsSteady | src/io_uring_backend.rs:201-238 | Submitting keeps the whole loop invariant; the submission queue holds no more than the operations in flight, so a slot is free. |
| Transfer.WaitKeepsSteady | src/io_uring_backend.rs:251 | Waiting keeps the whole loop invariant, whatever the kernel does meanwhile. |
| Transfer.ReapKeepsTally | src/io_uring_backend.rs:260-275 | Counts reported, queue and flight always add up to the buffer; ids used plus bytes left stay within length plus operations in flight. |
| Transfer.ReapKeepsSteady | src/io_uring_backend.rs:253-275 | A positive completion keeps the loop invariant and takes exactly its count off the bytes left. |
| Transfer.SteadyMeans | src/io_uring_backend.rs:197-247 | At any point of the loop `next_id + |work| <= len`, and giving up there is harmless. |
| Transfer.ReapMeans | src/io_uring_backend.rs:253-270 | A completion never claims more than was asked; an error or a zero count ends the call with the matching outcome. |
| Transfer.SettleKeepsSteady | src/io_uring_backend.rs:253-275 | Every branch taken on a completion either keeps the invariant with strictly less to do or ends the call with an explained outcome. |
| Transfer.SoundFrames | src/io_uring_backend.rs:251-269 | After the loop gives up, no later kernel step touches anything outside the target of the call. |
| Transfer.IdleIsComplete | src/io_uring_backend.rs:246-248 | Nothing in flight and nothing queued means an empty ring, every byte transferred, and counts that add up to the length. |
| Leftovers.ErrorLeavesRingIdleExactly | src/io_uring_backend.rs:250-269 | A call that a completion ends at once with an error or a zero count leaves an idle ring under every schedule if and only if the buffer is at most one chunk or the ring has one slot; `Drive` proves the sufficient half for every completion of the call. |
| Leftovers.ErrorLeavesRingBusy | src/io_uring_backend.rs:251-259 | With two pieces and two slots there is a schedule in which the second piece fails first, the call returns OsError(5) and the first operation is still the kernel's. |
| Leftovers.LeftoverCompletionIsMistaken | src/io_uring_backend.rs:195-277 | From there: the left-over write moves one byte and reports it; the next call, writing one byte elsewhere, takes the report with id 0 for its own and returns Ok, and its byte is not written. |
| Leftovers.AlienCompletionExactlyFromBusyRing | src/io_uring_backend.rs:195-253 | A schedule can answer a call with a completion that is not its own if and only if the ring was not idle when the call began. |
| Leftovers.FilledCounts | src/io_uring_backend.rs:201-244 | Filling adds one entry to the queue for every operation in flight, under fresh ids, and stops only when the ring is full or the work is out. |
| Kernel.ReachesStep | src/io_uring_backend.rs:250-252 | Schedules can be extended by any kernel step. |
| Keys.Validate | src/types.rs:76-113 | Accepts exactly the non-empty strings of at most 1024 bytes without NUL, CR, LF whose segments are neither empty nor `..`, and names the first rule broken. |
| Keys.ValidKeyMeans | src/types.rs:76-113 | The accepted keys in terms of length and byte values alone: which bytes, where slashes, and that no two dots stand between slashes or ends. |
| Keys.StartsWithMeans | src/local.rs:258 | A key has a prefix when the bytes agree as far as the prefix goes. |
| Keys.ResolveMeans | src/local.rs:115-121 | `resolve` refuses exactly the keys with two dots in a row. |
| Keys.DropDotsMeans | src/local.rs:116 | The path of a key is its segments in order, without the `.` segments, name by name. |
| FileModel.EndsInDotMeans | src/local.rs:187 | The keys that ask for a directory are `.` and those that end in `/.`. |
| Keys.TempPrefixText | src/local.rs:160-161 | The prefix of temporary files is `.blobkit-`. |
| Keys.EmptySegmentTests | src/types.rs:102-111 | The three conditions on slashes say exactly that some segment is empty. |
| Keys.PathStaysBelowRoot | src/local.rs:112-121 | The destination of a valid key lies at or below the root: its path only goes down, through proper names. Where the temporary file goes is `FileModel.TempDirBelowRootExactly`. |
| Keys.NamesRootExactly | src/local.rs:115-121 | A key's destination is the root itself if and only if all its segments are `.`. |
| FileModel.TempDirBelowRootExactly | src/local.rs:155-162 | The parent of the destination, where the temporary file goes, lies at or below the root if and only if some segment of the key is not `.`. |
| FileModel.DotLeavesRoot | src/local.rs:155-162 | The key `.` is valid and accepted by `resolve`, and its temporary file goes outside the root. |
| Keys.RebuiltExactlyWhenDotless | src/local.rs:252-262 | For a valid key, the relative path that `list` rebuilds is the key itself if and only if the key has no `.` segment. |
| Keys.PathsAreInjective | src/local.rs:115-121 | Valid keys without `.` segments never share a file. |
| Keys.DottedKeysCollide | src/types.rs:94-113 | Below any name, `a/./rest` and `a/rest` are both valid, different, and share a file. |
| Keys.ValidKeyRejectedExactly | src/local.rs:115-121 | `resolve` refuses a valid key if and only if two dots in a row sit inside a segment longer than two bytes. |
| Keys.ValidKeyMayBeRejected | src/local.rs:117-119 | `a..b` is valid and is refused. |
| Keys.DotDotInSegment | src/local.rs:117 | A string contains `..` if and only if one of its segments does. |
| Keys.JoinSplit | src/local.rs:252-262 | Joining the segments of a string gives the string back. |
| Keys.SplitJoin | src/local.rs:252-262 | Splitting joined names gives the names back. |
| Answers.GetMeans | src/local.rs:182-197 | For every tree and key, in terms of files and directories alone: a get returns a payload exactly when the path is a file, and then that file's; NotFound exactly when nothing is there and no file lies above; an I/O error in all other cases, a directory among them. |
| Answers.DeleteMeans | src/local.rs:199-212 | For every tree and key: Removed exactly when the path is a file, and then that file alone is gone and the directories stay; NotFound exactly when nothing is there and no file lies above; otherwise an error and no change. |
| Answers.ExistsMeans | src/local.rs:214-221 | For every tree and key: true exactly for a file or a directory, false exactly when nothing is there and no file lies above, otherwise an error. |
| Answers.PutMeans | src/local.rs:147-173 | For every tree, limit and key: which of the four answers a put gives, exactly which file it stores, and exactly which directories it makes, failing or not. |
| Answers.ListMeans | src/local.rs:223-268 | A listing holds exactly the valid keys with the prefix whose path is a file, each before every later one byte for byte. |
| Answers.MapAnswers | src/memory.rs:168-366 | Every answer of the map in terms of the earlier requests alone: a get returns the payload of the last change of its key if that was a put, delete, exists and list in the same terms. |
| Answers.LastWriteWins | src/store.rs:39-46 | The map holds a payload at a key exactly when the last change of that key was a put of it. |
| Answers.AnswerAt | src/memory.rs:168-366 | A run gives one answer per request, and answer number `i` is that of the map after the requests before it. |
| Order.LexLtMeans | src/store.rs:69-80 | The order, byte by byte: a proper prefix comes first, otherwise the first byte that differs decides. |
| Order.SortedUnique | src/store.rs:69-80 | Two strictly increasing sequences with the same elements are equal. |
| Order.Sort | src/local.rs:266 | Sorting distinct keys gives the same keys, each before every later one byte for byte. |
| Order.ListingIsUnique | src/memory.rs:332-343 | The sorted output depends only on the set of keys, not on enumeration order. |
| HexCodec.Display | src/types.rs:316-328 | Prints 32 characters, two lower-case digits a byte, high digit first. |
| HexCodec.FromStr | src/types.rs:341-359 | Parses exactly the texts of 32 bytes whose pairs are two bytes of `0-9`, `a-f`, `A-F`, or a plus sign and one such byte, and gives their values. |
| HexCodec.IdRoundTrip | src/types.rs:316-361 | Parsing a printed id gives the id back, for all ids. |
| HexCodec.TextRoundTrip | src/types.rs:316-361 | Every text of 32 hex digits, in either case, parses and is reprinted in lower case; a text that parses is reprinted in lower case if and only if no pair starts with a plus sign. |
| HexCodec.PairMeans | src/types.rs:355 | Which pairs parse, by byte ranges. |
| HexCodec.PairReprints | src/types.rs:355 | One parsed pair is reprinted in lower case if and only if it has no plus sign. |
| Refinement.RunRefinement | src/local.rs:142-268 | Over plain prefix-free keys every sequence of put, get, delete, exists and list from an empty root gives exactly the answers of the map. |
| Refinement.StepRefines | src/local.rs:142-268 | One request: same answer, and the tree goes on standing for the map, with left-over directories unobservable. |
| Refinement.KeysAreReachable | src/local.rs:182-221 | No plain key is hidden by a file above it or a directory in its place, whatever directories were left behind. |
| Refinement.ListingsAgree | src/local.rs:223-268 | The listing of the tree is the map's keys with the prefix. |
| Refinement.PutRefines | src/local.rs:143-180 | A put of a plain key succeeds and stands for the map's insert. |
| Refinement.DeleteRefines | src/local.rs:199-212 | A delete of a stored key stands for the map's removal. |
| Refinement.StepKeepsWellFormed | src/local.rs:142-221 | Every operation keeps a proper tree: files and directories apart, every entry in a directory. |
| Refinement.PutSucceedsExactlyWhenFree | src/local.rs:155-173 | A put of a plain key succeeds if and only if the payload is within the limit, no file is on the way and no directory is in its place; then it can be read back; otherwise no file changes. |
| Refinement.StoredThenDeleted | src/local.rs:142-221 | A stored object reads back and exists; deleted, it does not, reading and deleting it report NotFound, and every other file is as before the put. |
| Refinement.DirectoriesOutliveTheirFiles | src/local.rs:155-157 | After `a/b` is stored and deleted, `a` exists as a directory and can no longer be put. |
| FileModel.PutBlocked | src/local.rs:155-157 | A put below a file fails and changes nothing. |
| Refinement.AgreesExactlyOnPlainSets | src/local.rs:115-268 | For any set of valid keys: the tree answers every sequence of requests as the map does if and only if every key is plain (no `.` segment, no `..`) and none is a directory of another. |
| Refinement.OddKeyShows | src/local.rs:115-121 | Storing and listing a valid key that is not plain already gives answers other than the map's. |
| Refinement.NestedKeysShow | src/local.rs:155-173 | Storing a key below another and then the other already gives answers other than the map's. |
| Walk.PruningKeepsMatches | src/local.rs:238-249 | A directory above a match is never pruned: the prefix and the directory's text are both prefixes of the match. |
| Walk.KeepsExactly | src/local.rs:238-249 | A directory is pruned if and only if no text below it could begin with the prefix. |
| Walk.WalkStarts | src/local.rs:227-229 | The walk starts with every match below the stack. |
| Walk.WalkOpens | src/local.rs:229-231 | Reading a directory, in any entry order, loses no match and visits it for the first time. |
| Walk.WalkPassesDirectory | src/local.rs:235-251 | Descending or pruning loses no match and puts no directory on the stack twice. |
| Walk.WalkPassesFile | src/local.rs:252-263 | A file is put out exactly when its path is a valid key with the prefix, and only once. |
| Walk.WalkEnds | src/local.rs:229-267 | When the stack is empty the output is exactly the flat filter of all files, each once. |
| Walk.ChildTowards | src/local.rs:229-249 | On the way from a directory to a file below it there is an entry of that directory. |
| Stores.LocalStore.Put | src/local.rs:143-180 | Gives the answer and the tree of the specification; if the device breaks on the way no stored object changes; a stored object's inode is new, synced and the only change to the names. Fails only for a fault. The temporary file is in the parent of the destination, under a name beginning with `.blobkit-`. With a key of dots only the whole payload is written and synced beside the root before the rename fails. |
| Stores.LocalStore.Get | src/local.rs:182-197 | The payload, NotFound, InvalidKey or an I/O error as the specification says; fails only for a fault. |
| Stores.LocalStore.Delete | src/local.rs:199-212 | Removes exactly the file at the key, or gives the specified error and changes nothing. |
| Stores.LocalStore.Exists | src/local.rs:214-221 | True for files and for directories, false for nothing, an error behind a file. |
| Stores.LocalStore.List | src/local.rs:223-268 | Terminates and returns the unique sorted listing of the files that are valid keys with the prefix, independent of directory order. |
| Stores.IoUringStore.Put | src/io_uring_backend.rs:414-459 | As `LocalStore.Put`, for every schedule of the ring. After a failure the ring may still hold operations, but its file is a new one that no name leads to, and whatever still lands is a hole zero or the matching byte of the payload; after a success the ring is idle. The ring has 64 slots and begins with the chunks of 131072 bytes that fit. |
| Stores.IoUringStore.Get | src/io_uring_backend.rs:461-480 | As `LocalStore.Get` for every schedule of the ring, except that a directory reads as an empty payload exactly when the file system reports length zero for it. |
| Stores.IoUringStore.Delete | src/io_uring_backend.rs:482-492 | As `LocalStore.Delete`. |
| Stores.IoUringStore.Exists | src/io_uring_backend.rs:494-501 | As `LocalStore.Exists`. |
| Stores.IoUringStore.List | src/io_uring_backend.rs:503-508 | As `LocalStore.List`. |
| Stores.FillByRing | src/io_uring_backend.rs:442-448 | Success means that the new file holds the whole payload, synced, and the ring is idle; failure means that the kernel or the device answered with an error, a refusal or nothing. |
| Stores.ReadByRing | src/io_uring_backend.rs:464-470 | Length then bytes of an unchanging file never meet UnexpectedEof and give the whole contents. |
| Stores.Screen | src/local.rs:147-155 | The size limit comes before the key; a put is screened out exactly when it is too large or refused by `resolve`, and then changes nothing. |
| Stores.Stage | src/local.rs:155-163 | The temporary file is made in the parent of the destination: below the root, or beside it exactly for a key of dots only under a root that has a parent. |
| Stores.Prepare | src/local.rs:155-163 | Parents and a fresh temporary file are created; a file in the way stops the put without a change. |
| Stores.Publish | src/local.rs:173 | The rename replaces the key in one step or leaves every file as it was, and the temporary file is gone either way. |
| Stores.EnsureParent | src/local.rs:124-131 | Creates exactly the directories above the key, none if a file is among them, and the first few of them if it breaks. |
| Stores.WriteAll | src/local.rs:165-168 | Success means that the whole payload was appended, in pieces of any size. |
| Stores.RemoveKey | src/local.rs:204-211 | The shared delete of both path-based stores. |
| Stores.HasKey | src/local.rs:214-221 | The shared exists of both path-based stores. |
| Stores.MemoryStore.Put | src/memory.rs:169-213 | The map's insert, with metadata of the right key and size. |
| Stores.MemoryStore.Get | src/memory.rs:215-250 | The stored payload of the key, or NotFound when there is none. |
| Stores.MemoryStore.Delete | src/memory.rs:252-288 | The map's removal, NotFound when absent. |
| Stores.MemoryStore.Exists | src/memory.rs:290-316 | Membership. |
| Stores.MemoryStore.List | src/memory.rs:332-343 | The sorted listing of the keys with the prefix, whatever the order of the hash map. |
| Stores.MemoryStore.ListKeys | src/memory.rs:144-151 | Every key once, in no particular order. |
| Stores.MemoryStore.MetadataOf | src/memory.rs:121-127 | Key and size of a stored object, nothing for an absent one. |
| Stores.MemoryStore.Len | src/memory.rs:83-89 | The number of stored objects. |
| Stores.MemoryStore.Clear | src/memory.rs:109-112 | The store is empty afterwards. |
| Runs.ServeAll | src/local.rs:142-268 | The three stores side by side: over plain prefix-free keys `LocalStore`, `IoUringStore` and `MemoryStore` give the same answers to every list of requests, up to the first failure of the device or the kernel. |
| Runs.AnswerFromRing | src/io_uring_backend.rs:413-508 | Over plain prefix-free keys `IoUringStore` answers every list of requests as the map does, whatever the schedules of its rings. |
| Runs.Lifecycle | src/local.rs:142-221 | One object from put to delete: stored exactly when there is room, read back byte for byte, there, removed, then not there, with NotFound for a further get or delete. |
| Runs.AnswerFromFiles | src/local.rs:142-268 | A path-based store answers any list of requests as its tree does. |
| Runs.AnswerFromMemory | src/memory.rs:168-366 | The in-memory store answers any list of requests as its map does. |
| Runs.AskRingAsMap | src/io_uring_backend.rs:413-508 | Over plain prefix-free keys each request to `IoUringStore` gets the answer of the map, whatever the ring's schedule. |
| Runs.AskRing | src/io_uring_backend.rs:413-508 | Each request to `IoUringStore` does what the tree specification says, except for reading a directory, and adds no inode that is not new, so that the next can follow. |
| Reachable.EveryRunIsLinearizable | src/local.rs:142-221 | In every interleaving of any number of clients, in each stretch between crashes: each call that did not fail is answered as the atomic map answers at one moment of the call; the map's changes are exactly the successful puts and deletes, each once; a get returns a whole payload of a put to its key or NotFound; no call is obstructed and no ring read comes up short. |
| Calls.AtOnce | src/local.rs:142-221 | In every reachable state over canonical keys the rename answers Stored, the unlink Removed with its key in the map, a stat that finds its key true with the key in the map, and a miss false or NotFound with the key not in the map. |
| Calls.GetsThePayload | src/local.rs:182-197 | A get opens when its key is in the map, and when its reader is done it is answered the payload that the map had at the open. |
| Calls.OnlyGivingUpFails | src/local.rs:142-221 | No step but giving up answers a call with a failure. |
| Calls.AnswersAreFresh | src/local.rs:142-221 | Real time: a call that begins after some changes were acknowledged is answered for a moment after them. |
| Calls.NoTempIsForgotten | src/local.rs:160-173 | Every temporary file belongs to a put in progress, unless a failed clean-up or a crash left it. |
| Calls.StepKeepsTempsOwned | src/local.rs:160-173 | Only a failed clean-up and a crash leave temporary files behind. |
| Calls.FailedPutMayStillWrite | src/io_uring_backend.rs:251-269 | After a put has given up, an operation it left behind may still write any bytes into its file. |
| Progress.EveryCallCanFinish | src/local.rs:142-221 | In every reachable state every call can be brought to its end by its own client's steps alone, without giving up, and is then answered. |
| Reachable.NoPartialPayload | src/local.rs:157-173 | At every moment, and so after a crash at any step, a key names nothing or a synced inode with the whole payload of some put to that key, and that is the map's value. |
| Reachable.CrashRollsBack | src/local.rs:157-173 | A crash takes each key, independently, back to what it held after some number of the changes since the last crash. |
| Reachable.DurableExactlyWhenUnchanged | src/local.rs:165-173 | Because no directory is synced, a key's value survives every crash if and only if it is the same after any number of the changes since the last crash. |
| Reachable.AcknowledgedPutMayVanish | src/local.rs:165-173 | For every canonical key and payload there is a run in which the put is acknowledged and readable, and a crash after which the key is absent. |
| Reachable.FailedPutChangesNothing | src/local.rs:157-173 | A put that fails at any step, cleaned up or not, leaves what every key holds on disk as it was. |
| Reachable.RunKeeps | src/io_uring_backend.rs:438-453 | Over any run, crashes included, a published inode stays published and its contents never change; the invariant holds throughout. |
| Reachable.ReachableOk | src/local.rs:142-221 | The protocol's invariant holds in every reachable state. |
| Reachable.CrashToVersion | src/local.rs:173 | A crash may take the whole directory back to any version since the last one. |
| Interleavings.StepKeeps | src/local.rs:142-221 | Every step of every client, and every crash, keeps the invariant; no step but a crash touches the past or a published inode. |
| Interleavings.PublishKeeps | src/local.rs:173 | The rename changes the map at its own key only, to the whole payload, and is the put's linearization point. |
| Interleavings.PublishesWhole | src/local.rs:165-173 | What a rename publishes is synced, in nobody else's hands, and the whole payload offered for the key. |
| Interleavings.UnlinkKeeps | src/local.rs:204-211 | The unlink removes exactly its key and is the delete's linearization point. |
| Interleavings.OpenKeeps | src/local.rs:187 | The open is the get's linearization point: the inode holds what the map has at that moment. |
| Interleavings.ReadingKeeps | src/io_uring_backend.rs:465-468 | Reading pieces, the length or single bytes of an open inode always yields parts of that one payload. |
| Interleavings.ReadAnswerKeeps | src/io_uring_backend.rs:464-474 | A reader that is done has the whole payload, however the reads were interleaved with puts and deletes. |
| Interleavings.LookKeeps | src/local.rs:214-221 | A stat, or a failed open or unlink, keeps the invariant, so that its answer is the map's at that moment. |
| Interleavings.CreateTempKeeps | src/local.rs:160-163 | A temporary file is unnoticed by the map and belongs to one put. |
| Interleavings.WritingKeeps | src/local.rs:165-171 | Writing and syncing touch the put's own file only. |
| Interleavings.ScribbleKeeps | src/io_uring_backend.rs:251-269 | Operations left in flight by a failed ring put land in a file that no key names. |
| Interleavings.GiveUpKeeps | src/local.rs:160-173 | A failed put leaves the map as it was. |
| Interleavings.CrashKeeps | src/local.rs:165-173 | The state after a crash satisfies the invariant again. |
| Interleavings.NeverObstructed | src/io_uring_backend.rs:464-470 | Over canonical keys no call meets a file or directory in its way, and no ring read reaches the end of the file early. |
| Interleavings.ChangedTogether | src/local.rs:173 | After a rename or unlink the directory stands for the changed map. |
| ConcurrentList.ListIsFaithful | src/local.rs:223-268 | `list` among any puts and deletes over canonical keys: every key with the prefix that is in the map from call to return is listed; whatever is listed has the prefix and was at some moment in between a key in the map or a put's temporary file; no file is listed twice. |
| ConcurrentList.StepKeepsOnTheWay | src/local.rs:229-265 | No step, the walk's or another client's, loses a matching file that stays: it is found, below a directory on the stack, or below an entry still to come. |
| ConcurrentList.FoundWasThere | src/local.rs:252-263 | A file that was put out had a name at an earlier moment of the walk. |
| ConcurrentList.WalkStaysTidy | src/local.rs:228-251 | Among other clients too, each directory is read at most once and each file put out at most once. |
| ConcurrentList.NeverStuck | src/local.rs:229-265 | Among other clients the walk always has a move of its own until it is done. |
| ConcurrentList.OwnMovesRunOut | src/local.rs:229-265 | Each move of the walk leaves fewer directories to open, or as many and fewer entries to read. |
| Protocol.CanonicalKeysAreGood | src/local.rs:115-121 | Canonical prefix-free keys have distinct paths, none temporary, none above another. |
| Protocol.VersionStays | src/local.rs:157-173 | An earlier version of the directory goes on standing for the map of its time. |
| Protocol.ChangeAnswered | src/local.rs:142-221 | A change together with its answer keeps the history linearizable. |
| Protocol.AnswersStay | src/local.rs:142-221 | An answer that reports no change keeps the history linearizable. |

## Left out

- Engine.IoUringFile.WriteAllAt: asks for an idle ring, because after an error the code returns with operations in flight and restarts ids at 0; only calls after an Ok are covered.
- Engine.IoUringFile.ReadAllAt: asks for an idle ring, as above, and for a file that no one else changes during the call.
- Stores.LocalStore.Put: dropping the temporary file is taken to succeed here; the protocol also covers a temporary file that is left behind.
- Stores.LocalStore.Exists: the stat itself is taken not to fail.
- Stores.LocalStore.List: reading a directory is taken not to fail; a missing root is not modelled.
- Stores.IoUringStore.Get: a payload's length is taken to fit in 64 bits.
- Reachable.EveryRunIsLinearizable: does not cover `list`, which is not atomic in the code; `ConcurrentList` says what it returns instead.
- Keys outside the canonical prefix-free sets in concurrent runs: their sequential behaviour is `FileModel`, their concurrent behaviour is not modelled.
- Raw pointers, aliasing and buffer lifetimes in the `unsafe` blocks: buffers are arrays with offsets, and the memory behind an operation left in flight after an error is not modelled as freed.
- Completion queue capacity and overflow, ring creation, and opening of files: assumed to succeed or folded into a fault.
- Whether every call eventually finishes under a fair schedule: each can always be finished by its own steps, but schedules and faults are arbitrary.
- `src/s3.rs`, `src/object_store_backend.rs`, pre-signed URLs, credentials, configuration: adapters over services whose behaviour is not visible.
- SHA-256, MIME guessing, UUIDs, timestamps and the generation of blob ids: foreign code; a put's success is `Stored`, without the id.
- `BucketName`, `Debug` redaction, serialisation: one branch each, nothing to relate.
- Async machinery, `spawn_blocking` join errors, `Box` forwarding, the internals of the concurrent map and lock poisoning: each map operation is taken as atomic.
- The kernel's permissions, name length limits and `ENAMETOOLONG`: a name the operating system refuses is a fault.
