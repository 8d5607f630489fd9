# EmptyFS in Dafny

EmptyFS is a minimal macOS VFS plug-in whose whole volume is one root
directory. This project models the parts of `EmptyFS.c` that hold logic, and
proves properties about them:

- **Directory cursor protocol** (`Directory`). `VNOPReadDir` and
  `uiomove_atomic` work on a `Uio` object with fields `offset`, `resid` and the
  records copied so far. The cursor is an entry index times 7. Index 0 emits
  ".", index 1 emits "..", and both records have file number 2 and type
  `DT_DIR`. A record is copied only if it fits whole. A short buffer (ENOBUFS)
  is swallowed and does not advance the index. On exit the cursor is written
  back as `index * 7`, and end-of-directory is `index > 1`. The method is
  proved against `ReadDirSpec`, a definition in terms of the listing. Single-call
  and multi-call properties are proved about that definition.
- **Root vnode state machine** (`RootVNode`). `fRootAttaching`,
  `fRootWaiting` and `fRootVNode` are guarded by `fRootMutex`. Each locked
  region is one atomic step: first a function on those three fields, then a
  method of the `Mount` class specified by that function.
  `EmptyFSMountGetRootVNodeCreatingIfNecessary` is the do-while retry loop
  `Mount.GetRootVNode`. `EmptyFSMountDetachRootVNode` is
  `Mount.DetachRootVNode`. The kernel's vnode layer is `VNodeCache`. There, a
  vnode is an identity plus a vnode ID (vid). `vnode_create` may fail, and
  `vnode_getwithvid` succeeds only while the vid is current.
- **Concurrent callers** (`Interleaving`). This is a transition system over any
  number of callers, each with a position in the retry loop. It also covers the
  kernel recycling the root vnode and reclaiming it through `VNOPReclaim`. Its
  steps are the `RootVNode` functions. For every schedule, and on both the
  source's and the corrected failure path, it proves that at most one
  construction is in flight at a time. If the root vnode is never reclaimed,
  it also proves that at most one vnode is ever created, and that every caller
  that succeeds gets that same vnode.
- **Lookup, attributes and error conversion** (`Lookup`, `Attributes`,
  `ErrorConversion`). These are pure functions: `VNOPLookup`, the fixed answers
  of `VNOPGetattr`, `ErrnoFromKernReturn` and `KernReturnFromErrno`.

Constants that the file uses but does not define follow the macOS headers:

- errno: ENOENT 2, ENOMEM 12, EINVAL 22, EAGAIN 35, ENOBUFS 55.
- kern_return_t: KERN_SUCCESS 0, KERN_FAILURE 5.
- `VNODE_READDIR_EXTENDED` is 1 and `VNODE_READDIR_REQSEEKOFF` is 2.
- `DT_DIR` is 4.
- The kernel's `struct dirent` is 264 bytes: a 4-byte file number, then 2, 1
  and 1 bytes of header, then a 256-byte name.

In two places the code does less than it evidently intends, and the model follows the code:

- A cursor that is not a multiple of 7 is not rejected. The code only asserts
  this in debug builds, then divides with C's truncating division. So 3 and -3
  both read from entry 0, 8 reads from entry 1, and -7 reads nothing
  (`Directory.UnalignedCursorsTruncate`).
- A failed `vnode_create` does not end the attach and does not wake
  waiters. See Findings.

## Model

| member | source | states |
|---|---|---|
| `Directory.RootEntry` | EmptyFS.c:1238-1242 | the records emitted carry file number 2, type DT_DIR, the full record length and the name's length |
| `Directory.CDiv` | EmptyFS.c:1255 | the offset is divided as C divides an off_t, truncating toward zero |
| `Directory.UioMoveAtomic` | EmptyFS.c:1053-1063 | a record that does not fit the remaining resid gives ENOBUFS and leaves the uio unchanged; otherwise the whole record is copied, resid drops by its size and the offset rises by it |
| `Directory.EmittedCount` | EmptyFS.c:1259-1277 | a call never copies past the two entries or past what fits whole in resid |
| `Directory.VNOPReadDir` | EmptyFS.c:1223-1306 | the error, eofflag, numdirent, new cursor, new resid and the records copied are exactly those of the reference definition `ReadDirSpec` |
| `Directory.RejectedFlagsCopyNothing` | EmptyFS.c:1223-1229 | with EXTENDED or REQSEEKOFF set the call returns EINVAL, eofflag FALSE, no entries, and leaves cursor and resid untouched |
| `Directory.NoPartialRecords` | EmptyFS.c:1259-1286 | a supported call never fails; resid drops by exactly one record size per entry copied; the entries are a contiguous run of the listing starting at the index the cursor names, and the run stops only at the end of the listing or when the next record does not fit |
| `Directory.CursorRoundTrip` | EmptyFS.c:1253-1290 | the published cursor is a multiple of 7 and decodes to the incoming index plus the number of entries copied |
| `Directory.EofIffPastLastEntry` | EmptyFS.c:1294 | eofflag is TRUE exactly when the index reached is past ".." |
| `Directory.ShortBufferKeepsCursor` | EmptyFS.c:1259-1290 | with less than one record of room: no entries, no error, and a well-formed cursor comes back unchanged |
| `Directory.WholeDirectoryInOneCall` | EmptyFS.c:1253-1294 | from offset 0 with room for two records: ".", "..", cursor 14, eofflag TRUE; a later call from 14 gives nothing and eofflag TRUE |
| `Directory.UnalignedCursorsTruncate` | EmptyFS.c:1253-1255 | cursors that are not multiples of 7 are read by truncation, not refused |
| `Directory.SessionYieldsListingInOrder` | EmptyFS.c:1253-1294 | over any series of calls, each feeding back the previous cursor, the entries are the listing in order without gaps or repeats, and the last eofflag is TRUE exactly when both entries are passed |
| `Directory.OneRecordPerCallCompletes` | EmptyFS.c:1259-1294 | with room for one record per call, two calls from the start give the whole listing, and every call after that reports end-of-directory |
| `Lookup.VNOPLookup` | EmptyFS.c:842-875 | ISDOTDOT or the name "." resolve to dvp itself, with vnode_get's error; every other name gives ENOENT and NULL; in every case (err == 0) == (*vpp != NULL) |
| `Lookup.LookupClosure` | EmptyFS.c:842-863 | from the root, "." and ".." give back the root, and any other name is not found |
| `Attributes.VNOPGetattr` | EmptyFS.c:1002-1037 | the root reports as a directory, readable and searchable by all, writable by none and without setuid, setgid or sticky bits, with 2 links and rdev 0; its data size is two dirents, its file ID equals the file number ReadDir emits, and its fsid is the device number; the access, modify and change times are zero and not marked returned |
| `Attributes.DataSizeMatchesFullEnumeration` | EmptyFS.c:1006 | a buffer of exactly va_data_size bytes receives the whole listing and is left with no room |
| `ErrorConversion.ErrnoFromKernReturn` | EmptyFS.c:238-249 | KERN_SUCCESS maps to 0 and every other value to EINVAL |
| `ErrorConversion.KernReturnFromErrno` | EmptyFS.c:251-262 | the value returned is KERN_SUCCESS exactly when the errno is 0 |
| `ErrorConversion.KernReturnFromErrnoLeaksErrno` | EmptyFS.c:261 | as written, errno 16 comes back as kern_return_t 16, not KERN_FAILURE |
| `ErrorConversion.KernReturnFromErrnoIntended` | EmptyFS.c:256-260 | errno 0 maps to KERN_SUCCESS and every other errno to KERN_FAILURE |
| `ErrorConversion.ConversionsAgreeOnSuccess` | EmptyFS.c:238-262 | both versions agree on success versus failure, and a round trip through the intended conversion keeps exactly that distinction |
| `ErrorConversion.KernRoundTrip` | EmptyFS.c:238-260 | kern_return_t to errno and back gives KERN_SUCCESS or KERN_FAILURE, matching the original's success |
| `RootVNode.BeginAttempt` | EmptyFS.c:598-684 | the loop head keeps the flag invariants; it sleeps exactly while an attach is in flight, and then marks a waiter; it claims the attach exactly when no root vnode is recorded and none is in flight; otherwise it revalidates the recorded vnode |
| `RootVNode.FinishCreateAsWritten` | EmptyFS.c:640-671 | as written: a successful create installs the vnode, ends the attach and wakes waiters; a failed create returns its error and changes nothing |
| `RootVNode.FinishCreate` | EmptyFS.c:640-671 | corrected: the attach always ends and waiters are always woken; the new vnode is recorded and returned exactly when the create succeeded; the flag invariants hold |
| `RootVNode.FinishCreateVersionsAgreeOnSuccess` | EmptyFS.c:642-671 | the two versions agree when vnode_create succeeds; after a failure only the corrected one ends the attach |
| `RootVNode.CorrectedFailedCreateAllowsRetry` | EmptyFS.c:608-617 | with the corrected failure path, the next attempt claims the attach again |
| `RootVNode.FinishRevalidate` | EmptyFS.c:686-702 | a successful vnode_getwithvid returns the candidate; a failure becomes EAGAIN; (err == 0) == (result != NULL) |
| `RootVNode.Detached` | EmptyFS.c:750-766 | detach keeps the flags, leaves no root vnode recorded, and is a no-op when none was recorded |
| `RootVNode.DetachIdempotent` | EmptyFS.c:752-766 | a second detach is a no-op, and a detach during an attach changes nothing |
| `RootVNode.Mount.constructor` | EmptyFS.c:1475-1477 | a new mount has no attach, no waiter and no root vnode |
| `RootVNode.Mount.Begin` | EmptyFS.c:598-684 | the loop head's new fields and action are those of `BeginAttempt` |
| `RootVNode.Mount.FinishCreateLocked` | EmptyFS.c:640-671 | the fields become those of `FinishCreate`; a soft reference is taken on a new vnode; a wakeup is counted exactly when someone was waiting |
| `RootVNode.Mount.GetRootVNode` | EmptyFS.c:561-728 | keeps the flag invariants and the soft-reference bookkeeping; (err == 0) == (vn != NULL); a returned vnode is the recorded root with a current vid; a volume with no root vnode and no attach gets a new vnode on the first iteration, or, when vnode_create fails with an error other than EAGAIN, that error and no vnode; a live recorded root is returned without creating a new one |
| `RootVNode.Mount.DetachRootVNode` | EmptyFS.c:730-769 | the fields become those of `Detached`; the soft reference is dropped exactly when a root vnode was recorded |
| `Interleaving.Step` | EmptyFS.c:584-725 | every atomic step of any caller or of the kernel keeps the flag invariants |
| `Interleaving.StepKeepsSafe` | EmptyFS.c:598-725 | on either failure path, each step keeps the safety invariant: a caller is inside vnode_create only while fRootAttaching is set, never two at once; returned callers have (err == 0) == (vnode != NULL) and never EAGAIN |
| `Interleaving.RunKeepsSafe` | EmptyFS.c:584-725 | on either failure path, every schedule keeps the safety invariant |
| `Interleaving.StepPreservesInv` | EmptyFS.c:598-725 | with the corrected failure path, each step keeps the whole invariant: the safety invariant, and fRootAttaching set exactly while one caller is inside vnode_create |
| `Interleaving.RunPreservesInv` | EmptyFS.c:584-725 | with the corrected failure path, every schedule keeps the whole invariant |
| `Interleaving.AtMostOneConstruction` | EmptyFS.c:598-725 | as the source is written and as corrected: in every state reachable from a fresh mount, at most one caller is constructing the root vnode, only while fRootAttaching is set, and returned callers hold a vnode exactly when they returned 0, never EAGAIN |
| `Interleaving.StepKeepsOneRootVNode` | EmptyFS.c:598-725 | on either failure path, a step other than a reclaim keeps these facts: at most one vnode created, the recorded root being that vnode once it exists, and it being the only candidate revalidated and the only vnode returned |
| `Interleaving.RunKeepsOneRootVNode` | EmptyFS.c:584-725 | every schedule without a reclaim keeps those facts |
| `Interleaving.OneConstructionPerVolume` | EmptyFS.c:598-725 | any number of callers on a fresh volume whose root vnode is never reclaimed, on either failure path: at most one vnode is ever created, every candidate revalidated is that vnode, and every caller that returns 0 gets that same vnode |
| `Interleaving.CorrectedNeverStrands` | EmptyFS.c:642-671 | with the corrected failure path, whenever fRootAttaching is set, some caller is inside vnode_create |
| `Interleaving.AsWrittenFailedAttachBreaksInv` | EmptyFS.c:636-671 | as written, one caller whose vnode_create fails with ENOMEM returns ENOMEM and leaves fRootAttaching set with nobody constructing |
| `Interleaving.AsWrittenStepKeepsStranded` | EmptyFS.c:598-671 | as written, no step rescues a stranded volume |
| `Interleaving.AsWrittenStrandsEveryCaller` | EmptyFS.c:598-671 | as written, once stranded, no schedule gets a caller into vnode_create again. Only a caller that had already picked its candidate can return. Every other caller sleeps forever |
| `Interleaving.CorrectedFailedAttachAllowsRetry` | EmptyFS.c:608-671 | with the corrected failure path, the same failure leaves the volume free, and the next caller claims the attach |

## Left out

- Locking and blocking. `lck_mtx_lock`/`unlock`, `msleep` and `wakeup` are not modelled as primitives. Each locked region is one atomic step. In `Interleaving`, a sleeper may wake at any time, which covers spurious wakeups. `wakeup` calls are only counted, in the ghost field `Mount.wakeups`.
- The kernel's vnode layer. `vnode_create`, `vnode_getwithvid`, `vnode_get`, `vnode_addfsref`, `vnode_removefsref` and recycling are abstracted in `VNodeCache`. The outcome of `vnode_create` and of `vnode_get` is a parameter. A created vnode is a handle with a new identity, rather than reused memory with a new vid. I/O reference counts (`vnode_get`, `vnode_put`) are not tracked.
- Mount.GetRootVNode: one caller runs alone, and the number of loop iterations is bounded by `fuel`. If the bound is reached, the method returns EAGAIN, which the source never does: it keeps looping. What other callers do during the sleep or the unlocked calls is covered by `Interleaving` instead. It uses the corrected failure path. See Findings.
- Mount.FinishCreateLocked: implements the corrected failure path. When vnode_create fails, it clears `fRootAttaching` and `fRootWaiting` and counts a wakeup. The source at lines 640-671 does neither. The as-written behaviour is modelled by `RootVNode.FinishCreateAsWritten` and by `Interleaving.Step` with `asWritten` set. See Findings.
- Mount.DetachRootVNode and RootVNode.Detached: their `requires` excludes detaching a vnode other than the recorded one. That is the source's assertion at line 758. A release build would clear the field anyway.
- Interleaving.Step: a `Reclaim` of a vnode other than the recorded root changes nothing, for the same reason. A release build would clear `fRootVNode` anyway. No invariant depends on this, because a detach never touches the flags.
- `uiomove` copy-out faults (EFAULT) from an unwritable user buffer. The model treats a record that fits as always copied.
- `off_t` range. Cursors are unbounded integers. With 64-bit offsets, `index * 7` cannot overflow, because the index only grows when it is 0 or 1.
- `VNOPReclaim` is modelled only as the `Reclaim` event of `Interleaving`. It just calls the detach and returns 0.
- `VNOPOpen` and `VNOPClose`. They check debug assertions and return 0.
- `VFSOPMount`, `VFSOPUnmount`, `VFSOPRoot`, `VFSOPGetattr`, `copyin`, allocation, statfs filling and `vfs_setflags`. These are kernel I/O and allocation, apart from the zero-filled root fields a mount starts with (`Mount.constructor`).
- The capability and attribute tables in `EmptyFSMountInitGetAttrListGoop` and the constants in `EmptyFSInitAttr`. The creation time from `nanotime` is a parameter of `VNOPGetattr`. Also left out are the vnode-op, vfsops and fsentry tables. All of these are static data.
- `MODULE_START`, `MODULE_STOP`, `InitMemoryAndLocks`, `TermMemoryAndLocks`, and the global tag and lock-group setup. This is module lifecycle.
- `AssertKnownFlags`, `ValidVNode`, `printf` and other debug-only code.

## Findings

| source | as written | input that shows it | evidently intended | confidence | as-written member | corrected member |
|---|---|---|---|---|---|---|
| EmptyFS.c:636-671 | when `vnode_create` fails, the `if (err == 0)` block has no `else`. `fRootAttaching` stays TRUE and sleepers are never woken | the first GetRoot's `vnode_create` returns ENOMEM. That caller gets ENOMEM. Every later GetRoot finds `fRootAttaching` set and sleeps forever | on failure, clear `fRootAttaching`, wake and clear `fRootWaiting`, and return the error, so later callers retry the create | high; not executed | `RootVNode.FinishCreateAsWritten`, `Interleaving.AsWrittenStrandsEveryCaller` | `RootVNode.FinishCreate`, `Interleaving.CorrectedNeverStrands` |
| EmptyFS.c:251-262 | `KernReturnFromErrno` computes `kernErr` but returns `err` | `MODULE_STOP` when `vfs_fsremove` fails with EBUSY (16) returns kern_return_t 16 instead of KERN_FAILURE | return `kernErr` | high; not executed | `ErrorConversion.KernReturnFromErrnoLeaksErrno` | `ErrorConversion.KernReturnFromErrnoIntended` |
