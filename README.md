# smartremote block cache, modelled in Dafny

`smartremote` caches a remote HTTP resource block by block in a local file. A
presence bitmap `status` has one bit per block, eight blocks per byte, most
significant bit first. Block `b` lives in byte `b / 8` under the mask
`1 << (7 - b % 8)`. Three operations that run under the file's lock make up the cache:

- `hasBlock(b)` reads the presence bit of block `b`.
- `setBlock(b)` sets it.
- `needBlocks(start, end)` makes the inclusive block range `[start, end]` present. It:
  - obtains the resource size;
  - rejects an inverted range;
  - trims the present blocks off both ends, but only the ends;
  - returns early when what is left is one present block.
  - Otherwise it seeks the local store to `start * blkSize` and fetches each block in
    ascending order. The last block of the resource is cut short to `size - posByte`.
    It writes the bytes fetched at the cursor and marks the block, stopping at the
    first failing fetch or write. There is no rollback.

The project has these modules:

- `Types`: the values exchanged with the collaborators.
  - Errors, including `io.EOF` and `io.ErrUnexpectedEOF`.
  - The replies of size discovery, of the ranged fetch and of the write.
  - `Guarded`, which is a value or Go's index-out-of-range panic.
  - The `EOF` to `UnexpectedEOF` mapping.
- `Bitmap`: `hasBlock` and `setBlock` on the bitmap bytes (`Probe`, `Mark`). They are
  stated against a reference reading `Unpack`, which gives one flag per block.
- `Backing`: the local file as an in-memory byte sequence written at a position.
- `Resolver`: `needBlocks` as a function on values (`Resolve`), built from the following.
  - The two trims (`TrimStart`, `TrimEnd`).
  - The loop (`Fetching`), plus the lemmas that step through it one turn at a time
    (`Midway`, `LoopTurn`).
  - The loop's closed form (`Settles`, proved by `FetchingClosedForm`): `k` is the
    first block whose fetch or write fails. The outcome is that block's error, or nil.
    Exactly the blocks of `i .. k-1` that the bitmap covers become present. The store
    holds the fetched bytes of `i .. k-1` back to back. The trace holds the requests for
    blocks `i .. k`, or `i .. e` when none fails.
- `Guarantees`: what a call promises, derived from the closed form. This covers
  rejection, the fetch-nothing cases, the fetched span, coverage on a nil return,
  no rollback on failure, sequential writes, repeating a call and resuming after a
  failure.
- `SmartRemote`: the `File` class.
  - It has the bitmap as an `array<bv8>` and the backing store and its cursor as fields.
  - `HasBlock`, `SetBlock` and `NeedBlocks` follow the Go code branch for branch. The
    two trimming loops, the download loop and one turn of it are separate methods.
  - `NeedBlocks` is proved to leave the state, return the outcome and issue the fetches
    that `Resolver.Resolve` gives.
- `Scenarios`: concrete runs, mostly on a 1000-byte resource with 256-byte blocks, plus the guard-byte cases on a one-byte bitmap.

The collaborators are parameters of each call (`Types.Env`):

- the reply of `getSize`;
- the ranged fetch `readUrl`, as a function of byte offset and length;
- the write on the local file, as a function of write position and length.

`Honest(env)` states the one contract of the fetch: a successful fetch of `n` bytes
delivers exactly `n` bytes. The ghost `trace` of a call lists the fetches it issued
as (block, byte offset, length).

The guard in `hasBlock` and `setBlock` is `len(status) < byt` (download.go:85, 99).
Byte index `len(status)` passes it, and the array access at lines 89 and 106 panics.
The model keeps that behaviour. `Probe`, `Mark` and `File.SetBlock` report that case as
`IndexOutOfRange` (or `ok == false`). The resolver requires that no block of the
requested range falls on that byte (`Resolver.AvoidsGuardByte`).

## Model

| member | source | states |
|---|---|---|
| Types.FetchError | download.go:57-62 | a fetch error of EOF becomes UnexpectedEOF, every other error is returned unchanged, and the result is never EOF |
| Bitmap.Probe | download.go:83-95 | `hasBlock`: panics exactly when the byte index equals the bitmap length; a byte index beyond it reads as absent |
| Bitmap.UnpackAt | download.go:89-94 | the reference flag of block b is bit 7 - b%8 of byte b/8 (MSB-first layout) |
| Bitmap.ProbeReads | download.go:89-94 | inside the bitmap, the probe answers the reference reading of block b |
| Bitmap.PresentUnpacked | download.go:83-95 | a block reports present iff the bitmap covers it and its reference flag is set |
| Bitmap.Mark | download.go:97-107 | `setBlock`: panics exactly when the byte index equals the bitmap length, keeps the length, and leaves the bitmap unchanged beyond it |
| Bitmap.MarkReads | download.go:103-106 | inside the bitmap, marking sets block b's reference flag and no other |
| Bitmap.MarkSets | download.go:97-107 | when the bitmap covers b (b / 8 < len(status)), after marking, block b reports present |
| Bitmap.MarkKeepsOthers | download.go:97-107 | marking b leaves every other block's answer unchanged |
| Bitmap.MarkMonotone | download.go:106 | marking never clears a bit |
| Bitmap.MarkIdempotent | download.go:106 | marking twice equals marking once |
| Bitmap.MarkPresence | download.go:97-107 | after marking b, a block is present iff it was, or it is b and the bitmap covers b |
| Backing.WriteAt | download.go:65 | a write puts the data at the position, keeps every other byte, zero-fills a gap, and an empty write changes nothing |
| Backing.WriteAtConcat | download.go:65 | two writes back to back equal one write of the joined bytes |
| Resolver.BlockLength | download.go:49-53 | the length fetched is the block size or what is left of the resource, never past its end, positive inside it |
| Resolver.OffsetIsProduct | download.go:43 | the running offset, advanced by blkSize per block (line 77), equals b * blkSize |
| Resolver.TrimStart | download.go:22-28 | the trimmed start lies within the range, every block it skipped is present, and it stops at end or on an absent block |
| Resolver.TrimEnd | download.go:30-36 | the trimmed end lies between start and end, every block it skipped is present, and it stops at start or on an absent block |
| Resolver.TrimmedToPresent | download.go:38-41 | the trims meet on a present block iff every block of the range is present |
| Resolver.Fetching | download.go:47-78 | the loop keeps the bitmap length and requests only blocks of its range |
| Resolver.Resolve | download.go:9-81 | the call keeps the bitmap length and requests only blocks of the caller's range |
| Resolver.LoopEnter | download.go:47 | at the loop head nothing has been issued and the remaining loop is the whole loop |
| Resolver.LoopTurn | download.go:49-77 | one turn: a refused fetch ends with the mapped error and a failed write with its error, both with the state untouched; otherwise the loop goes on from the next block, with the bit set and the bytes written at the cursor |
| Resolver.LoopExit | download.go:47-80 | once the index passes end, the call returns nil with the state reached |
| Resolver.FirstFailure | download.go:56-70 | the first block of the range whose fetch or write fails, or end + 1; every earlier block goes through |
| Resolver.SettlesAtFailure | download.go:56-70 | a loop whose first block fails returns that block's error, changes nothing and issued one request |
| Resolver.SettlesAfterSuccess | download.go:65-77 | a block that goes through is marked and written, and the loop settles as the loop from the next block |
| Resolver.FetchingClosedForm | download.go:47-78 | the loop yields the failing block's error or nil; exactly the blocks before the failure that the bitmap covers become present; the store holds their bytes back to back; the trace lists the requests up to the failure |
| Resolver.SettlesTraceEnds | download.go:47-78 | a non-empty loop requests its first block first and the failing block (or end) last, and returns nil iff no block failed |
| Resolver.SettlesStoreByTrace | download.go:65-77 | the store after the loop, stated through the first and last requested blocks |
| Guarantees.ResolveEntersLoop | download.go:38-45 | on the loop path the trimmed range avoids the guard byte, its last block starts inside the resource, and the call is the loop after seeking to the trimmed start |
| Guarantees.ResolveLoopPath | download.go:43-78 | on the loop path the call satisfies the closed form from the trimmed start to the trimmed end |
| Guarantees.ResolveFetchedLoop | download.go:12-47 | a call that fetched anything had a known size and an ordered range, and took the loop path |
| Guarantees.ResolveRejects | download.go:12-19 | a size error is returned unchanged and an inverted range is rejected; both with no fetch, write or mark |
| Guarantees.ResolveNoFetchIff | download.go:12-41 | a call fetches nothing iff it is rejected or every block of the range is present; in the latter case it returns nil and changes nothing |
| Guarantees.ResolveFetchesTrimmedSpan | download.go:43-78 | the fetches are exactly the blocks from the trimmed start upwards, in ascending order, at offset i * blkSize with BlockLength bytes, reaching the trimmed end on a nil return; interior present blocks are fetched again |
| Guarantees.ResolveDoneCoversRange | download.go:22-80 | on a nil return every block of the caller's range reports present |
| Guarantees.ResolveFailureKeepsPrefix | download.go:56-73 | on failure the error is the last requested block's; the blocks before it that the bitmap covers stay marked; it and every later block keep their old answer |
| Guarantees.ResolveStoreSequential | download.go:43-77 | the writes land back to back from the first fetched block's offset and hold exactly the bytes fetched for the blocks that went through |
| Guarantees.ResolveIdempotent | download.go:9-81 | when the bitmap covers the range (end / 8 < len(status)), repeating a call that returned nil fetches nothing and changes nothing |
| Guarantees.ResolveResumes | download.go:22-73 | when the bitmap covers the range (end / 8 < len(status)), a retry after a failure requests no block below the block that failed |
| Guarantees.TrimStartPast | download.go:22-28 | the first trim passes every block of a present prefix |
| Guarantees.ResolveStartsAtTrim | download.go:22-47 | no call requests a block below the trimmed start |
| Guarantees.LastBlockLength | download.go:49-53 | the final block is size % blkSize bytes long, or a whole block when blkSize divides size |
| Scenarios.ThousandBlockLengths | download.go:49-53 | for size 1000 and blkSize 256 the requests are 256, 256, 256 and 232 bytes at offsets 0, 256, 512 and 768 |
| Scenarios.FetchAllFour | download.go:9-81 | with no block present, [0, 3] issues those four fetches, returns nil and leaves exactly blocks 0 to 3 present |
| Scenarios.InteriorGapRefetched | download.go:22-78 | with blocks 1 and 2 present, [0, 3] still fetches blocks 0, 1, 2 and 3 |
| Scenarios.AllPresentNoFetch | download.go:38-41 | with every block present the call returns nil, fetches nothing and changes nothing |
| Scenarios.FailureMidRange | download.go:56-73 | an EOF at block 2 is reported as UnexpectedEOF after three requests; blocks 0 and 1 stay present, 2 and 3 absent |
| Scenarios.GuardByteOfOneByteBitmap | download.go:84-106 | with a one-byte bitmap, every block from 8 to 15 panics when probed or marked, and block 16 reads as absent and marks as a no-op |
| Scenarios.StraddlingRangeNotAdmissible | download.go:47-73 | over a one-byte bitmap with one-byte blocks, the range [0, 16] is outside the resolver's precondition, because it straddles the byte the guard lets through |
| SmartRemote.File.HasBlock | download.go:83-95 | the function form of Probe on the status array: panic iff the byte index equals the length, absent beyond it, the reference flag inside |
| SmartRemote.File.SetBlock | download.go:97-107 | ORs the mask into the status byte, giving Mark of the old bitmap; reports the panic case and leaves the array untouched then |
| SmartRemote.File.NeedBlocks | download.go:9-81 | the outcome, the new bitmap, store and cursor, and the fetches issued are those of Resolve on the old state |
| SmartRemote.File.SkipPresentFront | download.go:22-28 | the first trimming loop computes TrimStart |
| SmartRemote.File.SkipPresentBack | download.go:30-36 | the second trimming loop computes TrimEnd |
| SmartRemote.File.Download | download.go:47-80 | the download loop yields the run of Fetching from the old state |
| SmartRemote.File.LoadBlock | download.go:49-77 | one block: the mapped fetch error or the write error with the state untouched, or nil with the state advanced by the fetched bytes |

## Left out

- Size discovery (`getSize`) is not modelled beyond its reply. The size is a constant of the file.
- The HTTP fetch `readUrl` is not modelled beyond its reply. The only thing assumed of it is `Honest`, and only the closed-form lemmas and guarantees assume it.
- Real `os.File` I/O, the `Seek` result and partial writes are left out. The store is an in-memory byte sequence with a cursor. A write either succeeds in full or fails and leaves the store unchanged.
- `log.Printf` (download.go:55, 58, 68) is left out: it is logging only.
- The locks `lk` and `mlk` (file.go:27-28) are left out, as is the "called with lock acquired" contract: they are concurrency.
- The fields `path`, `pathMeta`, `client`, `offset`, `hasSize`, `pos` and `complete` (file.go:12-23) are left out: the modelled code does not use them.
- The field `url` is left out. It only reaches the fetch collaborator (download.go:56), which `Env.fetch` abstracts.
- `dlm` is not part of this model. It is an undeclared field and is replaced by the fetch oracle.
- The int64 overflow of `posByte` is not modelled: integers are unbounded.
- Reuse of the one `buf` across iterations is not modelled. The model writes the bytes the fetch returned. The code writes `buf[:n]`. Under `Honest` the two have the same length, and the model takes them as the same bytes.
- Resolver.Resolve: the precondition `Admissible` requires, once the size is known and the range is ordered, that the last block starts inside the resource. Otherwise `n` at download.go:52 is zero or negative, and a negative `n` panics at `buf[:n]`.
- SmartRemote.File.NeedBlocks: requires `Admissible`, as Resolve does. `start` is a `nat`.
- SmartRemote.File.NeedBlocks: requires that no block of the range falls on the bitmap byte `len(status)` (`AvoidsGuardByte`). The panic there is modelled in `Probe`, `Mark` and `SetBlock`, not propagated through the resolver. The code panics when a probe in the trims or the early-return test (download.go:23, 31, 38) or a mark in the loop (line 73) reaches a block on that byte. The requirement also excludes ranges that straddle the byte but whose loop fails and returns before reaching it. For example, bits `[0]` with range `[0, 16]` and a failing first fetch returns that error in the code, but is not admissible here.
- Guarantees.ResolveDoneCoversRange: requires that the bitmap covers the range (`end / 8 < len(status)`). `setBlock` silently ignores blocks beyond the bitmap, so such blocks are fetched but never reported present.
- SmartRemote.File.constructor: how the source allocates `status` and opens the local file is not in the modelled code. The constructor only gives an all-absent bitmap of a given length and an empty store.
- Guarantees.ResolveIdempotent: proved only when the bitmap covers the range (`end / 8 < len(status)`). Beyond the bitmap a call that returned nil fetches the same blocks again, because they were never marked.
- Guarantees.ResolveResumes: proved only when the bitmap covers the range, for the same reason.
