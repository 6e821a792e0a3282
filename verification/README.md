# Protected storage, sync, cache, index and session models

Dafny models of the parts of the file server that carry state, loops or arithmetic, and proofs of
what they promise. Each module follows one component of the source.

| modules | component |
|---|---|
| `Bytes`, `Keystream`, `Chunks`, `Prng`, `Obfuscation`, `CounterMode`, `MacTable`, `ProtectedHeader`, `ProtectedMeta`, `ProtectedCodec`, `PayloadBytes`, `BlockSizeLimit` | the protected payload codec: header, masked or encrypted body, tag table, random access |
| `Storage`, `Paths`, `TreeDeletion`, `CrossStorageMove`, `MirrorSync`, `TwoWaySync`, `MountRouting` | the mount layer: routing, cross-storage moves, one-way and two-way sync |
| `ReadCache`, `CacheConcurrency`, `Pool` | the read cache, its counter under interleaving, and the pool in front of a storage |
| `SqlText`, `FileRows`, `IndexMoves`, `IndexTrash`, `DirectorySync`, `FileIndex` | the file index: moving, trashing, restoring, directory sync |
| `SessionRegistry` | the registry of video transcoding sessions |
| `Naming`, `SharePaths`, `Decimal`, `Text` | names of batch destinations and archive entries, share paths |
| `Wrappers`, `Counting` | options, results, counting and sums |

Code that updates things in place is a class or a method over an array, proved against a function of
the old state; the lemmas say what that function promises. `dafny verify dfyconfig.toml` checks
everything.

How the surroundings enter:

- The AES block function, HMAC (section 2 of RFC 2104), HKDF-Expand (section 2.3 of RFC 5869) and
  the derivation of the tag key are parameters: every statement holds for all functions in their
  place. Counter mode itself (section 6.5 of NIST SP 800-38A), with its 128-bit wrap-around, and both
  generators are modelled exactly.
- A storage is a finite, parent-closed map from segment lists to directories and files. Any
  operation may fail at any time, leaving the tree as it was; a write picks an arbitrary new time.
  So a run may end after any of its steps, and what is proved for every exit holds between any two
  steps.
- The pool's operators are maps from path strings. Their operations may fail too, and a failed write
  or copy may leave anything at its path. Each operator counts the questions it failed to answer.
- The cache and the session registry take the clock's readings as inputs, which may come in any order;
  disk failures, the moment a worker finishes and the readings the pool hands to its cache are
  nondeterministic choices.

## What the code does not do for all inputs

Each of these has its exact condition as a lemma or a contract.

- A block size of 2^32 or more is truncated in the header, and a masked payload longer than one
  truncated block no longer decodes under all primitives (`BlockSizeLimit.RoundTripIffBlockSizeFits`).
- A batch of more than 10,001 sources with one name repeats a destination
  (`Naming.DistinctExactlyUpToLimit`).
- A path with a double slash after the mount's directory is not mapped back to itself
  (`MountRouting.MapsBackExactly`; `MountRouting.DoubleSlashIsLost` gives an input).
- With a capacity of 2^64 - 1 the saturating test admits anything (`ReadCache.AdmitsExactly`,
  `ReadCache.LargestCapacityOverflows`), and then the counter is the sum of the sizes modulo 2^64 only.
- Overlapping puts of one key leave bytes counted that nothing holds
  (`CacheConcurrency.ExactAtRestIffNoOverwrite`).
- Renaming a directory in a pool leaves stale cache entries below its old place, if there were any
  (`Pool.VfsPool.MoveFile`; `Pool.RenameLeavesStaleEntry` gives an input).
- Trashing with REPLACE changes more than the front of a path in which the tree's path occurs again
  (`IndexTrash.TrashThenRestoreExactly`; `IndexTrash.RepeatIsRewritten` gives an input).
- The pattern that finds the rows below a path may find strays: rows of other trees, through an
  underscore or a percent sign in the path, or through letters where the database ignores case. Then a
  move, a trashing or a restoring takes them along, and only then (`IndexMoves.MoveRerootsExactly`,
  `IndexTrash.OthersStayExactly`; `IndexMoves.NeverStraysExactly` says for which paths it cannot happen,
  `IndexMoves.UnderscoreTakesOtherTree` and `IndexMoves.CaseTakesOtherTree` give inputs). The recycle
  bin's own name has an underscore.
- A backslash that appears only after percent decoding survives in a resolved share path, which is
  then not its own normal form (`SharePaths.ResolvedIsNormalIff`), and what that form is
  `SharePaths.NormalFormOfResolved` says.

## Model
| member | source | states |
|---|---|---|
| ProtectedHeader.DecodeEncode | src/vfs/protected.rs:151-190 | decoding the front of anything that starts with an encoded header gives that header back, for every header whose fields fit their widths |
| ProtectedHeader.EncodeDecode | src/vfs/protected.rs:151-190 | decoding succeeds on exactly the byte strings of 36 bytes or more with the right magic, version, mode and generator; encoding the result gives the first 36 bytes back but for the reserved byte |
| PayloadBytes.HeaderPlaces | src/vfs/protected.rs:151-163 | the header place by place: magic word and version, mode, generator, a zero byte, block size and logical size low byte first, nonce |
| ProtectedMeta.HexDecodeExactly | src/vfs/protected.rs:346-357 | hex decoding accepts exactly the even-length strings of hex digits, and encoding the result is the lower-case string |
| ProtectedMeta.KnownHex | src/vfs/protected.rs:346-346 | hex is written high digit first, in lower case |
| ProtectedMeta.MetaRoundTrip | src/vfs/protected.rs:332-370 | a header survives the metadata record, whatever integrity fields are set on the way |
| ProtectedMeta.ParsesOwnNames | src/vfs/protected.rs:38-99 | the names of both modes and both generators are read as what they stand for |
| Prng.MaskPrefix | src/vfs/protected.rs:531-577 | the mask of a partial block is a prefix of the mask of the full block, for both generators |
| Prng.XorshiftNeverZero | src/vfs/protected.rs:531-552 | from any key material the xorshift state is never zero, at any draw |
| PayloadBytes.KnownXorshift | src/vfs/protected.rs:677-684 | a draw and a step of the first generator from a known state |
| PayloadBytes.KnownPcg | src/vfs/protected.rs:686-694 | draws and a step of the second generator from known states, one of them rotated |
| PayloadBytes.ZeroSeeds | src/vfs/protected.rs:538-566 | a zero state is replaced by each generator's own constant |
| PayloadBytes.KnownSeed | src/vfs/protected.rs:561-566 | the seed's words are read low byte first, the increment made odd |
| Obfuscation.BlockInfoInjective | src/vfs/protected.rs:510-529 | no two blocks of a payload share the info string their key material is derived from |
| Obfuscation.ApplyMask | src/vfs/protected.rs:531-577 | the in-place loop over draws XORs the chunk with the generator's mask and changes nothing else |
| Obfuscation.MaskChunk | src/vfs/protected.rs:453-497 | masking one chunk XORs exactly its positions with the key bytes of their absolute positions |
| Obfuscation.MaskChunksInOrder | src/vfs/protected.rs:480-497 | whatever permutation of the chunks the workers take, the buffer is the plain XOR with the position's key bytes |
| Obfuscation.ObfuscateInPlaceFromBlock | src/vfs/protected.rs:442-497 | the sequential loop and the parallel branch give the same buffer, for every worker count, core count and schedule |
| Keystream.XorWithTwice | src/vfs/protected.rs:421-440 | XORing twice from the same position restores the buffer, so masking and counter mode are their own inverse |
| CounterMode.CtrStream.ApplyKeystream | src/vfs/protected.rs:372-388 | the cipher object XORs the buffer with its stream and moves its position on by the buffer's length |
| CounterMode.SeekBlocks | src/vfs/protected.rs:377-388 | a counter block taken for a nonce starts the sequence that runs that far ahead, 128-bit wrap-around included |
| CounterMode.FirstCounterBlock | src/vfs/protected.rs:372-375 | the counter starts at the nonce |
| CounterMode.NextCounterBlock | src/vfs/protected.rs:377-388 | each counter block is the byte-wise increment of the one before: the last byte up by one, the carry going left over full bytes, all full bytes wrapping to zero |
| CounterMode.CounterCounts | src/vfs/protected.rs:377-388 | after any number of blocks the counter is the nonce incremented that many times |
| CounterMode.CounterBlocksDiffer | src/vfs/protected.rs:377-388 | no counter block comes twice within 2^128 blocks |
| CounterMode.SeekBytes | src/vfs/protected.rs:377-388 | seeking by whole blocks and discarding the rest of one block lands on the stream's byte at any offset |
| CounterMode.EncryptRangeInPlace | src/vfs/protected.rs:377-388 | the buffer is XORed with the nonce's stream from the logical offset on |
| Chunks.ChunkCountIsDivCeil | src/vfs/protected.rs:277-283 | counting chunks off the front gives the rounded-up quotient |
| MacTable.BuildEncryptMacTable | src/vfs/protected.rs:390-419 | the table has the length the table-length function predicts, and at place i the HMAC of the 64-bit index i, low byte first, and the bytes of chunk i |
| MacTable.TagAt | src/vfs/protected.rs:390-419 | the same for a table that starts at any index |
| MacTable.VerifiesExactly | src/vfs/protected.rs:648-675 | verification says Ok exactly when the table is the tags recomputed at the window's absolute chunk indices |
| MacTable.VerifyEncryptWindow | src/vfs/protected.rs:648-675 | the loop computes the verdict VerifiesExactly and MismatchIsFirst characterise, for every window, start and table |
| MacTable.MismatchIsFirst | src/vfs/protected.rs:648-675 | a reported chunk is the first one whose stored tag is wrong |
| MacTable.EveryWindowVerifies | src/vfs/protected.rs:648-675 | every window that starts on a chunk boundary and ends on one, or at the end, has its part in the payload's table and verifies against it |
| MacTable.MovedWindowNeedsCollisions | src/vfs/protected.rs:648-675 | a window verifies against the table made for it at another place only if, for every chunk of it, the messages with the two indices differ and have one HMAC |
| MacTable.ChangedChunkNeedsCollision | src/vfs/protected.rs:648-675 | a window with a changed chunk verifies only if two different messages have one HMAC |
| ProtectedCodec.EncodePayload | src/vfs/protected.rs:203-261 | the payload is header, XORed body and, in encrypt mode, tag table, with the header and the metadata record beside it; a missing key is the only error; worker scheduling does not show |
| ProtectedCodec.EncodedLayout | src/vfs/protected.rs:203-261 | a payload's header decodes to its header, its metadata record converts to the same header, and what follows is the body and then the table |
| PayloadBytes.EncryptedBodyByte | src/vfs/protected.rs:372-375 | byte i of an encrypted body is the plaintext byte XORed with byte i mod 16 of the cipher's output for the nonce incremented i/16 times |
| PayloadBytes.MaskedBodyByte | src/vfs/protected.rs:510-577 | a byte of a masked body is the plaintext byte XORed with the byte of its block's mask, the generator seeded from material derived for the user, key slot, nonce and block index |
| PayloadBytes.EncryptedTableEntry | src/vfs/protected.rs:390-419 | behind an encrypted body, entry i of the table is the HMAC of the 64-bit index i, low byte first, and the bytes of the i-th mebibyte of the body |
| ProtectedCodec.DecodeRange | src/vfs/protected.rs:286-323 | decodes a window as if unmasked from its own position and cut, with the errors of both modes |
| ProtectedCodec.DecodeObfuscateRange | src/vfs/protected.rs:579-617 | the masked window decoder computes that function, for any worker count and schedule |
| ProtectedCodec.DecodeEncryptRange | src/vfs/protected.rs:619-646 | the counter-mode window decoder computes that function, the missing key, an early start and a short window included |
| ProtectedCodec.RandomAccessRoundTrip | src/vfs/protected.rs:151-330 | for every plan, nonce, plaintext, range and covering window (block-aligned when masked): the header decodes to itself and the range decodes to the slice of the plaintext |
| ProtectedCodec.EncryptDecodeFailures | src/vfs/protected.rs:619-646 | encrypted ranges fail in exactly three ways, checked in this order: no key, start before the window, end past it |
| BlockSizeLimit.RoundTripIffBlockSizeFits | src/vfs/protected.rs:213-236 | a masked payload decodes to its plaintext under all primitives exactly when the block size is below 2^32 or the plaintext fits one block of the truncated size |
| Paths.RelativePathIsRelativeSegments | src/vfs/mounted.rs:1649-1658 | on canonical paths the string helper gives the relative segment list, joined |
| Paths.JoinRootIsAppend | src/vfs/mounted.rs:1660-1673 | joining a key to a root is appending its segments |
| Paths.PathDepthIsLength | src/vfs/mounted.rs:1643-1647 | the depth of a canonical path is its number of segments |
| Paths.SortedKeysArePrefixFirst | src/vfs/mounted.rs:1872-1876 | in the order of the key set a path comes before its extensions |
| MountRouting.SortMountsSorts | src/vfs/mounted.rs:161-182 | the mounts are a permutation of those given, the longest directory first |
| MountRouting.ResolveRuntime | src/vfs/mounted.rs:291-306 | the loop returns the first mount, in the stored order, that holds the normalized path, and the path inside it |
| MountRouting.ResolvesToLongest | src/vfs/mounted.rs:291-306 | with distinct canonical directories resolving returns the mount whose directory is strictly the longest that holds the path |
| MountRouting.ResolvesNoneExactly | src/vfs/mounted.rs:291-306 | resolving returns none exactly when no mount's directory holds the path |
| MountRouting.MapsBackExactly | src/vfs/mounted.rs:261-268 | mapping the resolved path back gives the normalized path exactly when that path is not empty and no double slash follows the mount's directory |
| MountRouting.DoubleSlashIsLost | src/vfs/mounted.rs:261-306 | /m//x in a mount at /m comes back as /m/x |
| MountRouting.MappedPathResolvesBack | src/vfs/mounted.rs:261-306 | mapping a canonical remote path and resolving it returns to that mount and path exactly when no deeper mount holds it |
| CrossStorageMove.EnsureParentDir | src/vfs/mounted.rs:99-108 | on Ok the parent exists and only directories missing above the path were made; on error nothing changed |
| CrossStorageMove.CopyPathBetween | src/vfs/mounted.rs:110-141 | on Ok every path of the subtree exists at the destination with its kind and content; on every exit only places of the copied subtree changed; the recursion ends by subtree size |
| TreeDeletion.DeletePathRecursive | src/vfs/mounted.rs:143-158 | removes the subtree and nothing else; every deletion is of a distinct path that was empty by then, on failure too |
| CrossStorageMove.GenericMoveOrCopy | src/vfs/mounted.rs:404-428 | at every exit, and so after every step, each source file is intact or fully at the destination; the source changes only once the whole copy is there; on Ok the source subtree is gone; moving a mount root is refused |
| MirrorSync.CollectTree | src/vfs/mounted.rs:1706-1718 | the map holds exactly the entries strictly below the root, under their relative paths |
| MirrorSync.CopyFileBetween | src/vfs/mounted.rs:1720-1734 | on Ok the destination file has the source's content, its parent was made if it was missing, and nothing else changed; on error at most the parent was made |
| MirrorSync.EnsureDirectoryExists | src/vfs/mounted.rs:1699-1704 | on Ok the directory and its missing ancestors exist and nothing else changed |
| MirrorSync.DeleteExtraPaths | src/vfs/mounted.rs:1736-1775 | on Ok no path is left that the source lacks; only such paths go, each deleted once, when nothing is below it any more |
| MirrorSync.SyncUnidirectional | src/vfs/mounted.rs:1777-1854 | on Ok each source path is at the destination with equal content or was there with equal size and no older time; on every exit the source and all outside the root are unchanged, each entry is as it was, finally synced or a deleted extra, and only extra paths were deleted, each once and empty |
| MirrorSync.MirrorHoldsExactlySource | src/vfs/mounted.rs:1777-1854 | after a mirror sync the root holds exactly the source's paths, kind by kind |
| MirrorSync.NewerSourceFileIsCopied | src/vfs/mounted.rs:1815-1825 | of two files the source's content is at the destination if its size is another, or its time is greater, or only it has a time; otherwise the destination file is as it was |
| MirrorSync.MissingFileIsCopied | src/vfs/mounted.rs:1815-1835 | a source file without a counterpart file is at the destination with its content |
| MirrorSync.SyncAgainChangesNothing | src/vfs/mounted.rs:1777-1854 | a second sync right after a successful one changes no path, kind or content, whatever times the first one's writes received |
| TwoWaySync.SyncBidirectionalKeep | src/vfs/mounted.rs:1856-1952 | on Ok every pair of paths is synced, the newer side winning and ties of different size going left; on every exit nothing was removed or changed its kind and each pair is as it was or finally synced; a reported conflict is a file against a directory, and nothing at or below it was touched |
| TwoWaySync.BothHoldTheUnion | src/vfs/mounted.rs:1856-1952 | afterwards both sides hold the union of the two path sets, kinds kept |
| TwoWaySync.FilePairsAgree | src/vfs/mounted.rs:1856-1952 | two files end with equal content, or were left alone with equal times and sizes |
| TwoWaySync.LaterFileWins | src/vfs/mounted.rs:1915-1945 | of two files the content of the one with the greater time is on both sides, a time counting more than none, and of equal times but different sizes the left content; with equal times and sizes both are as they were |
| TwoWaySync.OneSidedEntryIsCopied | src/vfs/mounted.rs:1879-1907 | what only one side had is on the other side with its kind and content, and untouched where it was |
| TwoWaySync.TwoWayAgainChangesNothing | src/vfs/mounted.rs:1856-1952 | a second two-way sync right after a successful one changes no path, kind or content on either side |
| ReadCache.AdmitsExactly | src/vfs/cache/read_cache.rs:278-284 | the saturating capacity test admits what does not fit exactly when the capacity is the largest 64-bit number |
| ReadCache.LargestCapacityOverflows | src/vfs/cache/read_cache.rs:278-284 | with the largest capacity and an entry of that size held, a put of one byte evicts nothing and leaves more than the capacity |
| ReadCache.CleanupIntervalClamps | src/vfs/cache/read_cache.rs:92-92 | the cleanup interval is the whole part of a quarter of the time to live, kept between one second and sixty |
| ReadCache.Cache.Get | src/vfs/cache/read_cache.rs:117-158 | a hit is the stored data and info of an entry that has not expired at the clock's reading, with only its access time changed; there is a miss exactly when caching is off for the key, there is no entry, it has expired or the disk fails, and in the last two cases the entry goes |
| ReadCache.Cache.Remove | src/vfs/cache/read_cache.rs:206-215 | drops the entry and takes its size off the counter, so the counter stays the sum of the sizes held |
| ReadCache.Cache.CleanupExpiredIfDue | src/vfs/cache/read_cache.rs:261-276 | if it is forced or the interval is over, exactly the entries expired at the clock's reading are dropped; otherwise nothing changes |
| ReadCache.Cache.OldestKey | src/vfs/cache/read_cache.rs:285-290 | finds a key that no other entry was accessed before, or none for an empty cache |
| ReadCache.Cache.EnsureCapacity | src/vfs/cache/read_cache.rs:278-295 | called with a size that fits the capacity it always succeeds; of the entries not expired at the clock's reading the survivors are what MadeRoom says: least recently used went, and the last eviction was needed |
| ReadCache.Cache.Put | src/vfs/cache/read_cache.rs:160-204 | an allowed, non-empty file within both limits is stored when the cache is enabled, unless the disk fails, with its times, and nothing else is; room is made among the other entries not expired at the clock's readings; the counter is the sum of the sizes and at most the capacity (below the largest one) |
| ReadCache.RoomIsUnique | src/vfs/cache/read_cache.rs:278-295 | with distinct access times there is only one set of survivors that making room may leave, for every capacity |
| CacheConcurrency.CounterBalance | src/vfs/cache/read_cache.rs:198-215 | at every moment of every interleaving the counter is the bytes held, plus those in flight, plus those of overwritten entries |
| CacheConcurrency.CounterCoversHeld | src/vfs/cache/read_cache.rs:198-215 | in every interleaving the counter is never below the sum of the sizes in the map |
| CacheConcurrency.NoUnderflow | src/vfs/cache/read_cache.rs:206-210 | in every interleaving no subtraction takes the counter below zero, nor below what is still held |
| CacheConcurrency.ExactAtRestIffNoOverwrite | src/vfs/cache/read_cache.rs:198-215 | with no task in the middle the counter is exact if and only if no insertion ever overwrote an entry |
| CacheConcurrency.OverwrittenNeverRecovered | src/vfs/cache/read_cache.rs:202-215 | bytes once overwritten stay counted for the rest of the run |
| CacheConcurrency.OverlappingPutsLeak | src/vfs/cache/read_cache.rs:202-203 | two overlapping puts of one key leave the first one's bytes counted though nothing holds them |
| Pool.SliceIsClampedRange | src/vfs/pool.rs:50-67 | slicing the cached bytes is reading the clamped range, for every range |
| Pool.ClampReadRange | src/vfs/pool.rs:63-67 | the clamped range holds exactly the positions of the range that exist |
| Pool.VfsPool.Read | src/vfs/pool.rs:271-302 | keeps every cached entry equal to the primary; while the primary's read has not failed in the call, what it returns is a direct read of the primary, and it always returns if the primary did not fail; only after such a failure is it a direct read of the backup |
| Pool.VfsPool.ReadRange | src/vfs/pool.rs:522-557 | the same for a range, where the primary's stat decides |
| Pool.VfsPool.Write | src/vfs/pool.rs:303-307 | keeps the cache coherent even when the write fails half-way; on Ok the file has the data |
| Pool.VfsPool.Stat | src/vfs/pool.rs:494-510 | the primary's answer unless it failed, and only then the backup's |
| Pool.VfsPool.Delete | src/vfs/pool.rs:308-317 | keeps the cache coherent; only paths at or below the deleted one go; on Ok without a failure of the primary a directory is gone with all below it, and a file alone |
| Pool.VfsPool.RemoveTree | src/vfs/pool.rs:239-267 | deletes only at or below the directory and keeps the cache coherent; the operator's log grows by exactly the paths that went, each once, none after a directory it lies below, and if the primary could list, or there is no backup, nothing was left below any of them when it went |
| Pool.VfsPool.MoveFile | src/vfs/pool.rs:597-602 | renaming a file keeps the cache coherent; renaming a directory does so if and only if nothing strictly below it was cached |
| Pool.VfsPool.CopyFile | src/vfs/pool.rs:603-608 | keeps the cache coherent; on Ok the destination has the source's content |
| Pool.StaleExactlyBelowSource | src/vfs/pool.rs:597-602 | after a directory rename the invalidated cache agrees with the backend exactly when it held nothing strictly below the source |
| Pool.RenameLeavesStaleEntry | src/vfs/pool.rs:597-602 | renaming /d to /e with /d/f cached leaves an entry for a file that is not there |
| Pool.Execute | src/vfs/pool.rs:271-317 | over every run of reads, range reads, writes, deletions, copies and file moves, with the primary's tree and failures before and after each command: each command changes only what it names, has done its work if it succeeded, and each read is answered as a direct read of the primary's tree at that moment, always if the primary does not fail in it; only if it fails in that very command, as a direct read of the backup |
| SqlText.LikeIsPrefixExactly | src/business/services/file_index_service.rs:795-806 | the pattern with a trailing percent sign is the prefix test for all texts exactly when the prefix is plain: it has no wildcard and, where case is ignored, no ASCII letter |
| SqlText.PrefixMatches | src/business/services/file_index_service.rs:795-806 | whatever has the prefix matches the pattern, wildcards or not; the pattern can only err by matching more |
| SqlText.NotBelowItself | src/business/services/file_index_service.rs:795-806 | the pattern for the rows below a path never matches the path itself, wildcards or not |
| SqlText.ReplaceIsIdentityExactly | src/business/services/file_index_service.rs:660-672 | SQL REPLACE leaves a text as it is exactly when the sought text does not occur or is its own replacement |
| FileRows.ParentAndNameJoin | src/business/services/file_index_service.rs:790-803 | parent and name cut at the last slash join to the path again |
| IndexMoves.MoveKeepsSuffix | src/business/services/file_index_service.rs:830-850 | a row at or below the source keeps its suffix below the new path and every other field but its time stamp and trash fields, for every path |
| IndexMoves.MovedColumns | src/business/services/file_index_service.rs:808-850 | a moved row is stamped, loses its trash fields unless the target starts with the recycle bin's path, and keeps every other column but path, parent and name |
| IndexMoves.MoveRerootsExactly | src/business/services/file_index_service.rs:778-853 | a move re-roots exactly the rows at or below its source, at every time, if and only if the pattern finds no stray row in the table |
| IndexMoves.NeverStraysExactly | src/business/services/file_index_service.rs:795-806 | no table has strays for a path exactly when the path is plain |
| IndexMoves.UnderscoreTakesOtherTree | src/business/services/file_index_service.rs:795-806 | moving /a_b takes the row /axb/c of the same user along |
| IndexMoves.CaseTakesOtherTree | src/business/services/file_index_service.rs:795-806 | where case is ignored, moving /a takes the row /A/c along |
| IndexMoves.MoveKeepsNames | src/business/services/file_index_service.rs:778-853 | after a move without strays every row's path is still its parent and its name |
| IndexMoves.CollisionBreaksUnique | src/business/services/db_init.rs:100-112 | a row that stays, at the new path of one that moves, breaks the unique index |
| IndexMoves.FreeIsNoCollision | src/business/services/file_index_service.rs:778-853 | without strays nothing is in the way of a move to a free path |
| IndexMoves.MoveBackRestores | src/business/services/file_index_service.rs:778-853 | moving a live tree without strays to a vacant path and back restores the table but for time stamps |
| FileIndex.Index.MoveFile | src/business/services/file_index_service.rs:778-853 | on Ok the table is the moved one (which rows these are, MoveRerootsExactly says); on error it is as before; a row in the way is always refused, and without strays the unique index refuses nothing else outside nesting, and nothing at all at a free path |
| IndexTrash.TrashIsRerootExactly | src/business/services/file_index_service.rs:655-682 | REPLACE re-roots a row below the tree exactly when the tree's path occurs once in it, for every path |
| IndexTrash.TrashedColumns | src/business/services/file_index_service.rs:643-682 | a trashed row is stamped, trashed now and remembers the path it had; the top row lies in the recycle bin under the target's name; every other column is kept |
| IndexTrash.RestoredColumns | src/business/services/file_index_service.rs:710-737 | a restored row is at its target, named by it, no longer trashed, stamped, and otherwise as it was |
| IndexTrash.RepeatIsRewritten | src/business/services/file_index_service.rs:660-672 | trashing /a rewrites both parts of the row /a/a |
| IndexTrash.TrashKeepsName | src/business/services/file_index_service.rs:655-682 | a row re-rooted by REPLACE is still its parent and its name |
| IndexTrash.TrashKeepsNames | src/business/services/file_index_service.rs:628-689 | after trashing to a path the recycle bin gives, without strays and with the tree's path occurring once, every row's path is still its parent and its name |
| IndexTrash.TrashThenRestoreExactly | src/business/services/file_index_service.rs:628-743 | trashing a live tree without strays to a vacant path and restoring it gives the table back, but for time stamps, exactly when the tree's path occurs once in the path of every row below it and the second statement does not rewrite the trashed top row |
| IndexTrash.RecycleBinRoundTrip | src/business/services/file_index_service.rs:628-743 | the same for every path the recycle bin gives, whose name is never plain; for a plain source the condition on the rows below is the only one |
| IndexTrash.OthersStayExactly | src/business/services/file_index_service.rs:628-743 | trashing, and likewise restoring, changes only rows at or below the path, at every time, if and only if there are no strays |
| IndexTrash.TrashKeepsUnique | src/business/services/file_index_service.rs:628-689 | trashing to a free path keeps paths unique after both statements, when these find and rewrite just the tree's rows, each once |
| FileIndex.Index.TrashFile | src/business/services/file_index_service.rs:628-689 | the two statements take effect together or not at all and keep the unique index; it refuses whenever one of them gives two rows one path, and only then, which does not happen under the conditions of TrashKeepsUnique |
| FileIndex.Index.RestoreFile | src/business/services/file_index_service.rs:691-743 | on Ok the table is the restored one (which rows these are, OthersStayExactly says); on error it is as before; a row in the way is always refused, and without strays nothing else is outside nesting, and nothing at all at a free path |
| FileIndex.Index.UpsertFile | src/business/services/file_index_service.rs:16-158 | exactly one row changes or is added: it has the normalized path and the given location, is not trashed or deleted, and keeps identity, creation time and favourite if it was there |
| FileIndex.ParentDirNames | src/business/services/file_index_service.rs:119-137 | the parent written for a path is the one cut at its last slash, exactly when no slash is doubled before the name |
| FileIndex.NormalizedPathCutsSlashes | src/business/services/file_index_service.rs:119-123 | a stored path has all slashes at its end cut off, and nothing else |
| DirectorySync.UpsertConcat | src/business/services/file_index_service.rs:1316-1347 | upserting chunk by chunk is upserting all items in turn |
| DirectorySync.UpsertAllUpserts | src/business/services/file_index_service.rs:1316-1347 | after upserting distinct items every item has its row, and every row is an item's or untouched; paths stay unique |
| DirectorySync.DirectoryAfterSync | src/business/services/file_index_service.rs:1269-1364 | the directory's rows are the items' and the old rows stamped since the start; column by column, an item's row has the item's parent, name, kind, size, file time and stamp and no deletion time, an old one keeping identity, favourite, trash fields, location and creation time, a new one having favourite 0 and no trash fields; all other rows are unchanged |
| FileIndex.Index.UpsertChunks | src/business/services/file_index_service.rs:1284-1290 | for every chunk size the table is that of upserting all items |
| FileIndex.Index.SyncDirectory | src/business/services/file_index_service.rs:1269-1294 | for every chunk size, zero included, the result is the pruned upsert of all items; on error the table is as before |
| SessionRegistry.Registry.Workers | src/business/services/media_transcode.rs:236-272 | any pending sessions may finish; finished ones stay as they are |
| SessionRegistry.Registry.CountPending | src/business/services/media_transcode.rs:194-209 | the count is at least what is pending at its end and at most what was pending at its start |
| SessionRegistry.Registry.RemoveRecord | src/business/services/media_transcode.rs:230-234 | takes a finished session out of both indexes; callers must show that it is not pending |
| SessionRegistry.Registry.CleanupExpired | src/business/services/media_transcode.rs:211-228 | of the sessions finished at the start exactly those expired at the clock's reading go; a pending one goes only if it has finished meanwhile; with workers running in between |
| SessionRegistry.Registry.Ensure | src/business/services/media_transcode.rs:112-160 | a pending session of the key, and a ready one that is not expired and has its manifest, is returned, the latter touched; in every other case a new one is started under the fresh identifier, with its expiry, or it is refused because the limit was reached at the start; never a failed one; other finished sessions stay exactly if not expired |
| SessionRegistry.Registry.Resolve | src/business/services/media_transcode.rs:162-192 | gives a file of a session exactly when that is ready and the file exists, under the trimmed name and with the type of its extension, for sessions ready and not expired at the start; a name that might leave the session's directory is an error, exactly then |
| SessionRegistry.TypesByEnding | src/business/services/media_transcode.rs:183-190 | the three endings have their types when something stands before the last dot; every other name has the general type |
| SessionRegistry.PairedWith | src/business/services/media_transcode.rs:144-145 | entering a new session in both indexes keeps them paired one to one |
| SessionRegistry.Run | src/business/services/media_transcode.rs:112-272 | over every run of calls, workers finishing in between: the indexes agree, the limit holds, finished sessions stay as they finished, no pending session is gone |
| Decimal.ShowInjective | src/vfs/batch.rs:33-49 | different numbers have different decimal notations |
| Decimal.ShowIsDecimal | src/vfs/batch.rs:33-49 | the notation stands for the number, has only digits and no leading zero |
| Naming.NumberedInjective | src/vfs/batch.rs:33-49 | different numbers give different names for one candidate |
| Naming.NumberedShape | src/vfs/batch.rs:31-45 | the number goes in parentheses between stem and extension, in the same directory if there is one |
| Naming.NumberedShapeWithout | src/vfs/batch.rs:20-45 | it goes after a name without an extension, as one without a dot is, and one whose only dot is its first character |
| Naming.ReserveBatchDestination | src/vfs/batch.rs:27-52 | the bounded loop hands out the candidate, or the name with the least free number, or the candidate again when all are taken |
| Naming.FirstFreeIsLeast | src/vfs/batch.rs:33-49 | the number chosen is the least free one, and none is chosen exactly when all are taken |
| Naming.PrepareCopyLikeTargets | src/vfs/batch.rs:62-77 | each source is paired with the name reserved for it in turn |
| Naming.CandidateIsInTarget | src/vfs/batch.rs:70-73 | the storage is asked for the source's name directly in the target directory, whatever slashes that ends in; its answer is the candidate, or that path itself |
| Naming.NamesAreDistinct | src/vfs/batch.rs:27-77 | the names of a batch of at most 10,001 are pairwise distinct, whatever the candidates |
| Naming.DistinctExactlyUpToLimit | src/vfs/batch.rs:27-77 | destinations are always pairwise distinct exactly for batches of at most 10,001 paths |
| Naming.UniqueArchiveEntryName | src/utils/compression.rs:166-193 | the unbounded loop ends for every finite set and returns a name outside it, the wanted one or the one with the least free number, and adds just that name |
| Naming.EntryNameShape | src/utils/compression.rs:171-188 | the number goes in parentheses between stem and extension, or after a name without one |
| SharePaths.NormalizeAbsolutePath | src/utils/share_access.rs:3-22 | the loop renders the trimmed segments that are not empty and not a dot |
| SharePaths.NormalizationIdempotent | src/utils/share_access.rs:3-22 | normalising twice is normalising once |
| SharePaths.WithinIffSegmentPrefix | src/utils/share_access.rs:55-63 | the string test holds exactly when the root's segments are a prefix of the candidate's |
| SharePaths.WithinIsPreorder | src/utils/share_access.rs:55-63 | containment is reflexive, transitive, and mutual only between spellings of one path |
| SharePaths.NormalizeShareRelativePath | src/utils/share_access.rs:24-53 | a forbidden segment, or a failed decoding, is an error; otherwise the kept segments are rendered |
| SharePaths.AcceptedExactly | src/utils/share_access.rs:35-53 | a request is accepted exactly when it decodes and no piece between slashes is two dots or holds a control character, spaces around it aside |
| SharePaths.NoPercentNoDecoder | src/utils/share_access.rs:24-36 | without a percent sign in the request the decoder is not consulted, and the text read is the trimmed request with its backslashes as slashes |
| SharePaths.PercentAsksDecoder | src/utils/share_access.rs:24-36 | with one the decoder's answer to that text, or its failure, is what is read |
| SharePaths.ResolveShareDescendantPath | src/utils/share_access.rs:65-92 | computes the base's segments followed by the requested ones, or one of its two errors; the closing containment check never rejects |
| SharePaths.FinalCheckNeverRejects | src/utils/share_access.rs:85-92 | the candidate is always within the base, by the containment test itself |
| SharePaths.ResolvedSegments | src/utils/share_access.rs:65-92 | every Ok result is the base's segments followed by segments none of which is empty, a dot or two dots |
| SharePaths.ResolvedIsNormalIff | src/utils/share_access.rs:65-92 | the result is its own normal form exactly when no requested segment holds a backslash after decoding |
| SharePaths.NormalFormOfResolved | src/utils/share_access.rs:65-92 | the normal form of a result is the base's segments and then the pieces that backslashes cut the requested segments into; it has a segment of two dots exactly when the base has one or a piece is one |
| SharePaths.EncodedBackslashes | src/utils/share_access.rs:24-53 | a request for %5C..%5C resolves to one segment below the base whose normal form is two dots |

## Left out
- AES, SHA-256, HMAC and HKDF internals, random nonces, JSON text and percent decoding: parameters or arbitrary functions.
- `write_cache.rs`, the log, maintenance, the scoped engine, configuration and entity structs, share and key administration, metrics.
- ffmpeg, archive tools and other foreign processes; of the transcoding worker only that it finishes, and how.
- ProtectedCodec.RandomAccessRoundTrip: a masked window that does not start on a block is outside it, as the decoder then takes the window for one that starts on the block before; callers align it.
- BlockSizeLimit.RoundTripIffBlockSizeFits: is about decoding the whole body; ranges inside the first truncated block decode in any case.
- Storage.Store: a failed operation leaves the tree unchanged; a write that fails after it replaced part of a destination file is not modelled (the pool's operators do model it).
- MirrorSync.SyncUnidirectional: two storages are distinct objects, and nobody else changes them during a run; the same holds for the two-way sync and the cross-storage move.
- MirrorSync.ByDepth: ties between paths of equal depth are broken arbitrarily, where the source keeps the order of its map.
- TwoWaySync.SyncBidirectionalKeep: the ordered key set is generalised to any order that visits a path before its extensions; `Paths.SortedKeysArePrefixFirst` shows that the source's order is one.
- Paths as segment lists: `Storage` and the sync modules use segment lists for canonical paths; the `Paths` lemmas tie the string helpers to them.
- Moving within one mount or inside the base storage, which is delegated to that storage (mounted.rs:820-846), and the listing of mounts inside directories.
- `mark_sync_running` and `mark_sync_finished`: database status without an invariant.
- ReadCache.Cache.Put: the 64-bit time arithmetic does not overflow; clock values are unbounded integers.
- ReadCache.Cache.Get: a cached file on disk is readable with the bytes written, or not readable; hash collisions of file names and the reload of a local directory, which admits entries without a capacity check, are not modelled.
- CacheConcurrency.CounterBalance: the counter is an unbounded integer, and the capacity check before an addition is not part of the machine: any task may add at any time, which includes what the code allows.
- Pool.VfsPool.Read: an absent cache is a disabled one, and the write cache is off; paths are canonical and spelled by callers as listings spell them; `write_stream`, with its `.tmp` name, and `read_stream_range` are not modelled.
- Pool.Execute: directory renames are not commands of the run; `Pool.VfsPool.MoveFile` says what happens with them.
- FileIndex.Index.MoveFile: LIKE has no escape character, and texts are cut by characters where the source cuts by bytes.
- FileIndex.Index.TrashFile: a statement over many rows is checked against the unique index once, by its result.
- FileIndex.Index.SyncDirectory: identifiers of new rows are fresh, and the items of one statement that repeat a path are taken in turn.
- FileIndex.Index.UpsertFile: the etag, remark and file creation columns, which no modelled operation sets, are not modelled; a dot as a path segment is an ordinary name; the parent is cut at the last slash.
- `delete_file`, `set_favorite_color`, searches and totals of the index: single statements.
- ProtectedCodec.EncodePayload: the metadata record is returned as a record, where the source returns its JSON text.
- SessionRegistry.Registry.Resolve: whether the file exists is an input, and its path is given as the session and the name.
- SessionRegistry.Registry.Ensure: calls do not overlap, the limit and the time to live are fixed, and a new session identifier is fresh; session files are not modelled, and whether a manifest exists is an input; when a worker finishes, and the time it stamps then, are free choices.
- Naming.UniqueArchiveEntryName: the set has at most as many elements as a collection can hold in memory.
