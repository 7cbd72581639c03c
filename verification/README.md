# Verified model of the object store

This project models the storage core of the object store in Dafny and proves what it guarantees. It follows an
object's bytes from the request to the disk and back:

* `Bytes`, `Domain` – byte arithmetic (values 0..255, multiplication modulo 256, exclusive or) and the shared values.
* `Erasure`, `Recovery` – the codec: padding, the parity rows `XOR_j byte((i+1)(j+1)) * d_j`, the emitted
  descriptors, and the decoder's recovery loop, as methods with the program's nested loops, proved against
  recursive specifications.
* `Recoverability`, `RoundTrip`, `Losses`, `Survivors`, `Guarantee` – which losses the parity rows can repair at all,
  what the decoder really returns after any loss, and what `CanRecover` promises.
* `Chunking`, `Dedup`, `Pipeline` – splitting, merging, parts, deduplication, and the whole way from an object's
  bytes to its stored shards and back.
* `Store`, `Repositories`, `Services` – the bucket, file and chunk tables and the disk. `Store` says what each
  completed operation does to the whole state as a function; the classes in `Repositories` and `Services` change the
  tables and the disk step by step and are proved to do exactly that.
* `Tallies`, `Invariants`, `Preservation`, `Views`, `Answers`, `Multipart` – what every operation keeps, what clients see
  and what requests are answered, over every sequential run from the empty store.
* `Sums`, `Interleaving`, `Windows`, `Quota`, `Soundness` – puts, deletes, the cleanup job, versioning updates, bucket
  creations and bucket deletions running concurrently on the same tables, one database statement at a time, with
  whole-row write-backs from stale snapshots: what holds under every interleaving, and exactly when the rest does.
* `Blobs` – the disk beside those tables: blobs written before a row is inserted, chunk rows recorded after it, blobs
  erased before it is marked, one at a time and interleaved with everything else.
* `Schedules` – the two views agree: sequential runs are the uninterleaved runs of the stepwise system.
* `Replication` – the replica fan-out with its goroutines, bounded error channel and wait.

## Results

**Recovery.** The documentation (README.md:56-60 of the repository) promises that any two of the 4+2 shards may be
lost. The code does not give this, and the model follows the code. For an object of n chunks, k data and p parity
shards, the decoder gives every object back after every loss of m shards if and only if n = 0, or n = k and m = 0, or
n < k with no parity and m = 0, or n = m = 1 with parity for k = 1 and exactly one parity shard for k > 1
(`Guarantee.SurvivesAnyExactly`); `CanRecover` tells the truth about that for every m exactly when n = 0, or n <= k with
no parity, or n = k = p = 1 (`Guarantee.CanRecoverIsRightExactly`).

For one loss pattern and one content, whatever the number of chunks, the exact condition is
`Survivors.AnyLossRightExactly`: the decoder ignores the coefficients, so parity 0 brings the exclusive or of all lost
shards and a syndrome that does not depend on what was lost, and other parity shards bring zeros. The usual object is
short: with the default 4+2 shards of 64 MB every object up to 192 MB has fewer chunks than data shards. When none of
its chunks is lost, such an object comes back if and only if *all* its parity shards are gone
(`Survivors.NoChunkLostExactly`), since each one left adds a block.

No other decoder could keep the promise either: the survivors determine the data if and only if no data shard is lost,
or exactly one is, with an even index, and a parity row of even index is left (`Recoverability.RecoverableExactly`);
two lost data shards are never determined (`Recoverability.PairHidden`). "Any m losses" leave the data determined only
for m = 0, for no data shards, or for one data shard with m at most half the parity count rounded up
(`Guarantee.DeterminedAnyExactly`), and in that last case the program's decoder falls short of what is determined for
every m above one (`Guarantee.DecoderFallsShortExactly`).

The read path does not get that far: a read fails as soon as one blob of the object is missing from disk, data or
parity (`Views.LostBlobFailsRead`).

**Put then Get.** With parity configured, a nonempty object of n bytes comes back as stored if and only if
(k-1)·c < n ≤ k·c for k data shards and chunk size c (`Pipeline.PutGetExactly`); larger objects are cut off and smaller
ones come back with blocks appended, both given byte for byte. Without parity every nonempty object round-trips.

**Store.** Over every sequential run the counters equal live plus cleaned-up amounts, the quota holds, the tables and
the disk agree, each key behaves as a stack, and every read is exact. Requests are accepted and rejected exactly as
stated of the rows: a put by its size and by the live and cleaned bytes of its bucket (`Answers.QuotaAnswer`), a bucket
deletion by the stacks of its keys (`Answers.DeleteBucketExactly`). The cleanup job removes only what was put to expire
before (`Answers.RemovedWasDue`), all of it when it lists fewer than 1000 rows (`Answers.CleanupExactly`), and changes
no read that had an answer (`Answers.ReadsSurviveCleanup`).

**Concurrency.** Under every interleaving the quota holds for the *recorded* size (`Interleaving.QuotaHolds`), each row
is removed exactly once, and bytes are conserved. Several other properties of sequential runs fail; each has its exact
condition over all runs:

* What a bucket *really* keeps, with what its puts are about to insert, stays within the quota if and only if every put
  that passed the check would have passed it against these bytes too (`Quota.QuotaKeptExactly`). Any number of puts past
  the check add exactly their sizes (`Quota.InsertsAddUp`). The quota holds when read-to-write-back windows on a bucket
  never overlap (`Quota.ExclusiveKeepsQuota`); `Quota.OverlappingPuts` is a run that breaks it.
* The counters of a quiescent bucket are exact if and only if what its requests have missed adds up to zero
  (`Windows.ExactIffNothingStale`); it is zero without overlapping windows (`Windows.ExclusiveRunsAreExact`).
* Live files stay in live buckets, and live names distinct, if and only if the checks made before an insert or a
  deletion would pass again when it takes effect (`Soundness.HousedExactly`, `Soundness.DistinctExactly`). Both hold
  while check and effect of such requests stay apart; where two meet, letting both take effect breaks them
  (`Soundness.MeetingUnhouses`, `Soundness.MeetingDoublesName`).
* A live row misses exactly the blobs a delete in progress has erased (`Blobs.LiveMissesExactly`), and an object can be
  read whole exactly when its put has recorded its chunk rows and no delete has erased anything (`Blobs.WholeExactly`).
  A delete that lists the chunk rows before the put has recorded them leaves blobs on disk for good
  (`Blobs.BlobLeftBehind`, `Blobs.LeftForGood`).

## Reading choices

* `ErrorCode` values returned where an `error` is expected (src/core/file_service.go:78 and 82) are read as coded
  rejections.
* Identifiers and version ids are positions in the tables. The clock is a `now` argument, greater for each operation
  than for the one before; one operation sees one instant.
* SHA-256 is a function parameter; injectivity is a hypothesis only where a lemma says so.
* Disk paths are tuples; the disk is a map from path to bytes.
* The schema's UNIQUE(name, deleted_at) (src/infrastructure/database/postgres.go:79) does not constrain live rows,
  whose `deleted_at` is NULL, so uniqueness of live names rests on the service's own check alone.

## Model

| member | source | states |
|---|---|---|
| `Bytes.XorIsBitwise` | src/infrastructure/storage/erasure.go:58 | the recursive exclusive or on numbers is the machine `^` on eight-bit words |
| `Bytes.MulOfTruncated` | src/infrastructure/storage/erasure.go:57-58 | truncating to a byte first and multiplying with wrap-around is the integer product modulo 256 |
| `Bytes.OddCancel` | src/infrastructure/storage/erasure.go:57-58 | multiplication by an odd factor is injective modulo 256 |
| `Bytes.EvenLoses` | src/infrastructure/storage/erasure.go:57-58 | an even factor sends 0 and 128 to the same byte |
| `Bytes.DoubleXor` | src/infrastructure/storage/erasure.go:57-58 | doubling modulo 256 distributes over exclusive or |
| `Erasure.Encode` | src/infrastructure/storage/erasure.go:26-104 | no chunks is an error; otherwise the first k chunks unpadded and numbered from 0, then parity shard i numbered k+i and as long as the longest chunk, each of its bytes the exclusive or over all data shards j of the zero-padded byte times (i+1)(j+1) modulo 256, every shard with its size, checksum and path |
| `Erasure.WeightedIsMultiple` | src/infrastructure/storage/erasure.go:57-58 | truncating the coefficient first changes nothing: entry j of row i is the byte times (i+1)(j+1) modulo 256 |
| `Erasure.XorSumCountsBits` | src/infrastructure/storage/erasure.go:54-60 | the fold has a bit set exactly when an odd number of its bytes have |
| `Erasure.MeasureShards` | src/infrastructure/storage/erasure.go:31-36 | the shard size is the largest chunk length |
| `Erasure.PadChunks` | src/infrastructure/storage/erasure.go:38-46 | the buffer holds k rows: the chunks cut to k and zero padded to the shard size |
| `Erasure.FillParity` | src/infrastructure/storage/erasure.go:48-62 | every cell (i, b) of the parity buffer is the exclusive or over j of byte b of shard j times (i+1)(j+1) modulo 256 |
| `Erasure.ParityAt` | src/infrastructure/storage/erasure.go:54-60 | one parity byte is the exclusive or of the column with shard j taken (i+1)(j+1) times modulo 256 |
| `Erasure.CollectShards` | src/infrastructure/storage/erasure.go:64-103 | descriptors and bytes in the order emitted, data rows before parity rows |
| `Recovery.Decode` | src/infrastructure/storage/erasure.go:106-165 | no descriptors is an error; otherwise the closed form `Reconstruct` of the available shards: the r-th missing data shard takes the r-th present parity shard, parity 0 giving the exclusive or of what is present, any other one zeros, and shards beyond the present parity staying out |
| `Recovery.Recover` | src/infrastructure/storage/erasure.go:125-155 | the nested loop fills the lowest missing indices in order and represents exactly the slots of the closed form |
| `Recovery.RecoverOne` | src/infrastructure/storage/erasure.go:127-153 | one round fills the lowest missing shard with its slot of the closed form and leaves the rest as it was |
| `Recovery.FirstMissing` | src/infrastructure/storage/erasure.go:128-131 | the scan stops at the lowest index not available |
| `Recovery.RecoverShard` | src/infrastructure/storage/erasure.go:131-150 | the recovered buffer is the slot of the closed form, padded or cut to the parity length |
| `Recovery.XorInto` | src/infrastructure/storage/erasure.go:138-145 | exclusive or in place as far as both buffers reach |
| `Recovery.Assemble` | src/infrastructure/storage/erasure.go:157-162 | concatenation in index order, missing slots contributing nothing |
| `Recovery.RankInjective` | src/infrastructure/storage/erasure.go:125-155 | two missing shards never take the same parity shard |
| `Recovery.AvailableExactly` | src/infrastructure/storage/erasure.go:111-116 | a shard is available exactly when a descriptor with bytes names it, with the bytes of the last that does |
| `Recovery.SlotExactly` | src/infrastructure/storage/erasure.go:125-155 | for any input: a missing shard with q missing ones before it takes the present parity shard with q present ones before it, parity 0 giving the exclusive or of itself and all present data bytes, any other zeros of its length; with at most q present parity shards it gets nothing |
| `Recoverability.ParityByteUpdate` | src/infrastructure/storage/erasure.go:53-62 | changing one data byte changes each parity byte by the old and new weighted byte |
| `Recoverability.ParityRowDoubles` | src/infrastructure/storage/erasure.go:53-62 | parity row 2i+1 is row i doubled modulo 256, byte for byte, for all data |
| `Recoverability.SingleLossDetermined` | src/infrastructure/storage/erasure.go:53-62 | a lost shard of even index is determined by the other shards and one parity row of even index |
| `Recoverability.SingleLossHidden` | src/infrastructure/storage/erasure.go:53-62 | a lost shard may be all 0 or a constant with zero weighted byte without the row noticing |
| `Recoverability.PairHidden` | src/infrastructure/storage/erasure.go:53-62 | whatever the other shards hold, zeros in shards j and l and the bytes l+1 in j with j+1 in l give the same parity in every row |
| `Recoverability.RecoverableExactly` | src/infrastructure/storage/erasure.go:53-62 | whatever the decoder: the survivors determine the data if and only if nothing is lost, or one shard of even index with an even parity row left; for all shard counts, sizes, losses and surviving rows |
| `Guarantee.SurvivesAnyExactly` | README.md:52-61 | for every layout, shard size and number n of chunks: the decoder gives every object of n chunks back after every loss of m of its shards if and only if n = 0, or n = k and m = 0, or n < k with no parity and m = 0, or n = m = 1 with parity for k = 1 and exactly one parity shard for k > 1 |
| `Guarantee.CanRecoverCounts` | src/infrastructure/storage/erasure.go:167-169 | `CanRecover` answers whether at least k shards are left |
| `Guarantee.CanRecoverIsRightExactly` | src/infrastructure/storage/erasure.go:167-169 | for objects of n chunks `CanRecover` tells for every m whether the decoder survives it if and only if n = 0, or n <= k and there is no parity, or n = k = p = 1 |
| `Guarantee.DeterminedAnyExactly` | src/infrastructure/storage/erasure.go:53-62 | the bound for every decoder: whichever m shards are lost, the survivors determine the data if and only if m = 0, k = 0, or k = 1 and m is at most half of p rounded up |
| `Guarantee.DecoderFallsShortExactly` | src/infrastructure/storage/erasure.go:134-147 | on objects of k chunks the decoder never does better than that bound, and misses it exactly for one data shard and 2 <= m <= half of p rounded up |
| `Guarantee.GapOfThreeParityShards` | src/infrastructure/storage/erasure.go:134-147 | one data shard 5, three parity shards, data and parity 0 lost: determined by what is left, decoded as 0 |
| `Guarantee.RemainingIsHandedOver` | src/infrastructure/storage/erasure.go:111-116 | handing over every emitted pair but the lost ones, in any order, makes exactly the remaining shards available |
| `Guarantee.DefaultLayout` | README.md:54-61 | in the 4+2 layout only m = 0 on objects of exactly four chunks is survived, no decoder could survive a larger m, and `CanRecover` says m up to 2; a nonempty object of fewer chunks does not come back even with nothing lost |
| `RoundTrip.DecodeIgnoresOrder` | src/infrastructure/storage/erasure.go:111-116 | permuting the (descriptor, bytes) pairs does not change the result when indices are distinct |
| `RoundTrip.AllEmittedAvailable` | src/infrastructure/storage/erasure.go:64-116 | feeding back everything emitted makes every emitted shard available under its index |
| `RoundTrip.SelectionSurvives` | src/infrastructure/storage/erasure.go:64-116 | any selection of emitted pairs in any order is an unaltered subset, with exactly those indices |
| `RoundTrip.SyndromeIsSumPlusParity` | src/infrastructure/storage/erasure.go:54-61 | the syndrome is the plain exclusive or of the data plus parity row 0 |
| `Losses.ReconstructSize` | src/infrastructure/storage/erasure.go:118-162 | exact output length: all present bytes plus one shard size for each missing shard that a parity shard is left for |
| `Losses.DecodeComplete` | src/infrastructure/storage/erasure.go:38-162 | with every emitted shard present: the first k chunks, then min(p, k - chunks) blocks, the first the syndrome of the zero-padded chunks and the rest zeros |
| `Losses.DecodeEncodeIdentity` | src/infrastructure/storage/erasure.go:26-165 | decode after encode returns nonempty chunks if and only if there are exactly k of them, or fewer with no parity |
| `Losses.DecodeWithAllData` | src/infrastructure/storage/erasure.go:118-162 | with all data shards present, losing any parity shards changes nothing |
| `Losses.DecodeSingleLoss` | src/infrastructure/storage/erasure.go:125-162 | with data shard j missing and parity 0 present, slot j holds the padded lost shard disturbed by a syndrome independent of j |
| `Losses.SingleLossRightExactly` | src/infrastructure/storage/erasure.go:125-162 | that result is right if and only if the lost chunk had full size and the syndrome is zero |
| `Losses.SyndromeVanishesExactly` | src/infrastructure/storage/erasure.go:54-61 | the syndrome is zero for all contents if and only if there is at most one data shard |
| `Survivors.BlockIsLostAndSyndrome` | src/infrastructure/storage/erasure.go:134-147 | whatever is lost, the block recovered from parity 0 is the exclusive or of all lost data shards and the syndrome |
| `Survivors.AnyLossRightExactly` | src/infrastructure/storage/erasure.go:118-162 | for any loss from any nonempty object as the chunker cuts it, of fewer or more chunks than data shards: the first k chunks come back if and only if the parity shards left are at least as many as the lost chunks (exactly as many for an object short of k chunks), and every lost chunk is a full shard of zeros, except that the first lost one may hold anything when parity 0 is left, it has full size and the syndrome is zero |
| `Survivors.NoChunkLostExactly` | src/infrastructure/storage/erasure.go:118-162 | an object of at most k chunks none of which is lost comes back if and only if it has k chunks or ALL parity shards are gone |
| `Chunking.Split` | src/infrastructure/storage/chunking.go:28-72 | the pieces of the buffer in order, each descriptor numbered from 0 and no parity, with size and checksum of bytes [t*size, (t+1)*size); the 64-bit offset never overflows |
| `Chunking.Merge` | src/infrastructure/storage/chunking.go:74-90 | no chunks is an error, otherwise the concatenation |
| `Chunking.SplitIntoParts` | src/infrastructure/storage/chunking.go:135-164 | the pieces with parts numbered from one, each with size, checksum and tag of its bytes; the 64-bit offset never overflows |
| `Chunking.PiecesJoin` | src/infrastructure/storage/chunking.go:46-90 | concatenating the pieces gives the buffer back |
| `Chunking.PieceSizes` | src/infrastructure/storage/chunking.go:46-68 | every piece but the last is full and the last is not empty |
| `Chunking.PieceCountUnique` | src/infrastructure/storage/chunking.go:46-68 | the number of pieces is m exactly when n <= m*size < n + size, which is the rounded-up quotient |
| `Dedup.Dedup` | src/infrastructure/storage/chunking.go:97-133 | keeps the fresh chunks with dense indices; kept plus skipped is the input; the table gains exactly the input checksums, in place unless it was nil |
| `Dedup.Record` | src/infrastructure/storage/chunking.go:118-121 | the in-place table update, a nil table being replaced by a new one |
| `Dedup.FreshIsFirstOccurrence` | src/infrastructure/storage/chunking.go:103-129 | the kept chunks stand, in ascending order, at exactly those positions that are the first with their checksum and whose checksum was not known |
| `Dedup.FreshDigests` | src/infrastructure/storage/chunking.go:103-129 | the kept checksums are exactly the new ones of the input, each once |
| `Dedup.MarkedKnown` | src/infrastructure/storage/chunking.go:97-133 | known afterwards are the old checksums and those of the input |
| `Dedup.FreshAppend` | src/infrastructure/storage/chunking.go:97-133 | two rounds on the updated table are one round on the concatenation |
| `Dedup.SecondPassKeepsNothing` | src/infrastructure/storage/chunking.go:97-133 | a pass over known chunks keeps nothing |
| `Dedup.Retrievable` | src/infrastructure/storage/chunking.go:97-133 | with an injective checksum every new input chunk is among the kept ones |
| `Pipeline.StoredReadsBack` | src/core/file_service.go:209-237 | decoding or merging the blobs written for an object gives `Retrieved`, under the descriptors written |
| `Pipeline.PutGetExactly` | src/core/file_service.go:88-122 | a nonempty object is read back as stored if and only if no parity is configured or (k-1)c < n <= kc |
| `Pipeline.PutGetTruncates` | src/core/file_service.go:88-122 | for n > kc the first kc bytes come back |
| `Pipeline.PutGetPads` | src/core/file_service.go:88-122 | for n <= (k-1)c the object comes back followed by min(p, k - ceil(n/c)) blocks of min(c, n) bytes |
| `Pipeline.WrittenSize` | src/core/file_service.go:109-122 | bytes written: min(n, kc) plus p shards of min(c, n) |
| `Pipeline.StorageSizeExactly` | src/core/file_service.go:124-128 | the recorded size is n without parity, else the whole number m with mk <= n(k+p) < (m+1)k |
| `Pipeline.StorageSizeAgainstWritten` | src/core/file_service.go:124-128 | the recorded size never exceeds the bytes written when n <= kc, equals them exactly for k equal chunks, and exceeds them when n > kc |
| `Repositories.Database.GetBucketByName` | src/infrastructure/database/repositories.go:160-181 | the live row of that name, or not found |
| `Repositories.Database.UpdateBucket` | src/infrastructure/database/repositories.go:229-251 | overwrites a live row with the whole snapshot; a missing or deleted one is not found |
| `Repositories.Database.SoftDeleteBucket` | src/infrastructure/database/repositories.go:253-266 | marks a live row deleted; a second attempt is not found |
| `Repositories.Database.GetFileByKey` | src/infrastructure/database/repositories.go:335-376 | the live row of greatest creation time, or the named live version |
| `Repositories.Database.SoftDeleteFile` | src/infrastructure/database/repositories.go:421-434 | a live row is marked deleted once; otherwise not found and nothing changes |
| `Repositories.Database.CountByBucket` | src/infrastructure/database/repositories.go:444-454 | the size of the set of undeleted rows of the bucket |
| `Repositories.Database.ListExpired` | src/infrastructure/database/repositories.go:456-483 | distinct undeleted rows whose expiry date is before `now`, at most the limit, and all of them if fewer |
| `Repositories.Database.ListChunksOf` | src/infrastructure/database/repositories.go:714-737 | the file's chunk rows ordered by index |
| `Repositories.SortSorts` | src/infrastructure/database/repositories.go:714-717 | ordering by index permutes the rows and puts them in ascending order |
| `Services.FileService.PutObject` | src/core/file_service.go:64-192 | not found exactly for a missing bucket; otherwise too large exactly above the maximum, else over quota exactly when the bucket has one and the recorded size plus the object exceed it, else rejected only if empty under parity; a rejected put changes nothing, an accepted one makes the state `AfterPut` |
| `Services.FileService.StoreObject` | src/core/file_service.go:105-179 | the steps after the last rejection make exactly the state `AfterPut` |
| `Services.FileService.EncodeObject` | src/core/file_service.go:88-103 | the shards and descriptors to store, an empty object failing when parity is configured |
| `Services.FileService.WriteChunks` | src/core/file_service.go:109-122 | each blob under its object path and the descriptors placed there |
| `Services.FileService.MeasureStorage` | src/core/file_service.go:124-128 | n without parity, else n(k+p) divided by k, rounded down |
| `Services.FileService.GetObject` | src/core/file_service.go:194-248 | not found when missing, expired or without chunks; an error on a missing blob; else the decoded or merged bytes |
| `Services.FileService.ReadChunks` | src/core/file_service.go:215-223 | all blobs in order, or an error when one is missing |
| `Services.FileService.DeleteObject` | src/core/file_service.go:277-319 | not found exactly when no undeleted row has the key; otherwise the newest version's blobs erased, its row marked, the counters down and clamped at zero |
| `Services.FileService.CleanupExpiredObjects` | src/core/file_service.go:430-450 | at most 1000 rows change, each undeleted with an expiry date before `now` and marked deleted at `now`; the count is the number of these; fewer than 1000 only if no such row is left; blobs and counters stay |
| `Services.FileService.UploadPart` | src/core/file_service.go:345-373 | the part is on disk under its number, and described by number, size, checksum and tag; nothing else changes |
| `Services.FileService.CompleteMultipartUpload` | src/core/file_service.go:375-389 | fails with nothing changed exactly when a listed part is not on disk; otherwise answers as a put of the parts joined in list order does, with its new row |
| `Services.BucketService.CreateBucket` | src/core/bucket_service.go:43-82 | rejected exactly for a length outside 3 to 63, a character other than a-z, 0-9, dot or hyphen, or a live bucket of the name; otherwise a new bucket with the given quota, empty and unversioned |
| `Services.BucketService.DeleteBucket` | src/core/bucket_service.go:96-120 | a missing bucket is not found, one with an undeleted object rejected, and every other one marked deleted, all else unchanged |
| `Services.BucketService.UpdateBucketVersioning` | src/core/bucket_service.go:122-130 | only the versioning field of a live bucket changes |
| `Preservation.PutKeepsInv` | src/core/file_service.go:64-192 | a put keeps clock order, row contents, chunk rows, disk agreement, counters, quota and bucket soundness |
| `Preservation.PutDisk` | src/core/file_service.go:109-122 | a put writes its own file's paths, pairwise distinct, with its blobs, and leaves every other path as it was |
| `Preservation.DeleteKeepsInv` | src/core/file_service.go:277-319 | a delete keeps them all |
| `Preservation.DeleteKeepsDisk` | src/core/file_service.go:285-292 | no other live file loses a blob |
| `Preservation.CleanupKeepsInv` | src/core/file_service.go:430-450 | the cleanup job keeps them all, its rows moving from live to cleaned |
| `Preservation.CreateBucketKeepsInv` | src/core/bucket_service.go:48-72 | bucket creation keeps them all, names of live buckets staying distinct |
| `Preservation.DeleteBucketKeepsInv` | src/core/bucket_service.go:102-113 | deletion of an empty bucket leaves no live file without a live bucket |
| `Preservation.VersioningKeepsInv` | src/core/bucket_service.go:122-130 | a versioning update keeps them all |
| `Preservation.UploadPartKeepsInv` | src/core/file_service.go:345-373 | uploading a part disturbs no object |
| `Preservation.RunKeepsInv` | src/core/file_service.go:64-450 | every state of every sequential run from the empty store satisfies the invariant |
| `Views.NewestIsTop` | src/infrastructure/database/repositories.go:335-356 | ordering by creation time finds the top of the key's stack |
| `Views.PutPushes` | src/core/file_service.go:140-163 | a put pushes on its key's stack and leaves every other alone |
| `Views.DeletePops` | src/core/file_service.go:277-296 | a delete pops its key's stack and leaves every other alone |
| `Views.CleanupFilters` | src/core/file_service.go:436-444 | cleanup removes exactly the listed files, wherever they stand |
| `Views.LiveFileReadsBack` | src/infrastructure/database/repositories.go:714-737 | a live file has exactly its recorded number of chunk rows, with strictly ascending indices, each giving the size and checksum of its blob, and every blob is there |
| `Views.GetIsExact` | src/core/file_service.go:194-248 | in a state satisfying the invariant a read answers exactly as the stack and the pipeline prescribe |
| `Views.LostBlobFailsRead` | src/core/file_service.go:216-223 | reads never use the codec to recover: when blobs vanish from disk, exactly the reads of objects with one of them fail, whatever the parity |
| `Views.NothingStoredExactly` | src/core/file_service.go:95-103 | nothing is stored only for an empty object without parity |
| `Views.PutThenGet` | src/core/file_service.go:64-248 | a nonempty object just put is read back as the pipeline gives it until it expires |
| `Views.PutThenDeleteRestores` | src/core/file_service.go:64-319 | put then delete restores every key's stack, the bucket rows with counters, and the disk |
| `Views.CountersAddUp` | src/core/file_service.go:177-179 | in every reachable state recorded bytes and objects are live plus cleaned, and live <= recorded <= quota |
| `Views.ClampsNeverFire` | src/core/file_service.go:298-309 | in every sequential run the deleted amounts are covered by the counters |
| `Views.BucketsStaySound` | src/core/bucket_service.go:48-113 | in every reachable state a live file's bucket is live and live names are distinct |
| `Views.ReadsStayExact` | src/core/file_service.go:194-248 | in every reachable state every read is exact and none misses a blob |
| `Services.NewestExactly` | src/infrastructure/database/repositories.go:335-356 | the lookup finds an undeleted row of bucket and key with the greatest creation time, and none exactly when there is none |
| `Answers.PutExactly` | src/core/file_service.go:140-179 | a put appends one row with bucket, key, size, checksum, time and expiry date of the request, and changes no bucket but its own, by size and one object |
| `Answers.PutStores` | src/core/file_service.go:109-122 | each chunk row added names the path of bucket, file and chunk number, where a blob of the recorded size and checksum is |
| `Answers.QuotaAnswer` | src/core/file_service.go:77-83 | in every run a put is too large exactly above the maximum, and else over quota exactly when the live and cleaned bytes of the bucket plus the object exceed its quota |
| `Answers.DeleteExactly` | src/core/file_service.go:285-309 | a delete marks one row, erases exactly the blobs its chunk rows name, and lowers only its live bucket's counters, to 0 if they fall below |
| `Answers.PutBy` | src/core/file_service.go:140-163 | in every run each row carries bucket, key, time and expiry date of the request that made it |
| `Answers.RemovedWasDue` | src/core/file_service.go:430-444 | in every run a file the cleanup job removes was put with a lifetime, and put time plus lifetime is before the cleanup |
| `Answers.CleanupExactly` | src/infrastructure/database/repositories.go:456-462 | a cleanup that lists fewer than 1000 rows removes an undeleted row if and only if its expiry date is before `now` |
| `Answers.ReadsSurviveCleanup` | src/core/file_service.go:430-444 | in every run a read that answers, at the time of a cleanup or later, answers the same after it |
| `Answers.DeleteBucketExactly` | src/core/bucket_service.go:102-113 | a live bucket can be deleted if and only if no key of it has an object, and is then not found, all others being found as before |
| `Multipart.PartIsLastUpload` | src/core/file_service.go:363-366 | in every run, interleaved with anything, a part holds the bytes of its last upload |
| `Services.JoinsExactly` | src/core/file_service.go:376-384 | joining fails exactly when a listed part is not on disk |
| `Multipart.JoinedIsConcat` | src/core/file_service.go:376-386 | otherwise it concatenates the parts' bytes in list order |
| `Multipart.CompletingGivesBackTheData` | src/core/file_service.go:375-388 | uploading the pieces in any order with any re-uploads, then completing with 1..m, joins to exactly the original data |
| `Multipart.CompletedUploadReadsBack` | src/core/file_service.go:375-388 | the completed object reads back as a plain put of the data would |
| `Interleaving.QuotaHolds` | src/core/file_service.go:81-83 | under every interleaving, bucket creations and deletions among the requests, the recorded size stays within 0 and the quota, in the table and in every snapshot |
| `Interleaving.EachRowRemovedOnce` | src/infrastructure/database/repositories.go:421-434 | each row leaves the live state at most once and exactly one job saw it |
| `Interleaving.OnlyDueAreReaped` | src/core/file_service.go:430-444 | under every interleaving the cleanup job removes only rows whose expiry date has gone by |
| `Interleaving.NothingUnaccounted` | src/core/file_service.go:177-179 | inserted = live + deleted + cleaned, and recorded + lost write-backs + pending puts = live + cleaned + pending deletes |
| `Windows.LossIsStaleness` | src/core/file_service.go:294-309 | a write-back to a live bucket misses exactly the difference between its row and what the job saw of it, so nothing if and only if the counters are equal; on a deleted bucket a job misses the whole change it was meant to make |
| `Windows.ExactIffNothingStale` | src/core/file_service.go:294-309 | at quiescence live + cleaned = recorded + what the requests have missed, so the counter is exact if and only if that adds up to zero |
| `Windows.DiscountFits` | src/core/file_service.go:300-307 | without overlapping windows the row about to be discounted still covers the deleted file |
| `Windows.ExclusiveKeepsExact` | src/core/file_service.go:177-179 | when windows on a bucket never overlap, no write-back to a live bucket loses anything and every open snapshot of one is current |
| `Windows.ExclusiveRunsAreExact` | src/core/file_service.go:177-179 | such a run is exact at quiescence for every live bucket, in bytes and in objects |
| `Quota.QuotaKeptExactly` | src/core/file_service.go:81-83 | in every run, with any overlaps, the live, cleaned and about to be inserted bytes of a bucket stay within its quota if and only if every put that passed the check against the recorded size would have passed it against these bytes too |
| `Quota.InsertsAddUp` | src/core/file_service.go:161-163 | for any set of puts past the check, whatever the counter says: inserting their rows adds exactly their sizes to what is kept, and changes nothing in what is claimed |
| `Quota.ClaimedIsKeptNext` | src/core/file_service.go:161-163 | what is claimed is what is kept once every put past the check has inserted its row |
| `Quota.ExclusiveKeepsQuota` | src/core/file_service.go:81-83 | when windows on a bucket never overlap, its live and cleaned bytes stay within the quota in every state, with any requests in progress |
| `Quota.OverlappingPuts` | src/core/file_service.go:177-179 | a run of two overlapping puts after which the bucket records one byte and holds two, over its quota of one |
| `Soundness.HousedExactly` | src/core/bucket_service.go:102-113 | in every run, live files stay in buckets that are there if and only if each insert would find its bucket again, and each bucket deletion would count no files again, at the moment it takes effect |
| `Soundness.ApartKeepsHoused` | src/core/bucket_service.go:102-113 | they do when no put is ever between its bucket lookup and its insert while a deletion of the bucket is between its count and its effect |
| `Soundness.MeetingUnhouses` | src/core/bucket_service.go:102-113 | wherever such a put and such a deletion meet, letting both take effect, in either order, leaves a live file in a deleted bucket |
| `Soundness.FileInDeletedBucket` | src/core/bucket_service.go:102-113 | a run that does |
| `Soundness.DistinctExactly` | src/core/bucket_service.go:48-72 | in every run from distinct live names, they stay distinct if and only if each creation would find its name free again when it inserts the bucket |
| `Soundness.OneCreatesKeepsDistinct` | src/core/bucket_service.go:48-72 | they do when no two creations of one name are between lookup and insert at once |
| `Soundness.MeetingDoublesName` | src/core/bucket_service.go:48-72 | wherever two such creations meet, letting both insert leaves two live buckets of the name |
| `Soundness.TwoBucketsOfOneName` | src/core/bucket_service.go:48-72 | a run that does |
| `Blobs.DiskStaysExact` | src/core/file_service.go:109-122 | under every interleaving of table and disk statements the disk holds exactly the blobs that puts have stored and no delete, in progress or done, has erased |
| `Blobs.LiveMissesExactly` | src/core/file_service.go:285-296 | a live row misses exactly the chunks that a delete in progress, having found it, has already erased |
| `Blobs.WholeExactly` | src/core/file_service.go:161-169 | a live object can be read whole if and only if its put has recorded its chunk rows and no delete in progress has erased a blob of it |
| `Blobs.UndisturbedIsWhole` | src/core/file_service.go:209-223 | an object with its put done and no delete in progress has all chunk rows and all blobs |
| `Blobs.NothingLeftExactly` | src/core/file_service.go:285-292 | nothing is left on disk of an object with chunks if and only if one delete that saw all its chunk rows has erased them all |
| `Blobs.LeftForGood` | src/core/file_service.go:285-296 | a blob left when the row is gone and no delete is working on it stays on disk in every later state |
| `Blobs.BlobLeftBehind` | src/core/file_service.go:161-169 | a run in which a delete lists a file's chunk rows before its put has recorded them, and leaves its blob behind |
| `Blobs.TablesRun` | src/core/file_service.go:64-319 | a run with blobs does to the tables what some run of the stepwise tables does, so all theorems about those hold of it |
| `Blobs.EveryRunHasBlobs` | src/core/file_service.go:64-319 | every run of the stepwise tables is what some run with blobs does to them |
| `Schedules.OperationIsASchedule` | src/core/file_service.go:64-450 | what an operation, on objects or on buckets, does to the bucket and file tables is what its own request does, statement by statement: it is spawned first, every further step is its own, it finishes, and no other request moves; a rejected operation takes no step |
| `Schedules.RunIsASchedule` | src/core/file_service.go:64-450 | every sequential run from the empty store is a run of the stepwise system that serves its requests one after the other, each alone and to its end |
| `Replication.StartTasks` | src/infrastructure/storage/replication.go:24-61 | nothing starts when the factor or the store count is at most one; otherwise exactly one goroutine for each of the first `factor` stores and each chunk that has data, aimed at the chunk's replica path with its bytes, and a channel for as many errors as stores times chunks |
| `Replication.TargetsAreDistinct` | src/infrastructure/storage/replication.go:46-61 | distinct chunk indices give pairwise distinct targets, no more than the channel holds |
| `Replication.StartedIsWellFormed` | src/infrastructure/storage/replication.go:38-61 | what `StartTasks` returns satisfies the hypothesis of every schedule theorem below, whichever writes succeed |
| `Replication.NoSendBlocks` | src/infrastructure/storage/replication.go:44-58 | in every interleaving an error send finds room, so every unfinished goroutine can move |
| `Replication.WaitReturns` | src/infrastructure/storage/replication.go:50-63 | a schedule has at most two moves a goroutine, and one that cannot continue has finished |
| `Replication.NilExactlyWhenAllSucceed` | src/infrastructure/storage/replication.go:63-78 | nil is returned if and only if every write succeeded, else the error of a failed write |
| `Replication.NilMeansReplicated` | src/infrastructure/storage/replication.go:38-78 | with factor and store count at least two, a nil result means that each of the first `factor` stores holds every chunk that came with data under its replica path |
| `Replication.OtherStoresUntouched` | src/infrastructure/storage/replication.go:24-61 | stores from the factor on never change, nor does any store when the factor or the store count is at most one |
| `Replication.FirstErrorStays` | src/infrastructure/storage/replication.go:68-78 | the error returned is the first one sent, whatever follows |
| `Replication.OthersUntouched` | src/infrastructure/storage/replication.go:52-58 | a location no successful write aims at stays as it was |
| `Replication.FinalStoresAgree` | src/infrastructure/storage/replication.go:46-63 | every interleaving with the same write outcomes reaches the same final stores |

## Left out

- Database and disk failures inside sequential operations; `Interleaving` covers operations that stop halfway, since a job need never advance.
- The replicator call inside put, whose error is only logged (src/core/file_service.go:171-175): the fan-out is modelled on its own in `Replication`.
- The copy loop inside disk writes and `byteReader.Read`, which returns (0, nil) at the end and never EOF: a write takes the whole slice at once, and no termination of the copy is claimed.
- Temporary files, rename, copy fallback and sync in the disk store.
- 64-bit overflow of the bucket counters and of the storage-size product; only the chunk and part offsets are modelled in 64-bit integers, for buffers up to 2^62 bytes.
- Negative shard counts, a chunk size of zero (splitting would not end) and zero data shards with parity (division by zero): outside `Config.Valid`.
- A replicator without stores (an index out of range) and the directory it creates in the single-store branch.
- Aliasing of chunk descriptors between the codec's result and the rows the put fills in: descriptors are values, placed in a new list.
- Owner, region, tags, metadata, content type, storage node, chunk identifiers, update times and audit records.
- Order of the expired listing: the query has a limit and no order, so any permitted listing is allowed.
- In `Interleaving`: the creation-time order of lookups (a lookup may find any live row of the key). In `Blobs`: the bytes of a blob, which no statement changes once written, and reads as jobs of their own, since they change nothing.
- Listings, range reads, policies, roles, metrics, HTTP handlers, and the stubbed upload records (an aborted upload deletes nothing).
- Floating-point ratios of storage efficiency and usage.
- Migrations, JSON columns and SQL text beyond the guards, orderings and affected-row counts.
