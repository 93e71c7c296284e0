# go-downloader: a verified model of the chunked downloader

This project models the core of `go-downloader`, a tool that downloads a remote
file in parallel byte-range chunks and stitches the chunks back together on
the local disk. Two components are modelled:

- **The downloader** (`pkg/downloader/downloader.go`):
  - `HttpDownloader.GetFileSize` probes the size with a `Range: bytes=0-0`
    request and reads the total that follows the `/` in the `Content-Range`
    header with `strconv.Atoi`.
  - `calculateChunkSize` picks the larger of 1 MiB and a tenth of the size.
  - `numChunks` is the ceiling of size over chunk size.
  - `Service.DownloadFile` has two phases:
    - The fetch phase runs one task per chunk. Each task asks for that chunk's
      inclusive range and saves the bytes as the artifact `<path>.part<i>`.
      An error slot keeps the first error any task reports.
    - When every task succeeded, a reassembly loop goes through the artifacts
      in order. It reads each one, appends it to `path`, and deletes it.
- **The store** (`pkg/storage/storage.go`):
  - `LocalStorage.Save` opens its path with `O_APPEND|O_CREATE`, so it
    creates an absent file and appends to an existing one.
  - `Read` reads the whole file.
  - `Delete` removes it.

The model has five modules:

- `Base`: bytes, errors, `Result`, `Outcome`.
- `GoText`: `strings.Split`, `strconv.Atoi`, and `%d` rendering.
- `Chunking`: the chunk size, the chunk count, and the byte ranges, with Go's
  truncating division written out.
- `Storage`: the store as a map from path to bytes, and the `LocalStorage`
  class whose methods update it.
- `Downloader`: the repository as an oracle datatype, the pure step
  functions `FetchStep`, `FetchPhase`, `ReassembleStep`, `Reassembly` and
  `Download`, and the `Service` class. Each `Service` method is proved to
  leave exactly the store the matching function describes.

A further module, `DownloadProperties`, proves the properties of the whole
download from those functions.

Where the design intent and the code differ, the model follows the code:

- `Save` appends rather than truncates. A leftover artifact from an earlier
  run is therefore prefixed to the fresh chunk (`LeftoverPartCorruptsDownload`).
  Running reassembly a second time fails (`SecondReassemblyFails`).
- A signed total such as `bytes 0-0/-5` is accepted as a size of -5.
  Negative sizes are planned with Go's truncating arithmetic
  (`NegativeSizePlan`).
- A size of 0 plans no chunk, so the download succeeds without creating
  `path`.
- Artifacts of tasks that succeeded are left behind when another task fails.

## Model

| member | source | states |
|---|---|---|
| GoText.Split | pkg/downloader/downloader.go:39 | the pieces are separator-free, there is at least one, and joining them with the separator gives back the input |
| GoText.SplitAfterPiece | pkg/downloader/downloader.go:39 | splitting a separator-free piece, a separator and more text gives the piece followed by the split of the rest |
| GoText.SplitOfJoin | pkg/downloader/downloader.go:39-40 | splitting a join of separator-free pieces gives back exactly those pieces |
| GoText.DecimalString | pkg/downloader/downloader.go:113 | the `%d` rendering of a non-negative number is a non-empty run of digits that reads back as the number, with no leading zero unless the number is 0 |
| GoText.FormatIntExamples | pkg/downloader/downloader.go:113 | renderings of 1234, -5 and 0 |
| GoText.Atoi | pkg/downloader/downloader.go:43 | the text is accepted exactly when it is an optional sign followed by one or more digits whose signed value lies in the 64-bit range, and the value is that signed value; every failure is a syntax or range error naming the whole text |
| GoText.AtoiOverflowComesFirst | pkg/downloader/downloader.go:43 | leading digits whose value exceeds 2^64-1 give a range error whatever follows them, because digits are read before the rest is looked at |
| GoText.AtoiRejectsTrailingText | pkg/downloader/downloader.go:43 | digits that fit in 64 bits followed by a non-digit give a syntax error |
| GoText.AtoiSyntaxExamples | pkg/downloader/downloader.go:43 | `12x`, the empty text and a lone `+` are syntax errors |
| GoText.AtoiOverflowExample | pkg/downloader/downloader.go:43 | 2^64 followed by `x` is a range error, not a syntax error |
| GoText.AtoiOfFormatInt | pkg/downloader/downloader.go:43 | Atoi reads back the rendering of every 64-bit integer |
| GoText.AtoiAcceptsNegative | pkg/downloader/downloader.go:43 | a leading minus sign is accepted, so negative values get through |
| Chunking.Quot | pkg/downloader/downloader.go:166 | Go's truncating `/` for a positive divisor; its meaning is stated by QuotRem |
| Chunking.Rem | pkg/downloader/downloader.go:167 | Go's truncating `%` for a positive divisor; its meaning is stated by QuotRem |
| Chunking.QuotRem | pkg/downloader/downloader.go:166-167 | Go's truncating `/` and `%`: dividend = quotient * divisor + remainder, the quotient rounds toward zero, and the remainder has the dividend's sign and is smaller than the divisor |
| Chunking.ChunkSize | pkg/downloader/downloader.go:153-163 | the chunk size is at least 1 MiB and at least a tenth of the size, and it equals one of the two |
| Chunking.NumChunks | pkg/downloader/downloader.go:165-171 | `numChunks`: the truncated quotient, plus one when the truncated remainder is not 0; its meaning is stated by NumChunksIsCeiling and AtMostElevenChunks |
| Chunking.NumChunksIsCeiling | pkg/downloader/downloader.go:165-171 | the chunk count is 0 for size 0; for a positive size it is the least n with size <= n * chunkSize; for a negative size it is 1 when size > -chunkSize and at most 0 otherwise |
| Chunking.Iterations | pkg/downloader/downloader.go:96 | the loop runs numChunks times, or not at all when numChunks is negative |
| Chunking.ChunkRange | pkg/downloader/downloader.go:100-104 | the inclusive range of chunk i; its meaning is stated by ChunkInsideFile, ChunksInOrder, OwnerHoldsByte and RangesTile |
| Chunking.ChunkInsideFile | pkg/downloader/downloader.go:100-104 | for a non-negative size, each planned chunk's range is non-empty, lies inside the file and starts at i * chunkSize |
| Chunking.ChunksInOrder | pkg/downloader/downloader.go:100-104 | an earlier chunk's range ends before a later chunk's range begins |
| Chunking.OwnerHoldsByte | pkg/downloader/downloader.go:100-104 | every byte of the file lies in the range of the chunk b / chunkSize |
| Chunking.RangesTile | pkg/downloader/downloader.go:96-104 | there is one range per chunk, each inside the file; consecutive ranges touch; the first starts at 0 and the last ends at size - 1 |
| Chunking.RangesDisjoint | pkg/downloader/downloader.go:96-104 | no two chunk ranges overlap |
| Chunking.RangesCoverFile | pkg/downloader/downloader.go:96-104 | every byte of the file is in some chunk range |
| Chunking.PlanIsContiguous | pkg/downloader/downloader.go:92-104 | the plan is non-empty exactly when the size is positive; its ranges lie inside the file, run from 0 to size - 1, and are contiguous |
| Chunking.NegativeSizePlan | pkg/downloader/downloader.go:96-104 | a negative size above -1 MiB plans one chunk whose end lies before its start; a lower one plans none |
| Chunking.SmallFileSingleChunk | pkg/downloader/downloader.go:153-171 | a file of at most 1 MiB is one chunk covering the whole file |
| Chunking.EmptyFileNoChunks | pkg/downloader/downloader.go:165-171 | a size of 0 plans no chunk |
| Chunking.TenMiBPlan | pkg/downloader/downloader.go:153-171 | a 10 MiB file is ten 1 MiB chunks |
| Chunking.AtMostElevenChunks | pkg/downloader/downloader.go:153-171 | no file needs more than eleven chunks; it needs eleven exactly when it is at least 10 MiB and its size is not a multiple of 10 |
| Chunking.TwentyFiveBytesByTen | pkg/downloader/downloader.go:96-104 | 25 bytes in chunks of 10 gives the ranges 0-9, 10-19 and 20-24 |
| Storage.Appended | pkg/storage/storage.go:14-20 | after a write the path holds its old content followed by the data (just the data when it was absent), and no other path changes |
| Storage.AfterSave | pkg/storage/storage.go:13-21 | Save succeeds exactly when the path can be opened for writing; a failure is a permission error that changes nothing; a success appends |
| Storage.Lookup | pkg/storage/storage.go:24-26 | Read succeeds exactly when the path exists and returns its whole content; otherwise it returns a not-found error |
| Storage.AfterDelete | pkg/storage/storage.go:28-30 | Delete succeeds exactly when the path exists; afterwards the path is absent and no other path changes |
| Storage.AppendsConcatenate | pkg/storage/storage.go:14-20 | saving a then b to one path is saving a + b |
| Storage.AppendsCommute | pkg/storage/storage.go:13-21 | saves to two different paths commute |
| Storage.SaveTwiceDuplicates | pkg/storage/storage.go:14 | saving the same non-empty data twice leaves it in the file twice, so Save is not idempotent |
| Storage.LocalStorage.constructor | pkg/storage/storage.go:9-11 | a store over the given files, with the given unwritable paths |
| Storage.LocalStorage.Save | pkg/storage/storage.go:13-21 | the returned error and the new files are those of AfterSave |
| Storage.LocalStorage.Read | pkg/storage/storage.go:24-26 | returns the content exactly when the path exists, and a not-found error otherwise |
| Storage.LocalStorage.Delete | pkg/storage/storage.go:28-30 | the returned error and the new files are those of AfterDelete |
| Downloader.HttpDownloader.GetFileSize | pkg/downloader/downloader.go:24-49 | a failed exchange returns its error unchanged; otherwise every error is a malformed-header, syntax or range error, and a size lies in the 64-bit range |
| Downloader.HttpDownloader.DownloadChunk | pkg/downloader/downloader.go:51-70 | the body the server sends for the inclusive range, or the exchange's error; what such a body means is stated by HonestServerChunks |
| Downloader.ParseContentRangeTotal | pkg/downloader/downloader.go:38-46 | the header is rejected as malformed exactly when it has no `/`; any other error is a syntax or range error; an accepted total lies in the 64-bit range; ParseTotalReadsSecondField states which text is read |
| Downloader.PartPath | pkg/downloader/downloader.go:113 | the artifact name `<path>.part<i>`; PartPathsDistinct and PartsAreNotBelow state that the names never collide |
| Downloader.PartPathsDistinct | pkg/downloader/downloader.go:113 | artifact names differ from the destination and from each other |
| Downloader.Report | pkg/downloader/downloader.go:107-110 | the error slot keeps the first error it receives and ignores later ones |
| Downloader.FetchStep | pkg/downloader/downloader.go:98-122 | one fetch task; its meaning is stated by FetchStepStatus and FetchStepFiles |
| Downloader.FetchPhase | pkg/downloader/downloader.go:95-132 | all fetch tasks with the first-error slot; its meaning is stated by FetchPhaseSucceedsExactlyWhen, FetchPhaseFillsParts, FetchPhaseReportsFirstFailure, FetchPhaseKeepsOthers and FetchPhaseAnyOrder |
| Downloader.ReassembleStep | pkg/downloader/downloader.go:135-147 | one read-append-delete step; its meaning is stated by ReassembleStepMovesPart |
| Downloader.Reassembly | pkg/downloader/downloader.go:134-148 | the reassembly loop; its meaning is stated by ReassemblyStops, ReassemblyFailsAt, ReassemblyMovesParts, ReassemblyAppendsParts and ReassemblyAbortsAtMissingPart |
| Downloader.Download | pkg/downloader/downloader.go:87-151 | the whole download; its meaning is stated by DownloadSucceedsExactlyWhen, DownloadAssemblesChunks, DownloadReportsFirstFailure and DownloadReproducesRemoteFile |
| Downloader.ReassemblyStops | pkg/downloader/downloader.go:134-148 | once a reassembly step fails, later iterations change neither the error nor the files |
| Downloader.ReassemblyFailsAt | pkg/downloader/downloader.go:134-148 | the first failing reassembly step determines the outcome of the whole loop |
| Downloader.Service.constructor | pkg/downloader/downloader.go:83-85 | a service wired to the given repository and store |
| Downloader.Service.DownloadFile | pkg/downloader/downloader.go:87-151 | the returned error and the new store are those of Download |
| Downloader.Service.FetchParts | pkg/downloader/downloader.go:92-132 | the loop's first error and the new store are those of FetchPhase over all planned chunks |
| Downloader.Service.FetchTask | pkg/downloader/downloader.go:98-122 | the task's error and the new store are those of FetchStep for chunk i |
| Downloader.Service.Reassemble | pkg/downloader/downloader.go:134-150 | the returned error and the new store are those of Reassembly over all planned chunks |
| Downloader.Service.MovePart | pkg/downloader/downloader.go:135-147 | the step's error and the new store are those of ReassembleStep for artifact i |
| DownloadProperties.PartsAreNotBelow | pkg/downloader/downloader.go:113 | neither the destination nor a later chunk's artifact is one of the first j artifacts |
| DownloadProperties.FetchPhaseKeepsOthers | pkg/downloader/downloader.go:96-123 | the fetch phase touches no path other than the artifacts of planned chunks, so it never touches the destination |
| DownloadProperties.FetchPhaseSucceedsExactlyWhen | pkg/downloader/downloader.go:96-132 | the fetch phase reports no error exactly when every task got its chunk and could save it |
| DownloadProperties.FetchStepStatus | pkg/downloader/downloader.go:105-121 | a task reports success exactly when its request succeeded and its artifact was writable; otherwise it reports the error of the failing call |
| DownloadProperties.FetchStepFiles | pkg/downloader/downloader.go:105-121 | a task that succeeds appends its chunk to its artifact; a task that fails leaves the store unchanged |
| DownloadProperties.FetchPhaseFillsParts | pkg/downloader/downloader.go:96-123 | after the fetch phase, each succeeded task's artifact holds its prior content followed by the chunk, and each failed task's artifact is as before |
| DownloadProperties.FetchPhaseReportsFirstFailure | pkg/downloader/downloader.go:95-132 | the error returned is the error of the lowest-numbered failing task |
| DownloadProperties.FetchPhaseWritesParts | pkg/downloader/downloader.go:96-132 | success exactly when all tasks succeed; then every artifact holds its chunk; nothing outside the artifacts changes |
| DownloadProperties.FetchTasksCommute | pkg/downloader/downloader.go:98-122 | two tasks of different chunks give the same store in either order, whether each succeeds or fails |
| DownloadProperties.SwapNeighbouringTasks | pkg/downloader/downloader.go:96-123 | exchanging two neighbouring, different tasks in any order of execution leaves the store unchanged |
| DownloadProperties.MoveTaskToEnd | pkg/downloader/downloader.go:96-123 | moving a task that does not occur later in the order to the end leaves the store unchanged |
| DownloadProperties.FetchPhaseAnyOrder | pkg/downloader/downloader.go:96-123 | running the tasks of chunks 0 .. k-1 in any permutation gives the store of the fetch phase |
| DownloadProperties.MovedKeepsOthers | pkg/downloader/downloader.go:134-148 | moving artifacts into the destination changes no other path |
| DownloadProperties.MovedRemovesParts | pkg/downloader/downloader.go:134-148 | every moved artifact is gone afterwards |
| DownloadProperties.MovedAppendsParts | pkg/downloader/downloader.go:134-148 | the destination ends up as its old content followed by the moved artifacts in order |
| DownloadProperties.ReassembleStepMovesPart | pkg/downloader/downloader.go:135-147 | with the artifact present and the destination writable, a step appends the artifact to the destination and deletes the artifact |
| DownloadProperties.ReassemblyMovesParts | pkg/downloader/downloader.go:134-148 | when all artifacts are present and the destination is writable, the loop succeeds and performs those moves |
| DownloadProperties.ReassemblyAppendsParts | pkg/downloader/downloader.go:134-148 | the loop then succeeds; the destination holds its old content followed by the artifacts in order; no artifact is left; no other path changes |
| DownloadProperties.ReassemblyAbortsAtMissingPart | pkg/downloader/downloader.go:136-139 | the loop stops at the first missing artifact with a not-found error naming it, and leaves the state after the earlier steps |
| DownloadProperties.ReassemblyBlockedDestination | pkg/downloader/downloader.go:140-143 | an unwritable destination stops the loop at the first step with a permission error, changing nothing |
| DownloadProperties.SecondReassemblyFails | pkg/downloader/downloader.go:134-148 | reassembling again fails on the first artifact, which the first run deleted |
| DownloadProperties.DownloadFailsOnSize | pkg/downloader/downloader.go:88-91 | a failed size probe returns its error and leaves the store unchanged |
| DownloadProperties.EmptyFileDownloadWritesNothing | pkg/downloader/downloader.go:87-150 | a size of 0 succeeds without changing the store |
| DownloadProperties.DownloadSucceedsExactlyWhen | pkg/downloader/downloader.go:87-150 | after a good size probe, the download succeeds exactly when every task succeeds and the destination is writable or there are no chunks |
| DownloadProperties.FailedFetchKeepsDestination | pkg/downloader/downloader.go:105-132 | if any task fails, the download fails; neither the destination nor any other non-artifact path changes |
| DownloadProperties.DownloadReportsFirstFailure | pkg/downloader/downloader.go:95-132 | the download returns the error of the lowest-numbered failing task, and the artifacts of succeeded tasks stay behind holding their chunks |
| DownloadProperties.DownloadAssemblesChunks | pkg/downloader/downloader.go:87-150 | a successful download leaves the destination as its old content followed by the fetched artifacts in order; no artifact remains; no other path changes |
| DownloadProperties.ReassemblyOfFetchedParts | pkg/downloader/downloader.go:134-148 | reassembling a fetched store appends the artifacts in order, deletes them, and changes nothing else |
| DownloadProperties.DownloadAppendsChunksInOrder | pkg/downloader/downloader.go:87-150 | with no stale artifacts, a successful download appends the chunks the server sent, in chunk order |
| DownloadProperties.LeftoverPartCorruptsDownload | pkg/downloader/downloader.go:113-114 | a stale artifact from an earlier run is prefixed to the fresh chunk, because Save appends |
| DownloadProperties.ConcatOfPlanSlices | pkg/downloader/downloader.go:96-104 | cutting a file along the planned ranges and concatenating the pieces gives back the file |
| DownloadProperties.HonestServerChunks | pkg/downloader/downloader.go:100-105 | a server that answers every range with those bytes of the file gives exactly the planned slices |
| DownloadProperties.DownloadReproducesRemoteFile | pkg/downloader/downloader.go:87-150 | against such a server, with no stale artifacts and writable paths, the download succeeds and appends exactly the remote file to the destination |
| DownloadProperties.ParseTotalReadsSecondField | pkg/downloader/downloader.go:38-46 | for a header `prefix/total` or `prefix/total/rest` whose prefix and total hold no `/`, the result is Atoi of the total |
| DownloadProperties.ParseTotalOfWellFormedHeader | pkg/downloader/downloader.go:38-46 | the total after the only `/` of a header is read back as the number written there |
| DownloadProperties.ParseTotalReadsTotal | pkg/downloader/downloader.go:38-46 | `bytes 0-0/1234` gives 1234 |
| DownloadProperties.ParseTotalAcceptsNegative | pkg/downloader/downloader.go:38-46 | `bytes 0-0/-5` gives -5 |
| DownloadProperties.ParseTotalRejectsUnknownOrMissing | pkg/downloader/downloader.go:38-46 | `bytes 0-0/*` is a syntax error and an absent header is a malformed-header error |

## Left out

- HTTP transport (pkg/downloader/downloader.go:24-37, 51-70): building and sending requests and reading bodies are the oracles `contentRange` and `body` of `HttpDownloader`. The code does not check the status code, so the model does not either; whatever the server sends is the chunk.
- Concurrency: the goroutines, the `WaitGroup` and the closing goroutine are not modelled. Tasks run one after another in index order; `FetchPhaseAnyOrder` shows that running them one after another in any order gives the same store. Tasks that overlap in time are not modelled, which is sound here because each task writes only its own artifact.
- Downloader.Service.FetchParts: the code keeps the error whose task sent it first, and that depends on scheduling. The model keeps the error of the lowest-numbered failing task.
- Downloader.Service.DownloadFile: the code returns the first error without waiting for the other tasks. The model's store is the one after all tasks finished.
- File system details: short writes, `file.Write` errors after a successful open, ignored `Close` errors, read or delete failures other than a missing path, and durability. A refusal to open a path for writing is the fixed set `unwritable`.
- Integer width: the model does not track 64-bit wrap-around. `i * chunkSize` never exceeds the size. `(i + 1) * chunkSize` can exceed the 64-bit range only for the last chunk of a size near the 64-bit maximum, and the code then replaces that value with `size - 1`.
- The `FileRepository` and `Storage` interfaces (pkg/downloader/downloader.go:13-16, 72-76) are fixed to their only implementations, `HttpDownloader` and `LocalStorage`. `NewHttpDownloader` and `NewLocalStorage` take no arguments and hold no state, so they need no model of their own.
- cmd/go-downloader/main.go, the command-line entry point, is not part of this model.
