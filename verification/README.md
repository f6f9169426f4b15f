# GoEncrypt: a Dafny model of the chunked encryption pipeline

GoEncrypt is a Go web service. It accepts a file upload and reads it in
5 MiB chunks numbered from 1. It encrypts each chunk on its own with a
password (PBKDF2 key, AES-GCM) and stores the encrypted chunks as the parts
of one S3 multipart upload. A registry of open uploads, keyed by the file's
UUID, counts the parts still in flight and commits the upload once the last
chunk's part is done. For a decrypted download, the service asks S3 for the
object's size and cuts the object into ranges of one encrypted chunk
(5 MiB + 44 bytes). It fetches and decrypts the ranges concurrently and
writes the plaintexts to the response strictly in index order through a
reassembly buffer. A second handler decrypts an encrypted file that the
client uploads back and streams the plaintext out.

The model has one module per component:

- `Common`: bytes, Go's `int32`, `Option`/`Result`, and the chunk record
  `FileData` of types/types.go. It also holds `Block`/`Blocks`, which say
  what a reader handing out fixed-size pieces returns.
- `Encryption` (encryption/encryption.go): the blob layout
  `salt(16) ++ nonce(12) ++ Seal(key, nonce, plaintext)`, `Encrypt` and
  `Decrypt`. PBKDF2, cipher construction, Seal and Open are function-valued
  fields of a `Cipher` value. The one assumption about them,
  `Open(k, n, Seal(k, n, p)) == Some(p)` with a 16-byte tag, is the
  predicate `Sound`.
- `Upload` (handlers/api.go, `HandlePlainFileUpload`): the chunking loop.
- `Download` (handlers/api.go, `HandlePlainDownload`): range planning, the
  ranged GET, the `ReassemblyBuffer` class (cursor `next`, map `pending`)
  and the whole handler.
- `DecryptStream` (handlers/api.go, `HandleEncryptedFileUpload`): the
  read/decrypt/write loop, as written and corrected (see Findings).
- `Storage` (aws/aws.go): the session registry `S3Context` as a class over
  a map, part sorting, `HeadFile` and the `Range` header.
- `Pipeline`: how these connect. Every chunk of an accepted upload,
  encrypted and concatenated in part-number order, is cut by the download
  plan into exactly one range per chunk. Each range decrypts to its
  plaintext chunk, and the plaintexts in order are the file.

Every S3 call, read and write is replaced by its result, which the caller
passes in. Read and write errors are given as the index of the failing
call: `readFault` for the reads of the upload and decrypt-upload
handlers, `writeFault` for the response writes of the download and
decrypt-upload handlers. The failing ranged GETs of a download are a set
of indices (`failedGets`). The random bytes are a
`random` parameter; `io.ReadFull` fails when it runs dry.

Where the code and its design description disagree, the model follows the
code:

- The design expects a failed part upload to be reported. The code
  discards the error (aws/aws.go:78), and the session's counter never
  returns to zero.
- The design expects a too-short blob to give a format error. `Decrypt`
  slices without checking and panics.
- The design expects retrieval failures to abort the response. The code
  calls `log.Fatal`, which ends the process (outcome `Fatal`).
- The design describes download ranges clipped to the object size. The code
  requests `[k*L, k*L+L-1]` unclipped, and the ranged GET clips it
  (`RangeGet`).
- The size limit counts only chunks before the final one, so files of up to
  13 × 5 MiB - 1 bytes are accepted (`Upload.AcceptedSizes`).

## Model

| member | source | states |
|---|---|---|
| Common.BlocksAt | handlers/api.go:230-234 | the i-th of the first k fixed-size reads is the i-th block of the input |
| Common.BlocksConcat | handlers/api.go:230-234 | the first k fixed-size reads, each copied out, concatenate to the first k × size bytes of the input (or all of it) |
| Encryption.Encrypt | encryption/encryption.go:13-47 | sends a chunk iff both random reads and the cipher setup succeed; the blob is the salt, then the nonce, then the sealed plaintext; filename, UUID, counter and last flag are copied and the password is cleared; under `Sound` the blob is 44 bytes longer than the plaintext |
| Encryption.Decrypt | encryption/encryption.go:49-73 | fails exactly when the cipher for the key re-derived from the embedded salt cannot be built or Open rejects the part after salt and nonce; a failure carries no plaintext, and a success carries exactly what Open returned |
| Encryption.RoundTrip | encryption/encryption.go:40-67 | under `Sound`, decrypting an `Encrypt` output with the same password returns the original plaintext (same key from the embedded salt, same nonce) |
| Upload.HandlePlainFileUpload | handlers/api.go:213-246 | chunk i is the i-th block of the file with counter i+1, flagged last iff shorter than 5 MiB; the number of chunks sent and the outcome (accepted, read error at read j with j chunks already sent, or too big after 13 full chunks) are given exactly |
| Upload.AcceptedCoversFile | handlers/api.go:230-238 | without a read error, the payloads of an accepted upload concatenate to the whole file |
| Upload.LastFlagOnFinalChunkOnly | handlers/api.go:233-238 | a chunk is flagged last iff it is the final chunk of an accepted upload; an upload stopped by the size limit has no chunk flagged last |
| Upload.AcceptedSizes | handlers/api.go:236-245 | the chunk limit 13 is the ceiling of 64 MiB / 5 MiB; an upload is accepted iff the file is shorter than 13 full chunks, a bound above the 64 MiB limit |
| Download.NumChunksIsCeiling | handlers/api.go:64 | the chunk count is the ceiling of size / (5 MiB + 44): its ranges reach the end of the object and one fewer would not |
| Download.RangesDisjointAndContiguous | handlers/api.go:72-75 | ranges of different chunks do not overlap and each starts right after the previous one ends |
| Download.RangesCoverObject | handlers/api.go:64-75 | every byte of the object lies in exactly one planned range |
| Download.PlanDownload | handlers/api.go:72-83 | one range per chunk index, range k being [k·L, k·L + L - 1] |
| Download.RangeGet | aws/aws.go:202-225 | a ranged GET returns at most the range's length, clipped at the end of the object |
| Download.ReassemblyBuffer.constructor | handlers/api.go:65-85 | the writer starts at index 0 with an empty buffer and nothing written |
| Download.ReassemblyBuffer.Insert | handlers/api.go:102-109 | an arriving chunk is stored under its index; nothing is written |
| Download.ReassemblyBuffer.Poll | handlers/api.go:112-125 | if the cursor's chunk is buffered it is written, removed and the cursor advances; otherwise nothing changes |
| Download.ReassemblyBuffer.Receive | handlers/api.go:102-126 | one arrival followed by the writer's drain: the chunk is recorded as arrived and the cursor moves to the first index that has not arrived yet |
| Download.ReassemblyBuffer.Drain | handlers/api.go:111-126 | the writer advances to the first index not yet arrived, leaving the cursor's entry absent; the output is always the arrived chunks before the cursor in index order |
| Download.Reassemble | handlers/api.go:85-126 | for any arrival order, after each arrival the cursor is the first missing index (so nothing is written before chunk 0 arrives), the output is the chunks before it in index order, and once all chunks arrive the buffer is empty and the output is chunk0 ++ chunk1 ++ … |
| Download.ArrivalOrder201 | handlers/api.go:111-126 | with arrivals 2, 0, 1 nothing is written on the first arrival, chunk 0 on the second, and the output ends as chunk0 ++ chunk1 ++ chunk2 |
| Download.HandlePlainDownload | handlers/api.go:51-127 | a missing object, a failed ranged GET, a blob too short to split, a failed decryption or a failed response write ends the process; otherwise the body is the plaintexts of all ranges in index order, whatever the arrival order |
| DecryptStream.HandleEncryptedFileUpload | handlers/api.go:150-184 | the number of plaintexts written and the outcome are those of `Run` with EOF counted as an error, and the i-th written plaintext is the decryption of the i-th 5 MiB + 44 byte read of the input |
| DecryptStream.HandleEncryptedFileUploadFixed | handlers/api.go:154-184 | the same loop with EOF as normal end: its writes and outcome are those of `Run` with EOF counted as a normal end |
| DecryptStream.RunWrites | handlers/api.go:155-182 | the loop writes a prefix of the input's reads: every one written was read, long enough to split, decrypted and written without error, and every one but the last written was a full read |
| DecryptStream.RunStops | handlers/api.go:155-182 | the loop stops at the first read error, too-short chunk, decryption error or write error, each reported as such; it finishes only after the last read, and as written only when that read was short; with EOF as an error, a read error without a failing read means the input ran out right after a full read or at once |
| DecryptStream.WellFormedRun | handlers/api.go:155-182 | for a valid encrypted input with no I/O error the corrected loop writes every chunk's plaintext and finishes; the loop as written does too, but reports a read error instead when the input length is a multiple of 5 MiB + 44 |
| DecryptStream.EmptyFileIsWellFormed | handlers/api.go:155-160 | the empty file is a valid input of no reads whose length is a multiple of the read size, so the loop as written reports it as a read error |
| DecryptStream.ChunksStep | handlers/api.go:155-157 | a read takes the next min(5 MiB + 44, remaining) bytes, and the rest of the input is read in the same way |
| DecryptStream.ChunkLengths | handlers/api.go:155-157 | every read returns between 1 and 5 MiB + 44 bytes, and every read but the last is full |
| DecryptStream.ChunksConcat | handlers/api.go:155-157 | the reads concatenate back to the whole input |
| DecryptStream.ChunkCount | handlers/api.go:155-157 | there are ceiling(size / (5 MiB + 44)) reads |
| DecryptStream.ChunksAreBlocks | handlers/api.go:155-157 | the i-th read is the i-th fixed-size block of the input |
| DecryptStream.LastChunkFull | handlers/api.go:155-160 | the last read is full (or there is none) iff the input length is a multiple of 5 MiB + 44 |
| Storage.SortParts | aws/aws.go:140-142 | the parts in ascending part-number order, a permutation of the input |
| Storage.DenseAfterSort | aws/aws.go:140-155 | strictly ascending part numbers, k of them, all in 1..k, are exactly 1, 2, …, k: the list S3 needs at commit |
| Storage.CompletionOrderNumbering | aws/aws.go:78 | parts of chunks 1..k, each completed once in any order and numbered with its chunk's counter, carry the numbers 1..k once each |
| Storage.CommitListIsDense | aws/aws.go:140-155 | sorting parts numbered 1..k once each, completed in any order, gives parts numbered 1, 2, …, k in that order |
| Storage.CommitOrder312 | aws/aws.go:140-155 | parts 3, 1 and 2 completing in that order are committed as 1, 2, 3 with their own ETags |
| Storage.HeadFile | aws/aws.go:185-200 | the content length and no error when the object exists, -1 and an error otherwise |
| Storage.RangeHeaderRoundTrip | aws/aws.go:204 | the header `bytes=start-end` reads back as exactly the requested range |
| Storage.ParseDigitRange | aws/aws.go:204 | two digit strings joined by a dash read back as those two numbers |
| Storage.S3Context.constructor | aws/aws.go:45-46 | the registry starts empty |
| Storage.S3Context.UploadPart | aws/aws.go:49-76 | an existing session is reused with one more outstanding part; a missing one is created from the upload id with no parts and one outstanding; if initiation fails nothing changes and no upload starts |
| Storage.S3Context.PartDone | aws/aws.go:108-133 | for the chunk's file, a successful part upload appends exactly one part with S3's ETag and the chunk's counter as part number, and decrements the outstanding count; a failed one returns an error and changes no session; no other session changes |
| Storage.S3Context.TryCommit | aws/aws.go:80-92 | only the chunk flagged last commits, and only when nothing is outstanding, so never after a failed part; the parts are sorted in place and the sorted permutation is sent, which is parts 1, 2, …, k when the session holds each of 1..k once; success evicts the session, failure keeps it |
| Pipeline.ObjectSplitsIntoBlobs | handlers/api.go:56-75 | full-length blobs followed by a shorter non-empty one are planned into one range per blob, and range k returns blob k |
| Pipeline.EncryptedPartLengths | handlers/api.go:56 | an encrypted full chunk is exactly 5 MiB + 44 bytes and the final one is shorter but not empty |
| Pipeline.PartsAreBlobs | handlers/api.go:56-75 | the encrypted parts of an accepted upload are all one download range long except the last, which is shorter and not empty |
| Pipeline.PartsDecrypt | encryption/encryption.go:40-67 | each encrypted part decrypts with the upload's password to its plaintext chunk |
| Pipeline.EndToEnd | handlers/api.go:64-97 | the object stored from an accepted upload is planned into one range per chunk, and range k decrypts with the upload's password to chunk k's plaintext |
| Pipeline.CommitListsEveryChunkInOrder | aws/aws.go:78-92 | if the session holds one completed part per chunk of an accepted upload when the last chunk commits, then whatever order they completed in, the commit lists them as part 1, 2, …, k, part i carrying chunk i's counter |
| Pipeline.StoredLengthNotMultiple | handlers/api.go:56-75 | the object stored for an accepted upload is never a whole number of 5 MiB + 44 byte ranges long |
| Pipeline.PlaintextsAre | handlers/api.go:85-126 | an object whose k-th range decrypts to block k, one range per block, yields exactly those blocks as plaintexts, in index order |
| Pipeline.DownloadReturnsFile | handlers/api.go:103-126 | the plaintexts of all ranges of that object, in index order, are the uploaded file |

## Left out

- main.go: router setup, the server goroutine and the `select` loop that
  connects the channels are wiring and concurrency. The files api.go,
  aws.go and encryption.go at the repository root are older copies that are
  not part of the built program.
- Concurrency: goroutines, `sync.Mutex`, `sync.WaitGroup` and channels. Each
  locked section is one atomic step, and the WaitGroup is the counter
  `outstanding`. Interleavings are not modelled, nor are the unlocked map
  reads at aws/aws.go:78 and 82. Blocking in `wg.Wait()` is the status
  `Waiting`.
- Download.ReassemblyBuffer.Drain: only the schedule in which the writer
  drains after each arrival is modelled. The busy-waiting writer loop may
  run at other moments.
- Aliasing: `*UploadInfo` is shared between goroutines in the source. The
  model keeps the sessions as values in the map, so updates through a stale
  pointer are not modelled.
- Storage.S3Context.PartDone: requires that the session has a part upload
  in flight. `wg.Done()` without a matching `Add` panics, and that case is
  not modelled.
- Storage.S3Context.TryCommit: the outstanding count covers only the part
  uploads already handed to `UploadPart` (`wg.Add(1)` at aws/aws.go:76,
  `wg.Wait()` at line 81). The encrypting and uploading goroutines of the
  chunks race, so a short last chunk can be counted, uploaded and committed
  before an earlier chunk is counted. The model's `TryCommit` permits that
  early commit, which lists only the parts present; the dense 1..k list is
  promised only when the session holds every chunk's part, and that the
  session does so at commit time is not proved.
- Storage.S3Context.TryCommit: requires the session to exist. The source
  would dereference a nil `*UploadInfo` otherwise.
- Cryptography: PBKDF2 (RFC 8018 section 5.2), AES and GCM (NIST SP 800-38D)
  are uninterpreted fields of `Cipher`. Tamper detection, rejection of a
  wrong password and distinct salts or nonces per call are cryptographic or
  probabilistic properties, not modelled. The string-to-bytes conversion of
  the password is left out; the password stays a string.
- DecryptStream.HandleEncryptedFileUpload: a read shorter than a salt and a
  nonce is reported as `Panicked` before the cipher is set up, while the
  source sets up the cipher first (encryption/encryption.go:54-62) and
  slices at line 65. The two agree for the real program, because PBKDF2
  there yields a 32-byte key, which AES always accepts; `Cipher` leaves
  cipher setup unconstrained, so for a model cipher whose setup fails the
  model reports `Panicked` where the source would report a decryption error.
- Encryption.Decrypt: blobs shorter than a salt and a nonce are excluded by
  its precondition, because the source panics on them. Its callers model
  that case as `Panicked` or `Fatal`.
- `uuid.New()` and `FileUUID.String()`: the UUID is a parameter and is
  already in its text form.
- `math.Ceil` on float64 at handlers/api.go:64 is integer ceiling division.
  The two agree for object sizes below 2^53.
- Sizes and offsets are unbounded naturals rather than `int64`. The chunk
  counter is an `int32`. The model proves that at most 13 reads are made
  and that no chunk is sent with a counter above 13; the counter variable
  itself reaches 14 just before the too-big return.
- HTTP and views: `HandleHome`, `HandleEncryptedDownload`, `GetPresignedUrl`
  and `presignedGetRequest` are left out. `GetPresignedUrl` is a thin
  wrapper that dereferences the request even on error. Also left out:
  method checks, multipart form parsing, rendering, the bodies written by
  `http.Error`, flushing and logging.
- Download.HandlePlainDownload: `log.Fatal` stops the process, so what was
  streamed before it is not modelled. The ranged GETs run concurrently and
  their failures are a set of indices rather than an order of events.
- `startMultipartUpload`, `UploadPart`, `CompleteMultipartUpload`,
  `HeadObject` and `GetObject` of the S3 SDK are replaced by their results.
  S3 itself, which stores the parts in part-number order, is not modelled
  beyond `RangeGet`.

## Findings

| source | as written | input that shows it | evidently intended | confidence | as-written member | corrected member |
|---|---|---|---|---|---|---|
| handlers/api.go:157-160 | every non-nil read error ends the loop as "Error reading file bytes", EOF included, so the `errorReadBytes == io.EOF` test at line 176 can never hold | a valid encrypted file whose length is a multiple of 5 MiB + 44, e.g. the empty file (`EmptyFileIsWellFormed`) or one full chunk: all plaintext is written, then the final (0, EOF) read is reported as an error (`WellFormedRun`); an object this service stores is never such a file (`Pipeline.StoredLengthNotMultiple`), so only the empty file or a hand-assembled input shows it | EOF ends the loop normally | high; not executed | DecryptStream.HandleEncryptedFileUpload | DecryptStream.HandleEncryptedFileUploadFixed |
