/** The upload chunker of `HandlePlainFileUpload` (handlers/api.go): the
    uploaded file is read 5 MiB at a time and every read becomes one
    numbered chunk on the channel to the encrypter.

    The file is the byte sequence `file`. A read hands out
    min(5 MiB, remaining) bytes while bytes remain and then (0, EOF);
    `readFault == Some(j)` says that the j-th read call (counting from 0)
    fails with an error other than EOF instead. */
module Upload {
  import opened Common

  /** 5 MiB, the read buffer. */
  const ChunkSize: nat := 5_242_880
  /** 64 MiB. */
  const SizeLimit: nat := 67_108_864
  /** The number of full chunks after which the running total reaches the
      size limit: ceil(64 MiB / 5 MiB) (see `AcceptedSizes`). */
  const MaxChunks: nat := 13

  /** What the handler renders once it stops reading. */
  datatype Outcome =
    | Accepted(fileUuid: Uuid)   // the encrypted-upload page with the file's id
    | ReadError                  // "Error reading file"
    | TooBig                     // "File is too big. Size limit: 64MB"

  /** How many reads the loop makes when no read fails: one per full chunk
      and a final short (or EOF) read, unless the size limit stops it first. */
  function ReadsMade(size: nat): (r: nat)
    ensures 1 <= r <= MaxChunks
    ensures r == MaxChunks <== size / ChunkSize >= MaxChunks
  {
    if size / ChunkSize < MaxChunks then size / ChunkSize + 1 else MaxChunks
  }

  /** The `i`-th chunk the handler sends for `file`: a copy of the bytes of
      the `i`-th read, numbered from 1, flagged last when the read came back
      short (EOF gives a read of zero bytes, which is short too). */
  function ChunkAt(file: Bytes, filename: string, password: string, fileUuid: Uuid, i: nat): (chunk: FileData)
    requires i < MaxChunks
  {
    var payload := Block(file, i, ChunkSize);
    FileData(filename, password, fileUuid, payload, (i + 1) as int32, |payload| < ChunkSize)
  }

  /** The loop at handlers/api.go:222-246. `sent` lists the chunks pushed on
      the channel, in order; chunks already sent are never withdrawn. */
  method HandlePlainFileUpload(file: Bytes, filename: string, password: string, fileUuid: Uuid,
                               readFault: Option<nat>)
    returns (sent: seq<FileData>, outcome: Outcome)
    ensures outcome.ReadError? <==> readFault.Some? && readFault.value < ReadsMade(|file|)
    ensures outcome.ReadError? ==> |sent| == readFault.value
    ensures !outcome.ReadError? ==> |sent| == ReadsMade(|file|)
    ensures outcome.TooBig? <==> !outcome.ReadError? && |file| / ChunkSize >= MaxChunks
    ensures outcome.Accepted? ==> outcome.fileUuid == fileUuid
    ensures |sent| <= MaxChunks
    ensures forall i :: 0 <= i < |sent| ==> sent[i] == ChunkAt(file, filename, password, fileUuid, i)
  {
    var currentSize := 0;
    var counter: int32 := 1;
    var consumed := 0;
    sent := [];
    while true
      invariant |sent| < MaxChunks
      invariant counter as int == |sent| + 1
      invariant consumed == currentSize == |sent| * ChunkSize <= |file|
      invariant readFault.Some? ==> |sent| <= readFault.value
      invariant forall i :: 0 <= i < |sent| ==> sent[i] == ChunkAt(file, filename, password, fileUuid, i)
      decreases MaxChunks - |sent|
    {
      // file.Read(buffer)
      var n := Min(ChunkSize, |file| - consumed);
      var eof := n == 0;
      ReadsMadeAfter(|file|, |sent|);
      if readFault == Some(|sent|) {
        outcome := ReadError;
        return;
      }
      var data := file[consumed..consumed + n];
      var isLast := eof || n < ChunkSize;
      ReadIsChunk(file, filename, password, fileUuid, |sent|, counter);
      sent := sent + [FileData(filename, password, fileUuid, data, counter, isLast)];
      if isLast {
        LastRead(|file|, |sent| - 1);
        outcome := Accepted(fileUuid);
        return;
      }
      counter := counter + 1;
      currentSize := currentSize + n;
      consumed := consumed + n;
      if currentSize >= SizeLimit {
        ReadsMadeAfter(|file|, |sent|);
        outcome := TooBig;
        return;
      }
    }
  }

  /** The read after k full ones, sent with counter k + 1, is chunk k. */
  lemma ReadIsChunk(file: Bytes, filename: string, password: string, fileUuid: Uuid, k: nat, counter: int32)
    requires k < MaxChunks && k * ChunkSize <= |file| && counter as int == k + 1
    ensures var n := Min(ChunkSize, |file| - k * ChunkSize);
      FileData(filename, password, fileUuid, file[k * ChunkSize..k * ChunkSize + n], counter, n == 0 || n < ChunkSize)
        == ChunkAt(file, filename, password, fileUuid, k)
  {
  }

  /** k full reads fit in the file: then at least k + 1 reads are made
      unless the size limit stops the loop after k. */
  lemma ReadsMadeAfter(size: nat, k: nat)
    requires k * ChunkSize <= size
    ensures size / ChunkSize >= k
    ensures k < MaxChunks ==> k < ReadsMade(size)
  {
  }

  /** A short read after k full ones ends the file at the k-th block. */
  lemma LastRead(size: nat, k: nat)
    requires k * ChunkSize <= size < k * ChunkSize + ChunkSize
    ensures size / ChunkSize == k
  {
  }
  /** Without a read error an accepted upload sends the whole file: the
      payloads of the chunks, in counter order, concatenate to the file. */
  lemma {:induction false} AcceptedCoversFile(file: Bytes)
    requires |file| / ChunkSize < MaxChunks
    ensures Concat(Blocks(file, ReadsMade(|file|), ChunkSize)) == file
  {
    BlocksConcat(file, ReadsMade(|file|), ChunkSize);
    LastReadReachesEnd(|file|);
  }

  lemma LastReadReachesEnd(size: nat)
    requires size / ChunkSize < MaxChunks
    ensures Min(ReadsMade(size) * ChunkSize, size) == size
  {
    var q := size / ChunkSize;
    assert size == q * ChunkSize + size % ChunkSize;
    assert ReadsMade(size) * ChunkSize == q * ChunkSize + ChunkSize;
  }

  /** Without a read error exactly one chunk is flagged last, and it is the
      final one sent; a file stopped by the size limit has no chunk flagged
      last, so its multipart upload is never committed. */
  lemma LastFlagOnFinalChunkOnly(file: Bytes, filename: string, password: string, fileUuid: Uuid, i: nat)
    requires i < ReadsMade(|file|)
    ensures ChunkAt(file, filename, password, fileUuid, i).isLastChunk <==>
      i == ReadsMade(|file|) - 1 && |file| / ChunkSize < MaxChunks
  {
    ReadsMadeBound(|file|, i);
    BlockLength(file, i, ChunkSize);
  }

  lemma ReadsMadeBound(size: nat, i: nat)
    requires i < ReadsMade(size)
    ensures i * ChunkSize <= size
    ensures i * ChunkSize + ChunkSize > size <==> i == ReadsMade(size) - 1 && size / ChunkSize < MaxChunks
  {
  }

  /** The size limit counts only the chunks before the final one: an upload
      is accepted exactly when the file is shorter than 13 full chunks, which
      lets through files of up to 65 MiB - 1 bytes, above the 64 MiB limit. */
  lemma AcceptedSizes(size: nat)
    ensures size / ChunkSize < MaxChunks <==> size < MaxChunks * ChunkSize
    ensures MaxChunks == (SizeLimit + ChunkSize - 1) / ChunkSize
    ensures MaxChunks * ChunkSize - 1 > SizeLimit
  {
  }
}
