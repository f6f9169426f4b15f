/** How the pieces fit together. The upload handler cuts the file into
    chunks numbered 1..k, each chunk is encrypted on its own, each encrypted
    chunk becomes the multipart part with the chunk's counter as part
    number, and the commit lists the parts in part-number order, so the
    stored object is the concatenation of the encrypted chunks in counter
    order. The download handler cuts that object into ranges of
    5 MiB + 44 bytes; each range is exactly one encrypted chunk, so each
    decrypts on its own to the plaintext chunk it came from. */
module Pipeline {
  import opened Common
  import opened Encryption
  import Upload
  import Download
  import Storage

  /** The encrypted payloads of the chunks an accepted upload sends, in
      counter order: `randoms[i]` is what `crypto/rand` gave the encryption
      of chunk i. */
  ghost function EncryptedParts(file: Bytes, filename: string, password: string, fileUuid: Uuid,
                                c: Cipher, randoms: seq<Bytes>): (parts: seq<Bytes>)
    requires |randoms| <= Upload.MaxChunks
    requires forall i :: 0 <= i < |randoms| ==>
      Encrypt(Upload.ChunkAt(file, filename, password, fileUuid, i), c, randoms[i]).Some?
    ensures |parts| == |randoms|
  {
    seq(|randoms|, i requires 0 <= i < |randoms| =>
      Encrypt(Upload.ChunkAt(file, filename, password, fileUuid, i), c, randoms[i]).value.bytes)
  }

  /** Concatenating blobs of exactly one download range each gives an object
      whose k-th range is the k-th blob. */
  lemma {:induction false} FullBlobsConcat(blobs: seq<Bytes>)
    requires forall i :: 0 <= i < |blobs| ==> |blobs[i]| == Download.ChunkLength
    ensures |Concat(blobs)| == |blobs| * Download.ChunkLength
    ensures forall k :: 0 <= k < |blobs| ==>
      Concat(blobs)[k * Download.ChunkLength..k * Download.ChunkLength + Download.ChunkLength] == blobs[k]
  {
    if blobs != [] {
      var n := |blobs|;
      var init := blobs[..n - 1];
      FullBlobsConcat(init);
      var whole := Concat(blobs);
      assert whole == Concat(init) + blobs[n - 1];
      forall k | 0 <= k < n
        ensures whole[k * Download.ChunkLength..k * Download.ChunkLength + Download.ChunkLength] == blobs[k]
      {
        if k < n - 1 {
          assert whole[k * Download.ChunkLength..k * Download.ChunkLength + Download.ChunkLength]
              == Concat(init)[k * Download.ChunkLength..k * Download.ChunkLength + Download.ChunkLength];
        }
      }
    }
  }

  /** Full blobs followed by one shorter, non-empty blob: the download plan
      of their concatenation has one range per blob, and range k returns
      blob k. */
  lemma ObjectSplitsIntoBlobs(blobs: seq<Bytes>)
    requires |blobs| > 0
    requires forall i :: 0 <= i < |blobs| - 1 ==> |blobs[i]| == Download.ChunkLength
    requires 0 < |blobs[|blobs| - 1]| < Download.ChunkLength
    ensures Download.NumChunks(|Concat(blobs)|) == |blobs|
    ensures forall k :: 0 <= k < |blobs| ==>
      Download.RangeGet(Concat(blobs), Download.RangeOf(k)) == blobs[k]
  {
    var n := |blobs|;
    var init := blobs[..n - 1];
    FullBlobsConcat(init);
    var whole := Concat(blobs);
    assert whole == Concat(init) + blobs[n - 1];
    var prefix := (n - 1) * Download.ChunkLength;
    assert |whole| == prefix + |blobs[n - 1]|;
    LastRange(n - 1, |blobs[n - 1]|);
    forall k | 0 <= k < n
      ensures Download.RangeGet(whole, Download.RangeOf(k)) == blobs[k]
    {
      var start := k * Download.ChunkLength;
      if k < n - 1 {
        EarlierRange(k, n - 1);
        assert Download.RangeGet(whole, Download.RangeOf(k)) == whole[start..start + Download.ChunkLength];
        assert whole[start..start + Download.ChunkLength] == Concat(init)[start..start + Download.ChunkLength];
      } else {
        assert Download.RangeGet(whole, Download.RangeOf(k)) == whole[prefix..];
      }
    }
  }

  lemma EarlierRange(k: nat, m: nat)
    requires k < m
    ensures k * Download.ChunkLength + Download.ChunkLength <= m * Download.ChunkLength
  {
  }

  lemma LastRange(m: nat, tail: nat)
    requires 0 < tail < Download.ChunkLength
    ensures Download.NumChunks(m * Download.ChunkLength + tail) == m + 1
    ensures m * Download.ChunkLength + Download.ChunkLength > m * Download.ChunkLength + tail
  {
  }

  /** An encrypted chunk of an accepted upload is one download range long
      if its plaintext was a full 5 MiB, and shorter but non-empty for the
      final chunk. */
  lemma EncryptedPartLengths(file: Bytes, filename: string, password: string, fileUuid: Uuid,
                             c: Cipher, randoms: seq<Bytes>, i: nat)
    requires Sound(c)
    requires |file| / Upload.ChunkSize < Upload.MaxChunks
    requires |randoms| == Upload.ReadsMade(|file|)
    requires forall j :: 0 <= j < |randoms| ==>
      Encrypt(Upload.ChunkAt(file, filename, password, fileUuid, j), c, randoms[j]).Some?
    requires i < |randoms|
    ensures var part := EncryptedParts(file, filename, password, fileUuid, c, randoms)[i];
      if i < |randoms| - 1 then |part| == Download.ChunkLength
      else 0 < |part| < Download.ChunkLength
  {
    Upload.LastFlagOnFinalChunkOnly(file, filename, password, fileUuid, i);
    Upload.ReadsMadeBound(|file|, i);
  }

  /** End to end: when every chunk of an accepted upload is encrypted, the
      stored object is planned into exactly as many ranges as there were
      chunks, range k decrypts with the upload's password to the k-th
      plaintext chunk, and those plaintexts in index order are the file. */
  lemma {:induction false} EndToEnd(file: Bytes, filename: string, password: string, fileUuid: Uuid,
                                    c: Cipher, randoms: seq<Bytes>)
    requires Sound(c)
    requires |file| / Upload.ChunkSize < Upload.MaxChunks
    requires |randoms| == Upload.ReadsMade(|file|)
    requires forall j :: 0 <= j < |randoms| ==>
      Encrypt(Upload.ChunkAt(file, filename, password, fileUuid, j), c, randoms[j]).Some?
    ensures var stored := Concat(EncryptedParts(file, filename, password, fileUuid, c, randoms));
      Download.NumChunks(|stored|) == |randoms| &&
      forall k :: 0 <= k < |randoms| ==>
        |Download.RangeGet(stored, Download.RangeOf(k))| >= MinBlob &&
        Decrypt(Download.RangeGet(stored, Download.RangeOf(k)), password, c)
          == Success(Block(file, k, Upload.ChunkSize))
    ensures Concat(Blocks(file, |randoms|, Upload.ChunkSize)) == file
  {
    var parts := EncryptedParts(file, filename, password, fileUuid, c, randoms);
    PartsAreBlobs(file, filename, password, fileUuid, c, randoms);
    ObjectSplitsIntoBlobs(parts);
    PartsDecrypt(file, filename, password, fileUuid, c, randoms);
    Upload.AcceptedCoversFile(file);
  }

  /** All parts but the last are one range long; the last is shorter. */
  lemma PartsAreBlobs(file: Bytes, filename: string, password: string, fileUuid: Uuid,
                      c: Cipher, randoms: seq<Bytes>)
    requires Sound(c)
    requires |file| / Upload.ChunkSize < Upload.MaxChunks
    requires |randoms| == Upload.ReadsMade(|file|)
    requires forall j :: 0 <= j < |randoms| ==>
      Encrypt(Upload.ChunkAt(file, filename, password, fileUuid, j), c, randoms[j]).Some?
    ensures var parts := EncryptedParts(file, filename, password, fileUuid, c, randoms);
      && |parts| > 0
      && (forall i :: 0 <= i < |parts| - 1 ==> |parts[i]| == Download.ChunkLength)
      && 0 < |parts[|parts| - 1]| < Download.ChunkLength
  {
    var parts := EncryptedParts(file, filename, password, fileUuid, c, randoms);
    forall i | 0 <= i < |parts|
      ensures if i < |parts| - 1 then |parts[i]| == Download.ChunkLength
              else 0 < |parts[i]| < Download.ChunkLength
    {
      EncryptedPartLengths(file, filename, password, fileUuid, c, randoms, i);
    }
  }

  /** Each part decrypts with the upload's password to its plaintext chunk. */
  lemma PartsDecrypt(file: Bytes, filename: string, password: string, fileUuid: Uuid,
                     c: Cipher, randoms: seq<Bytes>)
    requires Sound(c)
    requires |randoms| <= Upload.MaxChunks
    requires forall j :: 0 <= j < |randoms| ==>
      Encrypt(Upload.ChunkAt(file, filename, password, fileUuid, j), c, randoms[j]).Some?
    ensures var parts := EncryptedParts(file, filename, password, fileUuid, c, randoms);
      forall k :: 0 <= k < |randoms| ==>
        |parts[k]| >= MinBlob &&
        Decrypt(parts[k], password, c) == Success(Block(file, k, Upload.ChunkSize))
  {
    var parts := EncryptedParts(file, filename, password, fileUuid, c, randoms);
    forall k | 0 <= k < |randoms|
      ensures |parts[k]| >= MinBlob
      ensures Decrypt(parts[k], password, c) == Success(Block(file, k, Upload.ChunkSize))
    {
      RoundTrip(Upload.ChunkAt(file, filename, password, fileUuid, k), c, randoms[k]);
    }
  }

  /** What the decrypted download of an uploaded file streams back: every
      planned range decrypts, and the plaintexts in index order (the body
      `HandlePlainDownload` writes when no ranged GET fails) are the file. */
  lemma DownloadReturnsFile(file: Bytes, filename: string, password: string, fileUuid: Uuid,
                            c: Cipher, randoms: seq<Bytes>)
    requires Sound(c)
    requires |file| / Upload.ChunkSize < Upload.MaxChunks
    requires |randoms| == Upload.ReadsMade(|file|)
    requires forall j :: 0 <= j < |randoms| ==>
      Encrypt(Upload.ChunkAt(file, filename, password, fileUuid, j), c, randoms[j]).Some?
    ensures var stored := Concat(EncryptedParts(file, filename, password, fileUuid, c, randoms));
      (forall k :: 0 <= k < Download.NumChunks(|stored|) ==> Download.RangeDecrypts(stored, k, password, c)) &&
      Concat(Download.Plaintexts(stored, password, c)) == file
  {
    var stored := Concat(EncryptedParts(file, filename, password, fileUuid, c, randoms));
    EndToEnd(file, filename, password, fileUuid, c, randoms);
    BlocksAt(file, |randoms|, Upload.ChunkSize);
    PlaintextsAre(stored, password, c, Blocks(file, |randoms|, Upload.ChunkSize));
  }

  /** An object whose k-th range decrypts to `blocks[k]`, one range per
      block, has exactly those plaintexts, in index order. */
  lemma PlaintextsAre(stored: Bytes, password: string, c: Cipher, blocks: seq<Bytes>)
    requires Download.NumChunks(|stored|) == |blocks|
    requires forall k :: 0 <= k < |blocks| ==>
      |Download.RangeGet(stored, Download.RangeOf(k))| >= MinBlob &&
      Decrypt(Download.RangeGet(stored, Download.RangeOf(k)), password, c) == Success(blocks[k])
    ensures forall k :: 0 <= k < |blocks| ==> Download.RangeDecrypts(stored, k, password, c)
    ensures Download.Plaintexts(stored, password, c) == blocks
  {
  }

  /** The commit of an accepted upload: the parts of its chunks, completed
      in any order `order` (the j-th to complete being chunk order[j], whose
      part number is that chunk's counter), are sorted into parts
      1, 2, ..., k, one per chunk, with each part's ETag kept. */
  lemma CommitListsEveryChunkInOrder(file: Bytes, filename: string, password: string, fileUuid: Uuid,
                                     order: seq<nat>, parts: seq<Storage.CompletedPart>,
                                     sorted: seq<Storage.CompletedPart>)
    requires |order| == |parts| == Upload.ReadsMade(|file|)
    requires forall j :: 0 <= j < |order| ==> order[j] < |order|
    requires forall i, j :: 0 <= i < j < |order| ==> order[i] != order[j]
    requires forall j :: 0 <= j < |parts| ==>
      parts[j].partNumber == Upload.ChunkAt(file, filename, password, fileUuid, order[j]).counter
    requires Storage.SortedByPartNumber(sorted)
    requires multiset(sorted) == multiset(parts)
    ensures |sorted| == Upload.ReadsMade(|file|)
    ensures forall i :: 0 <= i < |sorted| ==>
      sorted[i].partNumber == Upload.ChunkAt(file, filename, password, fileUuid, i).counter
  {
    Storage.CompletionOrderNumbering(parts, order);
    Storage.CommitListIsDense(parts, sorted);
  }

  /** The object stored for an accepted upload is never a whole number of
      download ranges long: its last part is a short, non-empty encrypted
      chunk. */
  lemma StoredLengthNotMultiple(file: Bytes, filename: string, password: string, fileUuid: Uuid,
                                c: Cipher, randoms: seq<Bytes>)
    requires Sound(c)
    requires |file| / Upload.ChunkSize < Upload.MaxChunks
    requires |randoms| == Upload.ReadsMade(|file|)
    requires forall j :: 0 <= j < |randoms| ==>
      Encrypt(Upload.ChunkAt(file, filename, password, fileUuid, j), c, randoms[j]).Some?
    ensures |Concat(EncryptedParts(file, filename, password, fileUuid, c, randoms))| % Download.ChunkLength != 0
  {
    PartsAreBlobs(file, filename, password, fileUuid, c, randoms);
    BlobsLengthNotMultiple(EncryptedParts(file, filename, password, fileUuid, c, randoms));
  }

  /** Full blobs followed by one shorter, non-empty blob are not a whole
      number of ranges long. */
  lemma BlobsLengthNotMultiple(blobs: seq<Bytes>)
    requires |blobs| > 0
    requires forall i :: 0 <= i < |blobs| - 1 ==> |blobs[i]| == Download.ChunkLength
    requires 0 < |blobs[|blobs| - 1]| < Download.ChunkLength
    ensures |Concat(blobs)| % Download.ChunkLength != 0
  {
    var n := |blobs|;
    var init := blobs[..n - 1];
    FullBlobsConcat(init);
    assert blobs == init + [blobs[n - 1]];
    ConcatAppend(init, blobs[n - 1]);
    ShortTail(n - 1, |blobs[n - 1]|);
  }

  /** m full ranges and a short, non-empty tail do not add up to a whole
      number of ranges. */
  lemma ShortTail(m: nat, tail: nat)
    requires 0 < tail < Download.ChunkLength
    ensures (m * Download.ChunkLength + tail) % Download.ChunkLength == tail
  {
  }
}
