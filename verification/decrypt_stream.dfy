/** The read/decrypt/write loop of `HandleEncryptedFileUpload`
    (handlers/api.go): an encrypted file produced by this service is
    uploaded back, read one encrypted chunk (5 MiB + 44 bytes) at a time,
    and every chunk is decrypted on its own and written to the response.

    As for uploads, a read hands out min(BufferLimit, remaining) bytes while
    bytes remain and then (0, EOF); `readFault == Some(j)` makes the j-th
    read fail with another error, `writeFault == Some(j)` the j-th write. */
module DecryptStream {
  import opened Common
  import opened Encryption

  /** The read buffer: one encrypted chunk, 5 MiB + 44 bytes. */
  const BufferLimit: nat := 5_242_924

  datatype Outcome =
    | Finished        // the loop ended after a short read
    | ReadFailed      // "Error reading file bytes"
    | DecryptFailed   // "Error decrypting file"
    | WriteFailed     // "Failed to write decrypted bytes"
    | Panicked        // a read shorter than salt + nonce makes Decrypt slice out of range

  /** The pieces successive reads hand out: BufferLimit bytes each while
      that many remain, then what is left. */
  function Chunks(s: Bytes): (cs: seq<Bytes>)
    ensures (cs == []) == (s == [])
    decreases |s|
  {
    if s == [] then []
    else if |s| <= BufferLimit then [s]
    else [s[..BufferLimit]] + Chunks(s[BufferLimit..])
  }

  /** The number of reads that return data: ceil(|file| / BufferLimit). */
  function NumBlocks(size: nat): (count: nat)
  {
    (size + BufferLimit - 1) / BufferLimit
  }

  /** The file ends with a full chunk, or has none: by `LastChunkFull`,
      exactly when its length is a multiple of BufferLimit. */
  predicate EndsFull(s: Bytes)
  {
    var cs := Chunks(s);
    cs == [] || |cs[|cs| - 1]| == BufferLimit
  }

  /** Every chunk of the file is long enough to split and decrypts. */
  ghost predicate WellFormed(file: Bytes, password: string, c: Cipher)
  {
    forall i :: 0 <= i < |Chunks(file)| ==>
      |Chunks(file)[i]| >= MinBlob && Decrypt(Chunks(file)[i], password, c).Success?
  }

  /** `chunk` can be split and decrypts to `plaintext`. */
  ghost predicate DecryptsTo(chunk: Bytes, password: string, c: Cipher, plaintext: Bytes)
  {
    |chunk| >= MinBlob && Decrypt(chunk, password, c) == Success(plaintext)
  }

  /** What the loop does with the chunks `cs` of the input, from chunk `k`
      on: how many plaintexts it writes in all and how it ends. The read of
      chunk k fails if `readFault` names it; a chunk shorter than salt and
      nonce panics; one that does not decrypt or whose write fails stops the
      loop; a short chunk ends it after its write. After the last chunk the
      next read returns EOF, which `eofIsError` decides: the code as
      written reports it as a read error, the corrected loop finishes. */
  ghost function Run(cs: seq<Bytes>, password: string, c: Cipher,
                     readFault: Option<nat>, writeFault: Option<nat>, eofIsError: bool, k: nat): (r: (nat, Outcome))
    requires k <= |cs|
    decreases |cs| - k
  {
    if readFault == Some(k) then (k, ReadFailed)
    else if k == |cs| then (k, if eofIsError then ReadFailed else Finished)
    else if |cs[k]| < MinBlob then (k, Panicked)
    else if Decrypt(cs[k], password, c).Failure? then (k, DecryptFailed)
    else if writeFault == Some(k) then (k, WriteFailed)
    else if |cs[k]| < BufferLimit then (k + 1, Finished)
    else Run(cs, password, c, readFault, writeFault, eofIsError, k + 1)
  }

  /** The loop as written (handlers/api.go:154-184): every non-nil read
      error stops it before decrypting, EOF included. */
  method HandleEncryptedFileUpload(file: Bytes, password: string, c: Cipher,
                                   readFault: Option<nat>, writeFault: Option<nat>)
    returns (written: seq<Bytes>, outcome: Outcome)
    ensures |written| <= |Chunks(file)|
    ensures (|written|, outcome) == Run(Chunks(file), password, c, readFault, writeFault, true, 0)
    ensures forall i :: 0 <= i < |written| ==> DecryptsTo(Chunks(file)[i], password, c, written[i])
  {
    ghost var chunks := Chunks(file);
    written := [];
    var rest := file;
    while true
      invariant |written| <= |chunks| && Chunks(rest) == chunks[|written|..]
      invariant Run(chunks, password, c, readFault, writeFault, true, 0)
             == Run(chunks, password, c, readFault, writeFault, true, |written|)
      invariant forall i :: 0 <= i < |written| ==> DecryptsTo(chunks[i], password, c, written[i])
      decreases |rest|
    {
      // file.Read(buffer)
      var n := Min(BufferLimit, |rest|);
      var eof := n == 0;
      if readFault == Some(|written|) || eof {
        outcome := ReadFailed;
        break;
      }
      ChunksStep(rest);
      var chunk := rest[..n];
      if n < MinBlob {
        outcome := Panicked;
        break;
      }
      var decrypted := Decrypt(chunk, password, c);
      if decrypted.Failure? {
        outcome := DecryptFailed;
        break;
      }
      if writeFault == Some(|written|) {
        outcome := WriteFailed;
        break;
      }
      written := written + [decrypted.value];
      if n < BufferLimit {
        outcome := Finished;
        break;
      }
      rest := rest[n..];
    }
  }

  /** The loop with the evidently intended end of input: EOF ends it
      normally instead of being reported as a read error. */
  method HandleEncryptedFileUploadFixed(file: Bytes, password: string, c: Cipher,
                                        readFault: Option<nat>, writeFault: Option<nat>)
    returns (written: seq<Bytes>, outcome: Outcome)
    ensures |written| <= |Chunks(file)|
    ensures (|written|, outcome) == Run(Chunks(file), password, c, readFault, writeFault, false, 0)
    ensures forall i :: 0 <= i < |written| ==> DecryptsTo(Chunks(file)[i], password, c, written[i])
  {
    ghost var chunks := Chunks(file);
    written := [];
    var rest := file;
    while true
      invariant |written| <= |chunks| && Chunks(rest) == chunks[|written|..]
      invariant Run(chunks, password, c, readFault, writeFault, false, 0)
             == Run(chunks, password, c, readFault, writeFault, false, |written|)
      invariant forall i :: 0 <= i < |written| ==> DecryptsTo(chunks[i], password, c, written[i])
      decreases |rest|
    {
      var n := Min(BufferLimit, |rest|);
      var eof := n == 0;
      if readFault == Some(|written|) {
        outcome := ReadFailed;
        break;
      }
      if eof {
        outcome := Finished;
        break;
      }
      ChunksStep(rest);
      var chunk := rest[..n];
      if n < MinBlob {
        outcome := Panicked;
        break;
      }
      var decrypted := Decrypt(chunk, password, c);
      if decrypted.Failure? {
        outcome := DecryptFailed;
        break;
      }
      if writeFault == Some(|written|) {
        outcome := WriteFailed;
        break;
      }
      written := written + [decrypted.value];
      if n < BufferLimit {
        outcome := Finished;
        break;
      }
      rest := rest[n..];
    }
  }

  /** What the loop writes, from chunk k on: chunks k .. n-1, each read,
      split, decrypted and written without error, all but the last of them
      full. */
  lemma {:induction false} RunWrites(cs: seq<Bytes>, password: string, c: Cipher,
                                     readFault: Option<nat>, writeFault: Option<nat>, eofIsError: bool, k: nat)
    requires k <= |cs|
    ensures var n := Run(cs, password, c, readFault, writeFault, eofIsError, k).0;
      && k <= n <= |cs|
      && (forall i :: k <= i < n ==>
            readFault != Some(i) && writeFault != Some(i) &&
            |cs[i]| >= MinBlob && Decrypt(cs[i], password, c).Success?)
      && (forall i :: k <= i < n - 1 ==> |cs[i]| >= BufferLimit)
    decreases |cs| - k
  {
    if readFault != Some(k) && k < |cs| && |cs[k]| >= MinBlob && Decrypt(cs[k], password, c).Success?
       && writeFault != Some(k) && |cs[k]| >= BufferLimit {
      RunWrites(cs, password, c, readFault, writeFault, eofIsError, k + 1);
    }
  }

  /** Why the loop stops at chunk n. It finishes only after the last chunk;
      the code as written finishes only on a short last chunk and reports a
      read error at EOF after a full one (or on empty input). */
  lemma {:induction false} RunStops(cs: seq<Bytes>, password: string, c: Cipher,
                                    readFault: Option<nat>, writeFault: Option<nat>, eofIsError: bool, k: nat)
    requires k <= |cs|
    requires forall i :: 0 <= i < |cs| - 1 ==> |cs[i]| == BufferLimit
    ensures var (n, o) := Run(cs, password, c, readFault, writeFault, eofIsError, k);
      && n <= |cs|
      && (o.Finished? ==> n == |cs| && (eofIsError ==> k < n && |cs[n - 1]| < BufferLimit))
      && (!o.Finished? ==> (o.ReadFailed? <==> readFault == Some(n) || (eofIsError && n == |cs|)))
      && (o.ReadFailed? && readFault != Some(n) ==> n == |cs| && (n == k || |cs[n - 1]| >= BufferLimit))
      && (o.Panicked? ==> n < |cs| && |cs[n]| < MinBlob && readFault != Some(n))
      && (o.DecryptFailed? ==>
            n < |cs| && |cs[n]| >= MinBlob && Decrypt(cs[n], password, c).Failure? && readFault != Some(n))
      && (o.WriteFailed? ==> n < |cs| && writeFault == Some(n) && readFault != Some(n))
    decreases |cs| - k
  {
    if readFault != Some(k) && k < |cs| && |cs[k]| >= MinBlob && Decrypt(cs[k], password, c).Success?
       && writeFault != Some(k) && |cs[k]| >= BufferLimit {
      RunStops(cs, password, c, readFault, writeFault, eofIsError, k + 1);
    }
  }

  /** A valid encrypted file read without I/O errors: every chunk's
      plaintext is written. The corrected loop then finishes; the loop as
      written finishes only when the last chunk is short, and reports a read
      error when the file ends with a full chunk or is empty, i.e. when its
      length is a multiple of the chunk length. */
  lemma WellFormedRun(file: Bytes, password: string, c: Cipher)
    requires WellFormed(file, password, c)
    ensures Run(Chunks(file), password, c, None, None, false, 0) == (|Chunks(file)|, Finished)
    ensures Run(Chunks(file), password, c, None, None, true, 0)
         == (|Chunks(file)|, if |file| % BufferLimit == 0 then ReadFailed else Finished)
  {
    var cs := Chunks(file);
    ChunkLengths(file);
    RunWrites(cs, password, c, None, None, false, 0);
    RunStops(cs, password, c, None, None, false, 0);
    RunWrites(cs, password, c, None, None, true, 0);
    RunStops(cs, password, c, None, None, true, 0);
    LastChunkFull(file);
  }

  /** The empty file is a valid encrypted upload (it has no chunks), and its
      length is a multiple of the chunk length: the loop as written reports a
      read error for it, the corrected loop finishes. */
  lemma EmptyFileIsWellFormed(password: string, c: Cipher)
    ensures WellFormed([], password, c) && Chunks([]) == [] && EndsFull([])
    ensures Run(Chunks([]), password, c, None, None, true, 0) == (0, ReadFailed)
    ensures Run(Chunks([]), password, c, None, None, false, 0) == (0, Finished)
  {
  }

  /** One read: the first chunk of what remains is what the read returns,
      and the chunks after it are those of what remains after the read. */
  lemma ChunksStep(rest: Bytes)
    requires rest != []
    ensures Chunks(rest)[0] == rest[..Min(BufferLimit, |rest|)]
    ensures Chunks(rest[Min(BufferLimit, |rest|)..]) == Chunks(rest)[1..]
  {
    if |rest| <= BufferLimit {
      assert rest[|rest|..] == [];
    }
  }

  /** Every chunk is non-empty and at most BufferLimit long, and all but
      the last are exactly BufferLimit long. */
  lemma {:induction false} ChunkLengths(s: Bytes)
    ensures forall i :: 0 <= i < |Chunks(s)| ==> 0 < |Chunks(s)[i]| <= BufferLimit
    ensures forall i :: 0 <= i < |Chunks(s)| - 1 ==> |Chunks(s)[i]| == BufferLimit
    decreases |s|
  {
    if |s| > BufferLimit {
      ChunkLengths(s[BufferLimit..]);
    }
  }

  /** Reading chunk by chunk consumes the file exactly. */
  lemma {:induction false} ChunksConcat(s: Bytes)
    ensures Concat(Chunks(s)) == s
    decreases |s|
  {
    if s == [] {
    } else if |s| <= BufferLimit {
      ConcatPrepend(s, []);
      assert [s] + [] == [s];
    } else {
      ChunksConcat(s[BufferLimit..]);
      ConcatPrepend(s[..BufferLimit], Chunks(s[BufferLimit..]));
      assert s[..BufferLimit] + s[BufferLimit..] == s;
    }
  }

  /** The reads return ceil(|s| / BufferLimit) chunks. */
  lemma {:induction false} ChunkCount(s: Bytes)
    ensures |Chunks(s)| == NumBlocks(|s|)
    decreases |s|
  {
    if |s| > BufferLimit {
      ChunkCount(s[BufferLimit..]);
      NumBlocksStep(|s|);
    }
  }

  lemma NumBlocksStep(size: nat)
    requires size > BufferLimit
    ensures NumBlocks(size) == 1 + NumBlocks(size - BufferLimit)
  {
  }

  /** Chunk i is the i-th block of the file: the piece the ranged GET of
      range i fetches from the stored object. */
  lemma {:induction false} ChunksAreBlocks(s: Bytes, i: nat)
    requires i < |Chunks(s)|
    ensures Chunks(s)[i] == Block(s, i, BufferLimit)
    decreases |s|
  {
    if |s| > BufferLimit && i > 0 {
      ChunksAreBlocks(s[BufferLimit..], i - 1);
      BlockShift(s, i);
    }
  }

  lemma BlockShift(s: Bytes, i: nat)
    requires |s| > BufferLimit && i > 0
    ensures Block(s[BufferLimit..], i - 1, BufferLimit) == Block(s, i, BufferLimit)
  {
    StepDistributes(i, BufferLimit);
  }

  /** The length is a multiple of the chunk length exactly when there are no
      chunks or the last one is full. */
  lemma {:induction false} LastChunkFull(s: Bytes)
    ensures EndsFull(s) <==> |s| % BufferLimit == 0
    decreases |s|
  {
    var cs := Chunks(s);
    if |s| > BufferLimit {
      var tail := s[BufferLimit..];
      LastChunkFull(tail);
      var ts := Chunks(tail);
      assert cs == [s[..BufferLimit]] + ts;
      assert cs[|cs| - 1] == ts[|ts| - 1];
      ModStep(|s|);
    } else {
      ModSmall(|s|);
    }
  }

  lemma ModStep(size: nat)
    requires size > BufferLimit
    ensures size % BufferLimit == (size - BufferLimit) % BufferLimit
  {
  }

  lemma ModSmall(size: nat)
    requires size <= BufferLimit
    ensures size % BufferLimit == 0 <==> size == 0 || size == BufferLimit
  {
  }
}
