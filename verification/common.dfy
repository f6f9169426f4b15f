/** Shared vocabulary of the model: bytes, Go's int32, optional and fallible
    results, the chunk record of types/types.go and byte-sequence helpers. */
module Common {

  /** A Go `byte`. */
  newtype byte = b: int | 0 <= b < 256

  type Bytes = seq<byte>

  /** A Go `int32`, the type of `FileData.Counter` and of an S3 part number. */
  newtype int32 = x: int | -0x8000_0000 <= x < 0x8000_0000

  /** A file identifier. The service uses the canonical text form of a
      random UUID, both as the `FileUUID` of a chunk and as the S3 object key. */
  type Uuid = string

  datatype Option<T> = None | Some(value: T)

  datatype Result<T, E> = Success(value: T) | Failure(error: E)

  /** One chunk of a file on its way through the pipeline (`types.FileData`).
      The same record carries plaintext from the upload handler to the
      encrypter and ciphertext from the encrypter to the uploader. */
  datatype FileData = FileData(
    filename: string,
    password: string,
    fileUuid: Uuid,
    bytes: Bytes,
    counter: int32,
    isLastChunk: bool)

  function Min(a: int, b: int): (m: int)
    ensures m <= a && m <= b && (m == a || m == b)
  {
    if a <= b then a else b
  }

  /** The concatenation parts[0] ++ parts[1] ++ ... ++ parts[|parts|-1]. */
  function Concat(parts: seq<Bytes>): (whole: Bytes)
  {
    if parts == [] then [] else Concat(parts[..|parts| - 1]) + parts[|parts| - 1]
  }

  lemma ConcatAppend(parts: seq<Bytes>, last: Bytes)
    ensures Concat(parts + [last]) == Concat(parts) + last
  {
    assert (parts + [last])[..|parts|] == parts;
  }

  lemma {:induction false} ConcatPrepend(first: Bytes, parts: seq<Bytes>)
    ensures Concat([first] + parts) == first + Concat(parts)
  {
    if parts == [] {
      assert [first] + parts == [first];
      assert [first][..0] == [];
    } else {
      var init, last := parts[..|parts| - 1], parts[|parts| - 1];
      assert parts == init + [last];
      assert [first] + parts == ([first] + init) + [last];
      ConcatPrepend(first, init);
      ConcatAppend([first] + init, last);
      ConcatAppend(init, last);
    }
  }

  /** The `i`-th block of `size` bytes of `s`, clipped to the end of `s`:
      what a reader that hands out `size` bytes per call returns on its
      `i`-th call, and what a ranged GET of that block returns. */
  function Block(s: Bytes, i: nat, size: nat): (b: Bytes)
    ensures |b| <= size
  {
    s[Min(i * size, |s|)..Min(i * size + size, |s|)]
  }

  lemma BlockLength(s: Bytes, i: nat, size: nat)
    requires i * size <= |s|
    ensures |Block(s, i, size)| == Min(size, |s| - i * size)
  {
  }

  /** Blocks 0 .. k-1 of `s`, in order. */
  function Blocks(s: Bytes, k: nat, size: nat): (bs: seq<Bytes>)
    ensures |bs| == k
  {
    if k == 0 then [] else Blocks(s, k - 1, size) + [Block(s, k - 1, size)]
  }

  /** The i-th of the first k blocks is block i. */
  lemma {:induction false} BlocksAt(s: Bytes, k: nat, size: nat)
    ensures forall i :: 0 <= i < k ==> Blocks(s, k, size)[i] == Block(s, i, size)
  {
    if k > 0 {
      BlocksAt(s, k - 1, size);
    }
  }

  /** Reading the first k blocks of `s` consumes exactly the first k*size
      bytes of `s` (or all of `s`, if it is shorter). */
  lemma {:induction false} BlocksConcat(s: Bytes, k: nat, size: nat)
    ensures Concat(Blocks(s, k, size)) == s[..Min(k * size, |s|)]
  {
    if k > 0 {
      BlocksConcat(s, k - 1, size);
      BlocksStep(s, k, size);
      NextBlock(s, k, size);
    }
  }

  lemma BlocksStep(s: Bytes, k: nat, size: nat)
    requires k > 0
    ensures Concat(Blocks(s, k, size)) == Concat(Blocks(s, k - 1, size)) + Block(s, k - 1, size)
  {
    ConcatAppend(Blocks(s, k - 1, size), Block(s, k - 1, size));
  }

  lemma NextBlock(s: Bytes, k: nat, size: nat)
    requires k > 0
    ensures s[..Min((k - 1) * size, |s|)] + Block(s, k - 1, size) == s[..Min(k * size, |s|)]
  {
    var start := (k - 1) * size;
    assert Block(s, k - 1, size) == s[Min(start, |s|)..Min(start + size, |s|)];
    PrefixExtend(s, start, size);
    StepDistributes(k, size);
  }

  lemma StepDistributes(k: nat, size: nat)
    requires k > 0
    ensures k * size == (k - 1) * size + size
  {
  }

  lemma PrefixExtend(s: Bytes, start: nat, size: nat)
    ensures s[..Min(start, |s|)] + s[Min(start, |s|)..Min(start + size, |s|)] == s[..Min(start + size, |s|)]
  {
  }
}
