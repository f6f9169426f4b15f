/** The multipart-upload bookkeeping of aws/aws.go.

    The registry (`S3Context.FileUploadRepository`) maps a file key to the
    session of its open multipart upload. Every S3 call is replaced by its
    result, passed in by the caller: `Success` with what S3 returns or
    `Failure`. The mutex-protected sections are single atomic steps and the
    session's `sync.WaitGroup` is the counter `outstanding`. */
module Storage {
  import opened Common

  datatype S3Error = S3Error

  /** `types.CompletedPart`: the ETag S3 returned for a part and its number. */
  datatype CompletedPart = CompletedPart(eTag: string, partNumber: int32)

  /** `UploadInfo`: the S3 upload id, the parts uploaded so far (in completion
      order until the commit sorts them), and the WaitGroup's count of part
      uploads started but not finished successfully. */
  datatype UploadInfo = UploadInfo(uploadId: string, parts: seq<CompletedPart>, outstanding: nat)

  /** What the goroutine of a last chunk did after its part upload. */
  datatype CommitStatus =
    | NotLast                                  // not the last chunk: no commit
    | Waiting                                  // wg.Wait() has not returned yet
    | Committed(parts: seq<CompletedPart>)      // complete succeeded with these parts
    | CommitFailed(parts: seq<CompletedPart>)   // complete failed with these parts

  ghost predicate SortedByPartNumber(parts: seq<CompletedPart>)
  {
    forall i, j :: 0 <= i < j < |parts| ==> parts[i].partNumber <= parts[j].partNumber
  }

  /** `sort.Slice(info.Parts, ...)` at aws/aws.go:140-142: the parts in
      ascending part-number order, a permutation of the input. */
  method SortParts(parts: seq<CompletedPart>) returns (sorted: seq<CompletedPart>)
    ensures SortedByPartNumber(sorted)
    ensures multiset(sorted) == multiset(parts)
  {
    sorted := [];
    for n := 0 to |parts|
      invariant SortedByPartNumber(sorted)
      invariant multiset(sorted) == multiset(parts[..n])
    {
      var p := parts[n];
      var i := InsertionPoint(sorted, p);
      InsertKeepsSorted(sorted, p, i);
      assert sorted == sorted[..i] + sorted[i..];
      sorted := sorted[..i] + [p] + sorted[i..];
      assert parts[..n + 1] == parts[..n] + [p];
    }
    assert parts[..|parts|] == parts;
  }

  /** Where `p` goes in the sorted `sorted`: after every part numbered no
      higher, before every part numbered higher. */
  method InsertionPoint(sorted: seq<CompletedPart>, p: CompletedPart) returns (i: nat)
    requires SortedByPartNumber(sorted)
    ensures i <= |sorted|
    ensures forall j :: 0 <= j < i ==> sorted[j].partNumber <= p.partNumber
    ensures forall j :: i <= j < |sorted| ==> sorted[j].partNumber > p.partNumber
  {
    i := |sorted|;
    while i > 0 && sorted[i - 1].partNumber > p.partNumber
      invariant 0 <= i <= |sorted|
      invariant forall j :: i <= j < |sorted| ==> sorted[j].partNumber > p.partNumber
      decreases i
    {
      i := i - 1;
    }
  }

  lemma InsertKeepsSorted(sorted: seq<CompletedPart>, p: CompletedPart, i: nat)
    requires SortedByPartNumber(sorted)
    requires i <= |sorted|
    requires forall j :: 0 <= j < i ==> sorted[j].partNumber <= p.partNumber
    requires forall j :: i <= j < |sorted| ==> sorted[j].partNumber > p.partNumber
    ensures SortedByPartNumber(sorted[..i] + [p] + sorted[i..])
  {
    var r := sorted[..i] + [p] + sorted[i..];
    forall a, b | 0 <= a < b < |r|
      ensures r[a].partNumber <= r[b].partNumber
    {
      if a < i && b < i {
      } else if a < i && b == i {
      } else if a < i {
        assert r[b] == sorted[b - 1];
      } else if a == i {
        assert r[b] == sorted[b - 1];
      } else {
        assert r[a] == sorted[a - 1] && r[b] == sorted[b - 1];
      }
    }
  }

  /** Part numbers in ascending order without repetition, all between 1 and
      k, and k of them: they are exactly 1, 2, ..., k. This is why S3 accepts
      the sorted list of a complete upload, whose chunk counters are 1..k. */
  lemma {:induction false} DenseAfterSort(parts: seq<CompletedPart>, k: nat)
    requires |parts| == k
    requires forall i, j :: 0 <= i < j < |parts| ==> parts[i].partNumber < parts[j].partNumber
    requires forall i :: 0 <= i < |parts| ==> 1 <= parts[i].partNumber as int <= k
    ensures forall i :: 0 <= i < |parts| ==> parts[i].partNumber as int == i + 1
  {
    forall i | 0 <= i < |parts|
      ensures parts[i].partNumber as int == i + 1
    {
      AtLeast(parts, i);
      AtMost(parts, k, i);
    }
  }

  lemma {:induction false} AtLeast(parts: seq<CompletedPart>, i: nat)
    requires i < |parts|
    requires forall a, b :: 0 <= a < b < |parts| ==> parts[a].partNumber < parts[b].partNumber
    requires forall a :: 0 <= a < |parts| ==> 1 <= parts[a].partNumber
    ensures parts[i].partNumber as int >= i + 1
  {
    if i > 0 {
      AtLeast(parts, i - 1);
    }
  }

  lemma {:induction false} AtMost(parts: seq<CompletedPart>, k: nat, i: nat)
    requires i < |parts| == k
    requires forall a, b :: 0 <= a < b < |parts| ==> parts[a].partNumber < parts[b].partNumber
    requires forall a :: 0 <= a < |parts| ==> parts[a].partNumber as int <= k
    ensures parts[i].partNumber as int <= i + 1
    decreases |parts| - i
  {
    if i < |parts| - 1 {
      AtMost(parts, k, i + 1);
    }
  }

  /** Each of the part numbers 1..k exactly once, for k parts: what a
      session holds once the parts of chunks with counters 1..k have all
      completed, in whatever order. */
  ghost predicate NumberedOneToK(parts: seq<CompletedPart>)
  {
    && (forall i, j :: 0 <= i < j < |parts| ==> parts[i].partNumber != parts[j].partNumber)
    && (forall i :: 0 <= i < |parts| ==> 1 <= parts[i].partNumber as int <= |parts|)
  }

  /** Parts that complete in the order `order` (the j-th to complete being
      chunk order[j], whose counter is order[j] + 1) are numbered 1..k once
      each when every chunk completes once. */
  lemma CompletionOrderNumbering(parts: seq<CompletedPart>, order: seq<nat>)
    requires |order| == |parts|
    requires forall j :: 0 <= j < |order| ==> order[j] < |order|
    requires forall i, j :: 0 <= i < j < |order| ==> order[i] != order[j]
    requires forall j :: 0 <= j < |parts| ==> parts[j].partNumber as int == order[j] + 1
    ensures NumberedOneToK(parts)
  {
  }

  /** The list `completeMultipartUpload` sends: sorting parts numbered 1..k
      once each, completed in any order, gives parts 1, 2, ..., k in that
      order, the list S3 requires. */
  lemma CommitListIsDense(parts: seq<CompletedPart>, sorted: seq<CompletedPart>)
    requires NumberedOneToK(parts)
    requires SortedByPartNumber(sorted)
    requires multiset(sorted) == multiset(parts)
    ensures |sorted| == |parts|
    ensures forall i :: 0 <= i < |sorted| ==> sorted[i].partNumber as int == i + 1
  {
    assert |sorted| == |multiset(sorted)| == |multiset(parts)| == |parts|;
    forall i | 0 <= i < |sorted|
      ensures sorted[i] in parts
    {
      assert sorted[i] in multiset(sorted);
    }
    forall i, j | 0 <= i < j < |sorted|
      ensures sorted[i].partNumber < sorted[j].partNumber
    {
      DistinctAfterPermutation(parts, sorted, i, j);
    }
    DenseAfterSort(sorted, |parts|);
  }

  /** A permutation of parts with distinct numbers has distinct numbers. */
  lemma DistinctAfterPermutation(parts: seq<CompletedPart>, sorted: seq<CompletedPart>, i: nat, j: nat)
    requires NumberedOneToK(parts)
    requires multiset(sorted) == multiset(parts)
    requires i < j < |sorted|
    ensures sorted[i].partNumber != sorted[j].partNumber
  {
    assert sorted[i] in multiset(parts) && sorted[j] in multiset(parts);
    var a :| 0 <= a < |parts| && parts[a] == sorted[i];
    var b :| 0 <= b < |parts| && parts[b] == sorted[j];
    if a == b {
      CountedTwice(sorted, i, j);
      AtMostOnce(parts, sorted[i]);
      assert false;
    }
  }

  /** In parts with distinct numbers, no part occurs twice. */
  lemma {:induction false} AtMostOnce(parts: seq<CompletedPart>, x: CompletedPart)
    requires forall i, j :: 0 <= i < j < |parts| ==> parts[i].partNumber != parts[j].partNumber
    ensures multiset(parts)[x] <= 1
  {
    if parts != [] {
      var n := |parts|;
      var init := parts[..n - 1];
      AtMostOnce(init, x);
      assert parts == init + [parts[n - 1]];
      if x == parts[n - 1] {
        assert x !in init;
      }
    }
  }

  /** An element at two positions is counted at least twice. */
  lemma CountedTwice(s: seq<CompletedPart>, i: nat, j: nat)
    requires i < j < |s| && s[i] == s[j]
    ensures multiset(s)[s[i]] >= 2
  {
    assert s == s[..j] + [s[j]] + s[j + 1..];
    assert s[i] in s[..j];
  }

  /** Parts 3, 1 and 2 completing in that order are committed as 1, 2, 3. */
  lemma CommitOrder312(e1: string, e2: string, e3: string, sorted: seq<CompletedPart>)
    requires SortedByPartNumber(sorted)
    requires multiset(sorted) == multiset([CompletedPart(e3, 3), CompletedPart(e1, 1), CompletedPart(e2, 2)])
    ensures sorted == [CompletedPart(e1, 1), CompletedPart(e2, 2), CompletedPart(e3, 3)]
  {
    var parts := [CompletedPart(e3, 3), CompletedPart(e1, 1), CompletedPart(e2, 2)];
    CommitListIsDense(parts, sorted);
    forall i | 0 <= i < 3
      ensures sorted[i] in parts
    {
      assert sorted[i] in multiset(sorted);
    }
  }

  /** `HeadFile` (aws/aws.go:185-200): the object's content length when S3
      knows the object, and -1 with an error otherwise. */
  function HeadFile(head: Option<nat>): (r: (int, Option<S3Error>))
    ensures r.1.None? <==> head.Some?
    ensures head.Some? ==> r.0 == head.value
    ensures head.None? ==> r.0 == -1
  {
    if head.Some? then (head.value as int, None) else (-1, Some(S3Error))
  }

  /** The decimal digits of n, as `fmt.Sprintf("%d", n)` writes them. */
  predicate AllDigits(s: string)
  {
    forall i :: 0 <= i < |s| ==> '0' <= s[i] <= '9'
  }

  function DecimalString(n: nat): (s: string)
    ensures |s| > 0 && AllDigits(s)
  {
    if n < 10 then [DigitChar(n)] else DecimalString(n / 10) + [DigitChar(n % 10)]
  }

  function DigitChar(d: nat): (ch: char)
    requires d < 10
    ensures '0' <= ch <= '9'
  {
    (('0' as int) + d) as char
  }

  /** The value of a string of decimal digits. */
  function ParseDecimal(s: string): (n: nat)
    requires AllDigits(s)
  {
    if s == [] then 0 else ParseDecimal(s[..|s| - 1]) * 10 + (s[|s| - 1] as int - '0' as int)
  }

  lemma {:induction false} DecimalRoundTrip(n: nat)
    ensures ParseDecimal(DecimalString(n)) == n
  {
    if n >= 10 {
      DecimalRoundTrip(n / 10);
      var s := DecimalString(n);
      assert s[..|s| - 1] == DecimalString(n / 10);
    }
  }

  /** The `Range` header of `DownloadChunk` (aws/aws.go:204). */
  function RangeHeader(start: nat, end: nat): (h: string)
  {
    "bytes=" + DecimalString(start) + "-" + DecimalString(end)
  }

  /** How a server reads a single `bytes=first-last` range
      (RFC 9110 section 14.1.2), for the forms `RangeHeader` writes. */
  function ParseRangeHeader(h: string): (range: Option<(nat, nat)>)
  {
    if |h| < 6 || h[..6] != "bytes=" then None else ParseRangeSpec(h[6..])
  }

  /** `first-last`, both non-empty digit strings. */
  function ParseRangeSpec(spec: string): (range: Option<(nat, nat)>)
  {
    var dash := IndexOfDash(spec);
    if dash == |spec| then None
    else
      var first, last := spec[..dash], spec[dash + 1..];
      if first == [] || last == [] || !AllDigits(first) || !AllDigits(last) then None
      else Some((ParseDecimal(first), ParseDecimal(last)))
  }

  /** The index of the first '-' in s, or |s| when there is none. */
  function IndexOfDash(s: string): (i: nat)
    ensures i <= |s|
    ensures i < |s| ==> s[i] == '-'
    ensures forall j :: 0 <= j < i ==> s[j] != '-'
  {
    if s == [] then 0 else if s[0] == '-' then 0 else 1 + IndexOfDash(s[1..])
  }

  /** The header `DownloadChunk` sends names exactly the range it was given. */
  lemma RangeHeaderRoundTrip(start: nat, end: nat)
    ensures ParseRangeHeader(RangeHeader(start, end)) == Some((start, end))
  {
    var a, b := DecimalString(start), DecimalString(end);
    var h := RangeHeader(start, end);
    assert h[..6] == "bytes=";
    assert h[6..] == a + "-" + b;
    ParseDigitRange(a, b);
    DecimalRoundTrip(start);
    DecimalRoundTrip(end);
  }

  /** Two non-empty digit strings joined by a dash read back as their values. */
  lemma ParseDigitRange(a: string, b: string)
    requires a != [] && AllDigits(a)
    requires b != [] && AllDigits(b)
    ensures ParseRangeSpec(a + "-" + b) == Some((ParseDecimal(a), ParseDecimal(b)))
  {
    var spec := a + "-" + b;
    assert spec[|a|] == '-';
    assert forall j :: 0 <= j < |a| ==> spec[j] == a[j];
    IndexOfDashAt(spec, |a|);
    assert spec[..|a|] == a;
    assert spec[|a| + 1..] == b;
  }

  lemma IndexOfDashAt(s: string, k: nat)
    requires k < |s| && s[k] == '-'
    requires forall j :: 0 <= j < k ==> s[j] != '-'
    ensures IndexOfDash(s) == k
  {
    var i := IndexOfDash(s);
    assert !(i < k) && !(i > k);
  }

  /** The registry: `S3Context.FileUploadRepository`. */
  class S3Context {
    var fileUploadRepository: map<Uuid, UploadInfo>
    /** For each open session, how many of its part uploads failed. A failed
        upload never signals the WaitGroup, so these stay counted in
        `outstanding` forever. */
    ghost var failedParts: map<Uuid, nat>

    ghost predicate Valid()
      reads this
    {
      && failedParts.Keys == fileUploadRepository.Keys
      && forall key :: key in fileUploadRepository ==>
           failedParts[key] <= fileUploadRepository[key].outstanding
    }

    constructor ()
      ensures Valid() && fileUploadRepository == map[]
    {
      fileUploadRepository := map[];
      failedParts := map[];
    }

    /** `UploadPart` up to the start of the part upload (aws/aws.go:49-76):
        the session of the chunk's file is looked up or, when absent, created
        from the upload id `initiate` returned; then one more part upload is
        counted as outstanding. If initiating fails nothing changes and no
        part upload starts. */
    method UploadPart(data: FileData, initiate: Result<string, S3Error>) returns (started: bool)
      requires Valid()
      modifies this
      ensures Valid()
      ensures var key := data.fileUuid;
        if key in old(fileUploadRepository) then
          started &&
          fileUploadRepository == old(fileUploadRepository)[key :=
            old(fileUploadRepository)[key].(outstanding := old(fileUploadRepository)[key].outstanding + 1)] &&
          failedParts == old(failedParts)
        else if initiate.Failure? then
          !started && fileUploadRepository == old(fileUploadRepository) && failedParts == old(failedParts)
        else
          started &&
          fileUploadRepository == old(fileUploadRepository)[key := UploadInfo(initiate.value, [], 1)] &&
          failedParts == old(failedParts)[key := 0]
    {
      var key := data.fileUuid;
      var info: UploadInfo;
      if key !in fileUploadRepository {
        match initiate
        case Failure(_) =>
          return false;
        case Success(uploadId) =>
          info := UploadInfo(uploadId, [], 0);
          fileUploadRepository := fileUploadRepository[key := info];
          failedParts := failedParts[key := 0];
      } else {
        info := fileUploadRepository[key];
      }
      // info.wg.Add(1)
      fileUploadRepository := fileUploadRepository[key := info.(outstanding := info.outstanding + 1)];
      started := true;
    }

    /** The goroutine's call `uploadChunk(..., data.Bytes, data.Counter)`
        (aws/aws.go:78, 108-133) once S3 has answered for the chunk `data`:
        on success a part numbered with the chunk's counter is appended to
        the session of the chunk's file and the WaitGroup signalled; on
        failure the error is returned and the session is left as it is. No
        other session changes. */
    method PartDone(data: FileData, upload: Result<string, S3Error>) returns (err: Option<S3Error>)
      requires Valid()
      requires data.fileUuid in fileUploadRepository
      requires failedParts[data.fileUuid] < fileUploadRepository[data.fileUuid].outstanding
      modifies this
      ensures Valid()
      ensures err.Some? <==> upload.Failure?
      ensures upload.Success? ==>
        var key := data.fileUuid;
        var info := old(fileUploadRepository)[key];
        fileUploadRepository == old(fileUploadRepository)[key :=
          info.(parts := info.parts + [CompletedPart(upload.value, data.counter)],
                outstanding := info.outstanding - 1)] &&
        failedParts == old(failedParts)
      ensures upload.Failure? ==>
        fileUploadRepository == old(fileUploadRepository) &&
        failedParts == old(failedParts)[data.fileUuid := old(failedParts)[data.fileUuid] + 1]
    {
      var key := data.fileUuid;
      var info := fileUploadRepository[key];
      match upload
      case Failure(e) =>
        failedParts := failedParts[key := failedParts[key] + 1];
        return Some(e);
      case Success(eTag) =>
        info := info.(parts := info.parts + [CompletedPart(eTag, data.counter)]);
        // info.wg.Done()
        info := info.(outstanding := info.outstanding - 1);
        fileUploadRepository := fileUploadRepository[key := info];
        return None;
    }

    /** The end of the part-upload goroutine of the chunk `data`
        (aws/aws.go:80-92) with `completeMultipartUpload` (135-160). Only
        the last chunk commits, and only once every part upload of the
        session has finished; the parts are sorted in place first, and the
        sorted list is what S3 receives. When the session holds the part
        numbers 1..k once each, in whatever order they completed, that list
        is parts 1, 2, ..., k. On success the session is removed; on failure
        it stays, with its parts sorted. */
    method TryCommit(data: FileData, complete: Result<(), S3Error>) returns (status: CommitStatus)
      requires Valid()
      requires data.fileUuid in fileUploadRepository
      modifies this
      ensures Valid()
      ensures var key := data.fileUuid;
        && (!data.isLastChunk ==> status == NotLast)
        && (data.isLastChunk && old(fileUploadRepository)[key].outstanding > 0 ==> status == Waiting)
        && (old(failedParts)[key] > 0 ==> status.NotLast? || status.Waiting?)
      ensures status.NotLast? || status.Waiting? ==>
        fileUploadRepository == old(fileUploadRepository) && failedParts == old(failedParts)
      ensures status.Committed? || status.CommitFailed? ==>
        var before := old(fileUploadRepository)[data.fileUuid];
        && data.isLastChunk && before.outstanding == 0
        && SortedByPartNumber(status.parts)
        && multiset(status.parts) == multiset(before.parts)
        && (NumberedOneToK(before.parts) ==>
              |status.parts| == |before.parts| &&
              forall i :: 0 <= i < |status.parts| ==> status.parts[i].partNumber as int == i + 1)
      ensures data.isLastChunk && old(fileUploadRepository)[data.fileUuid].outstanding == 0 ==>
        (status.Committed? <==> complete.Success?) && (status.CommitFailed? <==> complete.Failure?)
      ensures status.Committed? ==>
        fileUploadRepository == old(fileUploadRepository) - {data.fileUuid} &&
        failedParts == old(failedParts) - {data.fileUuid}
      ensures status.CommitFailed? ==>
        var key := data.fileUuid;
        fileUploadRepository == old(fileUploadRepository)[key := old(fileUploadRepository)[key].(parts := status.parts)] &&
        failedParts == old(failedParts)
    {
      var key := data.fileUuid;
      if !data.isLastChunk {
        return NotLast;
      }
      var info := fileUploadRepository[key];
      if info.outstanding > 0 {
        return Waiting;
      }
      var sorted := SortParts(info.parts);
      if NumberedOneToK(info.parts) {
        CommitListIsDense(info.parts, sorted);
      }
      fileUploadRepository := fileUploadRepository[key := info.(parts := sorted)];
      match complete
      case Failure(_) =>
        status := CommitFailed(sorted);
      case Success(_) =>
        fileUploadRepository := fileUploadRepository - {key};
        failedParts := failedParts - {key};
        status := Committed(sorted);
    }
  }
}
