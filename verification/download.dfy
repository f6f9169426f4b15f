/** The decrypted download of `HandlePlainDownload` (handlers/api.go): the
    stored object is cut into ranges of one encrypted chunk each, the ranges
    are fetched and decrypted concurrently, and a single writer emits the
    plaintexts strictly in index order through a reassembly buffer. */
module Download {
  import opened Common
  import opened Encryption
  import Storage

  /** The length of one stored encrypted chunk: a 5 MiB plaintext plus
      16 bytes of salt, 12 of nonce and 16 of tag. */
  const ChunkLength: nat := 5_242_924

  /** An inclusive byte range, as in an HTTP `Range: bytes=start-end` header. */
  datatype ByteRange = ByteRange(start: nat, end: nat)

  /** ceil(fileSize / ChunkLength), in integers. */
  function NumChunks(fileSize: nat): (count: nat)
  {
    (fileSize + ChunkLength - 1) / ChunkLength
  }

  /** The range requested for chunk k. */
  function RangeOf(k: nat): (r: ByteRange)
  {
    ByteRange(k * ChunkLength, k * ChunkLength + ChunkLength - 1)
  }

  /** NumChunks is the ceiling: its chunks reach the end of the object, and
      one chunk fewer would not. */
  lemma NumChunksIsCeiling(fileSize: nat)
    ensures NumChunks(fileSize) * ChunkLength >= fileSize
    ensures NumChunks(fileSize) > 0 ==> (NumChunks(fileSize) - 1) * ChunkLength < fileSize
  {
  }

  /** The ranges of two different chunks do not overlap, and each one starts
      right after the one before it ends. */
  lemma RangesDisjointAndContiguous(j: nat, k: nat)
    ensures j < k ==> RangeOf(j).end < RangeOf(k).start
    ensures RangeOf(j).end + 1 == RangeOf(j + 1).start
  {
  }

  /** Every byte of the object lies in the range of exactly one planned chunk. */
  lemma RangesCoverObject(fileSize: nat, b: nat)
    requires b < fileSize
    ensures b / ChunkLength < NumChunks(fileSize)
    ensures RangeOf(b / ChunkLength).start <= b <= RangeOf(b / ChunkLength).end
    ensures forall k :: RangeOf(k).start <= b <= RangeOf(k).end ==> k == b / ChunkLength
  {
    forall k | RangeOf(k).start <= b <= RangeOf(k).end
      ensures k == b / ChunkLength
    {
      DivOfRange(b, k);
    }
  }

  lemma DivOfRange(b: nat, k: nat)
    requires k * ChunkLength <= b < k * ChunkLength + ChunkLength
    ensures b / ChunkLength == k
  {
  }

  /** What a ranged GET of the stored object returns (`DownloadChunk`):
      the bytes of the range, cut off at the end of the object as HTTP
      range requests are (RFC 9110 section 14.1.2). */
  function RangeGet(stored: Bytes, r: ByteRange): (data: Bytes)
    requires r.start <= r.end
    ensures |data| <= r.end - r.start + 1
  {
    stored[Min(r.start, |stored|)..Min(r.end + 1, |stored|)]
  }

  /** The launch loop at handlers/api.go:72-83: one ranged fetch per chunk
      index, chunk k asking for bytes [k*L, k*L+L-1]. */
  method PlanDownload(fileSize: nat) returns (ranges: seq<ByteRange>)
    ensures |ranges| == NumChunks(fileSize)
    ensures forall k :: 0 <= k < |ranges| ==> ranges[k] == RangeOf(k)
  {
    var numChunks := NumChunks(fileSize);
    ranges := [];
    for counter := 0 to numChunks
      invariant |ranges| == counter
      invariant forall k :: 0 <= k < counter ==> ranges[k] == RangeOf(k)
    {
      ranges := ranges + [ByteRange(ChunkLength * counter, ChunkLength * counter + ChunkLength - 1)];
    }
  }

  /** A decrypted chunk handed to the writer (`Chunk` at handlers/api.go:17). */
  datatype Chunk = Chunk(index: nat, data: Bytes)

  /** m[0] ++ m[1] ++ ... ++ m[c-1]: the plaintext of the first c chunks. */
  ghost function InOrder(m: map<nat, Bytes>, c: nat): (body: Bytes)
    requires forall i :: 0 <= i < c ==> i in m
  {
    if c == 0 then [] else InOrder(m, c - 1) + m[c - 1]
  }

  /** The first index at or after `from` that has not arrived (or n). */
  ghost function FirstGap(arrived: set<nat>, from: nat, n: nat): (g: nat)
    requires from <= n
    ensures from <= g <= n
    ensures g < n ==> g !in arrived
    ensures forall i :: from <= i < g ==> i in arrived
    decreases n - from
  {
    if from < n && from in arrived then FirstGap(arrived, from + 1, n) else from
  }

  /** The reassembly state of one download: `next` is `writeToResponseIndex`,
      `pending` is `chunkBuffer`, `output` is what has been written to the
      response. `arrived` records every chunk handed over so far. */
  class ReassemblyBuffer {
    const numChunks: nat
    var next: nat
    var pending: map<nat, Bytes>
    var output: Bytes
    ghost var arrived: map<nat, Bytes>

    /** Every chunk before `next` has been written, in order, and every chunk
        that arrived at or after `next` waits in `pending`. */
    ghost predicate Valid()
      reads this
    {
      && next <= numChunks
      && (forall i :: i in arrived ==> i < numChunks)
      && (forall i :: 0 <= i < next ==> i in arrived)
      && (forall i :: i in pending <==> i in arrived && i >= next)
      && (forall i :: i in pending ==> pending[i] == arrived[i])
      && output == InOrder(arrived, next)
    }

    constructor (numChunks: nat)
      ensures Valid()
      ensures this.numChunks == numChunks && next == 0 && pending == map[] && output == [] && arrived == map[]
    {
      this.numChunks := numChunks;
      next := 0;
      pending := map[];
      output := [];
      arrived := map[];
    }

    /** A decrypted chunk is stored under its index (handlers/api.go:105-107).
        Each index is fetched by exactly one task, so it arrives once. */
    method Insert(chunk: Chunk)
      requires Valid()
      requires chunk.index < numChunks && chunk.index !in arrived
      modifies this
      ensures Valid()
      ensures arrived == old(arrived)[chunk.index := chunk.data]
      ensures pending == old(pending)[chunk.index := chunk.data]
      ensures next == old(next) && output == old(output)
    {
      pending := pending[chunk.index := chunk.data];
      arrived := arrived[chunk.index := chunk.data];
      assert forall i :: 0 <= i < next ==> i in old(arrived) && arrived[i] == old(arrived)[i];
      InOrderFrame(old(arrived), arrived, next);
    }

    /** One pass of the writer loop (handlers/api.go:112-125): the chunk at
        the cursor is written, removed and the cursor advanced if it is
        there; otherwise nothing is written and nothing changes. */
    method Poll()
      requires Valid()
      modifies this
      ensures Valid() && arrived == old(arrived)
      ensures old(next) in old(pending) ==>
        next == old(next) + 1 &&
        output == old(output) + old(pending)[old(next)] &&
        pending == old(pending) - {old(next)}
      ensures old(next) !in old(pending) ==>
        next == old(next) && output == old(output) && pending == old(pending)
    {
      if next in pending {
        var data := pending[next];
        output := output + data;
        pending := pending - {next};
        next := next + 1;
      }
    }

    /** The writer spins until the cursor's chunk is missing: it writes the
        longest run of consecutive chunks available from the cursor on. */
    method Drain()
      requires Valid()
      modifies this
      ensures Valid() && arrived == old(arrived)
      ensures next == FirstGap(arrived.Keys, old(next), numChunks)
      ensures next !in pending
    {
      while next < numChunks && next in pending
        invariant Valid() && arrived == old(arrived)
        invariant old(next) <= next
        invariant FirstGap(arrived.Keys, next, numChunks) == FirstGap(arrived.Keys, old(next), numChunks)
        decreases numChunks - next
      {
        Poll();
      }
    }

    /** One decrypted chunk reaches the buffer and the writer then drains
        what it can. When every chunk before the cursor had arrived, the
        cursor ends at the first index not yet arrived. */
    method Receive(chunk: Chunk)
      requires Valid()
      requires chunk.index < numChunks && chunk.index !in arrived
      requires next == FirstGap(arrived.Keys, 0, numChunks)
      modifies this
      ensures Valid()
      ensures arrived == old(arrived)[chunk.index := chunk.data]
      ensures next == FirstGap(arrived.Keys, 0, numChunks)
    {
      Insert(chunk);
      ghost var before := next;
      Drain();
      FirstGapSkip(arrived.Keys, before, numChunks);
    }
  }

  lemma {:induction false} InOrderFrame(m: map<nat, Bytes>, m': map<nat, Bytes>, c: nat)
    requires forall i :: 0 <= i < c ==> i in m && i in m' && m'[i] == m[i]
    ensures InOrder(m', c) == InOrder(m, c)
  {
    if c > 0 {
      InOrderFrame(m, m', c - 1);
    }
  }

  /** Three chunks arriving in the order 2, 0, 1: nothing is written when
      chunk 2 arrives, chunk 0 goes out as soon as it arrives, and chunks 1
      and 2 follow together when chunk 1 arrives. */
  lemma ArrivalOrder201(a: Bytes, b: Bytes, c: Bytes)
    ensures var arrivals := [Chunk(2, c), Chunk(0, a), Chunk(1, b)];
      FirstGap(Arrived(arrivals[..1]).Keys, 0, 3) == 0 &&
      FirstGap(Arrived(arrivals[..2]).Keys, 0, 3) == 1 &&
      FirstGap(Arrived(arrivals).Keys, 0, 3) == 3 &&
      InOrder(Arrived(arrivals), 3) == a + b + c
  {
    var arrivals := [Chunk(2, c), Chunk(0, a), Chunk(1, b)];
    assert arrivals[..1] == [Chunk(2, c)];
    assert arrivals[..2] == [Chunk(2, c), Chunk(0, a)];
    assert Arrived(arrivals[..1]) == map[2 := c];
    assert Arrived(arrivals[..2]) == map[2 := c, 0 := a];
    var m := Arrived(arrivals);
    assert m == map[2 := c, 0 := a, 1 := b];
    assert InOrder(m, 1) == a;
    assert InOrder(m, 2) == a + b;
    assert InOrder(m, 3) == (a + b) + c;
  }

  /** What the writer has received after the given arrivals: index to data. */
  ghost function Arrived(arrivals: seq<Chunk>): (held: map<nat, Bytes>)
  {
    if arrivals == [] then map[]
    else
      var last := arrivals[|arrivals| - 1];
      Arrived(arrivals[..|arrivals| - 1])[last.index := last.data]
  }

  /** Each index of the arrivals is in the map with its data, and nothing else is. */
  lemma {:induction false} ArrivedContents(arrivals: seq<Chunk>)
    requires forall j, k :: 0 <= j < k < |arrivals| ==> arrivals[j].index != arrivals[k].index
    ensures forall k :: 0 <= k < |arrivals| ==>
      arrivals[k].index in Arrived(arrivals) && Arrived(arrivals)[arrivals[k].index] == arrivals[k].data
    ensures forall i :: i in Arrived(arrivals) ==> exists k :: 0 <= k < |arrivals| && arrivals[k].index == i
  {
    if arrivals != [] {
      ArrivedContents(arrivals[..|arrivals| - 1]);
    }
  }

  /** The j-th arrival brings an index not seen before and adds exactly it. */
  lemma ArrivedStep(arrivals: seq<Chunk>, j: nat)
    requires j < |arrivals|
    requires forall j, k :: 0 <= j < k < |arrivals| ==> arrivals[j].index != arrivals[k].index
    ensures arrivals[j].index !in Arrived(arrivals[..j])
    ensures Arrived(arrivals[..j + 1]) == Arrived(arrivals[..j])[arrivals[j].index := arrivals[j].data]
  {
    assert arrivals[..j + 1][..j] == arrivals[..j];
    ArrivedContents(arrivals[..j]);
  }

  /** Starting the search for the first gap after a prefix that is known to
      have arrived gives the same gap as starting at 0. */
  lemma {:induction false} FirstGapSkip(arrived: set<nat>, from: nat, n: nat)
    requires from <= n
    requires forall i :: 0 <= i < from ==> i in arrived
    ensures FirstGap(arrived, 0, n) == FirstGap(arrived, from, n)
    decreases from
  {
    if from > 0 {
      FirstGapSkip(arrived, from - 1, n);
    }
  }

  /** The whole download side of `HandlePlainDownload`: the decrypted chunks
      reach the writer in the order `arrivals` (any order the concurrent
      fetches produce; each index at most once). After every arrival the
      writer drains what it can; `progress[j]` is the cursor after the j-th
      arrival, `held` the indices still buffered at the end. */
  method Reassemble(numChunks: nat, arrivals: seq<Chunk>)
    returns (out: Bytes, progress: seq<nat>, held: set<nat>)
    requires forall j :: 0 <= j < |arrivals| ==> arrivals[j].index < numChunks
    requires forall j, k :: 0 <= j < k < |arrivals| ==> arrivals[j].index != arrivals[k].index
    ensures |progress| == |arrivals|
    ensures forall j :: 0 <= j < |arrivals| ==>
      progress[j] == FirstGap(Arrived(arrivals[..j + 1]).Keys, 0, numChunks)
    ensures out == InOrder(Arrived(arrivals), FirstGap(Arrived(arrivals).Keys, 0, numChunks))
    ensures forall i :: i in held <==>
      i in Arrived(arrivals) && i >= FirstGap(Arrived(arrivals).Keys, 0, numChunks)
    ensures (forall i :: 0 <= i < numChunks ==> i in Arrived(arrivals)) ==>
      held == {} && out == InOrder(Arrived(arrivals), numChunks)
  {
    var buffer := new ReassemblyBuffer(numChunks);
    progress := [];
    for j := 0 to |arrivals|
      invariant buffer.Valid() && buffer.numChunks == numChunks
      invariant buffer.arrived == Arrived(arrivals[..j])
      invariant buffer.next == FirstGap(buffer.arrived.Keys, 0, numChunks)
      invariant |progress| == j
      invariant forall k :: 0 <= k < j ==>
        progress[k] == FirstGap(Arrived(arrivals[..k + 1]).Keys, 0, numChunks)
    {
      ArrivedStep(arrivals, j);
      buffer.Receive(arrivals[j]);
      progress := progress + [buffer.next];
    }
    assert arrivals[..|arrivals|] == arrivals;
    out := buffer.output;
    held := buffer.pending.Keys;
    if forall i :: 0 <= i < numChunks ==> i in Arrived(arrivals) {
      assert buffer.next == numChunks;
    }
  }

  lemma {:induction false} InOrderIsConcat(m: map<nat, Bytes>, plaintexts: seq<Bytes>, n: nat)
    requires n <= |plaintexts|
    requires forall i :: 0 <= i < n ==> i in m && m[i] == plaintexts[i]
    ensures InOrder(m, n) == Concat(plaintexts[..n])
  {
    if n > 0 {
      InOrderIsConcat(m, plaintexts, n - 1);
      assert plaintexts[..n][..n - 1] == plaintexts[..n - 1];
    }
  }

  /** `order` lists every chunk index below n exactly once. */
  ghost predicate IsPermutation(order: seq<nat>, n: nat)
  {
    && (forall j :: 0 <= j < |order| ==> order[j] < n)
    && (forall j, k :: 0 <= j < k < |order| ==> order[j] != order[k])
    && (forall i :: 0 <= i < n ==> i in order)
  }

  /** Range k of the stored object can be split and decrypts. */
  ghost predicate RangeDecrypts(stored: Bytes, k: nat, password: string, c: Cipher)
  {
    |RangeGet(stored, RangeOf(k))| >= MinBlob &&
    Decrypt(RangeGet(stored, RangeOf(k)), password, c).Success?
  }

  /** The plaintext of range k. */
  ghost function PlaintextOf(stored: Bytes, k: nat, password: string, c: Cipher): (plaintext: Bytes)
    requires RangeDecrypts(stored, k, password, c)
  {
    Decrypt(RangeGet(stored, RangeOf(k)), password, c).value
  }

  /** The plaintexts of all planned ranges, in index order. */
  ghost function Plaintexts(stored: Bytes, password: string, c: Cipher): (ps: seq<Bytes>)
    requires forall k :: 0 <= k < NumChunks(|stored|) ==> RangeDecrypts(stored, k, password, c)
    ensures |ps| == NumChunks(|stored|)
    ensures forall k :: 0 <= k < |ps| ==> ps[k] == PlaintextOf(stored, k, password, c)
  {
    seq(NumChunks(|stored|), k requires 0 <= k < NumChunks(|stored|) && RangeDecrypts(stored, k, password, c) =>
      PlaintextOf(stored, k, password, c))
  }

  datatype DownloadOutcome =
    | Streamed(body: Bytes)   // the response body the client receives
    | Fatal                   // log.Fatal or a panic: the process stops

  /** `HandlePlainDownload` (handlers/api.go:51-127). `stored` is the object
      under the requested key, if any; the ranged GETs whose indices are in
      `failedGets` fail; the fetched and decrypted chunks reach the writer in
      the order `order`; the writer writes chunk k as its k-th response
      write, and `writeFault == Some(k)` makes that write fail. A missing
      object, a failed GET, a blob too short to split, a failed decryption
      and a failed response write all end the process; otherwise the client
      receives the plaintexts of all ranges, in index order. */
  method HandlePlainDownload(stored: Option<Bytes>, password: string, c: Cipher,
                             failedGets: set<nat>, order: seq<nat>, writeFault: Option<nat>)
    returns (outcome: DownloadOutcome)
    requires stored.Some? ==> IsPermutation(order, NumChunks(|stored.value|))
    ensures stored.None? ==> outcome == Fatal
    ensures stored.Some? ==>
      (outcome.Streamed? <==>
        (forall k :: 0 <= k < NumChunks(|stored.value|) ==>
          k !in failedGets && RangeDecrypts(stored.value, k, password, c)) &&
        (writeFault.None? || writeFault.value >= NumChunks(|stored.value|)))
    ensures outcome.Streamed? ==>
      stored.Some? &&
      (forall k :: 0 <= k < NumChunks(|stored.value|) ==> RangeDecrypts(stored.value, k, password, c)) &&
      outcome.body == Concat(Plaintexts(stored.value, password, c))
  {
    var head := Storage.HeadFile(if stored.Some? then Some(|stored.value|) else None);
    if head.1.Some? {
      return Fatal;
    }
    var fileSize: nat := head.0;
    var obj := stored.value;
    assert fileSize == |obj|;
    var numChunks := NumChunks(fileSize);
    var ranges := PlanDownload(fileSize);
    var arrivals: seq<Chunk> := [];
    for j := 0 to |order|
      invariant |arrivals| == j
      invariant forall i :: 0 <= i < j ==>
        order[i] !in failedGets && RangeDecrypts(obj, order[i], password, c) &&
        arrivals[i] == Chunk(order[i], PlaintextOf(obj, order[i], password, c))
    {
      var k := order[j];
      if k in failedGets {
        return Fatal;
      }
      var data := RangeGet(obj, ranges[k]);
      if |data| < MinBlob {
        return Fatal;
      }
      var plaintext := Decrypt(data, password, c);
      if plaintext.Failure? {
        return Fatal;
      }
      arrivals := arrivals + [Chunk(k, plaintext.value)];
    }
    ArrivalsCover(obj, password, c, failedGets, order, arrivals);
    ArrivalsInOrder(obj, password, c, order, arrivals);
    var body, progress, held := Reassemble(numChunks, arrivals);
    if writeFault.Some? && writeFault.value < numChunks {
      // w.Write fails and log.Fatalf ends the process
      return Fatal;
    }
    return Streamed(body);
  }

  /** Once every chunk has been fetched and decrypted, in the order `order`,
      every range was fetched and decrypted, and the arrivals carry each
      index exactly once. */
  lemma ArrivalsCover(stored: Bytes, password: string, c: Cipher, failedGets: set<nat>,
                      order: seq<nat>, arrivals: seq<Chunk>)
    requires IsPermutation(order, NumChunks(|stored|))
    requires |arrivals| == |order|
    requires forall i :: 0 <= i < |order| ==>
      order[i] !in failedGets && RangeDecrypts(stored, order[i], password, c) &&
      arrivals[i] == Chunk(order[i], PlaintextOf(stored, order[i], password, c))
    ensures forall k :: 0 <= k < NumChunks(|stored|) ==> k !in failedGets && RangeDecrypts(stored, k, password, c)
    ensures forall j :: 0 <= j < |arrivals| ==> arrivals[j].index < NumChunks(|stored|)
    ensures forall j, k :: 0 <= j < k < |arrivals| ==> arrivals[j].index != arrivals[k].index
  {
    forall k | 0 <= k < NumChunks(|stored|)
      ensures k !in failedGets && RangeDecrypts(stored, k, password, c)
    {
      assert k in order;
    }
  }

  /** ... and writing them in index order gives the plaintexts of the
      ranges in index order. */
  lemma ArrivalsInOrder(stored: Bytes, password: string, c: Cipher,
                        order: seq<nat>, arrivals: seq<Chunk>)
    requires IsPermutation(order, NumChunks(|stored|))
    requires |arrivals| == |order|
    requires forall k :: 0 <= k < NumChunks(|stored|) ==> RangeDecrypts(stored, k, password, c)
    requires forall i :: 0 <= i < |order| ==>
      arrivals[i] == Chunk(order[i], PlaintextOf(stored, order[i], password, c))
    requires forall j, k :: 0 <= j < k < |arrivals| ==> arrivals[j].index != arrivals[k].index
    ensures forall i :: 0 <= i < NumChunks(|stored|) ==> i in Arrived(arrivals)
    ensures InOrder(Arrived(arrivals), NumChunks(|stored|)) == Concat(Plaintexts(stored, password, c))
  {
    var n := NumChunks(|stored|);
    var ps := Plaintexts(stored, password, c);
    forall i | 0 <= i < |order|
      ensures arrivals[i] == Chunk(order[i], ps[order[i]])
    {
    }
    ArrivedArePlaintexts(order, arrivals, ps);
    InOrderIsConcat(Arrived(arrivals), ps, n);
    assert ps[..n] == ps;
  }

  /** Distinct arrivals, one per index of `order`, carrying `ps[k]` for
      index k: the writer holds `ps[k]` under every index k. */
  lemma ArrivedArePlaintexts(order: seq<nat>, arrivals: seq<Chunk>, ps: seq<Bytes>)
    requires IsPermutation(order, |ps|)
    requires |arrivals| == |order|
    requires forall i :: 0 <= i < |order| ==> arrivals[i] == Chunk(order[i], ps[order[i]])
    requires forall j, k :: 0 <= j < k < |arrivals| ==> arrivals[j].index != arrivals[k].index
    ensures forall i :: 0 <= i < |ps| ==> i in Arrived(arrivals) && Arrived(arrivals)[i] == ps[i]
  {
    forall i | 0 <= i < |ps|
      ensures i in Arrived(arrivals) && Arrived(arrivals)[i] == ps[i]
    {
      var j := Position(order, i);
      ArrivedAt(arrivals, j);
    }
  }

  /** Where a chunk index occurs in the arrival order. */
  lemma Position(order: seq<nat>, i: nat) returns (j: nat)
    requires i in order
    ensures j < |order| && order[j] == i
  {
    j :| 0 <= j < |order| && order[j] == i;
  }

  /** After distinct arrivals, the j-th one's data is what the writer holds
      for its index. */
  lemma ArrivedAt(arrivals: seq<Chunk>, j: nat)
    requires j < |arrivals|
    requires forall j, k :: 0 <= j < k < |arrivals| ==> arrivals[j].index != arrivals[k].index
    ensures arrivals[j].index in Arrived(arrivals)
    ensures Arrived(arrivals)[arrivals[j].index] == arrivals[j].data
  {
    ArrivedContents(arrivals);
  }
}
