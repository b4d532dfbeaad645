/** Splitting a file into chunks and assembling chunks in any order back into the file. */
module Chunking {
  import opened Arithmetic
  import opened Finite

  newtype byte = x: int | 0 <= x < 0x100

  type Bytes = seq<byte>

  /** Content hashing is a parameter. */
  type Hasher = Bytes -> string

  datatype Result<T> = Ok(value: T) | Err(error: Error)

  datatype Error =
    | NoChunks | OffsetMismatch | FileHashMismatch | ChunkHashMismatch | ReadFailed
    | TransferExists | TransferNotFound | TransferIncomplete
    | WrongFile | InvalidChunkID | ChunkMissing

  datatype Chunk = Chunk(
    fileID: string, chunkID: int, offset: int, length: int, data: Bytes,
    hash: string, fileHash: string, isLast: bool, totalChunks: int)

  /** `chunks` cut `data` into contiguous pieces, numbered 0, 1, 2, ... in order of their offsets. */
  ghost predicate Partition(chunks: seq<Chunk>, data: Bytes) {
    if chunks == [] then data == []
    else
      var n := |chunks| - 1;
      var c := chunks[n];
      && c.chunkID == n && c.length == |c.data|
      && 0 <= c.offset <= |data| && data[c.offset..] == c.data
      && Partition(chunks[..n], data[..c.offset])
  }

  lemma PartitionExtends(chunks: seq<Chunk>, data: Bytes, c: Chunk)
    requires Partition(chunks, data)
    requires c.chunkID == |chunks| && c.offset == |data| && c.length == |c.data|
    ensures Partition(chunks + [c], data + c.data)
  {
    assert (chunks + [c])[..|chunks|] == chunks;
    assert (data + c.data)[..|data|] == data;
  }

  lemma {:induction false} PartitionDetermines(chunks: seq<Chunk>, data: Bytes, other: Bytes)
    requires Partition(chunks, data) && Partition(chunks, other)
    ensures data == other
  {
    if chunks != [] {
      var n := |chunks| - 1;
      PartitionDetermines(chunks[..n], data[..chunks[n].offset], other[..chunks[n].offset]);
      assert data == data[..chunks[n].offset] + chunks[n].data;
      assert other == other[..chunks[n].offset] + chunks[n].data;
    }
  }

  lemma {:induction false} PartitionIsNumbered(chunks: seq<Chunk>, data: Bytes)
    requires Partition(chunks, data)
    ensures forall i :: 0 <= i < |chunks| ==> chunks[i].chunkID == i && chunks[i].length == |chunks[i].data|
  {
    if chunks != [] {
      var n := |chunks| - 1;
      PartitionIsNumbered(chunks[..n], data[..chunks[n].offset]);
      assert forall i :: 0 <= i < n ==> chunks[i] == chunks[..n][i];
    }
  }

  // ---- the chunker ----

  function CalculateChunkCount(fileSize: nat, chunkSize: nat): nat
    requires chunkSize > 0
  {
    if fileSize == 0 then 1 else (fileSize + chunkSize - 1) / chunkSize
  }

  lemma CeilingDivision(size: nat, chunkSize: nat)
    requires size > 0 && chunkSize > 0
    ensures var n := CalculateChunkCount(size, chunkSize); n > 0 && (n - 1) * chunkSize < size <= n * chunkSize
  {
    var n := (size + chunkSize - 1) / chunkSize;
    var rest := (size + chunkSize - 1) % chunkSize;
    assert size + chunkSize - 1 == n * chunkSize + rest;
    assert (n - 1) * chunkSize == n * chunkSize - chunkSize;
  }

  lemma SmallFileIsOneChunk(size: nat, chunkSize: nat)
    requires size <= chunkSize && chunkSize > 0
    ensures CalculateChunkCount(size, chunkSize) == 1
  {
    if size > 0 {
      var n := CalculateChunkCount(size, chunkSize);
      CeilingDivision(size, chunkSize);
      if n > 1 {
        Scale(1, n - 1, chunkSize);
      }
    }
  }

  /** What every chunk says about itself: its hash, its file, the total, and whether it is last. */
  ghost predicate Labelled(chunks: seq<Chunk>, h: Hasher, fileID: string, total: int) {
    forall i :: 0 <= i < |chunks| ==>
      && chunks[i].fileID == fileID && chunks[i].hash == h(chunks[i].data)
      && chunks[i].totalChunks == total && chunks[i].fileHash == ""
      && (chunks[i].isLast <==> i == total - 1)
  }

  /** Chunk `i` of a non-empty file covers the bytes from `i * chunkSize` on. */
  function ChunkAt(h: Hasher, chunkSize: nat, fileID: string, data: Bytes, i: nat): Chunk
    requires chunkSize > 0 && data != [] && i < CalculateChunkCount(|data|, chunkSize)
  {
    CeilingDivision(|data|, chunkSize);
    Multiples(i, CalculateChunkCount(|data|, chunkSize), chunkSize);
    var n := CalculateChunkCount(|data|, chunkSize);
    var end := if i * chunkSize + chunkSize > |data| then |data| else i * chunkSize + chunkSize;
    var piece := data[i * chunkSize..end];
    Chunk(fileID, i, i * chunkSize, |piece|, piece, h(piece), "", i == n - 1, n)
  }

  /** An empty file is one empty chunk. */
  function FileChunks(h: Hasher, chunkSize: nat, fileID: string, data: Bytes): (chunks: seq<Chunk>)
    requires chunkSize > 0
  {
    if data == [] then [Chunk(fileID, 0, 0, 0, [], h([]), "", true, 1)]
    else
      var n := CalculateChunkCount(|data|, chunkSize);
      seq(n, i requires 0 <= i < n => ChunkAt(h, chunkSize, fileID, data, i))
  }

  method ChunkFile(h: Hasher, chunkSize: nat, fileID: string, data: Bytes) returns (chunks: seq<Chunk>)
    requires chunkSize > 0
    ensures chunks == FileChunks(h, chunkSize, fileID, data)
  {
    if |data| == 0 {
      return [Chunk(fileID, 0, 0, 0, [], h([]), "", true, 1)];
    }
    var totalSize := |data|;
    var totalChunks := (totalSize + chunkSize - 1) / chunkSize;
    CeilingDivision(totalSize, chunkSize);
    chunks := [];
    for i := 0 to totalChunks
      invariant |chunks| == i
      invariant forall k :: 0 <= k < i ==> chunks[k] == ChunkAt(h, chunkSize, fileID, data, k)
    {
      Multiples(i, totalChunks, chunkSize);
      var offset := i * chunkSize;
      var end := offset + chunkSize;
      if end > totalSize {
        end := totalSize;
      }
      var chunkData := data[offset..end];
      var chunk := Chunk(fileID, i, offset, |chunkData|, chunkData, h(chunkData), "",
                         i == totalChunks - 1, totalChunks);
      chunks := chunks + [chunk];
    }
  }

  lemma Multiples(i: nat, n: nat, size: nat)
    requires i < n && size > 0
    ensures i * size <= (n - 1) * size
    ensures i < n - 1 ==> i * size + size <= (n - 1) * size
    ensures (i + 1) * size == i * size + size
  {
    Scale(i, n - 1, size);
    if i < n - 1 {
      Scale(i + 1, n - 1, size);
    }
  }

  /** Where piece `i` of a file starts. */
  function Cut(size: nat, chunkSize: nat, i: nat): (c: nat)
    ensures c <= size
  {
    if i * chunkSize > size then size else i * chunkSize
  }

  lemma ChunkSpans(h: Hasher, chunkSize: nat, fileID: string, data: Bytes, i: nat)
    requires chunkSize > 0 && data != [] && i < CalculateChunkCount(|data|, chunkSize)
    ensures var c, n := ChunkAt(h, chunkSize, fileID, data, i), CalculateChunkCount(|data|, chunkSize);
            && Cut(|data|, chunkSize, i) <= Cut(|data|, chunkSize, i + 1)
            && c.offset == Cut(|data|, chunkSize, i)
            && c.data == data[Cut(|data|, chunkSize, i)..Cut(|data|, chunkSize, i + 1)]
            && |c.data| <= chunkSize && (i < n - 1 ==> |c.data| == chunkSize) && |c.data| > 0
            && Cut(|data|, chunkSize, n) == |data|
  {
    CeilingDivision(|data|, chunkSize);
    Multiples(i, CalculateChunkCount(|data|, chunkSize), chunkSize);
  }

  lemma {:induction false} ChunksCover(h: Hasher, chunkSize: nat, fileID: string, data: Bytes, i: nat)
    requires chunkSize > 0 && data != [] && i <= CalculateChunkCount(|data|, chunkSize)
    ensures Partition(FileChunks(h, chunkSize, fileID, data)[..i], data[..Cut(|data|, chunkSize, i)])
  {
    if i > 0 {
      ChunksCover(h, chunkSize, fileID, data, i - 1);
      ChunkSpans(h, chunkSize, fileID, data, i - 1);
      var chunks := FileChunks(h, chunkSize, fileID, data);
      ExtendBy(chunks, i - 1, data, Cut(|data|, chunkSize, i - 1), Cut(|data|, chunkSize, i));
    }
  }

  lemma ExtendBy(chunks: seq<Chunk>, i: nat, data: Bytes, start: nat, end: nat)
    requires i < |chunks| && start <= end <= |data| && Partition(chunks[..i], data[..start])
    requires var c := chunks[i];
             c.chunkID == i && c.offset == start && c.data == data[start..end] && c.length == |c.data|
    ensures Partition(chunks[..i + 1], data[..end])
  {
    PartitionExtends(chunks[..i], data[..start], chunks[i]);
    assert chunks[..i] + [chunks[i]] == chunks[..i + 1];
    assert data[..start] + chunks[i].data == data[..end];
  }

  /** The chunks of a file cut it into as many pieces as were computed up front: all of full size
      but the last, which is empty only for an empty file and alone is marked as last. */
  lemma ChunkFilePartitions(h: Hasher, chunkSize: nat, fileID: string, data: Bytes)
    requires chunkSize > 0
    ensures var chunks := FileChunks(h, chunkSize, fileID, data);
            && |chunks| == CalculateChunkCount(|data|, chunkSize) > 0
            && Partition(chunks, data) && Labelled(chunks, h, fileID, |chunks|)
            && (forall i :: 0 <= i < |chunks| - 1 ==> |chunks[i].data| == chunkSize)
            && |chunks[|chunks| - 1].data| <= chunkSize
            && (data != [] ==> |chunks[|chunks| - 1].data| > 0)
  {
    var chunks := FileChunks(h, chunkSize, fileID, data);
    if data == [] {
      PartitionExtends([], [], chunks[0]);
    } else {
      var n := |chunks|;
      CeilingDivision(|data|, chunkSize);
      forall i | 0 <= i < n
        ensures |chunks[i].data| == chunkSize || i == n - 1
      {
        ChunkSpans(h, chunkSize, fileID, data, i);
      }
      ChunksCover(h, chunkSize, fileID, data, n);
      ChunkSpans(h, chunkSize, fileID, data, n - 1);
      assert chunks[..n] == chunks && data[..|data|] == data;
    }
  }

  /** One call of a reader: the bytes it delivered and how it reported the end. */
  datatype Read = Read(data: Bytes, eof: bool, failed: bool)

  /** The bytes a reader delivers from call `k` on, until it returns nothing or reports the end. */
  function Delivered(schedule: seq<Read>, k: nat): Bytes
    requires k <= |schedule|
    decreases |schedule| - k
  {
    if k == |schedule| || schedule[k].data == [] then []
    else schedule[k].data + if schedule[k].eof then [] else Delivered(schedule, k + 1)
  }

  /** The chunker goes on to call `k`: all calls before delivered something and none reported the end. */
  ghost predicate GoesOn(schedule: seq<Read>, k: nat) {
    k <= |schedule| && forall j :: 0 <= j < k ==> schedule[j].data != [] && !schedule[j].eof && !schedule[j].failed
  }

  /** The chunker runs into a failing call. */
  ghost predicate Fails(schedule: seq<Read>) {
    exists k: nat :: k < |schedule| && schedule[k].failed && GoesOn(schedule, k)
  }

  /** The chunker stops after `n` chunks: at the end of the schedule, before a call that delivers nothing,
      or with a call that reports the end. */
  ghost predicate StopsAfter(schedule: seq<Read>, n: nat) {
    || (GoesOn(schedule, n) && (n == |schedule| || (!schedule[n].failed && schedule[n].data == [])))
    || (0 < n <= |schedule| && GoesOn(schedule, n - 1) && schedule[n - 1].eof && !schedule[n - 1].failed)
  }

  lemma StoppingIsNotFailing(schedule: seq<Read>, n: nat)
    requires StopsAfter(schedule, n)
    ensures !Fails(schedule)
  {
  }

  lemma GoesOnNext(schedule: seq<Read>, k: nat)
    requires GoesOn(schedule, k) && k < |schedule| && schedule[k].data != [] && !schedule[k].failed
    ensures if schedule[k].eof then StopsAfter(schedule, k + 1) else GoesOn(schedule, k + 1)
  {
  }

  lemma StopsHere(schedule: seq<Read>, k: nat)
    requires GoesOn(schedule, k) && (k == |schedule| || (!schedule[k].failed && schedule[k].data == []))
    ensures StopsAfter(schedule, k)
  {
  }

  /** One chunk for each call, with its bytes; a chunk is last when its call reported the end. */
  ghost predicate FromReader(chunks: seq<Chunk>, h: Hasher, fileID: string, schedule: seq<Read>, total: int) {
    && |chunks| <= |schedule|
    && forall i :: 0 <= i < |chunks| ==>
         && chunks[i].data == schedule[i].data != [] && (chunks[i].isLast <==> schedule[i].eof)
         && chunks[i].fileID == fileID && chunks[i].hash == h(chunks[i].data) && chunks[i].fileHash == ""
         && chunks[i].totalChunks == total
  }

  /** Piece `i` of a partition sits right after the pieces before it. */
  lemma {:induction false} PartitionAt(chunks: seq<Chunk>, data: Bytes, i: nat)
    requires Partition(chunks, data) && i < |chunks|
    ensures var c := chunks[i];
            && c.chunkID == i && c.length == |c.data| && 0 <= c.offset <= c.offset + |c.data| <= |data|
            && data[c.offset..c.offset + |c.data|] == c.data
            && Partition(chunks[..i], data[..c.offset])
            && (i == |chunks| - 1 ==> c.offset + |c.data| == |data|)
  {
    var n := |chunks| - 1;
    if i < n {
      PartitionAt(chunks[..n], data[..chunks[n].offset], i);
      assert chunks[..n][..i] == chunks[..i];
      var c := chunks[i];
      assert data[..chunks[n].offset][..c.offset] == data[..c.offset];
      assert data[..chunks[n].offset][c.offset..c.offset + |c.data|] == data[c.offset..c.offset + |c.data|];
    } else {
      assert data[chunks[n].offset..|data|] == data[chunks[n].offset..];
    }
  }

  /** Short reads are cut into chunks as they come; a reader with nothing left returns no bytes.
      One call fills at most a buffer of `chunkSize` bytes and reports at most one error. */
  method ChunkReader(h: Hasher, chunkSize: nat, fileID: string, schedule: seq<Read>)
    returns (r: Result<seq<Chunk>>)
    requires forall k :: 0 <= k < |schedule| ==>
               |schedule[k].data| <= chunkSize && !(schedule[k].eof && schedule[k].failed)
    ensures r.Err? <==> Fails(schedule)
    ensures r.Ok? ==> Partition(r.value, Delivered(schedule, 0)) && StopsAfter(schedule, |r.value|)
    ensures r.Ok? ==> FromReader(r.value, h, fileID, schedule, |r.value|)
  {
    var failed, chunks := ReadAll(h, fileID, schedule);
    if failed {
      return Err(ReadFailed);
    }
    chunks := StampTotals(h, fileID, chunks, schedule);
    return Ok(chunks);
  }

  method ReadAll(h: Hasher, fileID: string, schedule: seq<Read>) returns (failed: bool, chunks: seq<Chunk>)
    ensures failed <==> Fails(schedule)
    ensures !failed ==> Partition(chunks, Delivered(schedule, 0)) && FromReader(chunks, h, fileID, schedule, -1)
    ensures !failed ==> StopsAfter(schedule, |chunks|)
  {
    assert GoesOn(schedule, 0) && Partition([], []) && FromReader([], h, fileID, schedule, -1);
    hide GoesOn, StopsAfter, Partition, FromReader;
    chunks := [];
    var offset, chunkID := 0, 0;
    ghost var got: Bytes := [];
    for next := 0 to |schedule|
      invariant chunkID == |chunks| == next && offset == |got|
      invariant Partition(chunks, got) && FromReader(chunks, h, fileID, schedule, -1)
      invariant Delivered(schedule, 0) == got + Delivered(schedule, next)
      invariant GoesOn(schedule, next)
    {
      var read := schedule[next];
      if read.failed {
        return true, chunks;
      }
      if |read.data| == 0 {
        assert Delivered(schedule, 0) == got;
        StopsHere(schedule, next);
        StoppingIsNotFailing(schedule, next);
        return false, chunks;
      }
      Advance(schedule, next, got);
      GoesOnNext(schedule, next);
      chunks := AppendChunk(h, fileID, chunks, got, chunkID, offset, schedule);
      got := got + read.data;
      offset := offset + |read.data|;
      chunkID := chunkID + 1;
      if read.eof {
        assert Delivered(schedule, 0) == got;
        StoppingIsNotFailing(schedule, next + 1);
        return false, chunks;
      }
    }
    assert Delivered(schedule, 0) == got;
    StopsHere(schedule, |schedule|);
    StoppingIsNotFailing(schedule, |schedule|);
    return false, chunks;
  }

  lemma Advance(schedule: seq<Read>, k: nat, got: Bytes)
    requires k < |schedule| && schedule[k].data != [] && !schedule[k].failed
    ensures got + Delivered(schedule, k) ==
            got + schedule[k].data + if schedule[k].eof then [] else Delivered(schedule, k + 1)
  {
  }

  method AppendChunk(h: Hasher, fileID: string, chunks: seq<Chunk>, ghost got: Bytes,
                     chunkID: nat, offset: nat, schedule: seq<Read>) returns (more: seq<Chunk>)
    requires Partition(chunks, got) && FromReader(chunks, h, fileID, schedule, -1)
    requires chunkID == |chunks| < |schedule| && offset == |got| && schedule[chunkID].data != []
    ensures |more| == |chunks| + 1
    ensures Partition(more, got + schedule[|chunks|].data) && FromReader(more, h, fileID, schedule, -1)
  {
    var read := schedule[chunkID];
    var chunk := Chunk(fileID, chunkID, offset, |read.data|, read.data, h(read.data), "", read.eof, -1);
    PartitionExtends(chunks, got, chunk);
    more := chunks + [chunk];
  }

  method StampTotals(h: Hasher, fileID: string, chunks: seq<Chunk>, ghost schedule: seq<Read>)
    returns (stamped: seq<Chunk>)
    requires Partition(chunks, Delivered(schedule, 0)) && FromReader(chunks, h, fileID, schedule, -1)
    ensures |stamped| == |chunks|
    ensures Partition(stamped, Delivered(schedule, 0)) && FromReader(stamped, h, fileID, schedule, |stamped|)
  {
    stamped := [];
    for i := 0 to |chunks|
      invariant |stamped| == i
      invariant forall k :: 0 <= k < i ==> stamped[k] == chunks[k].(totalChunks := |chunks|)
    {
      stamped := stamped + [chunks[i].(totalChunks := |chunks|)];
    }
    LabelsDoNotMatter(chunks, stamped, Delivered(schedule, 0));
  }

  predicate SamePlace(c: Chunk, d: Chunk) {
    c.chunkID == d.chunkID && c.offset == d.offset && c.length == d.length && c.data == d.data
  }

  /** Only numbering, offsets, lengths and data make a partition. */
  lemma {:induction false} LabelsDoNotMatter(chunks: seq<Chunk>, relabelled: seq<Chunk>, data: Bytes)
    requires Partition(chunks, data) && |relabelled| == |chunks|
    requires forall k :: 0 <= k < |chunks| ==> SamePlace(chunks[k], relabelled[k])
    ensures Partition(relabelled, data)
  {
    if chunks != [] {
      var n := |chunks| - 1;
      LabelsDoNotMatter(chunks[..n], relabelled[..n], data[..chunks[n].offset]);
    }
  }

  /** A reader that never comes back empty or failing, and reports the end at most with its last
      bytes, delivers everything it was given. */
  lemma {:induction false} ShortReadsDeliverAll(schedule: seq<Read>, k: nat)
    requires k <= |schedule|
    requires forall i :: 0 <= i < |schedule| ==>
               schedule[i].data != [] && !schedule[i].failed && (schedule[i].eof ==> i == |schedule| - 1)
    ensures !Fails(schedule) && Delivered(schedule, k) == AllBytes(schedule, k)
    decreases |schedule| - k
  {
    if k < |schedule| {
      ShortReadsDeliverAll(schedule, k + 1);
    }
  }

  function AllBytes(schedule: seq<Read>, k: nat): Bytes
    requires k <= |schedule|
    decreases |schedule| - k
  {
    if k == |schedule| then [] else schedule[k].data + AllBytes(schedule, k + 1)
  }

  // ---- the assembler ----

  ghost predicate SortedByID(s: seq<Chunk>) {
    forall i, j :: 0 <= i < j < |s| ==> s[i].chunkID <= s[j].chunkID
  }

  /** The length of the first `k` chunks, going by their headers. */
  function TotalLength(chunks: seq<Chunk>, k: nat): int
    requires k <= |chunks|
  {
    if k == 0 then 0 else TotalLength(chunks, k - 1) + chunks[k - 1].length
  }

  /** Writing into a buffer stops at its end. */
  function WriteAt(buffer: Bytes, offset: nat, data: Bytes): Bytes
    requires offset <= |buffer|
  {
    if offset + |data| <= |buffer| then buffer[..offset] + data + buffer[offset + |data|..]
    else buffer[..offset] + data[..|buffer| - offset]
  }

  /** Each of the first `k` chunks starts where the chunks before it end. */
  predicate Contiguous(sorted: seq<Chunk>, k: nat)
    requires k <= |sorted|
  {
    k == 0 || (Contiguous(sorted, k - 1) && sorted[k - 1].offset == TotalLength(sorted, k - 1))
  }

  lemma {:induction false} ContiguousStart(sorted: seq<Chunk>, i: nat, k: nat)
    requires i <= k <= |sorted| && Contiguous(sorted, k)
    ensures Contiguous(sorted, i)
    decreases k
  {
    if i < k {
      ContiguousStart(sorted, i, k - 1);
    }
  }

  ghost predicate NonNegative(chunks: seq<Chunk>) {
    forall c :: c in chunks ==> c.length >= 0
  }

  lemma {:induction false} LengthsAddUp(chunks: seq<Chunk>, i: nat, k: nat)
    requires i <= k <= |chunks| && NonNegative(chunks)
    ensures 0 <= TotalLength(chunks, i) <= TotalLength(chunks, k)
    decreases k
  {
    if i < k {
      LengthsAddUp(chunks, i, k - 1);
    } else if k > 0 {
      LengthsAddUp(chunks, k - 1, k - 1);
    }
  }

  /** The first `k` chunks start inside the buffer. */
  ghost predicate Fits(sorted: seq<Chunk>, k: nat)
    requires k <= |sorted|
  {
    && TotalLength(sorted, |sorted|) >= 0
    && forall j: nat :: j < k ==> 0 <= TotalLength(sorted, j) <= TotalLength(sorted, |sorted|)
  }

  /** A negative length in a header makes the program panic if the total is negative, or if a chunk whose
      offset is accepted would be copied to outside the buffer. */
  ghost predicate NoPanic(sorted: seq<Chunk>) {
    && TotalLength(sorted, |sorted|) >= 0
    && forall k: nat :: k < |sorted| && Contiguous(sorted, k + 1) ==>
         0 <= TotalLength(sorted, k) <= TotalLength(sorted, |sorted|)
  }

  /** Assembling does not panic, in whatever order equal IDs are sorted. */
  ghost predicate Safe(chunks: seq<Chunk>) {
    forall sorted :: SortedByID(sorted) && multiset(sorted) == multiset(chunks) ==> NoPanic(sorted)
  }

  lemma NonNegativeIsSafe(chunks: seq<Chunk>)
    requires NonNegative(chunks)
    ensures Safe(chunks) && NoPanic(chunks)
    ensures forall k: nat :: k <= |chunks| ==> Fits(chunks, k)
  {
    AllFit(chunks);
    forall sorted | SortedByID(sorted) && multiset(sorted) == multiset(chunks)
      ensures NoPanic(sorted)
    {
      SameElements(sorted, chunks);
      AllFit(sorted);
    }
  }

  lemma AllFit(chunks: seq<Chunk>)
    requires NonNegative(chunks)
    ensures Fits(chunks, |chunks|)
  {
    forall k: nat | k <= |chunks|
      ensures 0 <= TotalLength(chunks, k) <= TotalLength(chunks, |chunks|)
    {
      LengthsAddUp(chunks, k, |chunks|);
    }
  }

  lemma ContiguousFits(sorted: seq<Chunk>, k: nat)
    requires k <= |sorted| && NoPanic(sorted) && Contiguous(sorted, k)
    ensures Fits(sorted, k)
  {
    forall j: nat | j < k
      ensures 0 <= TotalLength(sorted, j) <= TotalLength(sorted, |sorted|)
    {
      ContiguousStart(sorted, j + 1, k);
    }
  }

  /** The first `k` chunks written one after the other into a buffer of zeros. */
  function Written(sorted: seq<Chunk>, k: nat): (r: Bytes)
    requires k <= |sorted| && Fits(sorted, k)
    ensures |r| == TotalLength(sorted, |sorted|)
  {
    if k == 0 then seq(TotalLength(sorted, |sorted|), _ => 0)
    else WriteAt(Written(sorted, k - 1), TotalLength(sorted, k - 1), sorted[k - 1].data)
  }

  /** The outcome of assembling chunks that are already in order. */
  function Assembled(h: Hasher, sorted: seq<Chunk>, expected: string): Result<Bytes>
    requires NoPanic(sorted)
  {
    if !Contiguous(sorted, |sorted|) then Err(OffsetMismatch)
    else
      ContiguousFits(sorted, |sorted|);
      if h(Written(sorted, |sorted|)) != expected then Err(FileHashMismatch)
      else Ok(Written(sorted, |sorted|))
  }

  method VerifyChunkHash(h: Hasher, chunk: Chunk) returns (r: Result<()>)
    ensures r == if h(chunk.data) == chunk.hash then Ok(()) else Err(ChunkHashMismatch)
  {
    if h(chunk.data) != chunk.hash {
      return Err(ChunkHashMismatch);
    }
    return Ok(());
  }

  /** Sorting in place. The order among equal IDs is not promised. */
  method SortByChunkID(a: array<Chunk>)
    modifies a
    ensures SortedByID(a[..]) && multiset(a[..]) == multiset(old(a[..]))
  {
    for n := 0 to a.Length
      invariant SortedByID(a[..n]) && multiset(a[..]) == multiset(old(a[..]))
    {
      SinkInto(a, n);
    }
    assert a[..a.Length] == a[..];
  }

  method SinkInto(a: array<Chunk>, n: nat)
    requires n < a.Length && SortedByID(a[..n])
    modifies a
    ensures SortedByID(a[..n + 1]) && multiset(a[..]) == multiset(old(a[..]))
  {
    var j := n;
    while j > 0 && a[j].chunkID < a[j - 1].chunkID
      invariant j <= n && multiset(a[..]) == multiset(old(a[..]))
      invariant forall p, q :: 0 <= p < q <= n && q != j ==> a[p].chunkID <= a[q].chunkID
    {
      Swap(a, j - 1, j);
      j := j - 1;
    }
  }

  method Swap(a: array<Chunk>, i: nat, j: nat)
    requires i < j < a.Length
    modifies a
    ensures a[i] == old(a[j]) && a[j] == old(a[i])
    ensures forall k :: 0 <= k < a.Length && k != i && k != j ==> a[k] == old(a[k])
    ensures multiset(a[..]) == multiset(old(a[..]))
  {
    a[i], a[j] := a[j], a[i];
  }

  ghost predicate SortedCopy(sorted: seq<Chunk>, chunks: seq<Chunk>) {
    SortedByID(sorted) && multiset(sorted) == multiset(chunks) && NoPanic(sorted)
  }

  /** A possible outcome of assembling: sorting does not promise an order among equal IDs. */
  ghost predicate MayAssemble(h: Hasher, chunks: seq<Chunk>, expected: string, r: Result<Bytes>) {
    exists sorted :: SortedCopy(sorted, chunks) && r == Assembled(h, sorted, expected)
  }

  /** Called where it does not panic. */
  method AssembleChunks(h: Hasher, chunks: seq<Chunk>, expectedFileHash: string) returns (r: Result<Bytes>)
    requires Safe(chunks)
    ensures r == Err(NoChunks) <==> chunks == []
    ensures chunks != [] ==> MayAssemble(h, chunks, expectedFileHash, r)
    ensures r.Ok? ==> h(r.value) == expectedFileHash
    ensures forall parts, data ::
              Partition(parts, data) && chunks != [] && multiset(parts) == multiset(chunks)
              && h(data) == expectedFileHash
              ==> r == Ok(data)
  {
    if |chunks| == 0 {
      return Err(NoChunks);
    }
    var copy := new Chunk[|chunks|](i requires 0 <= i < |chunks| => chunks[i]);
    assert copy[..] == chunks;
    SortByChunkID(copy);
    var sorted := copy[..];
    SameElements(sorted, chunks);
    r := WriteSorted(h, sorted, expectedFileHash);
    forall parts, data | Partition(parts, data) && multiset(parts) == multiset(chunks) &&
        h(data) == expectedFileHash
      ensures r == Ok(data)
    {
      PartitionReassembles(h, sorted, parts, data, expectedFileHash);
    }
  }

  method WriteSorted(h: Hasher, sorted: seq<Chunk>, expectedFileHash: string) returns (r: Result<Bytes>)
    requires NoPanic(sorted)
    ensures r == Assembled(h, sorted, expectedFileHash)
  {
    var totalSize := 0;
    for i := 0 to |sorted|
      invariant totalSize == TotalLength(sorted, i)
    {
      totalSize := totalSize + sorted[i].length;
    }
    var assembled := new byte[totalSize](_ => 0);
    var offset := 0;
    assert assembled[..] == Written(sorted, 0);
    for i := 0 to |sorted|
      invariant offset == TotalLength(sorted, i)
      invariant Contiguous(sorted, i) && Fits(sorted, i) && assembled[..] == Written(sorted, i)
    {
      if sorted[i].offset != offset {
        if Contiguous(sorted, |sorted|) {
          ContiguousStart(sorted, i + 1, |sorted|);
        }
        return Err(OffsetMismatch);
      }
      ContiguousFits(sorted, i + 1);
      CopyInto(assembled, offset, sorted[i].data);
      offset := offset + sorted[i].length;
    }
    if h(assembled[..]) != expectedFileHash {
      return Err(FileHashMismatch);
    }
    return Ok(assembled[..]);
  }

  lemma SameElements(s: seq<Chunk>, t: seq<Chunk>)
    requires multiset(s) == multiset(t)
    ensures forall c :: c in s <==> c in t
    ensures |s| == |t|
  {
    assert forall c :: c in s <==> c in multiset(s);
    assert forall c :: c in t <==> c in multiset(t);
    assert |multiset(s)| == |s| && |multiset(t)| == |t|;
  }

  // ---- reassembly ----

  /** Sorting any arrangement of chunks numbered 0, 1, 2, ... leaves no choice of order. */
  lemma {:induction false} SortingIsUnique(sorted: seq<Chunk>, parts: seq<Chunk>)
    requires SortedByID(sorted) && multiset(sorted) == multiset(parts)
    requires forall k :: 0 <= k < |parts| ==> parts[k].chunkID == k
    ensures sorted == parts
    decreases |parts|
  {
    SameElements(sorted, parts);
    if parts != [] {
      var n := |parts| - 1;
      LastIsGreatest(sorted, parts);
      DropLast(sorted);
      DropLast(parts);
      SortingIsUnique(sorted[..n], parts[..n]);
    }
  }

  lemma DropLast(s: seq<Chunk>)
    requires s != []
    ensures multiset(s[..|s| - 1]) == multiset(s) - multiset{s[|s| - 1]}
    ensures s == s[..|s| - 1] + [s[|s| - 1]]
  {
    assert s == s[..|s| - 1] + [s[|s| - 1]];
  }

  lemma LastIsGreatest(sorted: seq<Chunk>, parts: seq<Chunk>)
    requires parts != [] && |sorted| == |parts| && SortedByID(sorted)
    requires forall c :: c in sorted <==> c in parts
    requires forall k :: 0 <= k < |parts| ==> parts[k].chunkID == k
    ensures sorted[|parts| - 1] == parts[|parts| - 1]
  {
    var n := |parts| - 1;
    assert sorted[n] in parts && parts[n] in sorted;
    var m :| 0 <= m <= n && sorted[m] == parts[n];
    var k :| 0 <= k <= n && parts[k] == sorted[n];
    assert sorted[m].chunkID <= sorted[n].chunkID;
  }

  lemma {:induction false} PartitionIsWrittenInOrder(parts: seq<Chunk>, k: nat, data: Bytes)
    requires NonNegative(parts) && Fits(parts, |parts|) && k <= |parts| && Partition(parts[..k], data)
    ensures Contiguous(parts, k) && TotalLength(parts, k) == |data| <= TotalLength(parts, |parts|)
    ensures Written(parts, k) == data + Written(parts, 0)[|data|..]
  {
    LengthsAddUp(parts, k, |parts|);
    if k > 0 {
      var before := data[..parts[k - 1].offset];
      assert parts[..k][..k - 1] == parts[..k - 1];
      PartitionIsWrittenInOrder(parts, k - 1, before);
      assert data == before + parts[k - 1].data;
    }
  }

  /** Any contiguous partition reassembles, from any permutation, to the bytes it was cut from. */
  lemma PartitionReassembles(h: Hasher, sorted: seq<Chunk>, parts: seq<Chunk>, data: Bytes, expected: string)
    requires Partition(parts, data) && SortedCopy(sorted, parts)
    ensures Assembled(h, sorted, expected) == if h(data) == expected then Ok(data) else Err(FileHashMismatch)
  {
    PartitionIsNumbered(parts, data);
    SortingIsUnique(sorted, parts);
    assert parts[..|parts|] == parts;
    AllFit(parts);
    PartitionIsWrittenInOrder(parts, |parts|, data);
    assert Written(parts, |parts|) == data;
  }

  /** A chunk that holds something cannot start in two places, so a repeated chunk is never assembled. */
  lemma RepeatedChunkFails(h: Hasher, chunks: seq<Chunk>, sorted: seq<Chunk>, expected: string)
    requires SortedCopy(sorted, chunks) && !NoDuplicates(chunks)
    requires forall c :: c in chunks ==> c.length > 0
    ensures Assembled(h, sorted, expected) == Err(OffsetMismatch)
  {
    hide SortedByID, NoPanic, Contiguous, TotalLength;
    SameElements(sorted, chunks);
    PermutationRepeats(sorted, chunks);
    var i, j :| 0 <= i < j < |sorted| && sorted[i] == sorted[j];
    RepeatedIsNotContiguous(sorted, i, j);
  }

  lemma RepeatedIsNotContiguous(sorted: seq<Chunk>, i: nat, j: nat)
    requires i < j < |sorted| && sorted[i] == sorted[j] && forall c :: c in sorted ==> c.length > 0
    ensures !Contiguous(sorted, |sorted|)
  {
    if Contiguous(sorted, |sorted|) {
      ContiguousStart(sorted, i + 1, |sorted|);
      ContiguousStart(sorted, j + 1, |sorted|);
      LengthsAddUp(sorted, i + 1, j);
      assert false;
    }
  }

  /** Not every negative length makes the program panic: the first list is safe, the second is not. */
  lemma NegativeLengths(harmless: seq<Chunk>, harmful: seq<Chunk>)
    requires |harmless| == 3 && forall i :: 0 <= i < 3 ==> harmless[i].chunkID == i
    requires harmless[0].length == 5 && harmless[1].length == -2 && harmless[2].length == 2
    requires |harmful| == 1 && harmful[0].length == -1
    ensures Safe(harmless) && !Safe(harmful)
  {
    forall sorted | SortedByID(sorted) && multiset(sorted) == multiset(harmless)
      ensures NoPanic(sorted)
    {
      SortingIsUnique(sorted, harmless);
      assert TotalLength(harmless, 1) == 5;
      assert TotalLength(harmless, 2) == TotalLength(harmless, 1) - 2;
      assert TotalLength(harmless, 3) == TotalLength(harmless, 2) + 2;
    }
    assert TotalLength(harmful, 1) == -1;
    assert SortedByID(harmful) && !NoPanic(harmful);
  }

  method CopyInto(buffer: array<byte>, offset: nat, data: Bytes)
    requires offset <= buffer.Length
    modifies buffer
    ensures buffer[..] == WriteAt(old(buffer[..]), offset, data)
  {
    var n := if offset + |data| <= buffer.Length then |data| else buffer.Length - offset;
    for i := 0 to n
      invariant forall k :: 0 <= k < buffer.Length ==>
                  buffer[k] == if offset <= k < offset + i then data[k - offset] else old(buffer[k])
    {
      buffer[offset + i] := data[i];
    }
  }
}
