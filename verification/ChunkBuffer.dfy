/** A buffer for the chunks of one file whose number is known beforehand. */
module ChunkBuffering {
  import opened Chunking
  import opened Finite

  class ChunkBuffer {
    const fileID: string
    const totalChunks: int
    var chunks: map<int, Chunk>
    var received: map<int, bool>
    var complete: bool

    /** Holds in every reachable state. A buffer for no chunks at all never becomes complete. */
    ghost predicate Valid()
      reads this
    {
      && received.Keys == chunks.Keys
      && (forall i :: i in chunks ==>
            received[i] && 0 <= i < totalChunks && chunks[i].chunkID == i && chunks[i].fileID == fileID)
      && (complete <==> totalChunks > 0 && forall i :: 0 <= i < totalChunks ==> i in chunks)
    }

    constructor (fileID: string, totalChunks: int)
      ensures Valid() && chunks == map[] && this.fileID == fileID && this.totalChunks == totalChunks
    {
      this.fileID, this.totalChunks := fileID, totalChunks;
      chunks, received, complete := map[], map[], false;
      new;
      assert 0 !in chunks;
    }

    /** The chunk's hash is compared with itself, so it is never rejected for its contents; a chunk
        that comes again replaces the earlier copy. */
    method AddChunk(chunk: Chunk) returns (r: Result<()>)
      requires Valid()
      modifies this
      ensures Valid()
      ensures r == if chunk.fileID != fileID then Err(WrongFile)
                   else if 0 <= chunk.chunkID < totalChunks then Ok(())
                   else Err(InvalidChunkID)
      ensures chunks == if r.Ok? then old(chunks)[chunk.chunkID := chunk] else old(chunks)
      ensures r.Err? ==> complete == old(complete)
    {
      if chunk.fileID != fileID {
        return Err(WrongFile);
      }
      if chunk.chunkID < 0 || chunk.chunkID >= totalChunks {
        return Err(InvalidChunkID);
      }
      chunks := chunks[chunk.chunkID := chunk];
      received := received[chunk.chunkID := true];
      CompleteByCounting(chunks, totalChunks);
      if |chunks| == totalChunks {
        complete := true;
      }
      return Ok(());
    }

    method GetMissingChunks() returns (missing: seq<int>)
      requires Valid()
      ensures Ascending(missing)
      ensures forall i :: i in missing <==> 0 <= i < totalChunks && i !in chunks
      ensures missing == [] <==> complete || totalChunks <= 0
    {
      missing := [];
      var i := 0;
      while i < totalChunks
        invariant 0 <= i && (i == 0 || i <= totalChunks)
        invariant Ascending(missing)
        invariant forall k :: k in missing <==> 0 <= k < i && k !in chunks
      {
        if !(i in received && received[i]) {
          AppendAscending(missing, i);
          missing := missing + [i];
        }
        i := i + 1;
      }
      assert missing != [] ==> missing[0] in missing;
    }

    method IsComplete() returns (b: bool)
      requires Valid()
      ensures b <==> totalChunks > 0 && forall i :: 0 <= i < totalChunks ==> i in chunks
    {
      b := complete;
    }

    /** A complete buffer always yields its chunks, in order of their IDs. */
    method GetChunks() returns (r: Result<seq<Chunk>>)
      requires Valid()
      ensures r.Ok? <==> complete
      ensures r.Ok? ==> |r.value| == totalChunks &&
                        forall i :: 0 <= i < totalChunks ==>
                          i in chunks && r.value[i] == chunks[i] && r.value[i].chunkID == i
    {
      if !complete {
        return Err(ChunkMissing);
      }
      var ordered: seq<Chunk> := [];
      for i := 0 to totalChunks
        invariant |ordered| == i
        invariant forall k :: 0 <= k < i ==> k in chunks && ordered[k] == chunks[k]
      {
        if i !in chunks {
          return Err(ChunkMissing);
        }
        ordered := ordered + [chunks[i]];
      }
      return Ok(ordered);
    }
  }

  /** Counting the stored chunks decides completeness, because all IDs are in range. */
  lemma CompleteByCounting(chunks: map<int, Chunk>, total: int)
    requires total > 0 && forall i :: i in chunks ==> 0 <= i < total
    ensures |chunks| == total <==> forall i :: 0 <= i < total ==> i in chunks
  {
    FullRange(chunks.Keys, total);
    assert |chunks| == |chunks.Keys|;
  }

  /** Feeds a buffer the chunks of a file in any order, with repeats, and assembles what it holds:
      the original bytes come back exactly when no chunk was left out. */
  method FillAndAssemble(h: Hasher, parts: seq<Chunk>, data: Bytes, fileID: string, order: seq<nat>)
    returns (r: Result<Bytes>)
    requires parts != [] && Partition(parts, data) && forall i :: 0 <= i < |parts| ==> parts[i].fileID == fileID
    requires forall k :: 0 <= k < |order| ==> order[k] < |parts|
    ensures r == if forall i :: 0 <= i < |parts| ==> i in order then Ok(data) else Err(ChunkMissing)
  {
    PartitionIsNumbered(parts, data);
    var buffer := new ChunkBuffer(fileID, |parts|);
    for k := 0 to |order|
      invariant fresh(buffer) && buffer.Valid() && buffer.fileID == fileID && buffer.totalChunks == |parts|
      invariant forall i :: i in buffer.chunks <==> i in order[..k]
      invariant forall i :: i in buffer.chunks ==> 0 <= i < |parts| && buffer.chunks[i] == parts[i]
    {
      var added := buffer.AddChunk(parts[order[k]]);
    }
    assert order[..|order|] == order;
    var stored := buffer.GetChunks();
    if stored.Err? {
      return Err(ChunkMissing);
    }
    assert stored.value == parts;
    NonNegativeIsSafe(parts);
    r := AssembleChunks(h, stored.value, h(data));
  }
}
