/** Which chunks of possibly different versions of a file assemble, and to what. */
module Assembly {
  import opened Arithmetic
  import opened Chunking
  import opened Finite

  /** One chunk of a version. */
  datatype Piece = Piece(version: Bytes, index: nat)

  /** How the versions of a file are cut. */
  datatype Cutter = Cutter(h: Hasher, chunkSize: nat, fileID: string) {
    function Count(data: Bytes): nat
      requires chunkSize > 0
    {
      CalculateChunkCount(|data|, chunkSize)
    }

    function DataAt(data: Bytes, i: nat): Bytes
      requires chunkSize > 0 && i < Count(data)
    {
      FileChunks(h, chunkSize, fileID, data)[i].data
    }

    predicate IsPiece(p: Piece)
      requires chunkSize > 0
    {
      p.index < Count(p.version)
    }

    ghost predicate ArePieces(s: seq<Piece>)
      requires chunkSize > 0
    {
      forall k :: 0 <= k < |s| ==> IsPiece(s[k])
    }

    function ChunkOf(p: Piece): Chunk
      requires chunkSize > 0 && IsPiece(p)
    {
      FileChunks(h, chunkSize, fileID, p.version)[p.index]
    }

    ghost function ChunksOf(s: seq<Piece>): seq<Chunk>
      requires chunkSize > 0 && ArePieces(s)
    {
      seq(|s|, k requires 0 <= k < |s| => ChunkOf(s[k]))
    }

    /** A piece at position `i` with these bytes is among `s`. */
    ghost predicate Has(s: seq<Piece>, i: nat, bytes: Bytes)
      requires chunkSize > 0 && ArePieces(s)
    {
      exists k :: 0 <= k < |s| && s[k].index == i && ChunkOf(s[k]).data == bytes
    }

    /** The pieces, put in order, are `data` as it would be cut itself. */
    ghost predicate Cuts(s: seq<Piece>, data: Bytes)
      requires chunkSize > 0 && ArePieces(s)
    {
      |s| == Count(data) && forall i: nat :: i < Count(data) ==> Has(s, i, DataAt(data, i))
    }

    /** No empty version is mixed with others. */
    ghost predicate Mixable(s: seq<Piece>) {
      |s| == 1 || forall k :: 0 <= k < |s| ==> s[k].version != []
    }

    lemma PieceIsMarked(p: Piece)
      requires chunkSize > 0 && IsPiece(p)
      ensures var c, n := ChunkOf(p), Count(p.version);
              && c.chunkID == p.index && c.offset == p.index * chunkSize && c.length == |c.data| <= chunkSize
              && (p.index < n - 1 ==> c.length == chunkSize) && (p.version != [] ==> c.length > 0)
              && c.fileID == fileID && h(c.data) == c.hash && c.totalChunks == n && c.fileHash == ""
              && c.data == DataAt(p.version, p.index)
    {
      if p.version == [] {
        assert p.index == 0 && Count(p.version) == 1;
      } else {
        ChunkSpans(h, chunkSize, fileID, p.version, p.index);
        assert ChunkOf(p) == ChunkAt(h, chunkSize, fileID, p.version, p.index);
      }
    }

    // ---- pieces that cut some bytes assemble to them ----

    /** The pieces in order of their positions. */
    lemma InOrder(s: seq<Piece>, data: Bytes) returns (parts: seq<Chunk>)
      requires chunkSize > 0 && ArePieces(s) && Cuts(s, data)
      ensures |parts| == Count(data) && multiset(parts) == multiset(ChunksOf(s))
      ensures forall i :: 0 <= i < |parts| ==> SamePlace(FileChunks(h, chunkSize, fileID, data)[i], parts[i])
    {
      var n := Count(data);
      parts := PickParts(s, data, n);
      FullChoiceIsPermutation(parts, ChunksOf(s));
    }

    lemma PickPart(s: seq<Piece>, data: Bytes, i: nat) returns (c: Chunk)
      requires chunkSize > 0 && ArePieces(s) && Cuts(s, data) && i < Count(data)
      ensures c in ChunksOf(s) && c.chunkID == i && SamePlace(FileChunks(h, chunkSize, fileID, data)[i], c)
    {
      assert Has(s, i, DataAt(data, i));
      var k :| 0 <= k < |s| && s[k].index == i && ChunkOf(s[k]).data == DataAt(data, i);
      c := ChunkOf(s[k]);
      PieceIsMarked(s[k]);
      PieceIsMarked(Piece(data, i));
      assert ChunksOf(s)[k] == c;
    }

    lemma {:induction false} PickParts(s: seq<Piece>, data: Bytes, n: nat) returns (parts: seq<Chunk>)
      requires chunkSize > 0 && ArePieces(s) && Cuts(s, data) && n <= Count(data)
      ensures |parts| == n
      ensures forall i :: 0 <= i < n ==>
                && parts[i] in ChunksOf(s) && parts[i].chunkID == i
                && SamePlace(FileChunks(h, chunkSize, fileID, data)[i], parts[i])
    {
      if n == 0 {
        parts := [];
      } else {
        parts := PickParts(s, data, n - 1);
        var c := PickPart(s, data, n - 1);
        parts := parts + [c];
      }
    }

    lemma CutAssembles(s: seq<Piece>, data: Bytes, sorted: seq<Chunk>, expected: string)
      requires chunkSize > 0 && ArePieces(s) && Cuts(s, data) && SortedCopy(sorted, ChunksOf(s))
      ensures Assembled(h, sorted, expected) == if h(data) == expected then Ok(data) else Err(FileHashMismatch)
    {
      var parts := InOrder(s, data);
      ChunkFilePartitions(h, chunkSize, fileID, data);
      LabelsDoNotMatter(FileChunks(h, chunkSize, fileID, data), parts, data);
      PartitionReassembles(h, sorted, parts, data, expected);
    }

    // ---- pieces that assemble cut some bytes ----

    /** What sorting leaves of a piece. */
    ghost predicate Fragment(c: Chunk)
      requires chunkSize > 0
    {
      && c.chunkID >= 0 && c.offset == c.chunkID * chunkSize && 0 < c.length == |c.data| <= chunkSize
    }

    lemma NextOffset(k: nat, length: nat, id: nat)
      requires chunkSize > 0 && 0 < length <= chunkSize && id * chunkSize == k * chunkSize + length
      ensures id == k + 1 && length == chunkSize
    {
      Scale(k, k, chunkSize);
      if id <= k {
        Scale(id, k, chunkSize);
      } else if id > k + 1 {
        Scale(k + 1, id - 1, chunkSize);
        Scale(id, id, chunkSize);
      }
    }

    /** Chunks that follow each other without a gap are numbered from 0 and full but for the last. */
    lemma {:induction false} ContiguousIsNumbered(sorted: seq<Chunk>, k: nat)
      requires chunkSize > 0 && forall c :: c in sorted ==> Fragment(c)
      requires k < |sorted| && Contiguous(sorted, k + 1)
      ensures sorted[k].chunkID == k && TotalLength(sorted, k) == k * chunkSize
    {
      assert Fragment(sorted[k]);
      if k == 0 {
        if sorted[0].chunkID > 0 {
          Scale(1, sorted[0].chunkID, chunkSize);
        }
      } else {
        ContiguousIsNumbered(sorted, k - 1);
        assert Fragment(sorted[k - 1]);
        NextOffset(k - 1, sorted[k - 1].length, sorted[k].chunkID);
      }
    }

    ghost function Joined(sorted: seq<Chunk>, k: nat): Bytes
      requires k <= |sorted|
    {
      if k == 0 then [] else Joined(sorted, k - 1) + sorted[k - 1].data
    }

    lemma OneMoreChunk(sorted: seq<Chunk>, k: nat, data: Bytes)
      requires k < |sorted| && Partition(sorted[..k], data)
      requires var c := sorted[k]; c.chunkID == k && c.offset == |data| && c.length == |c.data|
      ensures Partition(sorted[..k + 1], data + sorted[k].data)
    {
      PartitionExtends(sorted[..k], data, sorted[k]);
      assert sorted[..k + 1] == sorted[..k] + [sorted[k]];
    }

    lemma {:induction false} ContiguousIsPartition(sorted: seq<Chunk>, k: nat)
      requires chunkSize > 0 && forall c :: c in sorted ==> Fragment(c)
      requires k <= |sorted| && Contiguous(sorted, k)
      ensures Partition(sorted[..k], Joined(sorted, k)) && |Joined(sorted, k)| == TotalLength(sorted, k)
    {
      if k > 0 {
        ContiguousIsPartition(sorted, k - 1);
        ContiguousIsNumbered(sorted, k - 1);
        assert Fragment(sorted[k - 1]);
        OneMoreChunk(sorted, k - 1, Joined(sorted, k - 1));
      }
    }

    lemma CountIs(size: nat, n: nat)
      requires chunkSize > 0 && n > 0 && (n - 1) * chunkSize < size <= n * chunkSize
      ensures CalculateChunkCount(size, chunkSize) == n
    {
      assert size > 0 by {
        Scale(0, n - 1, chunkSize);
      }
      CeilingDivision(size, chunkSize);
      var m := CalculateChunkCount(size, chunkSize);
      if m < n {
        Scale(m, n - 1, chunkSize);
      } else if m > n {
        Scale(n, m - 1, chunkSize);
      }
    }

    /** Chunk `i` of a gapless list covers what chunk `i` of the joined bytes would. */
    lemma ContiguousAt(sorted: seq<Chunk>, i: nat)
      requires chunkSize > 0 && forall c :: c in sorted ==> Fragment(c)
      requires i < |sorted| && Contiguous(sorted, |sorted|)
      ensures var data := Joined(sorted, |sorted|);
              Count(data) == |sorted| && sorted[i].chunkID == i && DataAt(data, i) == sorted[i].data
    {
      hide Contiguous, Joined, Partition, TotalLength, DataAt, Count;
      var n, data := |sorted|, Joined(sorted, |sorted|);
      ContiguousCount(sorted);
      ContiguousIsPartition(sorted, n);
      assert sorted[..n] == sorted;
      PartitionAt(sorted, data, i);
      ContiguousIsFull(sorted, i);
      SpanOf(data, i, sorted[i].length);
    }

    lemma ContiguousCount(sorted: seq<Chunk>)
      requires chunkSize > 0 && forall c :: c in sorted ==> Fragment(c)
      requires sorted != [] && Contiguous(sorted, |sorted|)
      ensures Count(Joined(sorted, |sorted|)) == |sorted|
    {
      hide Contiguous, Joined, Partition, Fragment;
      var n := |sorted|;
      ContiguousIsPartition(sorted, n);
      ContiguousIsNumbered(sorted, n - 1);
      FragmentTells(sorted[n - 1]);
      Scale(n - 1, n, chunkSize);
      CountIs(|Joined(sorted, n)|, n);
    }

    lemma FragmentTells(c: Chunk)
      requires chunkSize > 0 && Fragment(c)
      ensures c.offset == c.chunkID * chunkSize && 0 < c.length == |c.data| <= chunkSize
    {
    }

    lemma ContiguousIsFull(sorted: seq<Chunk>, i: nat)
      requires chunkSize > 0 && forall c :: c in sorted ==> Fragment(c)
      requires i < |sorted| && Contiguous(sorted, |sorted|)
      ensures sorted[i].chunkID == i && sorted[i].offset == i * chunkSize && sorted[i].length > 0
      ensures sorted[i].length == chunkSize || i == |sorted| - 1
    {
      hide Contiguous, Fragment;
      FragmentTells(sorted[i]);
      ContiguousStart(sorted, i + 1, |sorted|);
      ContiguousIsNumbered(sorted, i);
      if i < |sorted| - 1 {
        ContiguousStart(sorted, i + 2, |sorted|);
        ContiguousIsNumbered(sorted, i + 1);
        NextOffset(i, sorted[i].length, i + 1);
      }
    }

    /** The bytes of chunk `i`, which is of full length unless it is the last. */
    lemma SpanOf(data: Bytes, i: nat, length: nat)
      requires chunkSize > 0 && data != [] && i < Count(data) && i * chunkSize + length <= |data|
      requires if i == Count(data) - 1 then i * chunkSize + length == |data| else length == chunkSize
      ensures DataAt(data, i) == data[i * chunkSize..i * chunkSize + length]
    {
      CeilingDivision(|data|, chunkSize);
      Multiples(i, Count(data), chunkSize);
      assert DataAt(data, i) == ChunkAt(h, chunkSize, fileID, data, i).data;
    }

    lemma FragmentsOf(s: seq<Piece>, sorted: seq<Chunk>)
      requires chunkSize > 0 && ArePieces(s) && forall k :: 0 <= k < |s| ==> s[k].version != []
      requires multiset(sorted) == multiset(ChunksOf(s))
      ensures forall c :: c in sorted ==> Fragment(c)
    {
      SameElements(sorted, ChunksOf(s));
      forall c | c in sorted
        ensures Fragment(c)
      {
        var k :| 0 <= k < |s| && ChunksOf(s)[k] == c;
        PieceIsMarked(s[k]);
      }
    }

    lemma SortedIsIn(s: seq<Piece>, sorted: seq<Chunk>, i: nat)
      requires chunkSize > 0 && ArePieces(s) && multiset(sorted) == multiset(ChunksOf(s)) && i < |sorted|
      ensures |sorted| == |s| && sorted[i].chunkID >= 0 && Has(s, sorted[i].chunkID, sorted[i].data)
    {
      SameElements(sorted, ChunksOf(s));
      assert sorted[i] in sorted;
      var k :| 0 <= k < |s| && ChunksOf(s)[k] == sorted[i];
      PieceIsMarked(s[k]);
    }

    lemma ContiguousCuts(s: seq<Piece>, sorted: seq<Chunk>)
      requires chunkSize > 0 && ArePieces(s) && s != [] && forall k :: 0 <= k < |s| ==> s[k].version != []
      requires multiset(sorted) == multiset(ChunksOf(s)) && Contiguous(sorted, |sorted|)
      ensures Cuts(s, Joined(sorted, |sorted|))
    {
      FragmentsOf(s, sorted);
      SortedIsIn(s, sorted, 0);
      var data := Joined(sorted, |sorted|);
      ContiguousAt(sorted, 0);
      forall i: nat | i < Count(data)
        ensures Has(s, i, DataAt(data, i))
      {
        ContiguousAt(sorted, i);
        SortedIsIn(s, sorted, i);
      }
    }

    // ---- the outcome ----

    lemma CutIsUnique(s: seq<Piece>, data: Bytes, other: Bytes)
      requires chunkSize > 0 && ArePieces(s) && Cuts(s, data) && Cuts(s, other)
      ensures data == other
    {
      var parts := InOrder(s, data);
      var others := InOrder(s, other);
      ChunkFilePartitions(h, chunkSize, fileID, data);
      ChunkFilePartitions(h, chunkSize, fileID, other);
      LabelsDoNotMatter(FileChunks(h, chunkSize, fileID, data), parts, data);
      LabelsDoNotMatter(FileChunks(h, chunkSize, fileID, other), others, other);
      PartitionIsNumbered(parts, data);
      PartitionIsNumbered(others, other);
      SortingIsUnique(parts, others);
      PartitionDetermines(parts, data, other);
    }

    /** An only piece of an empty version. */
    lemma EmptyPieceCuts(s: seq<Piece>)
      requires chunkSize > 0 && ArePieces(s) && |s| == 1 && s[0].version == []
      ensures Cuts(s, [])
    {
      PieceIsMarked(s[0]);
      forall i: nat | i < Count([])
        ensures Has(s, i, DataAt([], i))
      {
        assert s[0].index == i;
      }
    }

    /** Pieces assemble exactly when they cut some bytes that have the expected hash, and to those. */
    lemma AssemblesExactly(s: seq<Piece>, expected: string, r: Result<Bytes>)
      requires chunkSize > 0 && ArePieces(s) && s != [] && Mixable(s)
      requires MayAssemble(h, ChunksOf(s), expected, r)
      ensures r.Ok? <==> exists data :: Cuts(s, data) && h(data) == expected
      ensures r.Ok? ==> Cuts(s, r.value) && h(r.value) == expected
      ensures forall data :: Cuts(s, data) && h(data) == expected ==> r == Ok(data)
    {
      var sorted :| SortedCopy(sorted, ChunksOf(s)) && r == Assembled(h, sorted, expected);
      forall data | Cuts(s, data)
        ensures r == if h(data) == expected then Ok(data) else Err(FileHashMismatch)
      {
        CutAssembles(s, data, sorted, expected);
      }
      if Contiguous(sorted, |sorted|) {
        if forall k :: 0 <= k < |s| ==> s[k].version != [] {
          ContiguousCuts(s, sorted);
        } else {
          EmptyPieceCuts(s);
        }
      }
    }

    ghost predicate OneVersion(s: seq<Piece>, data: Bytes) {
      forall k :: 0 <= k < |s| ==> s[k].version == data
    }

    ghost function Indexes(s: seq<Piece>): seq<nat> {
      seq(|s|, k requires 0 <= k < |s| => s[k].index)
    }

    lemma IndexesTell(s: seq<Piece>, data: Bytes)
      requires OneVersion(s, data)
      ensures NoDuplicates(s) <==> NoDuplicates(Indexes(s))
    {
      assert forall k :: 0 <= k < |s| ==> s[k] == Piece(data, Indexes(s)[k]);
    }

    lemma DifferentPiecesCut(s: seq<Piece>, data: Bytes)
      requires chunkSize > 0 && ArePieces(s) && OneVersion(s, data) && |s| == Count(data) && NoDuplicates(s)
      ensures Cuts(s, data)
    {
      IndexesTell(s, data);
      Pigeonhole(Indexes(s), |s|);
      forall i: nat | i < Count(data)
        ensures Has(s, i, DataAt(data, i))
      {
        assert i in Indexes(s);
        var k :| 0 <= k < |Indexes(s)| && Indexes(s)[k] == i;
        PieceIsMarked(s[k]);
      }
    }

    lemma CutIsDifferent(s: seq<Piece>, data: Bytes, other: Bytes)
      requires chunkSize > 0 && ArePieces(s) && OneVersion(s, data) && |s| == Count(data) && Cuts(s, other)
      ensures NoDuplicates(s)
    {
      IndexesTell(s, data);
      forall i: nat | i < |s|
        ensures i in Indexes(s)
      {
        assert Has(s, i, DataAt(other, i));
        var k :| 0 <= k < |s| && s[k].index == i && ChunkOf(s[k]).data == DataAt(other, i);
        assert Indexes(s)[k] == i;
      }
      Pigeonhole(Indexes(s), |s|);
    }

    /** As many pieces of one version as it has assemble exactly when no piece comes twice. */
    lemma OneVersionCuts(s: seq<Piece>, data: Bytes)
      requires chunkSize > 0 && ArePieces(s) && OneVersion(s, data) && |s| == Count(data)
      ensures NoDuplicates(s) <==> Cuts(s, data)
      ensures forall other :: Cuts(s, other) ==> other == data
    {
      if NoDuplicates(s) {
        DifferentPiecesCut(s, data);
      }
      forall other | Cuts(s, other)
        ensures other == data && NoDuplicates(s)
      {
        CutIsDifferent(s, data, other);
        DifferentPiecesCut(s, data);
        CutIsUnique(s, data, other);
      }
    }
  }
}
