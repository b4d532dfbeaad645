/** Receiving the chunks of many files, in any order, with repeats and corrupted copies. */
module ChunkManagement {
  import opened Chunking
  import opened Finite

  /** The state of one transfer, as a value. A total of 0 is unknown. */
  datatype Transfer = Transfer(fileHash: string, totalChunks: int, received: map<int, Chunk>, complete: bool)

  const NEW_TRANSFER := Transfer("", 0, map[], false)

  /** What one chunk does to the transfer it belongs to: a known ID changes nothing, nor does a chunk
      whose data does not have its hash. */
  function Absorb(h: Hasher, t: Transfer, c: Chunk): Transfer {
    if c.chunkID in t.received || h(c.data) != c.hash then t
    else
      var received := t.received[c.chunkID := c];
      var total := if c.isLast then c.chunkID + 1 else t.totalChunks;
      Transfer(if c.isLast then c.fileHash else t.fileHash, total, received,
               t.complete || (total > 0 && |received| == total))
  }

  type Transfers = map<string, Transfer>

  datatype Event =
    | Start(fileID: string, fileHash: string, totalChunks: int)
    | Receive(chunk: Chunk)
    | Cleanup(fileID: string)

  function Step(h: Hasher, m: Transfers, e: Event): Transfers {
    match e
    case Start(f, hash, total) => if f in m then m else m[f := Transfer(hash, total, map[], false)]
    case Receive(c) => m[c.fileID := Absorb(h, if c.fileID in m then m[c.fileID] else NEW_TRANSFER, c)]
    case Cleanup(f) => m - {f}
  }

  function Run(h: Hasher, events: seq<Event>): Transfers {
    if events == [] then map[] else Step(h, Run(h, events[..|events| - 1]), events[|events| - 1])
  }

  class FileTransfer {
    var fileHash: string
    var totalChunks: int
    var receivedChunks: map<int, Chunk>
    var complete: bool

    constructor (fileHash: string, totalChunks: int)
      ensures Value() == Transfer(fileHash, totalChunks, map[], false)
    {
      this.fileHash, this.totalChunks, receivedChunks, complete := fileHash, totalChunks, map[], false;
    }

    function Value(): Transfer
      reads this
    {
      Transfer(fileHash, totalChunks, receivedChunks, complete)
    }

    /** The part of receiving a chunk that happens under the transfer's own lock. */
    method Add(h: Hasher, chunk: Chunk) returns (r: Result<()>)
      modifies this
      ensures Value() == Absorb(h, old(Value()), chunk)
      ensures r.Err? <==> chunk.chunkID !in old(receivedChunks) && h(chunk.data) != chunk.hash
    {
      if chunk.chunkID in receivedChunks {
        return Ok(());
      }
      var verified := VerifyChunkHash(h, chunk);
      if verified.Err? {
        return Err(verified.error);
      }
      receivedChunks := receivedChunks[chunk.chunkID := chunk];
      if chunk.isLast {
        totalChunks := chunk.chunkID + 1;
        fileHash := chunk.fileHash;
      }
      if totalChunks > 0 && |receivedChunks| == totalChunks {
        complete := true;
      }
      return Ok(());
    }
  }

  class ChunkManager {
    const h: Hasher
    var transfers: map<string, FileTransfer>

    ghost predicate Valid()
      reads this
    {
      forall f, g :: f in transfers && g in transfers && f != g ==> transfers[f] != transfers[g]
    }

    ghost function View(): Transfers
      reads this, transfers.Values
    {
      map f | f in transfers :: transfers[f].Value()
    }

    constructor (h: Hasher)
      ensures Valid() && View() == map[] && this.h == h && transfers == map[]
    {
      this.h := h;
      transfers := map[];
    }

    method StartTransfer(fileID: string, fileHash: string, totalChunks: int) returns (r: Result<()>)
      requires Valid()
      modifies this
      ensures Valid() && fresh(transfers.Values - old(transfers.Values))
      ensures View() == Step(h, old(View()), Start(fileID, fileHash, totalChunks))
      ensures r == if fileID in old(View()) then Err(TransferExists) else Ok(())
    {
      if fileID in transfers {
        return Err(TransferExists);
      }
      var transfer := new FileTransfer(fileHash, totalChunks);
      transfers := transfers[fileID := transfer];
      return Ok(());
    }

    method ReceiveChunk(chunk: Chunk) returns (r: Result<()>)
      requires Valid()
      modifies this, transfers.Values
      ensures Valid() && fresh(transfers.Values - old(transfers.Values))
      ensures View() == Step(h, old(View()), Receive(chunk))
      ensures r.Err? <==>
              && !(chunk.fileID in old(View()) && chunk.chunkID in old(View())[chunk.fileID].received)
              && h(chunk.data) != chunk.hash
    {
      hide Absorb;
      if chunk.fileID !in transfers {
        var created := new FileTransfer("", 0);
        transfers := transfers[chunk.fileID := created];
      }
      r := transfers[chunk.fileID].Add(h, chunk);
    }

    method CleanupTransfer(fileID: string)
      requires Valid()
      modifies this
      ensures Valid() && transfers.Values <= old(transfers.Values)
      ensures View() == Step(h, old(View()), Cleanup(fileID))
    {
      transfers := transfers - {fileID};
    }

    method IsTransferComplete(fileID: string) returns (b: bool)
      ensures b <==> fileID in View() && View()[fileID].complete
    {
      b := fileID in transfers && transfers[fileID].complete;
    }

    /** Without a known total the list is empty. */
    method GetMissingChunks(fileID: string) returns (r: Result<seq<int>>)
      ensures r.Err? <==> fileID !in View()
      ensures r.Ok? && View()[fileID].totalChunks == 0 ==> r.value == []
      ensures r.Ok? ==> Ascending(r.value) && forall i ::
                i in r.value <==> 0 <= i < View()[fileID].totalChunks && i !in View()[fileID].received
    {
      if fileID !in transfers {
        return Err(TransferNotFound);
      }
      var transfer := transfers[fileID];
      if transfer.totalChunks == 0 {
        return Ok([]);
      }
      var missing: seq<int> := [];
      var i := 0;
      while i < transfer.totalChunks
        invariant 0 <= i && (i == 0 || i <= transfer.totalChunks)
        invariant Ascending(missing)
        invariant forall k :: k in missing <==> 0 <= k < i && k !in transfer.receivedChunks
      {
        if i !in transfer.receivedChunks {
          AppendAscending(missing, i);
          missing := missing + [i];
        }
        i := i + 1;
      }
      return Ok(missing);
    }

    /** The receipts are visited in an arbitrary order; assembling must not panic in any of them. */
    method AssembleFile(fileID: string) returns (r: Result<Bytes>)
      requires fileID in transfers && transfers[fileID].complete ==> SafeReceipts(transfers[fileID].receivedChunks)
      ensures fileID !in View() ==> r == Err(TransferNotFound)
      ensures fileID in View() && !View()[fileID].complete ==> r == Err(TransferIncomplete)
      ensures r.Ok? ==> h(r.value) == View()[fileID].fileHash
      ensures fileID in View() && View()[fileID].complete ==>
                forall parts, data ::
                  HoldsExactly(View()[fileID].received, parts) && Partition(parts, data) && parts != []
                  && h(data) == View()[fileID].fileHash
                  ==> r == Ok(data)
    {
      if fileID !in transfers {
        return Err(TransferNotFound);
      }
      var transfer := transfers[fileID];
      if !transfer.complete {
        return Err(TransferIncomplete);
      }
      var chunks := ListReceipts(transfer.receivedChunks);
      r := AssembleChunks(h, chunks, transfer.fileHash);
      forall parts, data | HoldsExactly(transfer.receivedChunks, parts) && Partition(parts, data) &&
          parts != [] && h(data) == transfer.fileHash
        ensures r == Ok(data)
      {
        PartitionIsNumbered(parts, data);
        ListingMatches(transfer.receivedChunks, parts, chunks);
        SameElements(parts, chunks);
      }
    }
  }

  /** The receipts are `parts`, each under its position. */
  ghost predicate HoldsExactly(received: map<int, Chunk>, parts: seq<Chunk>) {
    received.Keys == Range(|parts|) && forall i :: 0 <= i < |parts| ==> received[i] == parts[i]
  }

  ghost predicate Lists(received: map<int, Chunk>, order: seq<int>, chunks: seq<Chunk>) {
    && NoDuplicates(order) && |order| == |chunks|
    && forall j :: 0 <= j < |order| ==> order[j] in received && received[order[j]] == chunks[j]
  }

  /** `chunks` are the receipts in some order. */
  ghost predicate IsListing(received: map<int, Chunk>, chunks: seq<Chunk>) {
    exists order :: Lists(received, order, chunks) && forall k :: k in received <==> k in order
  }

  ghost predicate SafeReceipts(received: map<int, Chunk>) {
    forall chunks :: IsListing(received, chunks) ==> Safe(chunks)
  }

  lemma NonNegativeReceiptsAreSafe(received: map<int, Chunk>)
    requires forall i :: i in received ==> received[i].length >= 0
    ensures SafeReceipts(received)
  {
    forall chunks: seq<Chunk> | IsListing(received, chunks)
      ensures Safe(chunks)
    {
      var order :| Lists(received, order, chunks) && forall k :: k in received <==> k in order;
      forall j | 0 <= j < |chunks|
        ensures chunks[j].length >= 0
      {
        var i := order[j];
        assert i in received && received[i] == chunks[j];
        assert received[i].length >= 0;
      }
      NonNegativeIsSafe(chunks);
    }
  }

  method ListReceipts(received: map<int, Chunk>) returns (chunks: seq<Chunk>)
    ensures IsListing(received, chunks)
  {
    chunks := [];
    ghost var order: seq<int> := [];
    var todo := received.Keys;
    while todo != {}
      invariant todo <= received.Keys && Lists(received, order, chunks)
      invariant forall k :: k in order <==> k in received.Keys - todo
    {
      var k := AnyOf(todo);
      AppendNew(order, k);
      chunks, order := chunks + [received[k]], order + [k];
      todo := todo - {k};
    }
  }

  lemma PartIsListed(received: map<int, Chunk>, parts: seq<Chunk>, order: seq<int>, chunks: seq<Chunk>, i: nat)
    requires HoldsExactly(received, parts) && Lists(received, order, chunks) && i < |parts|
    requires forall k :: k in received <==> k in order
    ensures parts[i] in chunks
  {
    assert i in received && i in order;
    var j :| 0 <= j < |order| && order[j] == i;
    assert chunks[j] == parts[i];
  }

  lemma ListedDiffer(received: map<int, Chunk>, parts: seq<Chunk>, order: seq<int>, chunks: seq<Chunk>)
    requires HoldsExactly(received, parts) && Lists(received, order, chunks)
    requires forall i :: 0 <= i < |parts| ==> parts[i].chunkID == i
    ensures NoDuplicates(chunks) && forall c :: c in chunks ==> c in parts
  {
    forall j | 0 <= j < |chunks|
      ensures chunks[j].chunkID == order[j] && chunks[j] in parts
    {
      assert order[j] in received && parts[order[j]] == chunks[j];
    }
  }

  lemma ListingMatches(received: map<int, Chunk>, parts: seq<Chunk>, chunks: seq<Chunk>)
    requires HoldsExactly(received, parts)
    requires forall i :: 0 <= i < |parts| ==> parts[i].chunkID == i
    requires IsListing(received, chunks)
    ensures multiset(parts) == multiset(chunks)
  {
    var order :| Lists(received, order, chunks) && forall k :: k in received <==> k in order;
    ListedDiffer(received, parts, order, chunks);
    forall i: nat | i < |parts|
      ensures parts[i] in chunks
    {
      PartIsListed(received, parts, order, chunks, i);
    }
    SameMembersSameMultiset(parts, chunks);
  }
}
