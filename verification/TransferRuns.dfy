/** Whole runs of the chunk manager: what any delivery sequence of real and corrupted chunks of many
    files, interleaved, leaves behind. */
module TransferRuns {
  import opened Chunking
  import opened Finite
  import opened ChunkManagement
  import opened Operations

  /** The files being sent, all cut with one chunk size. */
  datatype Sources = Sources(h: Hasher, chunkSize: nat, files: map<string, Bytes>) {
    function Chunks(f: string): seq<Chunk>
      requires f in files && chunkSize > 0
    {
      FileChunks(h, chunkSize, f, files[f])
    }

    /** A chunk as it was cut; the last one is stamped with the hash of the whole file. */
    ghost predicate Genuine(c: Chunk)
      requires chunkSize > 0
    {
      && c.fileID in files && 0 <= c.chunkID < |Chunks(c.fileID)|
      && c == Chunks(c.fileID)[c.chunkID].(fileHash := c.fileHash)
      && (c.isLast ==> c.fileHash == h(files[c.fileID]))
    }

    /** Chunks of a known file are genuine or fail their own hash, and a transfer is started with
        the right total or with none. Events about other files are arbitrary. */
    ghost predicate Honest(e: Event)
      requires chunkSize > 0
    {
      match e
      case Start(f, _, total) => f in files ==> total == 0 || total == |Chunks(f)|
      case Receive(c) => c.fileID in files ==> h(c.data) != c.hash || Genuine(c)
      case Cleanup(_) => true
    }

    ghost predicate AllHonest(events: seq<Event>)
      requires chunkSize > 0
    {
      forall e :: e in events ==> Honest(e)
    }

    ghost predicate IsDelivery(e: Event, f: string, i: int) {
      e.Receive? && e.chunk.fileID == f && e.chunk.chunkID == i && h(e.chunk.data) == e.chunk.hash
    }

    /** No cleanup of `f` comes after event `k`. */
    ghost predicate NoCleanup(events: seq<Event>, f: string, k: int) {
      forall j :: 0 <= j < |events| && k < j ==> events[j] != Cleanup(f)
    }

    /** Chunk `i` of `f` arrived intact and the transfer was not cleaned up afterwards. */
    ghost predicate Arrived(events: seq<Event>, f: string, i: int) {
      exists k :: 0 <= k < |events| && IsDelivery(events[k], f, i) && NoCleanup(events, f, k)
    }

    ghost predicate AllArrived(events: seq<Event>, f: string)
      requires f in files && chunkSize > 0
    {
      forall i :: 0 <= i < |Chunks(f)| ==> Arrived(events, f, i)
    }

    /** What every reachable transfer of a known file looks like. */
    ghost predicate Sound(f: string, t: Transfer)
      requires f in files && chunkSize > 0
    {
      var n := |Chunks(f)|;
      && t.received.Keys <= Range(n)
      && (forall i :: i in t.received ==>
            t.received[i].fileID == f && t.received[i].chunkID == i && Genuine(t.received[i]))
      && (t.totalChunks == 0 || t.totalChunks == n)
      && (n - 1 in t.received ==> t.totalChunks == n && t.fileHash == h(files[f]))
      && (t.complete <==> t.received.Keys == Range(n))
    }

    lemma ChunksAreMarked(f: string)
      requires f in files && chunkSize > 0
      ensures |Chunks(f)| > 0 && Partition(Chunks(f), files[f])
      ensures forall i :: 0 <= i < |Chunks(f)| ==>
                && (Chunks(f)[i].isLast <==> i == |Chunks(f)| - 1)
                && Chunks(f)[i].fileID == f && Chunks(f)[i].chunkID == i && Chunks(f)[i].length >= 0
                && Chunks(f)[i].hash == h(Chunks(f)[i].data)
    {
      ChunkFilePartitions(h, chunkSize, f, files[f]);
      PartitionIsNumbered(Chunks(f), files[f]);
    }

    lemma GenuineIsMarked(c: Chunk)
      requires chunkSize > 0 && Genuine(c)
      ensures c.isLast <==> c.chunkID == |Chunks(c.fileID)| - 1
      ensures c.isLast ==> c.fileHash == h(files[c.fileID])
      ensures 0 <= c.chunkID < |Chunks(c.fileID)|
    {
      ChunksAreMarked(c.fileID);
    }

    /** One more receipt completes a transfer exactly when it fills the range. */
    lemma CompletionIsFullRange(t: Transfer, c: Chunk, n: nat)
      requires n > 0 && t.received.Keys <= Range(n) && 0 <= c.chunkID < n && c.chunkID !in t.received
      requires t.complete <==> t.received.Keys == Range(n)
      requires h(c.data) == c.hash && (c.isLast <==> c.chunkID == n - 1)
      requires t.totalChunks == 0 || t.totalChunks == n
      requires n - 1 in t.received ==> t.totalChunks == n
      ensures var after := Absorb(h, t, c);
              && after.received.Keys == t.received.Keys + {c.chunkID}
              && (after.complete <==> after.received.Keys == Range(n))
    {
      var after := Absorb(h, t, c);
      assert after.received.Keys == t.received.Keys + {c.chunkID};
      assert c.chunkID in Range(n) && n - 1 in Range(n);
      FullRange(after.received.Keys, n);
      assert |after.received| == |after.received.Keys|;
    }

    lemma NewReceiptKeepsSound(f: string, t: Transfer, c: Chunk)
      requires f in files && chunkSize > 0 && Sound(f, t) && c.fileID == f && Genuine(c)
      requires c.chunkID !in t.received && h(c.data) == c.hash
      requires var after := Absorb(h, t, c);
               && after.received.Keys == t.received.Keys + {c.chunkID}
               && (after.complete <==> after.received.Keys == Range(|Chunks(f)|))
      ensures Sound(f, Absorb(h, t, c))
    {
      GenuineIsMarked(c);
      assert Absorb(h, t, c).received.Keys <= Range(|Chunks(f)|);
    }

    lemma AbsorbKeepsSound(f: string, t: Transfer, c: Chunk)
      requires f in files && chunkSize > 0 && Sound(f, t) && c.fileID == f && Honest(Receive(c))
      ensures Sound(f, Absorb(h, t, c))
      ensures Absorb(h, t, c).received.Keys == t.received.Keys + if h(c.data) == c.hash then {c.chunkID} else {}
    {
      if h(c.data) == c.hash {
        GenuineIsMarked(c);
        var n := |Chunks(f)|;
        if c.chunkID !in t.received {
          CompletionIsFullRange(t, c, n);
          NewReceiptKeepsSound(f, t, c);
        } else {
          assert t.received.Keys == t.received.Keys + {c.chunkID};
        }
      }
    }

    lemma ArrivedUnfolds(events: seq<Event>, e: Event, f: string, i: int)
      ensures Arrived(events + [e], f, i) <==>
              IsDelivery(e, f, i) || (Arrived(events, f, i) && e != Cleanup(f))
    {
      hide IsDelivery;
      var all := events + [e];
      if Arrived(all, f, i) {
        var k :| 0 <= k < |all| && IsDelivery(all[k], f, i) && NoCleanup(all, f, k);
        if k < |events| {
          assert all[|events|] == e && events[k] == all[k];
          assert NoCleanup(events, f, k) by {
            assert forall j :: 0 <= j < |events| ==> events[j] == all[j];
          }
        }
      }
      if Arrived(events, f, i) && e != Cleanup(f) {
        var k :| 0 <= k < |events| && IsDelivery(events[k], f, i) && NoCleanup(events, f, k);
        assert all[k] == events[k] && NoCleanup(all, f, k);
      }
      if IsDelivery(e, f, i) {
        assert all[|events|] == e && NoCleanup(all, f, |events|);
      }
    }

    /** Invariant of every run: the receipts of a file are exactly its delivered chunks. */
    lemma {:induction false} ReceiptsAreDeliveries(events: seq<Event>, f: string)
      requires chunkSize > 0 && f in files && AllHonest(events)
      ensures var m := Run(h, events);
              && (f in m ==> Sound(f, m[f]))
              && forall i :: f in m && i in m[f].received <==> Arrived(events, f, i)
    {
      ChunksAreMarked(f);
      assert Range(|Chunks(f)|) != {} by { assert 0 in Range(|Chunks(f)|); }
      if events != [] {
        var init, e := events[..|events| - 1], events[|events| - 1];
        assert events == init + [e];
        ReceiptsAreDeliveries(init, f);
        StepKeepsReceipts(init, e, f);
      }
    }

    lemma StepKeepsReceipts(init: seq<Event>, e: Event, f: string)
      requires chunkSize > 0 && f in files && Honest(e) && Range(|Chunks(f)|) != {} && |Chunks(f)| > 0
      requires var m := Run(h, init);
               && (f in m ==> Sound(f, m[f]))
               && forall i :: f in m && i in m[f].received <==> Arrived(init, f, i)
      ensures var m := Step(h, Run(h, init), e);
              && (f in m ==> Sound(f, m[f]))
              && forall i :: f in m && i in m[f].received <==> Arrived(init + [e], f, i)
    {
      var was := Run(h, init);
      if e.Receive? && e.chunk.fileID == f {
        AbsorbKeepsSound(f, if f in was then was[f] else NEW_TRANSFER, e.chunk);
      }
      forall i {
        ArrivedUnfolds(init, e, f, i);
      }
    }

    /** A transfer is complete exactly when every chunk arrived intact at least once; once the total
        is known the missing chunks are the ones that did not; and the receipts of a complete
        transfer are a partition of the original bytes under the right file hash. */
    lemma CompleteMeansAllArrived(events: seq<Event>, f: string)
      requires chunkSize > 0 && f in files && AllHonest(events)
      ensures var m := Run(h, events);
              && (f in m && m[f].complete <==> AllArrived(events, f))
              && (f in m && m[f].totalChunks != 0 ==> forall i ::
                    0 <= i < m[f].totalChunks && i !in m[f].received <==>
                    0 <= i < |Chunks(f)| && !Arrived(events, f, i))
    {
      ReceiptsAreDeliveries(events, f);
      ChunksAreMarked(f);
      var m := Run(h, events);
      if AllArrived(events, f) {
        assert Arrived(events, f, 0);
      }
    }

    /** The event that began the transfer of `f`: the first one about it since the last cleanup. */
    function Opening(events: seq<Event>, f: string): Option<Event> {
      if events == [] then None else OpeningAfter(Opening(events[..|events| - 1], f), events[|events| - 1], f)
    }

    function OpeningAfter(before: Option<Event>, e: Event, f: string): Option<Event> {
      match e
      case Start(g, _, _) => if g == f && before.None? then Some(e) else before
      case Receive(c) => if c.fileID == f && before.None? then Some(e) else before
      case Cleanup(g) => if g == f then None else before
    }

    lemma OneEventMore(init: seq<Event>, e: Event, f: string)
      ensures Run(h, init + [e]) == Step(h, Run(h, init), e)
      ensures Opening(init + [e], f) == OpeningAfter(Opening(init, f), e, f)
    {
      assert (init + [e])[..|init|] == init;
    }

    /** The total and the hash are those of the last chunk, or until that has arrived those with which the
        transfer was started, if it was. */
    ghost predicate Knows(t: Transfer, opening: Event, lastArrived: bool, f: string)
      requires f in files && chunkSize > 0
    {
      && t.totalChunks == (if lastArrived then |Chunks(f)| else if opening.Start? then opening.totalChunks else 0)
      && t.fileHash == (if lastArrived then h(files[f]) else if opening.Start? then opening.fileHash else "")
    }

    /** What is known of a file before all of it is there. */
    ghost predicate KnownSoFar(events: seq<Event>, f: string)
      requires f in files && chunkSize > 0
    {
      var m, o := Run(h, events), Opening(events, f);
      && (f in m <==> o.Some?)
      && (f in m ==> Knows(m[f], o.value, Arrived(events, f, |Chunks(f)| - 1), f))
    }

    lemma AbsorbKeepsKnown(t: Transfer, opening: Event, c: Chunk, f: string)
      requires f in files && chunkSize > 0 && Sound(f, t) && c.fileID == f && Honest(Receive(c))
      requires Knows(t, opening, |Chunks(f)| - 1 in t.received, f)
      ensures Knows(Absorb(h, t, c), opening,
                    |Chunks(f)| - 1 in t.received || (h(c.data) == c.hash && c.chunkID == |Chunks(f)| - 1), f)
    {
      if h(c.data) == c.hash {
        GenuineIsMarked(c);
      }
    }

    lemma {:induction false} TotalIsKnownFromStart(events: seq<Event>, f: string)
      requires chunkSize > 0 && f in files && AllHonest(events)
      ensures KnownSoFar(events, f)
    {
      if events != [] {
        var init, e := events[..|events| - 1], events[|events| - 1];
        assert events == init + [e];
        TotalIsKnownFromStart(init, f);
        ReceiptsAreDeliveries(init, f);
        ChunksAreMarked(f);
        StepKeepsKnown(init, e, f);
      }
    }

    lemma StepKeepsKnown(init: seq<Event>, e: Event, f: string)
      requires chunkSize > 0 && f in files && Honest(e) && KnownSoFar(init, f) && |Chunks(f)| > 0
      requires var m := Run(h, init);
               && (f in m ==> Sound(f, m[f]))
               && forall i :: f in m && i in m[f].received <==> Arrived(init, f, i)
      ensures KnownSoFar(init + [e], f)
    {
      var last := |Chunks(f)| - 1;
      OneEventMore(init, e, f);
      ArrivedUnfolds(init, e, f, last);
      if e.Receive? && e.chunk.fileID == f {
        ReceiptKeepsKnown(init, e, f);
      } else {
        hide Run, Opening, Arrived, Sound, Chunks, Absorb;
      }
    }

    lemma ReceiptKeepsKnown(init: seq<Event>, e: Event, f: string)
      requires chunkSize > 0 && f in files && Honest(e) && KnownSoFar(init, f) && |Chunks(f)| > 0
      requires e.Receive? && e.chunk.fileID == f
      requires var m := Run(h, init);
               && (f in m ==> Sound(f, m[f]))
               && (f in m && |Chunks(f)| - 1 in m[f].received <==> Arrived(init, f, |Chunks(f)| - 1))
      ensures KnownSoFar(init + [e], f)
    {
      var m, last := Run(h, init), |Chunks(f)| - 1;
      NewIsSound(f);
      NewKnows(e, f);
      OneEventMore(init, e, f);
      ArrivedUnfolds(init, e, f, last);
      hide Run, Opening, Arrived, Sound, Chunks, Absorb, Knows, Honest;
      var t := if f in m then m[f] else NEW_TRANSFER;
      var opening := if f in m then Opening(init, f).value else e;
      AbsorbKeepsKnown(t, opening, e.chunk, f);
      assert Run(h, init + [e])[f] == Absorb(h, t, e.chunk);
    }

    lemma NewIsSound(f: string)
      requires chunkSize > 0 && f in files && |Chunks(f)| > 0
      ensures Sound(f, NEW_TRANSFER)
    {
      assert 0 in Range(|Chunks(f)|);
    }

    lemma NewKnows(e: Event, f: string)
      requires chunkSize > 0 && f in files && e.Receive?
      ensures Knows(NEW_TRANSFER, e, false, f)
    {
    }

    lemma CompleteHoldsTheFile(events: seq<Event>, f: string) returns (parts: seq<Chunk>)
      requires chunkSize > 0 && f in files && AllHonest(events)
      requires f in Run(h, events) && Run(h, events)[f].complete
      ensures parts != [] && HoldsExactly(Run(h, events)[f].received, parts) && Partition(parts, files[f])
      ensures Run(h, events)[f].fileHash == h(files[f])
    {
      ReceiptsAreDeliveries(events, f);
      ChunksAreMarked(f);
      var t, n := Run(h, events)[f], |Chunks(f)|;
      assert forall i :: i in Range(n) <==> i in t.received;
      parts := seq(n, i requires 0 <= i < n => t.received[i]);
      LabelsDoNotMatter(Chunks(f), parts, files[f]);
    }
  }

  /** Plays a run on a fresh manager and then asks for one file: the answer is the original file if
      all of its chunks were delivered, and an error otherwise. */
  method DeliverAndAssemble(src: Sources, events: seq<Event>, f: string) returns (r: Result<Bytes>)
    requires src.chunkSize > 0 && f in src.files && src.AllHonest(events)
    ensures src.AllArrived(events, f) ==> r == Ok(src.files[f])
    ensures !src.AllArrived(events, f) ==>
              r == if src.Opening(events, f).None? then Err(TransferNotFound) else Err(TransferIncomplete)
  {
    var manager := new ChunkManager(src.h);
    for k := 0 to |events|
      invariant manager.Valid() && fresh(manager) && fresh(manager.transfers.Values)
      invariant manager.h == src.h && manager.View() == Run(src.h, events[..k])
    {
      assert events[..k + 1][..k] == events[..k];
      match events[k] {
        case Start(g, hash, total) => var _ := manager.StartTransfer(g, hash, total);
        case Receive(c) => var _ := manager.ReceiveChunk(c);
        case Cleanup(g) => manager.CleanupTransfer(g);
      }
    }
    assert events[..|events|] == events;
    ghost var m := manager.View();
    src.CompleteMeansAllArrived(events, f);
    src.TotalIsKnownFromStart(events, f);
    src.ReceiptsAreDeliveries(events, f);
    src.ChunksAreMarked(f);
    assert f in manager.transfers ==> m[f] == manager.transfers[f].Value();
    if f in manager.transfers {
      NonNegativeReceiptsAreSafe(manager.transfers[f].receivedChunks);
    }
    r := manager.AssembleFile(f);
    if src.AllArrived(events, f) {
      ghost var parts := src.CompleteHoldsTheFile(events, f);
    }
  }
}
