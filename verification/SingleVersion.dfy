/** The messages about one version of a file, repeated and reordered: exactly when the receiver hands
    the file over, how often, and as what. */
module SingleVersion {
  import opened Assembly
  import opened Chunking
  import opened Finite
  import opened Handler
  import opened Operations
  import opened Reception

  /** From `first` on there are `n` chunks, all of them different. */
  ghost predicate Different(copies: seq<Copy>, first: nat, n: nat) {
    && first + n <= |copies|
    && (forall j :: first <= j < first + n ==> copies[j].Part?)
    && (forall i, j :: first <= i < j < first + n ==> copies[i].piece != copies[j].piece)
  }

  /** Copy `j` is the last of `n` different chunks that come right after an announcement, or right after
      another such copy. */
  ghost predicate FillsUp(copies: seq<Copy>, j: nat, n: nat)
    requires n > 0
  {
    && n <= j < |copies| && Different(copies, j - n + 1, n)
    && (copies[j - n].Announcement? || FillsUp(copies, j - n, n))
  }

  /** An announcement at position `k` that is followed directly by `n` different chunks. */
  ghost predicate Round(copies: seq<Copy>, k: nat, n: nat) {
    k < |copies| && copies[k].Announcement? && Different(copies, k + 1, n)
  }

  /** Two fillings are at least `n` copies apart. */
  lemma {:induction false} FillingsAreApart(copies: seq<Copy>, x: nat, y: nat, n: nat)
    requires n > 0 && FillsUp(copies, x, n) && FillsUp(copies, y, n) && x < y
    ensures x + n <= y
    decreases x + y
  {
    if y < x + n {
      if y - n < x && !copies[y - n].Announcement? {
        FillingsAreApart(copies, y - n, x, n);
      }
    }
  }

  /** A round comes before every set of different chunks that fills up. */
  lemma {:induction false} FillingStartsWithRound(copies: seq<Copy>, j: nat, n: nat) returns (k: nat)
    requires n > 0 && FillsUp(copies, j, n)
    ensures Round(copies, k, n) && k + n <= j
    ensures k + n == j || (k + 2 * n <= j && Different(copies, k + n + 1, n))
  {
    if copies[j - n].Announcement? {
      k := j - n;
    } else {
      k := FillingStartsWithRound(copies, j - n, n);
      if k + n == j - n {
        assert Different(copies, j - n + 1, n);
      }
    }
  }

  ghost predicate HasRound(copies: seq<Copy>, n: nat) {
    exists k: nat :: Round(copies, k, n)
  }

  /** A round, and then all chunks once more with no announcement in between. */
  ghost predicate HasDoubleRound(copies: seq<Copy>, n: nat) {
    exists k: nat :: Round(copies, k, n) && Different(copies, k + n + 1, n)
  }

  /** A set of different chunks fills up at `j` with no announcement standing. */
  ghost predicate FillsUpAgain(copies: seq<Copy>, j: nat, n: nat)
    requires n > 0
  {
    FillsUp(copies, j, n) && copies[j - n].Part?
  }

  /** Chunks fill up with no announcement standing exactly when there is a double round. */
  lemma FillingAgainNeedsDoubleRound(copies: seq<Copy>, n: nat)
    requires n > 0
    ensures (exists j: nat :: FillsUpAgain(copies, j, n)) <==> HasDoubleRound(copies, n)
  {
    if j: nat :| FillsUpAgain(copies, j, n) {
      var k := FillingStartsWithRound(copies, j, n);
      assert k + n < j;
    }
    if k: nat :| Round(copies, k, n) && Different(copies, k + n + 1, n) {
      RoundFills(copies, k, k + n, n);
      assert FillsUpAgain(copies, k + n + n, n);
    }
  }

  lemma AnnouncementDoesNotFill(copies: seq<Copy>, j: nat, n: nat)
    requires n > 0 && j < |copies| && copies[j].Announcement?
    ensures !FillsUp(copies, j, n)
  {
  }

  lemma RoundFills(copies: seq<Copy>, k: nat, j: nat, n: nat)
    requires n > 0 && Round(copies, k, n) && j == k + n
    ensures FillsUp(copies, j, n)
  {
  }

  /** With a single announcement only the very first chunks count. */
  lemma FirstChunksDecide(copies: seq<Copy>, n: nat)
    requires n > 0 && copies != [] && copies[0].Announcement? && forall j :: 0 < j < |copies| ==> copies[j].Part?
    ensures HasRound(copies, n) <==>
            n < |copies| && forall i, j :: 0 < i < j <= n ==> copies[i].piece != copies[j].piece
  {
    if n < |copies| && forall i, j :: 0 < i < j <= n ==> copies[i].piece != copies[j].piece {
      assert Round(copies, 0, n);
    }
    if HasRound(copies, n) {
      var k: nat :| Round(copies, k, n);
      assert k == 0;
    }
  }

  /** A version of a file as it is sent: the operation that announces it and the bytes cut into chunks. */
  datatype Version = Version(env: Env, chunkSize: nat, op: SyncOperation, data: Bytes) {
    function Via(): Channel {
      Channel(env, chunkSize, op.fileID)
    }

    /** How many chunks there are. */
    function Count(): (n: nat)
      requires chunkSize > 0
    {
      CalculateChunkCount(|data|, chunkSize)
    }

    ghost predicate Valid() {
      && chunkSize > 0 && Announces(Operation(op, []))
      && (op.compressed ==> env.decompress(data).Some?)
    }

    /** Copies of the announcement and of the chunks, in any number and order, an announcement first. */
    ghost predicate Copies(copies: seq<Copy>)
      requires chunkSize > 0
    {
      && (copies != [] ==> copies[0].Announcement?)
      && forall k :: 0 <= k < |copies| ==>
           match copies[k]
           case Announcement(announced) => announced == op
           case Part(piece, _) => piece.version == data && piece.index < Count()
    }

    /** What the first complete transfer hands over. */
    function Whole(): Handed
      requires op.compressed ==> env.decompress(data).Some?
    {
      Handed(data, Uncompressed(env, op, data).value, op.(size := |data|))
    }

    /** What a complete transfer hands over that no announcement stands for: the bytes as they were sent,
        compressed or not, under an operation without a path. */
    function Again(c: Copy): Handed
      requires c.Part?
    {
      Handed(data, data, SyncOperation("", Create, "", op.fileID, env.h(data), |data|, c.sender, false, None))
    }

    lemma CountIsPositive()
      requires chunkSize > 0
      ensures Count() > 0
    {
      ChunkFilePartitions(env.h, chunkSize, op.fileID, data);
    }

    lemma CopiesAreStream(copies: seq<Copy>)
      requires Valid() && Copies(copies)
      ensures Via().Stream(copies)
    {
      if data == [] {
        assert Via().AllEmpty(copies);
      } else {
        assert Via().NoneEmpty(copies);
      }
    }

    /** What copy `j` hands over: something if it fills up a set of different chunks. */
    ghost function HandoverAt(copies: seq<Copy>, j: nat): seq<Handed>
      requires Valid() && Copies(copies) && j < |copies| && Count() > 0
    {
      if FillsUp(copies, j, Count()) then [if copies[j - Count()].Announcement? then Whole() else Again(copies[j])]
      else []
    }

    /** What is handed over while the first `k` copies arrive. */
    ghost function Handovers(copies: seq<Copy>, k: nat): seq<Handed>
      requires Valid() && Copies(copies) && k <= |copies| && Count() > 0
    {
      if k == 0 then [] else Handovers(copies, k - 1) + HandoverAt(copies, k - 1)
    }

    /** What the first `k` copies say about the intake that they lead to: the chunks since the last
        announcement or filling are pending. */
    ghost predicate Explained(copies: seq<Copy>, k: nat, i: Intake)
      requires Valid() && Copies(copies) && 0 < k <= |copies| && Count() > 0
    {
      var first := k - |i.pending|;
      && 0 < first && i.announced == (if copies[first - 1].Announcement? then Some(op) else None)
      && (copies[first - 1].Announcement? || FillsUp(copies, first - 1, Count()))
      && (forall j :: first <= j < k ==>
            copies[j].Part? && i.pending[j - first] == copies[j].piece && !FillsUp(copies, j, Count()))
    }

    lemma FillingIs(copies: seq<Copy>, k: nat, n: nat)
      requires n > 0 && FillsUp(copies, k, n)
      ensures n <= k < |copies| && (copies[k - n].Announcement? || FillsUp(copies, k - n, n))
      ensures forall j :: k - n < j <= k ==> copies[j].Part?
    {
    }

    lemma FillsUpFromPending(copies: seq<Copy>, k: nat, i: Intake)
      requires Valid() && Copies(copies) && 0 < k < |copies| && Count() > 0
      requires Explained(copies, k, i) && copies[k].Part? && FillsUp(copies, k, Count())
      ensures |i.pending| + 1 == Count()
    {
      hide FillsUp;
      var n, first := Count(), k - |i.pending|;
      FillingIs(copies, k, n);
      assert k - n < first;
      if first - 1 > k - n {
        FillingsAreApart(copies, first - 1, k, n);
      }
    }

    /** The pending chunks and the next one are as many as there are, and fill up if they differ. */
    lemma FillsUpAt(copies: seq<Copy>, k: nat, first: nat, n: nat)
      requires 0 < first <= k < |copies| && n == k - first + 1
      requires copies[first - 1].Announcement? || FillsUp(copies, first - 1, n)
      ensures FillsUp(copies, k, n) <==> Different(copies, first, n)
    {
    }

    /** The next chunk completes exactly when it makes the pending chunks as many as there are, and all
        are different. */
    lemma FillsUpNext(copies: seq<Copy>, k: nat, i: Intake)
      requires Valid() && Copies(copies) && 0 < k < |copies| && Count() > 0
      requires Explained(copies, k, i) && copies[k].Part?
      ensures FillsUp(copies, k, Count()) <==>
              |i.pending| + 1 == Count() && NoDuplicates(i.pending + [copies[k].piece])
    {
      hide FillsUp, Different, NoDuplicates;
      var first, more := k - |i.pending|, i.pending + [copies[k].piece];
      if FillsUp(copies, k, Count()) {
        FillsUpFromPending(copies, k, i);
      }
      if |more| == Count() {
        FillsUpAt(copies, k, first, Count());
        SamePieces(copies, first, more);
      }
    }

    static lemma SamePieces(copies: seq<Copy>, first: nat, pieces: seq<Piece>)
      requires first + |pieces| <= |copies|
      requires forall j :: first <= j < first + |pieces| ==> copies[j].Part? && pieces[j - first] == copies[j].piece
      ensures Different(copies, first, |pieces|) <==> NoDuplicates(pieces)
    {
      if Different(copies, first, |pieces|) {
        forall x, y | 0 <= x < y < |pieces|
          ensures pieces[x] != pieces[y]
        {
          assert copies[first + x].piece != copies[first + y].piece;
        }
      }
    }

    /** The intake holds pieces of this version only. */
    ghost predicate Pure(i: Intake)
      requires chunkSize > 0
    {
      && (i.announced == None || i.announced == Some(op))
      && Via().Cut().ArePieces(i.pending) && Via().Cut().OneVersion(i.pending, data)
    }

    lemma AssembledGoesOut(announced: Option<SyncOperation>, c: Copy)
      requires Valid() && (announced == None || announced == Some(op))
      requires c.Part? && Via().IsCopy(c) && c.piece.version == data
      ensures Via().HandedAs(announced, data, c) == [if announced.Some? then Whole() else Again(c)]
    {
      Via().Cut().PieceIsMarked(c.piece);
    }

    lemma PartAfter(i: Intake, c: Copy)
      requires Valid() && Pure(i) && c.Part? && Via().IsCopy(c) && c.piece.version == data
      ensures var more := i.pending + [c.piece];
              && Via().After(i, c) == (
                   if |more| == Count() && NoDuplicates(more) then
                     Intake(None, [], i.out + [if i.announced.Some? then Whole() else Again(c)])
                   else i.(pending := more))
              && (Via().Accepts(i, c) <==> |more| != Count() || NoDuplicates(more))
    {
      var more := i.pending + [c.piece];
      if |more| == Count() {
        Via().Cut().OneVersionCuts(more, data);
        AssembledGoesOut(i.announced, c);
        if NoDuplicates(more) {
          assert Via().Assembles(more, c.piece.version, data);
          Via().AfterAssembling(i, c, data);
        } else {
          assert !exists other :: Via().Assembles(more, c.piece.version, other);
        }
      } else {
        assert !exists other :: Via().Assembles(more, c.piece.version, other);
      }
    }

    /** The intake of the first `k` copies, as the copies explain it. */
    ghost predicate Settled(copies: seq<Copy>, k: nat, i: Intake)
      requires Valid() && Copies(copies) && k <= |copies| && Count() > 0
    {
      Pure(i) && i.out == Handovers(copies, k) && (k > 0 ==> Explained(copies, k, i))
    }

    lemma AnnouncementSettles(copies: seq<Copy>, k: nat, i: Intake)
      requires Valid() && Copies(copies) && k < |copies| && Count() > 0 && copies[k].Announcement?
      requires Settled(copies, k, i)
      ensures Settled(copies, k + 1, Intake(Some(op), [], i.out))
    {
      hide FillsUp, Explained;
      AnnouncementDoesNotFill(copies, k, Count());
      AnnouncementIsExplained(copies, k, i.out);
    }

    lemma AnnouncementIsExplained(copies: seq<Copy>, k: nat, out: seq<Handed>)
      requires Valid() && Copies(copies) && k < |copies| && Count() > 0 && copies[k].Announcement?
      ensures Explained(copies, k + 1, Intake(Some(op), [], out))
    {
      hide FillsUp;
    }

    lemma StoredIsExplained(copies: seq<Copy>, k: nat, i: Intake)
      requires Valid() && Copies(copies) && 0 < k < |copies| && Count() > 0 && copies[k].Part?
      requires Explained(copies, k, i) && !FillsUp(copies, k, Count())
      ensures Explained(copies, k + 1, i.(pending := i.pending + [copies[k].piece]))
    {
      hide FillsUp;
      var first, more := k - |i.pending|, i.pending + [copies[k].piece];
      forall j | first <= j < k + 1
        ensures copies[j].Part? && more[j - first] == copies[j].piece && !FillsUp(copies, j, Count())
      {
        if j < k {
          assert more[j - first] == i.pending[j - first];
        }
      }
    }

    lemma StoredSettles(copies: seq<Copy>, k: nat, i: Intake)
      requires Valid() && Copies(copies) && 0 < k < |copies| && Count() > 0 && copies[k].Part?
      requires Settled(copies, k, i) && !FillsUp(copies, k, Count())
      ensures Settled(copies, k + 1, i.(pending := i.pending + [copies[k].piece]))
    {
      StoredIsExplained(copies, k, i);
      assert HandoverAt(copies, k) == [];
    }

    lemma FilledSettles(copies: seq<Copy>, k: nat, i: Intake)
      requires Valid() && Copies(copies) && 0 < k < |copies| && Count() > 0 && copies[k].Part?
      requires Settled(copies, k, i) && FillsUp(copies, k, Count())
      ensures Settled(copies, k + 1,
                      Intake(None, [], i.out + [if i.announced.Some? then Whole() else Again(copies[k])]))
    {
      hide FillsUp, Explained;
      AnnouncedBefore(copies, k, i);
      FilledIsExplained(copies, k, i.out + HandoverAt(copies, k));
    }

    lemma AnnouncedBefore(copies: seq<Copy>, k: nat, i: Intake)
      requires Valid() && Copies(copies) && 0 < k < |copies| && Count() > 0 && copies[k].Part?
      requires Explained(copies, k, i) && FillsUp(copies, k, Count())
      ensures k >= Count() && i.announced.Some? == copies[k - Count()].Announcement?
    {
      FillsUpFromPending(copies, k, i);
      hide FillsUp;
    }

    lemma FilledIsExplained(copies: seq<Copy>, k: nat, out: seq<Handed>)
      requires Valid() && Copies(copies) && k < |copies| && Count() > 0
      requires copies[k].Part? && FillsUp(copies, k, Count())
      ensures Explained(copies, k + 1, Intake(None, [], out))
    {
      hide FillsUp;
    }

    lemma CopySettles(copies: seq<Copy>, k: nat, i: Intake)
      requires Valid() && Copies(copies) && k < |copies| && Count() > 0
      requires Via().IsCopy(copies[k]) && Settled(copies, k, i)
      ensures Settled(copies, k + 1, Via().After(i, copies[k]))
    {
      if copies[k].Announcement? {
        AnnouncementSettles(copies, k, i);
      } else {
        PartAfter(i, copies[k]);
        FillsUpNext(copies, k, i);
        if FillsUp(copies, k, Count()) {
          FilledSettles(copies, k, i);
        } else {
          StoredSettles(copies, k, i);
        }
      }
    }

    lemma {:induction false} IntakeSettles(copies: seq<Copy>, k: nat)
      requires Valid() && Copies(copies) && Via().AreCopies(copies) && k <= |copies| && Count() > 0
      ensures Settled(copies, k, Via().IntakeOf(copies, k))
    {
      hide Settled, Channel.After;
      if k == 0 {
        NewIntakeSettles(copies);
      } else {
        IntakeSettles(copies, k - 1);
        CopySettles(copies, k - 1, Via().IntakeOf(copies, k - 1));
      }
    }

    lemma NewIntakeSettles(copies: seq<Copy>)
      requires Valid() && Copies(copies) && Count() > 0
      ensures Settled(copies, 0, NEW_INTAKE)
    {
    }

    // ---- the theorems ----

    /** What is handed over while copies of the version arrive, in whatever number and order and among
        messages about other files: one handover for each copy that fills up a set of different chunks, the
        version itself right after an announcement and the bare bytes otherwise. */
    lemma HandedOverExactly(copies: seq<Copy>, states: seq<State>, messages: seq<Message>)
      requires Valid() && Copies(copies) && IsRun(env, states, messages) && Coherent(states[0])
      requires Via().AreCopies(copies) && Via().Arrive(copies, messages)
      ensures Count() > 0
      ensures HandedFor(states[|messages|].handed, op.fileID) ==
              HandedFor(states[0].handed, op.fileID) + Handovers(copies, |copies|)
    {
      CountIsPositive();
      CopiesAreStream(copies);
      Via().StreamIsHandedOver(copies, states, messages);
      IntakeSettles(copies, |copies|);
    }

    lemma {:induction false} HandoversNeedRound(copies: seq<Copy>, k: nat)
      requires Valid() && Copies(copies) && k <= |copies| && Count() > 0
      ensures Handovers(copies, k) != [] ==> HasRound(copies, Count()) && Handovers(copies, k)[0] == Whole()
      ensures forall j: nat :: j < k && FillsUp(copies, j, Count()) ==> Handovers(copies, k) != []
      ensures forall d :: d in Handovers(copies, k) ==> d.assembled == data
    {
      hide FillsUp, Round, Different, HandoverAt;
      if k > 0 {
        HandoversNeedRound(copies, k - 1);
        HandoverNeedsRound(copies, k - 1);
      }
    }

    /** The handover of a copy, which is the whole version unless something was filled up before. */
    lemma HandoverNeedsRound(copies: seq<Copy>, j: nat)
      requires Valid() && Copies(copies) && j < |copies| && Count() > 0
      ensures HandoverAt(copies, j) != [] <==> FillsUp(copies, j, Count())
      ensures HandoverAt(copies, j) != [] ==> HasRound(copies, Count())
      ensures HandoverAt(copies, j) != [] ==>
                HandoverAt(copies, j)[0] == Whole() || exists x: nat :: x < j && FillsUp(copies, x, Count())
      ensures forall d :: d in HandoverAt(copies, j) ==> d.assembled == data
    {
      hide FillsUp, Round, Different;
      if FillsUp(copies, j, Count()) {
        FillingIs(copies, j, Count());
        var r := FillingStartsWithRound(copies, j, Count());
      }
    }

    /** Something is handed over exactly when some announcement is followed directly by every chunk once;
        the first thing handed over is the version under its announced operation. */
    lemma HandedOverNeedsRound(copies: seq<Copy>)
      requires Valid() && Copies(copies) && Count() > 0
      ensures Handovers(copies, |copies|) != [] <==> HasRound(copies, Count())
      ensures Handovers(copies, |copies|) != [] ==> Handovers(copies, |copies|)[0] == Whole()
      ensures forall d :: d in Handovers(copies, |copies|) ==> d.assembled == data
    {
      HandoversNeedRound(copies, |copies|);
      if k: nat :| Round(copies, k, Count()) {
        RoundFills(copies, k, k + Count(), Count());
      }
    }

    lemma HandoverIsAgain(copies: seq<Copy>, j: nat)
      requires Valid() && Copies(copies) && j < |copies| && Count() > 0 && op.path != ""
      ensures FillsUpAgain(copies, j, Count()) ==> HandoverAt(copies, j) == [Again(copies[j])]
      ensures forall d :: d in HandoverAt(copies, j) && d.op.path == "" ==> FillsUpAgain(copies, j, Count())
    {
    }

    lemma {:induction false} PathlessMeansAgain(copies: seq<Copy>, k: nat)
      requires Valid() && Copies(copies) && k <= |copies| && Count() > 0 && op.path != ""
      ensures (exists d :: d in Handovers(copies, k) && d.op.path == "") ==>
                exists j: nat :: j < k && FillsUpAgain(copies, j, Count())
      ensures forall j: nat :: j < k && FillsUpAgain(copies, j, Count()) ==> Again(copies[j]) in Handovers(copies, k)
    {
      hide FillsUpAgain, HandoverAt;
      if k > 0 {
        PathlessMeansAgain(copies, k - 1);
        HandoverIsAgain(copies, k - 1);
        if d :| d in HandoverAt(copies, k - 1) && d.op.path == "" {
          var last := k - 1;
          assert last < k && FillsUpAgain(copies, last, Count());
        }
      }
    }

    /** The bare bytes are handed over, under an operation without a path, exactly when a round is followed
        directly by every chunk once more. */
    lemma HandedOverAgainExactly(copies: seq<Copy>)
      requires Valid() && Copies(copies) && Count() > 0 && op.path != ""
      ensures (exists d :: d in Handovers(copies, |copies|) && d.op.path == "") <==> HasDoubleRound(copies, Count())
      ensures forall d :: d in Handovers(copies, |copies|) && d.op.path == "" ==>
                d.fileData == data && d.op.kind == Create && d.op.clock == None && d.op.checksum == env.h(data)
    {
      PathlessMeansAgain(copies, |copies|);
      HandoversAreWholeOrAgain(copies, |copies|);
      FillingAgainNeedsDoubleRound(copies, Count());
      if j: nat :| FillsUpAgain(copies, j, Count()) {
        assert Again(copies[j]) in Handovers(copies, |copies|) && Again(copies[j]).op.path == "";
      }
    }

    lemma {:induction false} HandoversAreWholeOrAgain(copies: seq<Copy>, k: nat)
      requires Valid() && Copies(copies) && k <= |copies| && Count() > 0
      ensures forall d :: d in Handovers(copies, k) ==> d == Whole() || IsAgain(d)
    {
      if k > 0 {
        HandoversAreWholeOrAgain(copies, k - 1);
      }
    }

    ghost predicate IsAgain(d: Handed) {
      d.fileData == data && d.op.kind == Create && d.op.clock == None && d.op.checksum == env.h(data)
    }

    /** The announcement and then every chunk once, in any order: one handover, and nothing stays stored. */
    lemma HandedOverOnce(copies: seq<Copy>)
      requires Valid() && Copies(copies) && Via().AreCopies(copies) && Count() > 0
      requires |copies| == Count() + 1 && Round(copies, 0, Count())
      ensures Via().IntakeOf(copies, |copies|) == Intake(None, [], [Whole()])
    {
      var n := Count();
      IntakeSettles(copies, |copies|);
      RoundFills(copies, 0, n, n);
      NothingFillsUpBefore(copies, n);
      assert Handovers(copies, |copies|) == Handovers(copies, n) + [Whole()];
      assert !(0 < |Via().IntakeOf(copies, |copies|).pending|);
    }

    lemma {:induction false} NothingFillsUpBefore(copies: seq<Copy>, k: nat)
      requires Valid() && Copies(copies) && k <= |copies| && k <= Count() && Count() > 0
      ensures Handovers(copies, k) == []
    {
      if k > 0 {
        NothingFillsUpBefore(copies, k - 1);
      }
    }

    /** If a version is announced and then all of its chunks arrive exactly once, in any order and among
        messages about other files, its bytes are handed over exactly once and nothing stays stored. */
    lemma VersionHandedOverOnce(copies: seq<Copy>, states: seq<State>, messages: seq<Message>)
      requires Valid() && Copies(copies) && IsRun(env, states, messages) && Coherent(states[0])
      requires Via().AreCopies(copies) && Via().Arrive(copies, messages)
      requires |copies| == Count() + 1 && Round(copies, 0, Count())
      ensures var f, last := op.fileID, states[|messages|];
              && HandedFor(last.handed, f) == HandedFor(states[0].handed, f) + [Whole()]
              && f !in last.assembledChunks && f !in last.chunkMetadata
    {
      CountIsPositive();
      CopiesAreStream(copies);
      Via().StreamIsHandedOver(copies, states, messages);
      HandedOverOnce(copies);
    }

    // ---- what goes wrong ----

    /** Two chunks of which the first comes twice: nothing is handed over. The three chunks stay stored,
        one too many to be tried again. */
    lemma RepeatedChunkLosesFile(copies: seq<Copy>, first: Copy, second: Copy)
      requires Valid() && Copies(copies) && Via().AreCopies(copies) && Count() == 2
      requires first.Part? && second.Part? && copies == [Announcement(op), first, first, second]
      ensures Via().IntakeOf(copies, 4).out == [] && |Via().IntakeOf(copies, 4).pending| == 3
    {
      FirstChunksDecide(copies, 2);
      assert copies[1].piece == copies[2].piece;
      HandedOverNeedsRound(copies);
      IntakeSettles(copies, 4);
      var i := Via().IntakeOf(copies, 4);
      forall j: nat | FillsUp(copies, j, 2)
        ensures false
      {
        var k := FillingStartsWithRound(copies, j, 2);
      }
      assert 4 - |i.pending| - 1 == 0;
    }

    lemma RoundHandsOver(copies: seq<Copy>)
      requires Valid() && Copies(copies) && Count() > 0 && Round(copies, 0, Count())
      ensures HandoverAt(copies, Count()) == [Whole()]
    {
      RoundFills(copies, 0, Count(), Count());
    }

    lemma NoHandoverBetween(copies: seq<Copy>, j: nat)
      requires Valid() && Copies(copies) && Count() > 0 && Round(copies, 0, Count())
      requires Count() < j < 2 * Count() && j < |copies|
      ensures HandoverAt(copies, j) == []
    {
      RoundFills(copies, 0, Count(), Count());
      if FillsUp(copies, j, Count()) {
        FillingsAreApart(copies, Count(), j, Count());
      }
    }

    lemma SecondSetHandsOver(copies: seq<Copy>, j: nat)
      requires Valid() && Copies(copies) && Count() > 0 && Round(copies, 0, Count())
      requires j == 2 * Count() && Different(copies, Count() + 1, Count())
      ensures HandoverAt(copies, j) == [Again(copies[j])]
    {
      RoundFills(copies, 0, Count(), Count());
      assert copies[Count()].Part?;
      assert FillsUp(copies, j, Count());
    }

    lemma {:induction false} NothingFillsUpBetween(copies: seq<Copy>, k: nat)
      requires Valid() && Copies(copies) && Count() > 0 && Round(copies, 0, Count())
      requires Count() < k <= |copies| && k <= 2 * Count()
      ensures Handovers(copies, k) == [Whole()]
    {
      hide HandoverAt, Round;
      if k == Count() + 1 {
        NothingFillsUpBefore(copies, Count());
        RoundHandsOver(copies);
      } else {
        NothingFillsUpBetween(copies, k - 1);
        NoHandoverBetween(copies, k - 1);
      }
    }

    /** A version whose chunks all come twice, the second time with no announcement, is handed over twice;
        the second time as the bytes that were sent, under an operation without a path. */
    lemma RepeatedChunksAreHandedOverAgain(copies: seq<Copy>)
      requires Valid() && Copies(copies) && Count() > 0 && |copies| == 2 * Count() + 1
      requires Round(copies, 0, Count()) && Different(copies, Count() + 1, Count())
      ensures Handovers(copies, |copies|) == [Whole(), Again(copies[2 * Count()])]
    {
      hide HandoverAt, Round, Different;
      NothingFillsUpBetween(copies, 2 * Count());
      SecondSetHandsOver(copies, 2 * Count());
    }

    /** For one, two chunks that come twice in order. */
    lemma TwoChunksComeTwice(copies: seq<Copy>, first: Copy, second: Copy)
      requires Valid() && Copies(copies) && Count() == 2 && first.Part? && second.Part? && first.piece != second.piece
      requires copies == [Announcement(op), first, second, first, second]
      ensures Handovers(copies, 5) == [Whole(), Again(second)]
    {
      RepeatedChunksAreHandedOverAgain(copies);
    }

    /** A version whose chunks arrive after another version has been announced goes out under the operation
        of the other one, with a checksum that it does not have. */
    lemma StaleChunksGoOutAsNewer(stale: SyncOperation, copies: seq<Copy>, states: seq<State>,
                                  messages: seq<Message>)
      requires Valid() && Copies(copies) && IsRun(env, states, messages) && Coherent(states[0])
      requires stale.fileID == op.fileID && Announces(Operation(stale, []))
      requires Via().AreCopies(copies) && Via().AreCopies([Announcement(stale)] + copies)
      requires Via().Arrive([Announcement(stale)] + copies, messages)
      requires |copies| == Count() + 1 && Round(copies, 0, Count())
      requires stale.checksum == env.h(data) != op.checksum
      ensures HandedFor(states[|messages|].handed, op.fileID) ==
              HandedFor(states[0].handed, op.fileID) + [Whole()]
      ensures Whole().assembled == data && Whole().op.checksum != env.h(Whole().assembled)
    {
      CountIsPositive();
      CopiesAreStream(copies);
      var all := [Announcement(stale)] + copies;
      assert forall k :: 0 < k < |all| ==> all[k] == copies[k - 1];
      Via().StreamIsHandedOver(all, states, messages);
      Via().AnnouncementForgets(Announcement(stale), copies, |copies|);
      HandedOverOnce(copies);
    }

    /** Announced, with these pieces pending, nothing handed over, and these answers given. */
    ghost predicate Waiting(copies: seq<Copy>, k: nat, pending: seq<Piece>, answers: seq<bool>)
      requires chunkSize > 0 && Via().AreCopies(copies) && k <= |copies|
    {
      && Via().IntakeOf(copies, k) == Intake(Some(op), pending, []) && Via().Cut().OneVersion(pending, data)
      && Via().AnswersTo(copies, k) == answers
    }

    lemma WaitsAfterAnnouncement(copies: seq<Copy>)
      requires chunkSize > 0 && Via().AreCopies(copies) && copies != [] && copies[0] == Announcement(op)
      ensures Waiting(copies, 1, [], [true])
    {
      assert Via().IntakeOf(copies, 0) == NEW_INTAKE && Via().AnswersTo(copies, 0) == [];
    }

    lemma WaitsAfterPart(copies: seq<Copy>, k: nat, pending: seq<Piece>, answers: seq<bool>)
      requires Valid() && Copies(copies) && Via().AreCopies(copies) && k < |copies| && copies[k].Part?
      requires Waiting(copies, k, pending, answers)
      requires |pending| + 1 != Count() || !NoDuplicates(pending + [copies[k].piece])
      ensures Waiting(copies, k + 1, pending + [copies[k].piece], answers + [|pending| + 1 != Count()])
    {
      PartAfter(Via().IntakeOf(copies, k), copies[k]);
    }

    lemma RepeatedPiece(p: Piece)
      ensures !NoDuplicates([p] + [p])
    {
      assert ([p] + [p])[0] == ([p] + [p])[1];
    }

    /** When the first of two chunks comes three times, the receiver refuses the second copy, with which
        it tries to assemble, and accepts everything else. */
    lemma OnlySecondCopyIsRefused(copies: seq<Copy>, first: Copy, second: Copy)
      requires Valid() && Copies(copies) && Via().AreCopies(copies) && Count() == 2
      requires first.Part? && second.Part? && copies == [Announcement(op), first, first, first, second]
      ensures Via().AnswersTo(copies, 5) == [true, true, false, true, true]
    {
      var p := first.piece;
      hide Waiting, Copies, NoDuplicates, Channel.AnswersTo, Channel.AreCopies;
      SecondCopyIsRefused(copies, p);
      WaitsAfterPart(copies, 3, [p] + [p], [true, true] + [false]);
      WaitsAfterPart(copies, 4, [p] + [p] + [p], [true, true] + [false] + [true]);
      AnswersWhileWaiting(copies, 5, [p] + [p] + [p] + [copies[4].piece], [true, true] + [false] + [true] + [true]);
      assert [true, true] + [false] + [true] + [true] == [true, true, false, true, true];
    }

    lemma SecondCopyIsRefused(copies: seq<Copy>, p: Piece)
      requires Valid() && Copies(copies) && Via().AreCopies(copies) && Count() == 2 && |copies| > 2
      requires copies[0] == Announcement(op) && copies[1].Part? && copies[1].piece == p && copies[2] == copies[1]
      ensures Waiting(copies, 3, [p] + [p], [true, true] + [false])
    {
      hide Waiting, Copies, NoDuplicates, Channel.AreCopies;
      WaitsAfterAnnouncement(copies);
      WaitsAfterPart(copies, 1, [], [true]);
      RepeatedPiece(p);
      assert [] + [p] == [p] && [true] + [true] == [true, true];
      WaitsAfterPart(copies, 2, [p], [true, true]);
    }

    lemma AnswersWhileWaiting(copies: seq<Copy>, k: nat, pending: seq<Piece>, answers: seq<bool>)
      requires chunkSize > 0 && Via().AreCopies(copies) && k <= |copies| && Waiting(copies, k, pending, answers)
      ensures Via().AnswersTo(copies, k) == answers
    {
    }
  }
}
