/** Sender and receiver together: when a file that is sent is handed to the other peer's engine. */
module EndToEnd {
  import opened Assembly
  import opened Chunking
  import opened Delivery
  import opened Finite
  import opened Operations
  import Handler
  import Reception
  import SingleVersion

  /** Files longer than the chunk size are cut, files above the threshold are compressed. */
  datatype Config = Config(chunkSize: nat, compressAbove: Option<int>, compress: Bytes -> Bytes) {
    predicate Compresses(file: Bytes) {
      compressAbove.Some? && |file| > compressAbove.value
    }

    function Payload(file: Bytes): Bytes {
      if Compresses(file) then compress(file) else file
    }

    /** The operation as it is sent along. */
    function Sent(op: SyncOperation, file: Bytes): SyncOperation {
      op.(compressed := Compresses(file))
    }

    /** The version that the receiver is to get in chunks. */
    function VersionOf(env: Handler.Env, op: SyncOperation, file: Bytes): SingleVersion.Version {
      SingleVersion.Version(env, chunkSize, Sent(op, file), Payload(file))
    }

    /** The messages of a file: in one piece, or the announcement and then the chunks. */
    function Messages(env: Handler.Env, op: SyncOperation, file: Bytes): seq<Handler.Message>
      requires chunkSize > 0
    {
      if |file| > chunkSize then ChunkedMessages(VersionOf(env, op, file))
      else [Handler.Operation(Sent(op, file), Payload(file))]
    }
  }

  /** Message `i` of a chunked file, as the receiver knows it. */
  function CopyAt(v: SingleVersion.Version, i: nat): Reception.Copy {
    if i == 0 then Reception.Announcement(v.op) else Reception.Part(Piece(v.data, i - 1), v.op.peerID)
  }

  function ChunkedMessages(v: SingleVersion.Version): seq<Handler.Message>
    requires v.chunkSize > 0
  {
    seq(v.Count() + 1, i requires 0 <= i <= v.Count() => v.Via().MessageOf(CopyAt(v, i)))
  }

  // ---- the IDs handled, and the copies that they stand for ----

  /** What arrives about the file is what was sent under the IDs handled. */
  ghost predicate Arrives(ids: seq<string>, handled: seq<string>, sent: seq<Handler.Message>,
                          about: seq<Handler.Message>)
    requires |sent| == |ids|
  {
    && |about| == |handled|
    && forall k, i :: 0 <= k < |about| && 0 <= i < |sent| && handled[k] == ids[i] ==> about[k] == sent[i]
  }

  /** From `first` on the IDs of `n` chunks were handled, all of them different. */
  ghost predicate DifferentChunks(ids: seq<string>, handled: seq<string>, first: nat, n: nat)
    requires ids != []
  {
    && first + n <= |handled|
    && (forall j :: first <= j < first + n ==> handled[j] != ids[0])
    && (forall i, j :: first <= i < j < first + n ==> handled[i] != handled[j])
  }

  /** At `k` the announcement was handled, and directly after it every chunk once. */
  ghost predicate Stretch(ids: seq<string>, handled: seq<string>, k: nat)
    requires ids != []
  {
    k < |handled| && handled[k] == ids[0] && DifferentChunks(ids, handled, k + 1, |ids| - 1)
  }

  /** The chunk handled at `j` is the last of all chunks, handled right after the announcement or right
      after another such set. */
  ghost predicate FillsUp(ids: seq<string>, handled: seq<string>, j: nat)
    requires |ids| > 1
  {
    var n := |ids| - 1;
    && n <= j < |handled| && DifferentChunks(ids, handled, j - n + 1, n)
    && (handled[j - n] == ids[0] || FillsUp(ids, handled, j - n))
  }

  lemma {:induction false} PositionOf(ids: seq<string>, id: string) returns (i: nat)
    requires id in ids
    ensures i < |ids| && ids[i] == id
  {
    i :| 0 <= i < |ids| && ids[i] == id;
  }

  /** The copies stand for the IDs handled. */
  ghost predicate StandFor(v: SingleVersion.Version, ids: seq<string>, handled: seq<string>,
                           copies: seq<Reception.Copy>)
    requires v.chunkSize > 0
  {
    && |ids| == v.Count() + 1 && |copies| == |handled|
    && forall k :: 0 <= k < |handled| ==>
         exists i :: 0 <= i < |ids| && handled[k] == ids[i] && copies[k] == CopyAt(v, i)
  }

  lemma {:induction false} CopiesFor(v: SingleVersion.Version, ids: seq<string>, handled: seq<string>, k: nat)
    returns (copies: seq<Reception.Copy>)
    requires v.chunkSize > 0 && |ids| == v.Count() + 1 && k <= |handled| && forall id :: id in handled ==> id in ids
    ensures StandFor(v, ids, handled[..k], copies)
  {
    if k == 0 {
      copies := [];
    } else {
      copies := CopiesFor(v, ids, handled, k - 1);
      var i := PositionOf(ids, handled[k - 1]);
      copies := copies + [CopyAt(v, i)];
      assert handled[..k] == handled[..k - 1] + [handled[k - 1]];
    }
  }

  /** Which ID a copy stands for shows in the copy. */
  lemma CopyTells(v: SingleVersion.Version, ids: seq<string>, handled: seq<string>, copies: seq<Reception.Copy>,
                  j: nat)
    returns (i: nat)
    requires v.chunkSize > 0 && NoDuplicates(ids) && StandFor(v, ids, handled, copies) && j < |handled|
    ensures i < |ids| && handled[j] == ids[i] && copies[j] == CopyAt(v, i)
    ensures copies[j].Announcement? <==> handled[j] == ids[0]
  {
    i :| 0 <= i < |ids| && handled[j] == ids[i] && copies[j] == CopyAt(v, i);
    assert i > 0 ==> ids[0] != ids[i];
  }

  lemma CopiesTell(v: SingleVersion.Version, ids: seq<string>, handled: seq<string>, copies: seq<Reception.Copy>)
    requires v.chunkSize > 0 && NoDuplicates(ids) && StandFor(v, ids, handled, copies)
    ensures forall j :: 0 <= j < |handled| ==> (copies[j].Announcement? <==> handled[j] == ids[0])
    ensures forall j, k :: 0 <= j < |handled| && 0 <= k < |handled| && copies[j].Part? && copies[k].Part? ==>
              (copies[j].piece == copies[k].piece <==> handled[j] == handled[k])
  {
    forall j | 0 <= j < |handled|
      ensures copies[j].Announcement? <==> handled[j] == ids[0]
    {
      var i := CopyTells(v, ids, handled, copies, j);
    }
    forall j, k | 0 <= j < |handled| && 0 <= k < |handled| && copies[j].Part? && copies[k].Part?
      ensures copies[j].piece == copies[k].piece <==> handled[j] == handled[k]
    {
      var a := CopyTells(v, ids, handled, copies, j);
      var b := CopyTells(v, ids, handled, copies, k);
    }
  }

  lemma SameDifferent(v: SingleVersion.Version, ids: seq<string>, handled: seq<string>, copies: seq<Reception.Copy>,
                      first: nat, n: nat)
    requires v.chunkSize > 0 && NoDuplicates(ids) && StandFor(v, ids, handled, copies)
    ensures SingleVersion.Different(copies, first, n) <==> DifferentChunks(ids, handled, first, n)
  {
    CopiesTell(v, ids, handled, copies);
  }

  lemma {:induction false} SameFilling(v: SingleVersion.Version, ids: seq<string>, handled: seq<string>,
                                       copies: seq<Reception.Copy>, j: nat)
    requires v.chunkSize > 0 && v.Count() > 0 && NoDuplicates(ids) && StandFor(v, ids, handled, copies)
    ensures SingleVersion.FillsUp(copies, j, v.Count()) <==> FillsUp(ids, handled, j)
  {
    var n := v.Count();
    assert |copies| == |handled| && |ids| == n + 1;
    hide StandFor, SingleVersion.Different, DifferentChunks;
    if n <= j < |handled| {
      SameDifferent(v, ids, handled, copies, j - n + 1, n);
      var i := CopyTells(v, ids, handled, copies, j - n);
      SameFilling(v, ids, handled, copies, j - n);
    }
  }

  lemma SameStretch(v: SingleVersion.Version, ids: seq<string>, handled: seq<string>, copies: seq<Reception.Copy>,
                    k: nat)
    requires v.chunkSize > 0 && NoDuplicates(ids) && StandFor(v, ids, handled, copies)
    ensures SingleVersion.Round(copies, k, v.Count()) <==> Stretch(ids, handled, k)
  {
    SameDifferent(v, ids, handled, copies, k + 1, v.Count());
    if k < |handled| {
      var i := CopyTells(v, ids, handled, copies, k);
    }
  }

  /** What the message handled at `j` hands over: something if it fills up a set of all chunks, namely
      `whole` right after the announcement and `again` when none stands. */
  ghost function HandoverAt(ids: seq<string>, handled: seq<string>, whole: Handler.Handed, again: Handler.Handed,
                            j: nat): seq<Handler.Handed>
    requires |ids| > 1 && j < |handled|
  {
    if FillsUp(ids, handled, j) then [if handled[j + 1 - |ids|] == ids[0] then whole else again] else []
  }

  ghost function Handovers(ids: seq<string>, handled: seq<string>, whole: Handler.Handed, again: Handler.Handed,
                           k: nat): seq<Handler.Handed>
    requires |ids| > 1 && k <= |handled|
  {
    if k == 0 then []
    else Handovers(ids, handled, whole, again, k - 1) + HandoverAt(ids, handled, whole, again, k - 1)
  }

  lemma HandoverMatches(v: SingleVersion.Version, ids: seq<string>, handled: seq<string>, copies: seq<Reception.Copy>,
                        again: Handler.Handed, j: nat)
    requires v.Valid() && v.Copies(copies) && v.Count() > 0
    requires NoDuplicates(ids) && StandFor(v, ids, handled, copies) && j < |handled|
    requires forall k :: 0 <= k < |copies| && copies[k].Part? ==> v.Again(copies[k]) == again
    ensures v.HandoverAt(copies, j) == HandoverAt(ids, handled, v.Whole(), again, j)
  {
    SameFilling(v, ids, handled, copies, j);
    if FillsUp(ids, handled, j) {
      var i := CopyTells(v, ids, handled, copies, j - v.Count());
      assert copies[j].Part?;
    }
  }

  lemma {:induction false} HandoversMatch(v: SingleVersion.Version, ids: seq<string>, handled: seq<string>,
                                          copies: seq<Reception.Copy>, again: Handler.Handed, k: nat)
    requires v.Valid() && v.Copies(copies) && v.Count() > 0
    requires NoDuplicates(ids) && StandFor(v, ids, handled, copies) && k <= |handled|
    requires forall j :: 0 <= j < |copies| && copies[j].Part? ==> v.Again(copies[j]) == again
    ensures v.Handovers(copies, k) == Handovers(ids, handled, v.Whole(), again, k)
  {
    hide HandoverAt, SingleVersion.Version.HandoverAt;
    if k > 0 {
      HandoversMatch(v, ids, handled, copies, again, k - 1);
      HandoverMatches(v, ids, handled, copies, again, k - 1);
    }
  }

  lemma AllIsOneStretch(ids: seq<string>)
    requires ids != [] && NoDuplicates(ids)
    ensures Stretch(ids, ids, 0)
  {
  }

  // ---- a transfer ----

  /** A file sent, and the run of the receiver that its messages arrive in, among others. */
  datatype Transfer = Transfer(env: Handler.Env, cfg: Config, op: SyncOperation, file: Bytes, sender: Sender,
                               events: seq<Event>, states: seq<Handler.State>, messages: seq<Handler.Message>)
  {
    /** Created or updated files are sent; decompression undoes compression; the IDs are those of the
        file's messages; what arrives about the file is what was handled in the run of the sender. */
    ghost predicate Valid() {
      && cfg.chunkSize > 0 && (op.kind == Create || op.kind == Update)
      && (cfg.Compresses(file) ==> env.decompress(cfg.Payload(file)) == Some(file))
      && sender.Valid() && |sender.ids| == |cfg.Messages(env, op, file)|
      && Handler.IsRun(env, states, messages) && Handler.Coherent(states[0])
      && Arrives(sender.ids, Handled(), cfg.Messages(env, op, file), Reception.About(messages, op.fileID))
    }

    function Handled(): seq<string> {
      sender.Run(events).handled
    }

    function Version(): SingleVersion.Version {
      cfg.VersionOf(env, op, file)
    }

    predicate Chunked() {
      |file| > cfg.chunkSize
    }

    /** What is handed over for the file before, and what on top of that during, the run. */
    ghost function Before(): seq<Handler.Handed>
      requires states != []
    {
      Reception.HandedFor(states[0].handed, op.fileID)
    }

    ghost function Now(): seq<Handler.Handed>
      requires states != []
    {
      Reception.HandedFor(states[|states| - 1].handed, op.fileID)
    }

    /** The file as it should be handed over, with its operation: all that is new in this is whether the
        payload is compressed, and how long it is if it came in chunks. */
    function Whole(): Handler.Handed {
      var payload := if cfg.Compresses(file) then cfg.compress(file) else file;
      Handler.Handed(payload, file, op.(compressed := cfg.Compresses(file),
                                        size := if Chunked() then |payload| else op.size))
    }

    /** What is handed over instead when no announcement stands: the payload, compressed or not, taken
        for the file, under an operation without a path and a clock. */
    function Again(): Handler.Handed {
      var payload := cfg.Payload(file);
      Handler.Handed(payload, payload,
                     SyncOperation("", Create, "", op.fileID, env.h(payload), |payload|, op.peerID, false, None))
    }

    /** What the transfer of a file in chunks hands over. */
    ghost function HandedOver(): seq<Handler.Handed>
      requires |sender.ids| > 1
    {
      Handovers(sender.ids, Handled(), Whole(), Again(), |Handled()|)
    }

    /** When the file gets through: in chunks, if the announcement is at some time followed directly by
        every chunk once; in one piece, if it arrives at all and is not empty. */
    ghost predicate GetsThrough()
      requires sender.ids != []
    {
      if Chunked() then exists k: nat :: Stretch(sender.ids, Handled(), k)
      else cfg.Payload(file) != [] && Handled() != []
    }

    /** When it gets through once more without its announcement. */
    ghost predicate GetsThroughBare()
      requires sender.ids != []
    {
      Chunked() &&
      exists k: nat ::
        Stretch(sender.ids, Handled(), k) &&
        DifferentChunks(sender.ids, Handled(), k + |sender.ids|, |sender.ids| - 1)
    }

    // ---- in chunks ----

    lemma ChunkedIsVersion()
      requires Valid() && Chunked()
      ensures Version().Valid() && Version().Whole() == Whole() && Version().Count() > 0
      ensures |sender.ids| == Version().Count() + 1
    {
      Version().CountIsPositive();
    }

    lemma CopiesHandled() returns (copies: seq<Reception.Copy>)
      requires Valid() && Chunked()
      ensures StandFor(Version(), sender.ids, Handled(), copies)
    {
      ChunkedIsVersion();
      sender.SuccessMeansHandled(events);
      copies := CopiesFor(Version(), sender.ids, Handled(), |Handled()|);
      assert Handled()[..|Handled()|] == Handled();
    }

    lemma CopiesArrive(copies: seq<Reception.Copy>)
      requires Valid() && Chunked() && StandFor(Version(), sender.ids, Handled(), copies)
      ensures Version().Valid() && Version().Via().AreCopies(copies)
      ensures Version().Via().Arrive(copies, messages)
    {
      ChunkedIsVersion();
      var v, about := Version(), Reception.About(messages, op.fileID);
      forall k | 0 <= k < |copies|
        ensures v.Via().IsCopy(copies[k]) && about[k] == v.Via().MessageOf(copies[k])
      {
        var i := CopyTells(v, sender.ids, Handled(), copies, k);
        assert about[k] == ChunkedMessages(v)[i];
      }
    }

    lemma CopiesAreInOrder(copies: seq<Reception.Copy>)
      requires Valid() && Chunked() && StandFor(Version(), sender.ids, Handled(), copies)
      ensures Version().Valid() && Version().Copies(copies)
      ensures forall k :: 0 <= k < |copies| && copies[k].Part? ==> copies[k].sender == op.peerID
    {
      ChunkedIsVersion();
      sender.SuccessMeansHandled(events);
      var v := Version();
      forall k | 0 <= k < |copies|
        ensures match copies[k]
                case Announcement(announced) => announced == v.op
                case Part(piece, peer) => piece.version == v.data && piece.index < v.Count() && peer == op.peerID
      {
        var i := CopyTells(v, sender.ids, Handled(), copies, k);
      }
      if copies != [] {
        var i := CopyTells(v, sender.ids, Handled(), copies, 0);
        assert Handled()[..0] == [];
        assert i == 0;
      }
    }

    /** In chunks: one handover for each chunk handled that fills up a set of all chunks, the file itself
        right after its announcement and the payload otherwise. */
    lemma ChunkedIsHandedOver()
      requires Valid() && Chunked()
      ensures |sender.ids| > 1 && Now() == Before() + HandedOver()
      ensures HandedOver() != [] <==> GetsThrough()
      ensures HandedOver() != [] ==> HandedOver()[0] == Whole()
    {
      ChunkedIsVersion();
      var v := Version();
      var copies := CopiesHandled();
      CopiesArrive(copies);
      CopiesAreInOrder(copies);
      HandoversMatch(v, sender.ids, Handled(), copies, Again(), |copies|);
      v.HandedOverExactly(copies, states, messages);
      v.HandedOverNeedsRound(copies);
      RoundsAreStretches(copies);
    }

    lemma RoundsAreStretches(copies: seq<Reception.Copy>)
      requires Valid() && Chunked() && StandFor(Version(), sender.ids, Handled(), copies)
      ensures |sender.ids| == Version().Count() + 1
      ensures SingleVersion.HasRound(copies, Version().Count()) <==> GetsThrough()
      ensures SingleVersion.HasDoubleRound(copies, Version().Count()) <==> GetsThroughBare()
    {
      ChunkedIsVersion();
      var ids, n := sender.ids, Version().Count();
      forall k: nat
        ensures SingleVersion.Round(copies, k, n) <==> Stretch(ids, Handled(), k)
        ensures SingleVersion.Different(copies, k + n + 1, n) <==> DifferentChunks(ids, Handled(), k + |ids|, n)
      {
        SameStretch(Version(), ids, Handled(), copies, k);
        SameDifferent(Version(), ids, Handled(), copies, k + n + 1, n);
      }
    }

    /** Once more with no announcement standing: exactly when the file gets through bare. */
    lemma HandedOverAgainExactly()
      requires Valid() && Chunked() && op.path != ""
      ensures |sender.ids| > 1
      ensures (exists d :: d in HandedOver() && d.op.path == "") <==> GetsThroughBare()
      ensures forall d :: d in HandedOver() ==> d == if d.op.path == "" then Again() else Whole()
    {
      ChunkedIsVersion();
      var v := Version();
      var copies := CopiesHandled();
      CopiesArrive(copies);
      CopiesAreInOrder(copies);
      HandoversMatch(v, sender.ids, Handled(), copies, Again(), |copies|);
      v.HandedOverAgainExactly(copies);
      RoundsAreStretches(copies);
      HandoversAreTwo(sender.ids, Handled(), Whole(), Again(), |Handled()|);
    }

    // ---- in one piece ----

    lemma OnePieceArrives()
      requires Valid() && !Chunked()
      ensures Reception.AllAre(Reception.About(messages, op.fileID),
                               Handler.Operation(cfg.Sent(op, file), cfg.Payload(file)))
      ensures |Reception.About(messages, op.fileID)| == |Handled()|
    {
      var about := Reception.About(messages, op.fileID);
      sender.SuccessMeansHandled(events);
      forall k | 0 <= k < |about|
        ensures about[k] == Handler.Operation(cfg.Sent(op, file), cfg.Payload(file))
      {
        assert Handled()[k] in sender.ids;
        assert Handled()[k] == sender.ids[0];
      }
    }

    lemma OnePieceIsHandedOver()
      requires Valid() && !Chunked()
      ensures Now() == Before() + if cfg.Payload(file) == [] then [] else seq(|Handled()|, _ => Whole())
    {
      OnePieceArrives();
      var sent, payload := cfg.Sent(op, file), cfg.Payload(file);
      if payload != [] {
        Reception.InlineDataIsHandedOver(env, sent, payload, states, messages);
        assert Handler.HandedDirectly(env, sent, payload) == Some(Whole());
      } else {
        AnnouncedOnly();
      }
    }

    /** An empty payload is taken for an announcement of chunks that never come. */
    lemma AnnouncedOnly()
      requires Valid() && !Chunked() && cfg.Payload(file) == []
      ensures Now() == Before()
    {
      OnePieceArrives();
      var about, sent := Reception.About(messages, op.fileID), cfg.Sent(op, file);
      var ch := Reception.Channel(env, cfg.chunkSize, op.fileID);
      var copies := seq(|about|, k requires 0 <= k < |about| => Reception.Announcement(sent));
      ch.StreamIsHandedOver(copies, states, messages);
      NothingButAnnouncements(ch, copies, |copies|);
    }

    static lemma {:induction false} NothingButAnnouncements(ch: Reception.Channel, copies: seq<Reception.Copy>, k: nat)
      requires ch.chunkSize > 0 && ch.AreCopies(copies) && k <= |copies|
      requires forall j :: 0 <= j < |copies| ==> copies[j].Announcement?
      ensures ch.IntakeOf(copies, k).out == []
    {
      if k > 0 {
        NothingButAnnouncements(ch, copies, k - 1);
      }
    }

    // ---- the theorems ----

    /** The bare payload goes out, at a position after what was there before. */
    ghost predicate GoesOutBare()
      requires states != []
    {
      exists k :: |Before()| <= k < |Now()| && Now()[k] == Again()
    }

    lemma ChunkedGoesOutBare()
      requires Valid() && Chunked() && op.path != ""
      ensures GoesOutBare() <==> GetsThroughBare()
    {
      ChunkedIsHandedOver();
      HandedOverAgainExactly();
      ConcatHas(Before(), HandedOver(), Again());
      if d :| d in HandedOver() && d.op.path == "" {
        assert d == Again();
      }
    }

    lemma OneOfTwo()
      requires Valid()
      ensures Before() <= Now() && forall k :: |Before()| <= k < |Now()| ==> Now()[k] == Whole() || Now()[k] == Again()
    {
      if Chunked() {
        ChunkedIsHandedOver();
        HandoversAreTwo(sender.ids, Handled(), Whole(), Again(), |Handled()|);
        forall k | |Before()| <= k < |Now()|
          ensures Now()[k] == Whole() || Now()[k] == Again()
        {
          assert Now()[k] == HandedOver()[k - |Before()|];
          assert HandedOver()[k - |Before()|] in HandedOver();
        }
      } else {
        OnePieceIsHandedOver();
      }
    }

    /** A file that is sent is handed over to the other engine exactly if it gets through: first with the
        right contents and operation, and later either so again or, exactly if it gets through bare, as the
        bare payload under an operation without a path. */
    lemma SentFileIsHandedOver()
      requires Valid()
      ensures Before() <= Now() && (Now() != Before() <==> GetsThrough())
      ensures Now() != Before() ==> Now()[|Before()|] == Whole()
      ensures forall k :: |Before()| <= k < |Now()| ==> Now()[k] == Whole() || Now()[k] == Again()
      ensures op.path != "" ==> (GoesOutBare() <==> GetsThroughBare())
    {
      OneOfTwo();
      if Chunked() {
        ChunkedIsHandedOver();
        if op.path != "" {
          ChunkedGoesOutBare();
        }
      } else {
        OnePieceIsHandedOver();
      }
    }

    /** When the sender reports success: a file in one piece has been handed over unless it is empty, and
        a file in chunks has been handed over exactly once if the network repeated nothing. */
    lemma SuccessfulSend()
      requires Valid() && sender.Run(events).phase == Succeeded
      ensures !Chunked() ==> (Now() != Before() <==> cfg.Payload(file) != [])
      ensures Chunked() && NoDuplicates(Handled()) ==>
                var last := states[|states| - 1];
                Now() == Before() + [Whole()] && op.fileID !in last.assembledChunks && op.fileID !in last.chunkMetadata
    {
      sender.SuccessMeansHandled(events);
      SentFileIsHandedOver();
      assert sender.ids[0] in Handled();
      if Chunked() && NoDuplicates(Handled()) {
        OnceIsOnce();
      }
    }

    lemma OnceIsOnce()
      requires Valid() && Chunked() && sender.Run(events).phase == Succeeded && NoDuplicates(Handled())
      ensures var last := states[|states| - 1];
              Now() == Before() + [Whole()] && op.fileID !in last.assembledChunks && op.fileID !in last.chunkMetadata
    {
      ChunkedIsVersion();
      var copies := CopiesHandled();
      CopiesArrive(copies);
      CopiesAreInOrder(copies);
      OneStretch(copies);
      Version().VersionHandedOverOnce(copies, states, messages);
    }

    lemma OneStretch(copies: seq<Reception.Copy>)
      requires Valid() && Chunked() && sender.Run(events).phase == Succeeded && NoDuplicates(Handled())
      requires StandFor(Version(), sender.ids, Handled(), copies)
      ensures |copies| == Version().Count() + 1 && SingleVersion.Round(copies, 0, Version().Count())
    {
      ChunkedIsVersion();
      sender.SuccessWithoutRepeats(events);
      AllIsOneStretch(sender.ids);
      SameStretch(Version(), sender.ids, Handled(), copies, 0);
    }

    /** An empty file is sent as an operation without data, which the receiver takes for an announcement. */
    lemma EmptyFileIsNeverHandedOver()
      requires Valid() && file == [] && !cfg.Compresses(file)
      ensures Now() == Before()
    {
      SentFileIsHandedOver();
    }

    // ---- one lost acknowledgment ----

    /** Of two chunks the first is handled three times: nothing is handed over. */
    lemma RepeatedChunkLosesFile()
      requires Valid() && Chunked() && |sender.ids| == 3
      requires var ids := sender.ids; Handled() == [ids[0], ids[1], ids[1], ids[1], ids[2]]
      ensures Now() == Before()
    {
      var ids, handled := sender.ids, Handled();
      forall k: nat
        ensures !Stretch(ids, handled, k)
      {
        if k == 0 {
          assert handled[1] == handled[2];
        }
      }
      SentFileIsHandedOver();
    }

    /** The receiver's answers to the messages about the file. */
    ghost function Answered(answers: seq<bool>): seq<bool>
      requires |answers| == |messages|
    {
      Reception.Channel(env, cfg.chunkSize, op.fileID).AnswersFirst(messages, answers, |messages|)
    }

    /** And of these it refuses the second copy of the first chunk alone. */
    lemma OnlySecondCopyIsRefused(answers: seq<bool>)
      requires Valid() && Chunked() && |sender.ids| == 3
      requires var ids := sender.ids; Handled() == [ids[0], ids[1], ids[1], ids[1], ids[2]]
      requires Handler.IsAnswered(env, states, messages, answers)
      ensures Answered(answers) == [true, true, false, true, true]
    {
      ChunkedIsVersion();
      var v := Version();
      var copies := CopiesHandled();
      CopiesArrive(copies);
      CopiesAreInOrder(copies);
      v.CopiesAreStream(copies);
      v.Via().ReceiverFollowsIntake(copies, states, messages, answers, |messages|);
      CopiesTell(v, sender.ids, Handled(), copies);
      assert copies[2] == copies[1] && copies[3] == copies[1];
      assert copies == [Reception.Announcement(v.op), copies[1], copies[1], copies[1], copies[4]];
      v.OnlySecondCopyIsRefused(copies, copies[1], copies[4]);
    }
  }

  lemma ConcatHas(before: seq<Handler.Handed>, more: seq<Handler.Handed>, d: Handler.Handed)
    ensures d in more <==> exists k :: |before| <= k < |before + more| && (before + more)[k] == d
  {
    if d in more {
      var i :| 0 <= i < |more| && more[i] == d;
      assert (before + more)[|before| + i] == d;
    }
  }

  lemma {:induction false} HandoversAreTwo(ids: seq<string>, handled: seq<string>, whole: Handler.Handed,
                                           again: Handler.Handed, k: nat)
    requires |ids| > 1 && k <= |handled|
    ensures forall d :: d in Handovers(ids, handled, whole, again, k) ==> d == whole || d == again
  {
    if k > 0 {
      HandoversAreTwo(ids, handled, whole, again, k - 1);
    }
  }

  /** The answers of the receiver in the order of the messages handled. */
  function Replies(events: seq<Event>): seq<bool> {
    if events == [] then []
    else
      var e := events[|events| - 1];
      Replies(events[..|events| - 1]) + if e.Handle? then [e.success] else []
  }

  lemma {:induction false} RepliesConcat(a: seq<Event>, b: seq<Event>)
    ensures Replies(a + b) == Replies(a) + Replies(b)
  {
    if b == [] {
      assert a + b == a;
    } else {
      RepliesConcat(a, b[..|b| - 1]);
      assert (a + b)[..|a + b| - 1] == a + b[..|b| - 1];
    }
  }

  lemma RepliesOfAttempt(id: string)
    ensures Replies(AttemptEvents(AckSuccess, id)) == [true]
    ensures Replies(AttemptEvents(AckFailure, id)) == [false]
    ensures Replies([Transmit(true, true), Handle(id, true, true), Timeout]) == [true]
  {
    RepliesOfFour(Transmit(true, true), Handle(id, true, true), DeliverAck(Ack(id, true), true), TakeAck);
    RepliesOfFour(Transmit(true, true), Handle(id, true, false), DeliverAck(Ack(id, false), true), TakeAck);
    RepliesOfFour(Transmit(true, true), Handle(id, true, true), Timeout, Timeout);
  }

  lemma RepliesOfFour(a: Event, b: Event, c: Event, d: Event)
    requires !a.Handle? && b.Handle? && !c.Handle? && !d.Handle?
    ensures Replies([a, b, c]) == [b.success] == Replies([a, b, c, d])
  {
    RepliesOfNext([], a);
    RepliesOfNext([a], b);
    RepliesOfNext([a, b], c);
    RepliesOfNext([a, b, c], d);
    assert [] + [a] == [a] && [a] + [b] == [a, b] && [a, b] + [c] == [a, b, c] && [a, b, c] + [d] == [a, b, c, d];
  }

  lemma RepliesOfNext(events: seq<Event>, e: Event)
    ensures Replies(events + [e]) == if e.Handle? then Replies(events) + [e.success] else Replies(events)
  {
    assert (events + [e])[..|events|] == events;
  }

  /** A run with the program's three attempts per message. The first chunk's acknowledgment is lost; the
      second copy is refused; the third is accepted, like all that follows. The sender reports success. */
  lemma RunWithLostAck(sender: Sender) returns (events: seq<Event>)
    requires sender.Valid() && |sender.ids| == 3 && sender.retryCount == 3
    ensures sender.Run(events).phase == Succeeded && Replies(events) == [true, true, false, true, true]
    ensures var ids := sender.ids; sender.Run(events).handled == [ids[0], ids[1], ids[1], ids[1], ids[2]]
  {
    events := AttemptEvents(AckSuccess, sender.ids[0]);
    sender.AttemptRuns(sender.Init(), sender.ids[0], AckSuccess);
    RepliesOfAttempt(sender.ids[0]);
    var more := TwiceInVain(sender, sender.Run(events), sender.ids[1]);
    sender.FromConcat(sender.Init(), events, more);
    RepliesConcat(events, more);
    events := events + more;
    events := AcknowledgedNext(sender, events, sender.ids[1]);
    events := AcknowledgedNext(sender, events, sender.ids[2]);
  }

  lemma AcknowledgedNext(sender: Sender, events: seq<Event>, id: string) returns (all: seq<Event>)
    requires var s := sender.Run(events);
             && s.phase == Ready && s.current < |sender.ids| && sender.ids[s.current] == id
             && s.attempt < sender.retryCount
    ensures var s, t := sender.Run(events), sender.Run(all);
            && t.current == s.current + 1 && t.attempt == 0 && t.handled == s.handled + [id]
            && t.phase == if t.current == |sender.ids| then Succeeded else Ready
    ensures Replies(all) == Replies(events) + [true]
  {
    sender.AttemptRuns(sender.Run(events), id, AckSuccess);
    sender.FromConcat(sender.Init(), events, AttemptEvents(AckSuccess, id));
    RepliesOfAttempt(id);
    RepliesConcat(events, AttemptEvents(AckSuccess, id));
    all := events + AttemptEvents(AckSuccess, id);
  }

  lemma TwiceInVain(sender: Sender, s: State, id: string) returns (events: seq<Event>)
    requires sender.IsNext(s, id) && sender.retryCount == 3
    ensures var t := sender.From(s, events);
            && t.phase == Ready && t.current == s.current && t.attempt == 2 && t.handled == s.handled + [id, id]
    ensures Replies(events) == [true, false]
  {
    var lost := [Transmit(true, true), Handle(id, true, true), Timeout];
    LostAckRuns(sender, s, id);
    sender.AttemptRuns(sender.From(s, lost), id, AckFailure);
    sender.FromConcat(s, lost, AttemptEvents(AckFailure, id));
    RepliesOfAttempt(id);
    RepliesConcat(lost, AttemptEvents(AckFailure, id));
    events := lost + AttemptEvents(AckFailure, id);
  }

  lemma LostAckRuns(sender: Sender, s: State, id: string)
    requires s.phase == Ready && s.current < |sender.ids| && sender.ids[s.current] == id
    requires s.attempt < sender.retryCount
    ensures var t := sender.From(s, [Transmit(true, true), Handle(id, true, true), Timeout]);
            && t.phase == Ready && t.current == s.current && t.attempt == s.attempt + 1
            && t.handled == s.handled + [id]
  {
    sender.FromFour(s, Transmit(true, true), Handle(id, true, true), Timeout, Timeout);
  }

  /** Success of the sender does not mean that the file gets through: one lost acknowledgment can make
      the receiver keep the file back for good. The acknowledgments in the run are the receiver's own. */
  lemma SuccessWithoutHandover(sender: Sender) returns (events: seq<Event>)
    requires sender.Valid() && |sender.ids| == 3 && sender.retryCount == 3
    ensures sender.Run(events).phase == Succeeded
    ensures forall t: Transfer, answers ::
              && t.sender == sender && t.events == events && t.Valid() && t.Chunked()
              && Handler.IsAnswered(t.env, t.states, t.messages, answers)
              ==> t.Now() == t.Before() && t.Answered(answers) == Replies(events)
  {
    events := RunWithLostAck(sender);
    forall t: Transfer, answers | t.sender == sender && t.events == events && t.Valid() && t.Chunked() &&
        Handler.IsAnswered(t.env, t.states, t.messages, answers)
      ensures t.Now() == t.Before() && t.Answered(answers) == Replies(events)
    {
      t.RepeatedChunkLosesFile();
      t.OnlySecondCopyIsRefused(answers);
    }
  }

  // ---- on a real receiver ----

  /** Two bytes in chunks of one. */
  lemma TwoByteMessages(env: Handler.Env, cfg: Config, op: SyncOperation, file: Bytes)
    requires |file| == 2 && cfg.chunkSize == 1 && cfg.compressAbove == None
    ensures var sent := cfg.Messages(env, op, file);
            && |sent| == 3 && forall m :: m in sent ==>
                 m.FileID() == op.fileID && (m.ChunkData? ==> m.chunk.length >= 0)
  {
    var v := cfg.VersionOf(env, op, file);
    assert v.Count() == CalculateChunkCount(2, 1) == 2;
    v.Via().Cut().PieceIsMarked(Piece(file, 0));
    v.Via().Cut().PieceIsMarked(Piece(file, 1));
    var sent := cfg.Messages(env, op, file);
    assert sent == ChunkedMessages(v);
    assert forall m :: m in sent ==> m == sent[0] || m == sent[1] || m == sent[2];
  }

  lemma FiveArrive(ids: seq<string>, sent: seq<Handler.Message>, handled: seq<string>, messages: seq<Handler.Message>)
    requires NoDuplicates(ids) && |ids| == |sent| == 3
    requires handled == [ids[0], ids[1], ids[1], ids[1], ids[2]]
    requires messages == [sent[0], sent[1], sent[1], sent[1], sent[2]]
    ensures Arrives(ids, handled, sent, messages)
  {
  }

  lemma {:induction false} AllAnswered(ch: Reception.Channel, messages: seq<Handler.Message>,
                                       answers: seq<bool>, k: nat)
    requires k <= |messages| == |answers| && forall i :: 0 <= i < k ==> messages[i].FileID() == ch.fileID
    ensures ch.AnswersFirst(messages, answers, k) == answers[..k]
  {
    if k > 0 {
      AllAnswered(ch, messages, answers, k - 1);
      assert answers[..k] == answers[..k - 1] + [answers[k - 1]];
    }
  }

  lemma LostAckTransfer(t: Transfer, answers: seq<bool>)
    requires (t.op.kind == Create || t.op.kind == Update) && |t.file| == 2
    requires t.cfg.chunkSize == 1 && t.cfg.compressAbove == None
    requires t.sender.Valid() && |t.sender.ids| == 3
    requires var ids := t.sender.ids; t.Handled() == [ids[0], ids[1], ids[1], ids[1], ids[2]]
    requires var sent := t.cfg.Messages(t.env, t.op, t.file);
             |sent| == 3 && t.messages == [sent[0], sent[1], sent[1], sent[1], sent[2]]
    requires Handler.IsAnswered(t.env, t.states, t.messages, answers) && t.states[0] == Handler.NEW_HANDLER
    ensures Reception.HandedFor(t.states[|t.messages|].handed, t.op.fileID) == []
    ensures answers == [true, true, false, true, true]
  {
    TwoByteMessages(t.env, t.cfg, t.op, t.file);
    Reception.AllAbout(t.messages, 5, t.op.fileID);
    assert t.messages[..5] == t.messages;
    FiveArrive(t.sender.ids, t.cfg.Messages(t.env, t.op, t.file), t.Handled(), t.messages);
    Handler.AnsweredIsRun(t.env, t.states, t.messages, answers);
    assert t.Valid();
    t.RepeatedChunkLosesFile();
    t.OnlySecondCopyIsRefused(answers);
    AllAnswered(Reception.Channel(t.env, t.cfg.chunkSize, t.op.fileID), t.messages, answers, 5);
    assert answers[..5] == answers;
  }

  /** The same on a real receiver: a file of two bytes is sent in two chunks, the receiver's answers are
      the acknowledgments of the run, the sender reports success, and nothing has been handed over. */
  method LostAckLosesFile(env: Handler.Env, cfg: Config, op: SyncOperation, file: Bytes, ghost sender: Sender)
    returns (handed: seq<Handler.Handed>, answers: seq<bool>, ghost events: seq<Event>)
    requires (op.kind == Create || op.kind == Update) && |file| == 2
    requires cfg.chunkSize == 1 && cfg.compressAbove == None
    requires sender.Valid() && |sender.ids| == 3 && sender.retryCount == 3
    ensures sender.Run(events).phase == Succeeded && forall id :: id in sender.ids ==> id in sender.Run(events).handled
    ensures answers == Replies(events) && Reception.HandedFor(handed, op.fileID) == []
  {
    var sent := cfg.Messages(env, op, file);
    TwoByteMessages(env, cfg, op, file);
    var messages := [sent[0], sent[1], sent[1], sent[1], sent[2]];
    ghost var states;
    handed, answers, states := HandedOver(env, messages);
    events := RunWithLostAck(sender);
    sender.SuccessMeansHandled(events);
    LostAckTransfer(Transfer(env, cfg, op, file, sender, events, states, messages), answers);
  }

  method HandedOver(env: Handler.Env, messages: seq<Handler.Message>)
    returns (handed: seq<Handler.Handed>, answers: seq<bool>, ghost states: seq<Handler.State>)
    requires forall m :: m in messages && m.ChunkData? ==> m.chunk.length >= 0
    ensures Handler.IsAnswered(env, states, messages, answers) && states[0] == Handler.NEW_HANDLER
    ensures handed == states[|messages|].handed
  {
    Handler.NonNegativeNeverPanics(env, messages);
    var handler;
    handler, answers, states := Handler.Receive(env, messages);
    handed := handler.handed;
  }
}
