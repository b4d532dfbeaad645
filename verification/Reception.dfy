/** What the receiver makes of the messages about a file: any number of versions of it, whose messages the
    network repeats, reorders and mixes with each other and with messages about other files. */
module Reception {
  import opened Assembly
  import opened Chunking
  import opened Handler
  import opened Operations

  // ---- the messages about one file ----

  /** The messages about `f`, in order. */
  function About(messages: seq<Message>, f: string): seq<Message> {
    AboutFirst(messages, |messages|, f)
  }

  /** Those among the first `k`. */
  function AboutFirst(messages: seq<Message>, k: nat, f: string): seq<Message>
    requires k <= |messages|
  {
    if k == 0 then [] else AboutFirst(messages, k - 1, f) + IfAbout(messages[k - 1], f)
  }

  function IfAbout(msg: Message, f: string): seq<Message> {
    if msg.FileID() == f then [msg] else []
  }

  lemma {:induction false} AllAbout(messages: seq<Message>, k: nat, f: string)
    requires k <= |messages| && forall i :: 0 <= i < k ==> messages[i].FileID() == f
    ensures AboutFirst(messages, k, f) == messages[..k]
  {
    if k > 0 {
      AllAbout(messages, k - 1, f);
      assert messages[..k] == messages[..k - 1] + [messages[k - 1]];
    }
  }

  function HandedFor(handed: seq<Handed>, f: string): seq<Handed> {
    if handed == [] then []
    else
      var d := handed[|handed| - 1];
      HandedFor(handed[..|handed| - 1], f) + if d.op.fileID == f then [d] else []
  }

  lemma HandedForAppends(handed: seq<Handed>, d: Handed, f: string)
    ensures HandedFor(handed + [d], f) == HandedFor(handed, f) + if d.op.fileID == f then [d] else []
  {
    assert (handed + [d])[..|handed|] == handed;
  }

  /** Two states that agree on everything about `f`. */
  ghost predicate SameFor(s: State, t: State, f: string) {
    && (f in t.assembledChunks <==> f in s.assembledChunks) && t.Stored(f) == s.Stored(f)
    && (f in t.chunkMetadata <==> f in s.chunkMetadata)
    && (f in s.chunkMetadata ==> t.chunkMetadata[f] == s.chunkMetadata[f])
    && HandedFor(t.handed, f) == HandedFor(s.handed, f)
  }

  lemma FinishedIsLocal(env: Env, s: State, msg: Message, data: Bytes, f: string)
    requires msg.ChunkData? && Coherent(s) && msg.chunk.fileID != f
    ensures SameFor(s, Finished(env, s, msg, data), f) && Coherent(Finished(env, s, msg, data))
  {
    var op := OperationFor(s, msg, data);
    var fileData := Uncompressed(env, op, data);
    if fileData.Some? {
      HandedForAppends(s.handed, Handed(data, fileData.value, op), f);
    } else {
      assert Finished(env, s, msg, data).handed == s.handed;
    }
  }

  lemma FinishIsCoherent(env: Env, s: State, msg: Message, data: Bytes)
    requires msg.ChunkData? && Coherent(s)
    ensures Coherent(Finished(env, s, msg, data)) && OperationFor(s, msg, data).fileID == msg.chunk.fileID
  {
  }

  lemma PassedIsLocal(env: Env, s: State, op: SyncOperation, data: Bytes, f: string)
    requires Coherent(s) && op.fileID != f
    ensures SameFor(s, Passed(env, s, op, data), f) && Coherent(Passed(env, s, op, data))
  {
    var d := HandedDirectly(env, op, data);
    if d.Some? {
      HandedForAppends(s.handed, d.value, f);
    }
  }

  lemma OtherChunksAreLocal(env: Env, s: State, msg: Message, t: State, ok: bool, f: string)
    requires Step(env, s, msg, t, ok) && Coherent(s) && msg.ChunkData? && msg.FileID() != f
    ensures Coherent(t) && SameFor(s, t, f)
  {
    assert msg.chunk.fileID != f;
    hide *;
    var u := WithChunk(s, msg.chunk);
    StoredIsLocal(s, msg.chunk, f);
    var data := ChunkEnds(env, s, msg, t, ok);
    FinishedIsLocal(env, u, msg, data, f);
    SameForBoth(s, u, Finished(env, u, msg, data), f);
  }

  lemma StoredIsLocal(s: State, c: Chunk, f: string)
    requires Coherent(s) && c.fileID != f
    ensures Coherent(WithChunk(s, c)) && SameFor(s, WithChunk(s, c), f) && SameFor(s, s, f)
  {
  }

  lemma SameForBoth(s: State, t: State, u: State, f: string)
    requires SameFor(s, t, f) && SameFor(t, u, f)
    ensures SameFor(s, u, f)
  {
    hide HandedFor;
  }

  /** A chunk is rejected, stored, or completes some bytes. */
  lemma ChunkEnds(env: Env, s: State, msg: Message, t: State, ok: bool) returns (data: Bytes)
    requires Step(env, s, msg, t, ok) && msg.ChunkData?
    ensures var u := WithChunk(s, msg.chunk); t in [s, u, Finished(env, u, msg, data)]
  {
    hide WithChunk, Finished, MayAssemble;
    var u := WithChunk(s, msg.chunk);
    data := [];
    if t != s && t != u {
      var r :| MayAssemble(env.h, u.Stored(msg.chunk.fileID), msg.chunk.fileHash, r)
               && Completes(env, u, msg, r, t, ok);
      data := r.value;
    }
  }

  lemma OtherFilesDoNotMatter(env: Env, s: State, msg: Message, t: State, f: string)
    requires Steps(env, s, msg, t) && Coherent(s) && msg.FileID() != f
    ensures Coherent(t) && SameFor(s, t, f)
  {
    if msg.ChunkData? {
      var ok :| Step(env, s, msg, t, ok);
      OtherChunksAreLocal(env, s, msg, t, ok, f);
    } else if !Announces(msg) {
      PassedIsLocal(env, s, msg.op, msg.data, f);
    }
  }

  // ---- copies of the messages about a file ----

  /** A copy of a message about the file: an announcement, or one chunk of a version. */
  datatype Copy = Announcement(op: SyncOperation) | Part(piece: Piece, sender: string)

  /** Whether an announcement stands, the pieces since, and what has been handed over. */
  datatype Intake = Intake(announced: Option<SyncOperation>, pending: seq<Piece>, out: seq<Handed>)

  const NEW_INTAKE := Intake(None, [], [])

  /** The file that the messages are about. */
  datatype Channel = Channel(env: Env, chunkSize: nat, fileID: string) {
    function Cut(): Cutter {
      Cutter(env.h, chunkSize, fileID)
    }

    predicate IsCopy(c: Copy)
      requires chunkSize > 0
    {
      match c
      case Announcement(op) => Announces(Operation(op, [])) && op.fileID == fileID
      case Part(piece, _) => Cut().IsPiece(piece)
    }

    ghost predicate AreCopies(copies: seq<Copy>)
      requires chunkSize > 0
    {
      forall k :: 0 <= k < |copies| ==> IsCopy(copies[k])
    }

    ghost predicate NoneEmpty(copies: seq<Copy>) {
      forall k :: 0 <= k < |copies| && copies[k].Part? ==> copies[k].piece.version != []
    }

    ghost predicate AllEmpty(copies: seq<Copy>) {
      forall k :: 0 <= k < |copies| && copies[k].Part? ==> copies[k].piece.version == []
    }

    /** Copies of any messages in any order, but nothing comes before the first announcement, and no
        empty version is among others. */
    ghost predicate Stream(copies: seq<Copy>)
      requires chunkSize > 0
    {
      && AreCopies(copies) && (copies != [] ==> copies[0].Announcement?)
      && (NoneEmpty(copies) || AllEmpty(copies))
    }

    /** The chunk message of a piece announces the hash of the whole version. */
    function MessageOf(c: Copy): Message
      requires chunkSize > 0 && (c.Part? ==> Cut().IsPiece(c.piece))
    {
      match c
      case Announcement(op) => Operation(op, [])
      case Part(piece, sender) => ChunkData(Cut().ChunkOf(piece).(fileHash := env.h(piece.version)), sender)
    }

    // ---- what the receiver keeps and hands over, computed from the copies alone ----

    /** The pieces have become as many as the version of the last one has, and assemble to `data`. */
    ghost predicate Assembles(more: seq<Piece>, version: Bytes, data: Bytes)
      requires chunkSize > 0 && Cut().ArePieces(more)
    {
      |more| == Cut().Count(version) && Cut().Cuts(more, data) && env.h(data) == env.h(version)
    }

    /** Assembled bytes go out under the announced operation, or under a makeshift one. */
    ghost function HandedAs(announced: Option<SyncOperation>, data: Bytes, c: Copy): seq<Handed>
      requires chunkSize > 0 && c.Part? && IsCopy(c)
    {
      var op := if announced.Some? then announced.value.(size := |data|) else Makeshift(MessageOf(c), data);
      var fileData := Uncompressed(env, op, data);
      if fileData.Some? then [Handed(data, fileData.value, op)] else []
    }

    ghost function After(i: Intake, c: Copy): Intake
      requires chunkSize > 0 && Cut().ArePieces(i.pending) && IsCopy(c)
    {
      match c
      case Announcement(op) => Intake(Some(op), [], i.out)
      case Part(piece, _) =>
        var more := i.pending + [piece];
        if exists data :: Assembles(more, piece.version, data) then
          var data :| Assembles(more, piece.version, data);
          Intake(None, [], i.out + HandedAs(i.announced, data, c))
        else i.(pending := more)
    }

    /** How the copy is acknowledged. */
    ghost predicate Accepts(i: Intake, c: Copy)
      requires chunkSize > 0 && Cut().ArePieces(i.pending) && IsCopy(c)
    {
      c.Part? ==>
        var more := i.pending + [c.piece];
        if |more| != Cut().Count(c.piece.version) then true
        else exists data :: Assembles(more, c.piece.version, data) && HandedAs(i.announced, data, c) != []
    }

    /** The intake of the first `k` copies. */
    ghost function IntakeOf(copies: seq<Copy>, k: nat): (i: Intake)
      requires chunkSize > 0 && AreCopies(copies) && k <= |copies|
      ensures Cut().ArePieces(i.pending)
    {
      if k == 0 then NEW_INTAKE else After(IntakeOf(copies, k - 1), copies[k - 1])
    }

    /** The state holds what the intake says, and has handed it over since `before`. */
    ghost predicate Tracks(s: State, i: Intake, before: seq<Handed>)
      requires chunkSize > 0
    {
      && Coherent(s) && Cut().ArePieces(i.pending)
      && (fileID in s.assembledChunks <==> i.pending != []) && s.Stored(fileID) == Cut().ChunksOf(i.pending)
      && i.announced == (if fileID in s.chunkMetadata then Some(s.chunkMetadata[fileID]) else None)
      && HandedFor(s.handed, fileID) == before + i.out
    }

    // ---- one message ----

    lemma AnnouncementIsTracked(s: State, i: Intake, before: seq<Handed>, op: SyncOperation, t: State)
      requires chunkSize > 0 && IsCopy(Announcement(op)) && Cut().ArePieces(i.pending)
      requires Coherent(s) && HandedFor(s.handed, fileID) == before + i.out
      requires Steps(env, s, Operation(op, []), t)
      ensures Tracks(t, After(i, Announcement(op)), before)
    {
      assert Cut().ChunksOf([]) == [];
    }

    lemma StoredWithPiece(s: State, i: Intake, before: seq<Handed>, c: Copy)
      requires chunkSize > 0 && Tracks(s, i, before) && c.Part? && IsCopy(c)
      ensures var chunk := MessageOf(c).chunk;
              && Tracks(WithChunk(s, chunk), i.(pending := i.pending + [c.piece]), before)
              && env.h(chunk.data) == chunk.hash && chunk.totalChunks == Cut().Count(c.piece.version)
    {
      Cut().PieceIsMarked(c.piece);
      assert Cut().ChunksOf(i.pending + [c.piece]) == Cut().ChunksOf(i.pending) + [Cut().ChunkOf(c.piece)];
    }

    lemma FinishHandsOver(u: State, announced: Option<SyncOperation>, c: Copy, data: Bytes)
      requires chunkSize > 0 && c.Part? && IsCopy(c) && Coherent(u)
      requires announced == (if fileID in u.chunkMetadata then Some(u.chunkMetadata[fileID]) else None)
      ensures HandedFor(Finished(env, u, MessageOf(c), data).handed, fileID) ==
              HandedFor(u.handed, fileID) + HandedAs(announced, data, c)
    {
      Cut().PieceIsMarked(c.piece);
      var op := OperationFor(u, MessageOf(c), data);
      var fileData := Uncompressed(env, op, data);
      if fileData.Some? {
        HandedForAppends(u.handed, Handed(data, fileData.value, op), fileID);
      } else {
        assert Finished(env, u, MessageOf(c), data).handed == u.handed;
      }
    }

    /** The pieces are complete: `u` is the state with all of them stored. */
    lemma FinishIsTracked(u: State, i: Intake, before: seq<Handed>, c: Copy, data: Bytes)
      requires chunkSize > 0 && c.Part? && IsCopy(c) && Tracks(u, i, before)
      ensures Tracks(Finished(env, u, MessageOf(c), data),
                     Intake(None, [], i.out + HandedAs(i.announced, data, c)), before)
    {
      hide HandedAs, HandedFor, Uncompressed, OperationFor, Coherent;
      Cut().PieceIsMarked(c.piece);
      assert Cut().ChunksOf([]) == [];
      FinishHandsOver(u, i.announced, c, data);
      FinishIsCoherent(env, u, MessageOf(c), data);
    }

    lemma AfterAssembling(i: Intake, c: Copy, data: Bytes)
      requires chunkSize > 0 && Cut().ArePieces(i.pending) && c.Part? && IsCopy(c)
      requires Assembles(i.pending + [c.piece], c.piece.version, data)
      ensures After(i, c) == Intake(None, [], i.out + HandedAs(i.announced, data, c))
      ensures Accepts(i, c) <==> HandedAs(i.announced, data, c) != []
    {
      forall other | Assembles(i.pending + [c.piece], c.piece.version, other)
        ensures other == data
      {
        Cut().CutIsUnique(i.pending + [c.piece], data, other);
      }
    }

    /** The outcome of assembling, when the pieces have become as many as the version has. */
    lemma FullIsTracked(s: State, i: Intake, before: seq<Handed>, c: Copy, t: State, ok: bool, r: Result<Bytes>)
      requires chunkSize > 0 && Tracks(s, i, before) && c.Part? && IsCopy(c)
      requires Cut().Mixable(i.pending + [c.piece])
      requires |i.pending| + 1 == Cut().Count(c.piece.version)
      requires MayAssemble(env.h, Cut().ChunksOf(i.pending + [c.piece]), env.h(c.piece.version), r)
      requires Completes(env, WithChunk(s, MessageOf(c).chunk), MessageOf(c), r, t, ok)
      ensures Tracks(t, After(i, c), before) && ok == Accepts(i, c)
    {
      var more, u := i.pending + [c.piece], WithChunk(s, MessageOf(c).chunk);
      StoredWithPiece(s, i, before, c);
      Cut().AssemblesExactly(more, env.h(c.piece.version), r);
      if r.Ok? {
        assert Assembles(more, c.piece.version, r.value);
        AfterAssembling(i, c, r.value);
        FinishIsTracked(u, i.(pending := more), before, c, r.value);
      } else {
        assert !exists data :: Assembles(more, c.piece.version, data);
      }
    }

    lemma PartIsTracked(s: State, i: Intake, before: seq<Handed>, c: Copy, t: State, ok: bool)
      requires chunkSize > 0 && Tracks(s, i, before) && c.Part? && IsCopy(c)
      requires Cut().Mixable(i.pending + [c.piece]) && Step(env, s, MessageOf(c), t, ok)
      ensures Tracks(t, After(i, c), before) && ok == Accepts(i, c)
    {
      var more, u := i.pending + [c.piece], WithChunk(s, MessageOf(c).chunk);
      StoredWithPiece(s, i, before, c);
      Cut().PieceIsMarked(c.piece);
      assert u.Stored(fileID) == Cut().ChunksOf(more);
      if |more| == Cut().Count(c.piece.version) {
        var r :| MayAssemble(env.h, Cut().ChunksOf(more), env.h(c.piece.version), r) &&
                 Completes(env, u, MessageOf(c), r, t, ok);
        FullIsTracked(s, i, before, c, t, ok, r);
      } else {
        assert !exists data :: Assembles(more, c.piece.version, data);
      }
    }

    // ---- whole runs ----

    /** What `copies` say about the messages about the file among the first `k`. */
    ghost predicate Carried(copies: seq<Copy>, messages: seq<Message>, k: nat)
      requires chunkSize > 0 && AreCopies(copies) && k <= |messages|
    {
      var about := AboutFirst(messages, k, fileID);
      |about| <= |copies| && forall i :: 0 <= i < |about| ==> about[i] == MessageOf(copies[i])
    }

    ghost function AnswersTo(copies: seq<Copy>, k: nat): seq<bool>
      requires chunkSize > 0 && AreCopies(copies) && k <= |copies|
    {
      if k == 0 then [] else AnswersTo(copies, k - 1) + [Accepts(IntakeOf(copies, k - 1), copies[k - 1])]
    }

    lemma {:induction false} PendingIsNotEmpty(copies: seq<Copy>, k: nat)
      requires chunkSize > 0 && AreCopies(copies) && NoneEmpty(copies) && k <= |copies|
      ensures forall p :: p in IntakeOf(copies, k).pending ==> p.version != []
    {
      if k > 0 {
        PendingIsNotEmpty(copies, k - 1);
      }
    }

    lemma EmptyPartCompletes(i: Intake, c: Copy)
      requires chunkSize > 0 && c.Part? && IsCopy(c) && c.piece.version == [] && i.pending == []
      ensures After(i, c).pending == []
    {
      var more := i.pending + [c.piece];
      assert more == [c.piece];
      Cut().EmptyPieceCuts(more);
      assert Assembles(more, c.piece.version, []);
    }

    lemma {:induction false} EmptyPartsDoNotPend(copies: seq<Copy>, k: nat)
      requires chunkSize > 0 && AreCopies(copies) && AllEmpty(copies) && k <= |copies|
      ensures IntakeOf(copies, k).pending == []
    {
      if k > 0 {
        EmptyPartsDoNotPend(copies, k - 1);
        if copies[k - 1].Part? {
          EmptyPartCompletes(IntakeOf(copies, k - 1), copies[k - 1]);
        }
      }
    }

    lemma PendingIsMixable(copies: seq<Copy>, k: nat)
      requires chunkSize > 0 && Stream(copies) && k < |copies| && copies[k].Part?
      ensures Cut().Mixable(IntakeOf(copies, k).pending + [copies[k].piece])
    {
      if NoneEmpty(copies) {
        PendingIsNotEmpty(copies, k);
      } else {
        EmptyPartsDoNotPend(copies, k);
      }
    }

    /** Since `before` the receiver has handed over, and now keeps, what the intake of the first `k` copies
        says; until the first announcement nothing is known about what it keeps. */
    ghost predicate Follows(s: State, copies: seq<Copy>, k: nat, before: seq<Handed>)
      requires chunkSize > 0 && AreCopies(copies) && k <= |copies|
    {
      && Coherent(s)
      && HandedFor(s.handed, fileID) == before + IntakeOf(copies, k).out
      && (k > 0 ==> Tracks(s, IntakeOf(copies, k), before))
    }

    lemma OtherFileIsFollowed(s: State, copies: seq<Copy>, k: nat, before: seq<Handed>, msg: Message, t: State)
      requires chunkSize > 0 && AreCopies(copies) && k <= |copies| && Follows(s, copies, k, before)
      requires Steps(env, s, msg, t) && msg.FileID() != fileID
      ensures Follows(t, copies, k, before)
    {
      OtherFilesDoNotMatter(env, s, msg, t, fileID);
    }

    lemma CopyIsFollowed(s: State, copies: seq<Copy>, k: nat, before: seq<Handed>, t: State, ok: bool)
      requires chunkSize > 0 && Stream(copies) && k < |copies| && Follows(s, copies, k, before)
      requires Step(env, s, MessageOf(copies[k]), t, ok)
      ensures Follows(t, copies, k + 1, before) && ok == Accepts(IntakeOf(copies, k), copies[k])
    {
      if copies[k].Announcement? {
        AnnouncementIsTracked(s, IntakeOf(copies, k), before, copies[k].op, t);
      } else {
        PendingIsMixable(copies, k);
        PartIsTracked(s, IntakeOf(copies, k), before, copies[k], t, ok);
      }
    }

    /** The answers to the messages about the file, among the first `k`. */
    ghost function AnswersFirst(messages: seq<Message>, answers: seq<bool>, k: nat): seq<bool>
      requires k <= |messages| == |answers|
    {
      if k == 0 then []
      else
        AnswersFirst(messages, answers, k - 1) + if messages[k - 1].FileID() == fileID then [answers[k - 1]] else []
    }

    /** After `n` copies: what is kept and handed over, and what has been answered. */
    ghost predicate InStep(copies: seq<Copy>, n: nat, s: State, before: seq<Handed>, answered: seq<bool>)
      requires chunkSize > 0 && AreCopies(copies) && n <= |copies|
    {
      Follows(s, copies, n, before) && answered == AnswersTo(copies, n)
    }

    lemma CopyIsInStep(copies: seq<Copy>, n: nat, s: State, before: seq<Handed>, answered: seq<bool>,
                       t: State, ok: bool)
      requires chunkSize > 0 && Stream(copies) && n < |copies| && InStep(copies, n, s, before, answered)
      requires Step(env, s, MessageOf(copies[n]), t, ok)
      ensures InStep(copies, n + 1, t, before, answered + [ok])
    {
      CopyIsFollowed(s, copies, n, before, t, ok);
    }

    lemma MessageIsInStep(copies: seq<Copy>, n: nat, s: State, before: seq<Handed>, answered: seq<bool>,
                          msg: Message, t: State, ok: bool)
      requires chunkSize > 0 && Stream(copies) && n <= |copies| && InStep(copies, n, s, before, answered)
      requires Step(env, s, msg, t, ok)
      requires msg.FileID() == fileID ==> n < |copies| && msg == MessageOf(copies[n])
      ensures if msg.FileID() == fileID then InStep(copies, n + 1, t, before, answered + [ok])
              else InStep(copies, n, t, before, answered)
    {
      if msg.FileID() == fileID {
        CopyIsInStep(copies, n, s, before, answered, t, ok);
      } else {
        assert Steps(env, s, msg, t);
        OtherFileIsFollowed(s, copies, n, before, msg, t);
      }
    }

    lemma CarriedBefore(copies: seq<Copy>, messages: seq<Message>, k: nat)
      requires chunkSize > 0 && AreCopies(copies) && 0 < k <= |messages| && Carried(copies, messages, k)
      ensures Carried(copies, messages, k - 1)
      ensures var n := |AboutFirst(messages, k - 1, fileID)|;
              messages[k - 1].FileID() == fileID ==> n < |copies| && messages[k - 1] == MessageOf(copies[n])
    {
      var was, about := AboutFirst(messages, k - 1, fileID), AboutFirst(messages, k, fileID);
      assert forall i :: 0 <= i < |was| ==> about[i] == was[i];
      assert messages[k - 1].FileID() == fileID ==> about[|was|] == messages[k - 1];
    }

    lemma NextIsInStep(copies: seq<Copy>, states: seq<State>, messages: seq<Message>, answers: seq<bool>, k: nat,
                       before: seq<Handed>)
      requires chunkSize > 0 && Stream(copies) && IsAnswered(env, states, messages, answers) && 0 < k <= |messages|
      requires Carried(copies, messages, k) && Carried(copies, messages, k - 1)
      requires var n := |AboutFirst(messages, k - 1, fileID)|;
               messages[k - 1].FileID() == fileID ==> n < |copies| && messages[k - 1] == MessageOf(copies[n])
      requires InStep(copies, |AboutFirst(messages, k - 1, fileID)|, states[k - 1], before,
                      AnswersFirst(messages, answers, k - 1))
      ensures InStep(copies, |AboutFirst(messages, k, fileID)|, states[k], before, AnswersFirst(messages, answers, k))
    {
      hide After, IntakeOf, AnswersTo, Follows, Accepts, MessageOf;
      AnsweredStep(env, states, messages, answers, k - 1);
      MessageIsInStep(copies, |AboutFirst(messages, k - 1, fileID)|, states[k - 1], before,
                      AnswersFirst(messages, answers, k - 1), messages[k - 1], states[k], answers[k - 1]);
      assert AboutFirst(messages, k, fileID) == AboutFirst(messages, k - 1, fileID) + IfAbout(messages[k - 1], fileID);
    }

    /** After `k` messages of a run. */
    ghost predicate Together(copies: seq<Copy>, states: seq<State>, messages: seq<Message>, answers: seq<bool>,
                             k: nat)
      requires chunkSize > 0 && Stream(copies) && IsAnswered(env, states, messages, answers)
      requires k <= |messages| && Carried(copies, messages, k)
    {
      InStep(copies, |AboutFirst(messages, k, fileID)|, states[k], HandedFor(states[0].handed, fileID),
             AnswersFirst(messages, answers, k))
    }

    lemma TogetherFirst(copies: seq<Copy>, states: seq<State>, messages: seq<Message>, answers: seq<bool>)
      requires chunkSize > 0 && Stream(copies) && IsAnswered(env, states, messages, answers)
      requires Coherent(states[0]) && Carried(copies, messages, 0)
      ensures Together(copies, states, messages, answers, 0)
    {
      assert Follows(states[0], copies, 0, HandedFor(states[0].handed, fileID));
    }

    lemma TogetherNext(copies: seq<Copy>, states: seq<State>, messages: seq<Message>, answers: seq<bool>, k: nat)
      requires chunkSize > 0 && Stream(copies) && IsAnswered(env, states, messages, answers)
      requires 0 < k <= |messages| && Carried(copies, messages, k) && Carried(copies, messages, k - 1)
      requires Together(copies, states, messages, answers, k - 1)
      ensures Together(copies, states, messages, answers, k)
    {
      CarriedBefore(copies, messages, k);
      hide InStep, Stream, Carried, AnswersFirst, AboutFirst, HandedFor;
      NextIsInStep(copies, states, messages, answers, k, HandedFor(states[0].handed, fileID));
    }

    lemma {:induction false} TogetherAlways(copies: seq<Copy>, states: seq<State>, messages: seq<Message>,
                                            answers: seq<bool>, k: nat)
      requires chunkSize > 0 && Stream(copies) && IsAnswered(env, states, messages, answers)
      requires Coherent(states[0]) && k <= |messages| && Carried(copies, messages, k)
      ensures Together(copies, states, messages, answers, k)
    {
      if k == 0 {
        TogetherFirst(copies, states, messages, answers);
      } else {
        assert AreCopies(copies);
        hide *;
        CarriedBefore(copies, messages, k);
        TogetherAlways(copies, states, messages, answers, k - 1);
        TogetherNext(copies, states, messages, answers, k);
      }
    }

    /** However the messages about the file are repeated, reordered and mixed, the receiver hands over,
        keeps and answers exactly what the intake computes from the copies alone. */
    lemma ReceiverFollowsIntake(copies: seq<Copy>, states: seq<State>, messages: seq<Message>, answers: seq<bool>,
                                k: nat)
      requires chunkSize > 0 && Stream(copies) && IsAnswered(env, states, messages, answers)
      requires Coherent(states[0]) && k <= |messages| && Carried(copies, messages, k)
      ensures InStep(copies, |AboutFirst(messages, k, fileID)|, states[k], HandedFor(states[0].handed, fileID),
                     AnswersFirst(messages, answers, k))
    {
      TogetherAlways(copies, states, messages, answers, k);
    }

    /** The same for a whole run, without its answers. */
    lemma StreamIsHandedOver(copies: seq<Copy>, states: seq<State>, messages: seq<Message>)
      requires chunkSize > 0 && Stream(copies) && IsRun(env, states, messages) && Coherent(states[0])
      requires Arrive(copies, messages)
      ensures Follows(states[|messages|], copies, |copies|, HandedFor(states[0].handed, fileID))
    {
      var answers := RunHasAnswers(env, states, messages);
      ReceiverFollowsIntake(copies, states, messages, answers, |messages|);
    }

    /** The messages about the file are those copies. */
    ghost predicate Arrive(copies: seq<Copy>, messages: seq<Message>)
      requires chunkSize > 0 && AreCopies(copies)
    {
      Carried(copies, messages, |messages|) && |About(messages, fileID)| == |copies|
    }

    /** A chunk of any version completes the pieces since the last announcement, of whatever versions,
        exactly when these, put in order, are the bytes of its own version; unless other bytes have the
        hash of that version. */
    lemma MixedPiecesAssembleExactly(i: Intake, c: Copy)
      requires chunkSize > 0 && Cut().ArePieces(i.pending) && c.Part? && IsCopy(c)
      requires forall data :: env.h(data) == env.h(c.piece.version) ==> data == c.piece.version
      ensures var more := i.pending + [c.piece];
              After(i, c) == if Cut().Cuts(more, c.piece.version)
                             then Intake(None, [], i.out + HandedAs(i.announced, c.piece.version, c))
                             else i.(pending := more)
    {
      var more := i.pending + [c.piece];
      if Cut().Cuts(more, c.piece.version) {
        assert Assembles(more, c.piece.version, c.piece.version);
        AfterAssembling(i, c, c.piece.version);
      }
    }

    /** An announcement makes the receiver forget everything that came before it. */
    lemma {:induction false} AnnouncementForgets(before: Copy, copies: seq<Copy>, k: nat)
      requires chunkSize > 0 && AreCopies([before] + copies) && AreCopies(copies)
      requires before.Announcement? && copies != [] && copies[0].Announcement? && 0 < k <= |copies|
      ensures IntakeOf([before] + copies, k + 1) == IntakeOf(copies, k)
    {
      assert ([before] + copies)[k] == copies[k - 1];
      if k > 1 {
        AnnouncementForgets(before, copies, k - 1);
      } else {
        assert IntakeOf([before] + copies, 0) == NEW_INTAKE;
        assert ([before] + copies)[0] == before;
        assert IntakeOf([before] + copies, 1) == Intake(Some(before.op), [], []);
      }
    }
  }

  // ---- data that comes with its operation ----

  ghost predicate AllAre(about: seq<Message>, msg: Message) {
    forall k :: 0 <= k < |about| ==> about[k] == msg
  }

  lemma AllAreSplits(was: seq<Message>, last: seq<Message>, msg: Message)
    requires AllAre(was + last, msg)
    ensures AllAre(was, msg) && AllAre(last, msg)
  {
    assert forall k :: 0 <= k < |was| ==> was[k] == (was + last)[k];
    assert forall k :: 0 <= k < |last| ==> last[k] == (was + last)[|was| + k];
  }

  function Copied(d: Option<Handed>, n: nat): seq<Handed> {
    if d.Some? then seq(n, _ => d.value) else []
  }

  /** Since `before`, `d` has been handed over `n` times. */
  ghost predicate HandedOften(s: State, f: string, before: seq<Handed>, d: Option<Handed>, n: nat) {
    Coherent(s) && HandedFor(s.handed, f) == before + Copied(d, n)
  }

  lemma InlineStep(env: Env, op: SyncOperation, data: Bytes, s: State, msg: Message, t: State,
                   before: seq<Handed>, n: nat)
    requires !Announces(Operation(op, data)) && Steps(env, s, msg, t)
    requires AllAre(IfAbout(msg, op.fileID), Operation(op, data))
    requires HandedOften(s, op.fileID, before, HandedDirectly(env, op, data), n)
    ensures HandedOften(t, op.fileID, before, HandedDirectly(env, op, data), n + |IfAbout(msg, op.fileID)|)
  {
    var d := HandedDirectly(env, op, data);
    if msg.FileID() != op.fileID {
      OtherFilesDoNotMatter(env, s, msg, t, op.fileID);
    } else {
      assert IfAbout(msg, op.fileID)[0] == msg;
      if d.Some? {
        HandedForAppends(s.handed, d.value, op.fileID);
      }
    }
  }

  lemma {:induction false} InlineDataArrives(env: Env, op: SyncOperation, data: Bytes, states: seq<State>,
                                             messages: seq<Message>, k: nat)
    requires !Announces(Operation(op, data)) && IsRun(env, states, messages) && Coherent(states[0])
    requires k <= |messages| && AllAre(AboutFirst(messages, k, op.fileID), Operation(op, data))
    ensures HandedOften(states[k], op.fileID, HandedFor(states[0].handed, op.fileID),
                        HandedDirectly(env, op, data), |AboutFirst(messages, k, op.fileID)|)
  {
    hide Handler.Steps;
    if k > 0 {
      var was, last := AboutFirst(messages, k - 1, op.fileID), IfAbout(messages[k - 1], op.fileID);
      AllAreSplits(was, last, Operation(op, data));
      InlineDataArrives(env, op, data, states, messages, k - 1);
      RunStep(env, states, messages, k - 1);
      InlineStep(env, op, data, states[k - 1], messages[k - 1], states[k],
                 HandedFor(states[0].handed, op.fileID), |was|);
    }
  }

  /** What is not sent in chunks is handed over as often as it arrives: a deletion or a renaming without
      data, and other operations with their data, decompressed if need be; only if that fails never. */
  lemma InlineDataIsHandedOver(env: Env, op: SyncOperation, data: Bytes, states: seq<State>, messages: seq<Message>)
    requires !Announces(Operation(op, data)) && IsRun(env, states, messages) && Coherent(states[0])
    requires AllAre(About(messages, op.fileID), Operation(op, data))
    ensures var before, now := HandedFor(states[0].handed, op.fileID), HandedFor(states[|messages|].handed, op.fileID);
            var n := |About(messages, op.fileID)|;
            now == before +
              if op.kind == Delete || op.kind == Rename then seq(n, _ => Handed([], [], op))
              else if !op.compressed then seq(n, _ => Handed(data, data, op))
              else if env.decompress(data).Some? then seq(n, _ => Handed(data, env.decompress(data).value, op))
              else []
  {
    InlineDataArrives(env, op, data, states, messages, |messages|);
  }
}
