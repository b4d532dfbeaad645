/** The receiver of file operations and of chunked transfers: an operation without data announces a
    version of a file, chunk messages follow, and the assembled bytes are handed to the sync engine. */
module Handler {
  import opened Chunking
  import opened Operations

  /** One call of the engine: what arrived or was assembled, what the engine was given, and the
      operation that goes with it. */
  datatype Handed = Handed(assembled: Bytes, fileData: Bytes, op: SyncOperation)

  /** A message payload. A chunk's `fileHash` is the hash announced for the whole version. */
  datatype Message =
    | Operation(op: SyncOperation, data: Bytes)
    | ChunkData(chunk: Chunk, sender: string)
  {
    function FileID(): string {
      if Operation? then op.fileID else chunk.fileID
    }
  }

  /** A created or updated file whose operation carries no data is to follow in chunks. */
  predicate Announces(msg: Message) {
    msg.Operation? && (msg.op.kind == Create || msg.op.kind == Update) && msg.data == []
  }

  datatype State = State(
    assembledChunks: map<string, seq<Chunk>>, chunkMetadata: map<string, SyncOperation>, handed: seq<Handed>)
  {
    function Stored(f: string): seq<Chunk> {
      if f in assembledChunks then assembledChunks[f] else []
    }
  }

  const NEW_HANDLER := State(map[], map[], [])

  /** Hashing, decompression, and whether the engine manages to rename a file are parameters. */
  datatype Env = Env(h: Hasher, decompress: Bytes -> Option<Bytes>, renames: SyncOperation -> bool)

  /** The operation that goes with assembled bytes: the announced one, or a makeshift one. */
  function OperationFor(s: State, msg: Message, data: Bytes): SyncOperation
    requires msg.ChunkData?
  {
    var f := msg.chunk.fileID;
    if f in s.chunkMetadata then s.chunkMetadata[f].(size := |data|) else Makeshift(msg, data)
  }

  function Makeshift(msg: Message, data: Bytes): SyncOperation
    requires msg.ChunkData?
  {
    SyncOperation("", Create, "", msg.chunk.fileID, msg.chunk.fileHash, |data|, msg.sender, false, None)
  }

  function Uncompressed(env: Env, op: SyncOperation, data: Bytes): Option<Bytes> {
    if op.compressed then env.decompress(data) else Some(data)
  }

  /** What an operation that announces nothing hands over: its data, a deletion, or a renaming. */
  function HandedDirectly(env: Env, op: SyncOperation, data: Bytes): Option<Handed> {
    if op.kind == Delete || op.kind == Rename then Some(Handed([], [], op))
    else
      var fileData := Uncompressed(env, op, data);
      if fileData.Some? then Some(Handed(data, fileData.value, op)) else None
  }

  function Passed(env: Env, s: State, op: SyncOperation, data: Bytes): State {
    var d := HandedDirectly(env, op, data);
    if d.Some? then s.(handed := s.handed + [d.value]) else s
  }

  /** What an announcement leaves: the chunks of any earlier version are dropped. */
  function Announced(s: State, op: SyncOperation): State {
    s.(assembledChunks := s.assembledChunks - {op.fileID}, chunkMetadata := s.chunkMetadata[op.fileID := op])
  }

  function WithChunk(s: State, c: Chunk): State {
    s.(assembledChunks := s.assembledChunks[c.fileID := s.Stored(c.fileID) + [c.(fileHash := "")]])
  }

  function Finished(env: Env, s: State, msg: Message, data: Bytes): State
    requires msg.ChunkData?
  {
    var f, op := msg.chunk.fileID, OperationFor(s, msg, data);
    var fileData := Uncompressed(env, op, data);
    State(s.assembledChunks - {f}, s.chunkMetadata - {f},
          s.handed + if fileData.Some? then [Handed(data, fileData.value, op)] else [])
  }

  ghost predicate ChunkStep(env: Env, s: State, msg: Message, t: State, ok: bool)
    requires msg.ChunkData?
  {
    var c := msg.chunk;
    var u := WithChunk(s, c);
    if env.h(c.data) != c.hash then t == s && !ok
    else if |u.Stored(c.fileID)| != c.totalChunks then t == u && ok
    else exists r :: MayAssemble(env.h, u.Stored(c.fileID), c.fileHash, r) && Completes(env, u, msg, r, t, ok)
  }

  ghost predicate Completes(env: Env, u: State, msg: Message, r: Result<Bytes>, t: State, ok: bool)
    requires msg.ChunkData?
  {
    if r.Err? then t == u && !ok
    else
      && t == Finished(env, u, msg, r.value)
      && ok == Uncompressed(env, OperationFor(u, msg, r.value), r.value).Some?
  }

  /** One message turns `s` into `t` and is acknowledged with `ok`. */
  ghost predicate Step(env: Env, s: State, msg: Message, t: State, ok: bool) {
    if msg.ChunkData? then ChunkStep(env, s, msg, t, ok)
    else if Announces(msg) then t == Announced(s, msg.op) && ok
    else
      && t == Passed(env, s, msg.op, msg.data)
      && ok == if msg.op.kind == Rename then env.renames(msg.op) else HandedDirectly(env, msg.op, msg.data).Some?
  }

  /** Handling the message does not panic: what it would assemble has safe lengths. */
  ghost predicate CanTake(env: Env, s: State, msg: Message) {
    msg.ChunkData? && env.h(msg.chunk.data) == msg.chunk.hash ==>
      var chunks := WithChunk(s, msg.chunk).Stored(msg.chunk.fileID);
      |chunks| == msg.chunk.totalChunks ==> Safe(chunks)
  }

  class NetworkMessageHandler {
    const env: Env
    var assembledChunks: map<string, seq<Chunk>>
    var chunkMetadata: map<string, SyncOperation>
    var handed: seq<Handed>

    function Value(): State
      reads this
    {
      State(assembledChunks, chunkMetadata, handed)
    }

    constructor (env: Env)
      ensures this.env == env && Value() == NEW_HANDLER
    {
      this.env, assembledChunks, chunkMetadata, handed := env, map[], map[], [];
    }

    method HandleSyncOperation(op: SyncOperation, data: Bytes) returns (ok: bool)
      modifies this
      ensures Step(env, old(Value()), Operation(op, data), Value(), ok)
    {
      match op.kind {
        case Create | Update =>
          if |data| == 0 {
            if op.fileID in assembledChunks {
              assembledChunks := assembledChunks - {op.fileID};
            }
            chunkMetadata := chunkMetadata[op.fileID := op];
            assert Value() == Announced(old(Value()), op);
            return true;
          }
          var fileData := data;
          if op.compressed {
            var decompressed := env.decompress(data);
            if decompressed.None? {
              return false;
            }
            fileData := decompressed.value;
          }
          handed := handed + [Handed(data, fileData, op)];
          return true;
        case Delete =>
          handed := handed + [Handed([], [], op)];
          return true;
        case Rename =>
          handed := handed + [Handed([], [], op)];
          return env.renames(op);
      }
    }

    method HandleChunk(payload: Chunk, sender: string) returns (ok: bool)
      requires CanTake(env, Value(), ChunkData(payload, sender))
      modifies this
      ensures Step(env, old(Value()), ChunkData(payload, sender), Value(), ok)
    {
      var f := payload.fileID;
      var chunk := payload.(fileHash := "");
      var verified := VerifyChunkHash(env.h, chunk);
      if verified.Err? {
        return false;
      }
      ghost var was := Value();
      if f !in assembledChunks {
        assembledChunks := assembledChunks[f := []];
      }
      assembledChunks := assembledChunks[f := assembledChunks[f] + [chunk]];
      var chunks := assembledChunks[f];
      assert Value() == WithChunk(was, payload);
      if |chunks| == payload.totalChunks {
        ok := Finish(payload, sender, chunks);
      } else {
        ok := true;
      }
    }

    method Finish(payload: Chunk, sender: string, chunks: seq<Chunk>) returns (ok: bool)
      requires chunks != [] && chunks == Value().Stored(payload.fileID) && Safe(chunks)
      modifies this
      ensures exists r :: MayAssemble(env.h, chunks, payload.fileHash, r) &&
                Completes(env, old(Value()), ChunkData(payload, sender), r, Value(), ok)
    {
      var f := payload.fileID;
      var assembled := AssembleChunks(env.h, chunks, payload.fileHash);
      assert MayAssemble(env.h, chunks, payload.fileHash, assembled);
      if assembled.Err? {
        return false;
      }
      var data := assembled.value;
      var op: SyncOperation;
      if f in chunkMetadata {
        op := chunkMetadata[f].(size := |data|);
      } else {
        op := SyncOperation("", Create, "", f, payload.fileHash, |data|, sender, false, None);
      }
      assembledChunks := assembledChunks - {f};
      chunkMetadata := chunkMetadata - {f};
      var fileData := data;
      if op.compressed {
        var decompressed := env.decompress(data);
        if decompressed.None? {
          return false;
        }
        fileData := decompressed.value;
      }
      handed := handed + [Handed(data, fileData, op)];
      return true;
    }
  }

  // ---- runs ----

  ghost predicate Steps(env: Env, s: State, msg: Message, t: State) {
    exists ok :: Step(env, s, msg, t, ok)
  }

  ghost predicate StepsAt(env: Env, states: seq<State>, messages: seq<Message>, k: nat)
    requires k < |messages| && |states| == |messages| + 1
  {
    Steps(env, states[k], messages[k], states[k + 1])
  }

  /** A run from any state: the states before, between and after the messages. */
  ghost predicate IsRun(env: Env, states: seq<State>, messages: seq<Message>) {
    |states| == |messages| + 1 && forall k: nat :: k < |messages| ==> StepsAt(env, states, messages, k)
  }

  lemma RunStep(env: Env, states: seq<State>, messages: seq<Message>, k: nat)
    requires IsRun(env, states, messages) && k < |messages|
    ensures Steps(env, states[k], messages[k], states[k + 1])
  {
    assert StepsAt(env, states, messages, k);
  }

  ghost predicate AnsweredAt(env: Env, states: seq<State>, messages: seq<Message>, answers: seq<bool>, k: nat)
    requires k < |messages| == |answers| && |states| == |messages| + 1
  {
    Step(env, states[k], messages[k], states[k + 1], answers[k])
  }

  /** A run in which every message has been acknowledged with its answer. */
  ghost predicate IsAnswered(env: Env, states: seq<State>, messages: seq<Message>, answers: seq<bool>) {
    && |states| == |messages| + 1 && |answers| == |messages|
    && forall k: nat :: k < |messages| ==> AnsweredAt(env, states, messages, answers, k)
  }

  lemma AnsweredStep(env: Env, states: seq<State>, messages: seq<Message>, answers: seq<bool>, k: nat)
    requires IsAnswered(env, states, messages, answers) && k < |messages|
    ensures Step(env, states[k], messages[k], states[k + 1], answers[k])
  {
    assert AnsweredAt(env, states, messages, answers, k);
  }

  lemma AnsweredIsRun(env: Env, states: seq<State>, messages: seq<Message>, answers: seq<bool>)
    requires IsAnswered(env, states, messages, answers)
    ensures IsRun(env, states, messages)
  {
    forall k: nat | k < |messages|
      ensures StepsAt(env, states, messages, k)
    {
      AnsweredStep(env, states, messages, answers, k);
    }
  }

  ghost function AnswerGiven(env: Env, s: State, msg: Message, t: State): (ok: bool)
    requires Steps(env, s, msg, t)
    ensures Step(env, s, msg, t, ok)
  {
    var ok :| Step(env, s, msg, t, ok);
    ok
  }

  lemma RunHasAnswers(env: Env, states: seq<State>, messages: seq<Message>) returns (answers: seq<bool>)
    requires IsRun(env, states, messages)
    ensures IsAnswered(env, states, messages, answers)
  {
    answers := AnswersUpTo(env, states, messages, |messages|);
    forall k: nat | k < |messages|
      ensures AnsweredAt(env, states, messages, answers, k)
    {
      RunStep(env, states, messages, k);
      assert answers[k] == GivenAt(env, states, messages, k);
    }
  }

  ghost function GivenAt(env: Env, states: seq<State>, messages: seq<Message>, k: nat): bool
    requires IsRun(env, states, messages) && k < |messages|
  {
    RunStep(env, states, messages, k);
    AnswerGiven(env, states[k], messages[k], states[k + 1])
  }

  lemma {:induction false} AnswersUpTo(env: Env, states: seq<State>, messages: seq<Message>, k: nat)
    returns (answers: seq<bool>)
    requires IsRun(env, states, messages) && k <= |messages|
    ensures |answers| == k && forall i :: 0 <= i < k ==> answers[i] == GivenAt(env, states, messages, i)
  {
    if k == 0 {
      answers := [];
    } else {
      answers := AnswersUpTo(env, states, messages, k - 1);
      answers := answers + [GivenAt(env, states, messages, k - 1)];
    }
  }

  lemma RunPrefix(env: Env, states: seq<State>, messages: seq<Message>, k: nat)
    requires IsRun(env, states, messages) && k <= |messages|
    ensures IsRun(env, states[..k + 1], messages[..k])
  {
    var init, some := states[..k + 1], messages[..k];
    forall i: nat | i < k
      ensures StepsAt(env, init, some, i)
    {
      RunStep(env, states, messages, i);
    }
  }

  /** No order in which equal chunk IDs are sorted makes a new receiver panic on these messages. */
  ghost predicate NeverPanics(env: Env, messages: seq<Message>) {
    forall states: seq<State>, k: nat :: NoPanicAt(env, states, messages, k)
  }

  ghost predicate NoPanicAt(env: Env, states: seq<State>, messages: seq<Message>, k: nat) {
    k < |messages| && IsRun(env, states, messages[..k]) && states[0] == NEW_HANDLER ==>
      CanTake(env, states[k], messages[k])
  }

  /** A new receiver that is given the messages one by one, and answers each. */
  method Receive(env: Env, messages: seq<Message>)
    returns (handler: NetworkMessageHandler, answers: seq<bool>, ghost states: seq<State>)
    requires NeverPanics(env, messages)
    ensures IsAnswered(env, states, messages, answers) && states[0] == NEW_HANDLER
    ensures handler.env == env && handler.Value() == states[|messages|]
  {
    handler := new NetworkMessageHandler(env);
    states, answers := [NEW_HANDLER], [];
    for k := 0 to |messages|
      invariant fresh(handler) && handler.env == env
      invariant IsAnswered(env, states, messages[..k], answers)
      invariant states[0] == NEW_HANDLER && handler.Value() == states[k]
    {
      AnsweredIsRun(env, states, messages[..k], answers);
      assert NoPanicAt(env, states, messages, k);
      var ok := Answer(handler, messages[k]);
      OneMoreAnswer(env, states, messages, answers, handler.Value(), ok, k);
      states, answers := states + [handler.Value()], answers + [ok];
    }
    assert messages[..|messages|] == messages;
  }

  lemma OneMoreAnswer(env: Env, states: seq<State>, messages: seq<Message>, answers: seq<bool>, t: State, ok: bool,
                      k: nat)
    requires k < |messages| && IsAnswered(env, states, messages[..k], answers)
    requires Step(env, states[k], messages[k], t, ok)
    ensures IsAnswered(env, states + [t], messages[..k + 1], answers + [ok])
  {
    var more, first, told := states + [t], messages[..k + 1], answers + [ok];
    forall i: nat | i <= k
      ensures AnsweredAt(env, more, first, told, i)
    {
      if i < k {
        AnsweredStep(env, states, messages[..k], answers, i);
      }
    }
  }

  method Answer(handler: NetworkMessageHandler, msg: Message) returns (ok: bool)
    requires CanTake(handler.env, handler.Value(), msg)
    modifies handler
    ensures Step(handler.env, old(handler.Value()), msg, handler.Value(), ok)
  {
    match msg {
      case Operation(op, data) => ok := handler.HandleSyncOperation(op, data);
      case ChunkData(chunk, sender) => ok := handler.HandleChunk(chunk, sender);
    }
  }

  ghost predicate KeepsLengths(s: State) {
    forall f :: f in s.assembledChunks ==> NonNegative(s.assembledChunks[f])
  }

  lemma {:induction false} LengthsAreKept(env: Env, states: seq<State>, messages: seq<Message>)
    requires IsRun(env, states, messages) && KeepsLengths(states[0])
    requires forall m :: m in messages && m.ChunkData? ==> m.chunk.length >= 0
    ensures KeepsLengths(states[|messages|])
    decreases |messages|
  {
    if messages != [] {
      var n := |messages| - 1;
      RunPrefix(env, states, messages, n);
      LengthsAreKept(env, states[..n + 1], messages[..n]);
      RunStep(env, states, messages, n);
    }
  }

  /** Messages with ordinary lengths never make the receiver panic. */
  lemma NonNegativeNeverPanics(env: Env, messages: seq<Message>)
    requires forall m :: m in messages && m.ChunkData? ==> m.chunk.length >= 0
    ensures NeverPanics(env, messages)
  {
    forall states: seq<State>, k: nat
      ensures NoPanicAt(env, states, messages, k)
    {
      if k < |messages| && IsRun(env, states, messages[..k]) && states[0] == NEW_HANDLER {
        LengthsAreKept(env, states, messages[..k]);
        if messages[k].ChunkData? {
          assert messages[k] in messages;
          NonNegativeIsSafe(WithChunk(states[k], messages[k].chunk).Stored(messages[k].chunk.fileID));
        }
      }
    }
  }

  /** What a chunk message hands over has the hash that this message announced. The operation that goes
      with it is the last one announced for the file, whatever version the bytes are, or a makeshift one. */
  lemma HandedHasAnnouncedHash(env: Env, s: State, msg: Message, t: State, ok: bool)
    requires Step(env, s, msg, t, ok) && msg.ChunkData? && t.handed != s.handed
    ensures exists d :: t.handed == s.handed + [d] && env.h(d.assembled) == msg.chunk.fileHash &&
                        d.op == OperationFor(s, msg, d.assembled) &&
                        Uncompressed(env, d.op, d.assembled) == Some(d.fileData)
    ensures msg.chunk.fileID !in t.assembledChunks && msg.chunk.fileID !in t.chunkMetadata
  {
    var u := WithChunk(s, msg.chunk);
    var r :| MayAssemble(env.h, u.Stored(msg.chunk.fileID), msg.chunk.fileHash, r) && Completes(env, u, msg, r, t, ok);
    var op := OperationFor(u, msg, r.value);
    var d := Handed(r.value, Uncompressed(env, op, r.value).value, op);
    assert t.handed == s.handed + [d];
  }

  /** A damaged chunk changes nothing. A chunk is accepted exactly if it is stored short of the total that
      it states, or if something is handed over with it. */
  lemma ChunkAnswers(env: Env, s: State, msg: Message, t: State, ok: bool)
    requires Step(env, s, msg, t, ok) && msg.ChunkData?
    ensures env.h(msg.chunk.data) != msg.chunk.hash ==> t == s && !ok
    ensures env.h(msg.chunk.data) == msg.chunk.hash && !ok && msg.chunk.fileID in t.assembledChunks ==>
              t.assembledChunks[msg.chunk.fileID] == s.Stored(msg.chunk.fileID) + [msg.chunk.(fileHash := "")]
    ensures ok <==> || |t.handed| == |s.handed| + 1
                    || (env.h(msg.chunk.data) == msg.chunk.hash &&
                        |s.Stored(msg.chunk.fileID)| + 1 != msg.chunk.totalChunks)
    ensures !ok ==> t.handed == s.handed
  {
  }

  // ---- what is handed over without chunks ----

  /** In every run: a deletion goes to the engine without data and is accepted, a renaming goes there and
      is answered as the engine answers it. Data that comes with its operation goes there decompressed;
      only if that fails is it refused, and then nothing changes. */
  lemma OperationsGoOut(env: Env, states: seq<State>, messages: seq<Message>, answers: seq<bool>, k: nat)
    requires IsAnswered(env, states, messages, answers) && k < |messages| && messages[k].Operation?
    ensures var op, data, s, t := messages[k].op, messages[k].data, states[k], states[k + 1];
            match op.kind
            case Delete => t == s.(handed := s.handed + [Handed([], [], op)]) && answers[k]
            case Rename => t == s.(handed := s.handed + [Handed([], [], op)]) && answers[k] == env.renames(op)
            case _ => data != [] ==>
              var d := if op.compressed then env.decompress(data) else Some(data);
              if d.Some? then t == s.(handed := s.handed + [Handed(data, d.value, op)]) && answers[k]
              else t == s && !answers[k]
  {
    AnsweredStep(env, states, messages, answers, k);
  }

  function OfKind(handed: seq<Handed>, kind: Kind): seq<Handed> {
    if handed == [] then []
    else
      var d := handed[|handed| - 1];
      OfKind(handed[..|handed| - 1], kind) + if d.op.kind == kind then [d] else []
  }

  /** A call of the engine without data for every operation of this kind among the first `k` messages. */
  function CallsFor(messages: seq<Message>, kind: Kind, k: nat): seq<Handed>
    requires k <= |messages|
  {
    if k == 0 then [] else CallsFor(messages, kind, k - 1) + CallOf(messages[k - 1], kind)
  }

  function CallOf(msg: Message, kind: Kind): seq<Handed> {
    if msg.Operation? && msg.op.kind == kind then [Handed([], [], msg.op)] else []
  }

  lemma OfKindAppends(handed: seq<Handed>, d: Handed, kind: Kind)
    ensures OfKind(handed + [d], kind) == OfKind(handed, kind) + if d.op.kind == kind then [d] else []
  {
    assert (handed + [d])[..|handed|] == handed;
  }

  ghost predicate KeepsContentsOnly(s: State) {
    forall f :: f in s.chunkMetadata ==> s.chunkMetadata[f].kind == Create || s.chunkMetadata[f].kind == Update
  }

  ghost predicate CallsMade(states: seq<State>, messages: seq<Message>, kind: Kind, k: nat)
    requires k <= |messages| < |states|
  {
    && OfKind(states[k].handed, kind) == OfKind(states[0].handed, kind) + CallsFor(messages, kind, k)
    && KeepsContentsOnly(states[k])
  }

  /** Deletions and renamings reach the engine exactly as often as they arrive and in that order, whatever
      arrives in between; chunks never make one. */
  lemma {:induction false} DeletionsAndRenamingsGoOut(env: Env, states: seq<State>, messages: seq<Message>,
                                                      kind: Kind, k: nat)
    requires IsRun(env, states, messages) && KeepsContentsOnly(states[0])
    requires k <= |messages| && (kind == Delete || kind == Rename)
    ensures CallsMade(states, messages, kind, k)
  {
    if k > 0 {
      DeletionsAndRenamingsGoOut(env, states, messages, kind, k - 1);
      RunStep(env, states, messages, k - 1);
      CallsMadeNext(env, states, messages, kind, k);
    }
  }

  lemma CallsMadeNext(env: Env, states: seq<State>, messages: seq<Message>, kind: Kind, k: nat)
    requires 0 < k <= |messages| < |states| && (kind == Delete || kind == Rename)
    requires Steps(env, states[k - 1], messages[k - 1], states[k]) && CallsMade(states, messages, kind, k - 1)
    ensures CallsMade(states, messages, kind, k)
  {
    hide Steps, KeepsContentsOnly, OfKind, CallOf;
    StepMakesCalls(env, states[k - 1], messages[k - 1], states[k], kind);
    assert CallsFor(messages, kind, k) == CallsFor(messages, kind, k - 1) + CallOf(messages[k - 1], kind);
  }

  lemma StepMakesCalls(env: Env, s: State, msg: Message, t: State, kind: Kind)
    requires Steps(env, s, msg, t) && KeepsContentsOnly(s) && (kind == Delete || kind == Rename)
    ensures OfKind(t.handed, kind) == OfKind(s.handed, kind) + CallOf(msg, kind) && KeepsContentsOnly(t)
  {
    var ok :| Step(env, s, msg, t, ok);
    hide Step, KeepsContentsOnly, OfKind;
    if msg.ChunkData? {
      ChunksMakeNone(env, s, msg, t, ok, kind);
    } else {
      OperationsMakeOne(env, s, msg, t, ok, kind);
    }
  }

  lemma OperationsMakeOne(env: Env, s: State, msg: Message, t: State, ok: bool, kind: Kind)
    requires Step(env, s, msg, t, ok) && msg.Operation? && KeepsContentsOnly(s)
    requires kind == Delete || kind == Rename
    ensures OfKind(t.handed, kind) == OfKind(s.handed, kind) + CallOf(msg, kind) && KeepsContentsOnly(t)
  {
    var d := HandedDirectly(env, msg.op, msg.data);
    if !Announces(msg) && d.Some? {
      OfKindAppends(s.handed, d.value, kind);
    }
  }

  lemma ChunksMakeNone(env: Env, s: State, msg: Message, t: State, ok: bool, kind: Kind)
    requires Step(env, s, msg, t, ok) && msg.ChunkData? && KeepsContentsOnly(s)
    requires kind == Delete || kind == Rename
    ensures OfKind(t.handed, kind) == OfKind(s.handed, kind) && KeepsContentsOnly(t)
  {
    if t.handed != s.handed {
      HandedHasAnnouncedHash(env, s, msg, t, ok);
      var d :| t.handed == s.handed + [d] && d.op == OperationFor(s, msg, d.assembled);
      OfKindAppends(s.handed, d, kind);
    }
  }

  // ---- which operation goes with the bytes ----

  predicate AnnouncesFile(msg: Message, f: string) {
    Announces(msg) && msg.op.fileID == f
  }

  /** The chunks of `f` have just been assembled: a sound one has come and none are stored. */
  predicate Completed(env: Env, msg: Message, t: State, f: string) {
    msg.ChunkData? && msg.chunk.fileID == f && env.h(msg.chunk.data) == msg.chunk.hash && f !in t.assembledChunks
  }

  /** Message `j` is the last announcement of `f` among the first `k` messages, and `f` has not been
      assembled since. */
  ghost predicate Stands(env: Env, states: seq<State>, messages: seq<Message>, f: string, j: nat, k: nat)
    requires k <= |messages| < |states|
  {
    && j < k && AnnouncesFile(messages[j], f)
    && forall i :: j < i < k ==> !AnnouncesFile(messages[i], f) && !Completed(env, messages[i], states[i + 1], f)
  }

  /** What a step does to the metadata of `f`. */
  lemma StepKeepsMetadata(env: Env, s: State, msg: Message, t: State, f: string)
    requires Steps(env, s, msg, t)
    ensures AnnouncesFile(msg, f) ==> f in t.chunkMetadata && t.chunkMetadata[f] == msg.op
    ensures Completed(env, msg, t, f) ==> f !in t.chunkMetadata
    ensures !AnnouncesFile(msg, f) && !Completed(env, msg, t, f) ==>
              && (f in t.chunkMetadata <==> f in s.chunkMetadata)
              && (f in s.chunkMetadata ==> t.chunkMetadata[f] == s.chunkMetadata[f])
  {
  }

  lemma StandsUnfolds(env: Env, states: seq<State>, messages: seq<Message>, f: string, j: nat, k: nat)
    requires 0 < k <= |messages| < |states|
    ensures Stands(env, states, messages, f, j, k) <==>
            || (j == k - 1 && AnnouncesFile(messages[k - 1], f))
            || (&& Stands(env, states, messages, f, j, k - 1) && !AnnouncesFile(messages[k - 1], f)
                && !Completed(env, messages[k - 1], states[k], f))
  {
  }

  /** Exactly while an announcement stands is metadata kept for the file, namely the announced operation. */
  ghost predicate KeepsAnnounced(env: Env, states: seq<State>, messages: seq<Message>, f: string, k: nat)
    requires k <= |messages| < |states|
  {
    && (f in states[k].chunkMetadata <==> exists j: nat :: Stands(env, states, messages, f, j, k))
    && forall j: nat :: Stands(env, states, messages, f, j, k) ==>
         f in states[k].chunkMetadata && states[k].chunkMetadata[f] == messages[j].op
  }

  lemma StepKeepsAnnounced(env: Env, states: seq<State>, messages: seq<Message>, f: string, k: nat)
    requires 0 < k <= |messages| < |states| && Steps(env, states[k - 1], messages[k - 1], states[k])
    requires KeepsAnnounced(env, states, messages, f, k - 1)
    ensures KeepsAnnounced(env, states, messages, f, k)
  {
    StepKeepsMetadata(env, states[k - 1], messages[k - 1], states[k], f);
    forall j: nat {
      StandsUnfolds(env, states, messages, f, j, k);
    }
    if AnnouncesFile(messages[k - 1], f) {
      assert Stands(env, states, messages, f, k - 1, k);
    } else if !Completed(env, messages[k - 1], states[k], f) && f in states[k - 1].chunkMetadata {
      var j: nat :| Stands(env, states, messages, f, j, k - 1);
      assert Stands(env, states, messages, f, j, k);
    }
  }

  /** Invariant of every run: the metadata kept for a file is the operation announced last, unless the
      file has been assembled since. */
  lemma {:induction false} MetadataIsLastAnnounced(env: Env, states: seq<State>, messages: seq<Message>, f: string,
                                                   k: nat)
    requires IsRun(env, states, messages) && k <= |messages| && f !in states[0].chunkMetadata
    ensures KeepsAnnounced(env, states, messages, f, k)
  {
    if k > 0 {
      MetadataIsLastAnnounced(env, states, messages, f, k - 1);
      RunStep(env, states, messages, k - 1);
      StepKeepsAnnounced(env, states, messages, f, k);
    }
  }

  /** What a chunk hands over fits the operation that goes with it exactly when the operation announced
      last has the checksum that the chunk announces; without an announcement it gets a makeshift operation
      that fits. */
  lemma HandedFitsExactly(env: Env, states: seq<State>, messages: seq<Message>, k: nat) returns (d: Handed)
    requires IsRun(env, states, messages) && k < |messages| && messages[k].ChunkData?
    requires messages[k].chunk.fileID !in states[0].chunkMetadata && states[k + 1].handed != states[k].handed
    ensures states[k + 1].handed == states[k].handed + [d] && env.h(d.assembled) == messages[k].chunk.fileHash
    ensures forall j: nat :: Stands(env, states, messages, messages[k].chunk.fileID, j, k) ==>
              && d.op == messages[j].op.(size := |d.assembled|)
              && (d.op.checksum == env.h(d.assembled) <==> messages[j].op.checksum == messages[k].chunk.fileHash)
              && Uncompressed(env, messages[j].op, d.assembled) == Some(d.fileData)
    ensures (forall j: nat :: !Stands(env, states, messages, messages[k].chunk.fileID, j, k)) ==>
              d.op == Makeshift(messages[k], d.assembled) && d.op.checksum == env.h(d.fileData)
  {
    var f := messages[k].chunk.fileID;
    MetadataIsLastAnnounced(env, states, messages, f, k);
    RunStep(env, states, messages, k);
    var ok :| Step(env, states[k], messages[k], states[k + 1], ok);
    HandedHasAnnouncedHash(env, states[k], messages[k], states[k + 1], ok);
    d :| states[k + 1].handed == states[k].handed + [d] && env.h(d.assembled) == messages[k].chunk.fileHash &&
         d.op == OperationFor(states[k], messages[k], d.assembled) &&
         Uncompressed(env, d.op, d.assembled) == Some(d.fileData);
  }

  // ---- versions are not mixed ----

  /** The versions in play of each file. The hashes that chunks announce are those of versions of their
      own file, no other bytes have them, and inline data is a version of its file. */
  ghost predicate FromVersions(h: Hasher, versions: map<string, set<Bytes>>, messages: seq<Message>) {
    && (forall f, v, d :: f in versions && v in versions[f] && h(d) == h(v) ==> d == v)
    && forall m :: m in messages ==> FromVersion(h, versions, m)
  }

  ghost predicate FromVersion(h: Hasher, versions: map<string, set<Bytes>>, m: Message) {
    var f := m.FileID();
    if m.ChunkData? then f in versions && exists v :: v in versions[f] && m.chunk.fileHash == h(v)
    else m.data != [] ==> f in versions && m.data in versions[f]
  }

  /** Contents handed over are a version of the file they are handed over as. */
  ghost predicate IsVersion(versions: map<string, set<Bytes>>, d: Handed) {
    d.op.kind == Create || d.op.kind == Update ==>
      d.op.fileID in versions && d.assembled in versions[d.op.fileID]
  }

  /** Metadata is kept under the file it is about. */
  ghost predicate Coherent(s: State) {
    forall g :: g in s.chunkMetadata ==> s.chunkMetadata[g].fileID == g
  }

  lemma StepHandsOverVersion(env: Env, versions: map<string, set<Bytes>>, s: State, msg: Message, t: State)
    requires Steps(env, s, msg, t) && Coherent(s) && FromVersions(env.h, versions, [msg])
    ensures Coherent(t) && s.handed <= t.handed
    ensures forall k :: |s.handed| <= k < |t.handed| ==> IsVersion(versions, t.handed[k])
  {
    var ok :| Step(env, s, msg, t, ok);
    assert FromVersion(env.h, versions, msg);
    if msg.ChunkData? && t.handed != s.handed {
      HandedHasAnnouncedHash(env, s, msg, t, ok);
    }
  }

  /** For any interleaving of messages from several versions of several files, contents handed over for
      a file are the bytes of one version of that file: never a mix, and never another file's. */
  lemma {:induction false} NeverAMix(env: Env, versions: map<string, set<Bytes>>, states: seq<State>,
                                     messages: seq<Message>)
    requires IsRun(env, states, messages) && Coherent(states[0]) && FromVersions(env.h, versions, messages)
    ensures Coherent(states[|messages|]) && states[0].handed <= states[|messages|].handed
    ensures forall k :: |states[0].handed| <= k < |states[|messages|].handed| ==>
              IsVersion(versions, states[|messages|].handed[k])
    decreases |messages|
  {
    if messages != [] {
      var n := |messages| - 1;
      RunPrefix(env, states, messages, n);
      NeverAMix(env, versions, states[..n + 1], messages[..n]);
      assert messages[n] in messages;
      RunStep(env, states, messages, n);
      StepHandsOverVersion(env, versions, states[n], messages[n], states[n + 1]);
    }
  }
}
