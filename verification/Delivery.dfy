/** The acknowledged sender of a chunked file, over a network that loses, repeats and reorders both
    messages and acknowledgments. */
module Delivery {
  import opened Finite

  /** What the ack channel of a tracked message holds: nothing yet, or success or failure. */
  datatype Slot = Empty | Acked(success: bool)

  type Pending = map<string, Slot>

  /** An ack is put into an empty channel of a tracked message; any other ack is dropped. A failure
      whose payload type was lost on the way counts as success. */
  function Noted(pending: Pending, id: string, success: bool, typed: bool): Pending {
    if id in pending && pending[id].Empty? then pending[id := Acked(success || !typed)] else pending
  }

  /** The first acknowledgment counts: later ones change nothing, and nor do those of other messages, or of
      messages that are not tracked. */
  lemma FirstAckCounts(pending: Pending, id: string, success: bool, typed: bool, later: bool, laterTyped: bool)
    ensures id !in pending ==> Noted(pending, id, success, typed) == pending
    ensures id in pending && pending[id].Empty? ==>
              Noted(pending, id, success, typed)[id] == Acked(!(typed && !success))
    ensures var once := Noted(pending, id, success, typed);
            Noted(once, id, later, laterTyped) == once && once.Keys == pending.Keys && once - {id} == pending - {id}
  {
  }

  datatype Outcome = NoConnection | TransportError | AckSuccess | AckFailure | AckTimeout

  class NetworkMessenger {
    var pendingAcks: Pending
    const retryCount: nat

    constructor (retryCount: nat)
      ensures pendingAcks == map[] && this.retryCount == retryCount
    {
      pendingAcks, this.retryCount := map[], retryCount;
    }

    method TrackAcknowledgment(id: string)
      modifies this
      ensures pendingAcks == old(pendingAcks)[id := Empty]
    {
      pendingAcks := pendingAcks[id := Empty];
    }

    method UntrackAcknowledgment(id: string)
      modifies this
      ensures pendingAcks == old(pendingAcks) - {id}
    {
      pendingAcks := pendingAcks - {id};
    }

    method HandleAcknowledgment(correlationID: string, success: bool, typed: bool)
      modifies this
      ensures pendingAcks == Noted(old(pendingAcks), correlationID, success, typed)
    {
      if correlationID !in pendingAcks {
        return;
      }
      var failed := typed && !success;
      if pendingAcks[correlationID].Empty? {
        pendingAcks := pendingAcks[correlationID := Acked(!failed)];
      }
    }

    /** The retry loop, with the outcome of each attempt as the environment decides it. Before it, looking
        up the connection or encrypting the message may fail; then nothing is tracked. */
    method SendMessage(id: string, ready: bool, outcomes: nat -> Outcome) returns (ok: bool, transmissions: nat)
      modifies this
      ensures Sends(ready, outcomes, retryCount, ok, transmissions)
      ensures ok <==> Succeeds(ready, outcomes, retryCount)
      ensures pendingAcks == PendingAfter(old(pendingAcks), id, ready, ok || transmissions == retryCount)
    {
      transmissions := 0;
      if !ready {
        return false, transmissions;
      }
      for attempt := 0 to retryCount
        invariant transmissions == attempt
        invariant InVain(outcomes, attempt)
        invariant pendingAcks == if attempt == 0 then old(pendingAcks) else old(pendingAcks)[id := Empty]
      {
        TrackAcknowledgment(id);
        if outcomes(attempt) == NoConnection {
          return false, transmissions;
        }
        transmissions := transmissions + 1;
        if outcomes(attempt) == AckSuccess {
          UntrackAcknowledgment(id);
          return true, transmissions;
        }
      }
      UntrackAcknowledgment(id);
      return false, transmissions;
    }

    /** Sends the messages of a file one after the other and gives up at the first that fails. What this
        does is one of the runs of the protocol below. */
    method SendChunkedFile(ids: seq<string>, ready: nat -> bool, outcomes: nat -> (nat -> Outcome))
      returns (ok: bool, ghost events: seq<Event>)
      requires ids != []
      modifies this
      ensures ok <==> forall i :: 0 <= i < |ids| ==> Succeeds(ready(i), outcomes(i), retryCount)
      ensures var sender := Sender(ids, retryCount);
              var t := sender.From(sender.Init().(pending := old(pendingAcks)), events);
              t.phase == (if ok then Succeeded else Failed) && t.pending == pendingAcks
    {
      hide Sends, Succeeds, Sender.Enabled, Sender.Next;
      ghost var sender := Sender(ids, retryCount);
      ghost var start := sender.Init().(pending := pendingAcks);
      events := [];
      for i := 0 to |ids|
        invariant var t := sender.From(start, events);
                  && t.phase == (if i == |ids| then Succeeded else Ready) && t.current == i && t.attempt == 0
                  && t.pending == pendingAcks
        invariant forall k :: 0 <= k < i ==> Succeeds(ready(k), outcomes(k), retryCount)
      {
        ghost var t := sender.From(start, events);
        var sent, n := SendMessage(ids[i], ready(i), outcomes(i));
        ghost var more := sender.SendingIsARun(t, ids[i], ready(i), outcomes(i), sent, n);
        sender.FromConcat(start, events, more);
        events := events + more;
        if !sent {
          return false, events;
        }
      }
      return true, events;
    }
  }

  /** What the outcomes of the attempts decide: success and the number of transmissions. */
  ghost predicate Sends(ready: bool, outcomes: nat -> Outcome, retryCount: nat, ok: bool, transmissions: nat) {
    && transmissions <= retryCount
    && (forall j: nat :: j < transmissions ==>
          outcomes(j) != NoConnection && (outcomes(j) == AckSuccess <==> ok && j == transmissions - 1))
    && (ok ==> ready && transmissions > 0)
    && (!ready ==> transmissions == 0)
    && (ready && !ok ==> transmissions == retryCount || outcomes(transmissions) == NoConnection)
  }

  /** The message can be sent, and an attempt succeeds before the connection is gone. */
  ghost predicate Succeeds(ready: bool, outcomes: nat -> Outcome, retryCount: nat) {
    ready && exists j: nat :: j < retryCount && outcomes(j) == AckSuccess && InVain(outcomes, j)
  }

  ghost predicate InVain(outcomes: nat -> Outcome, n: nat) {
    forall j: nat :: j < n ==> outcomes(j) != NoConnection && outcomes(j) != AckSuccess
  }

  /** A failing transport, a failure reported back and a missing answer are all tried again; only a lost
      connection ends the attempts early. */
  lemma RetriesUntilAccepted(ready: bool, outcomes: nat -> Outcome, retryCount: nat)
    ensures Succeeds(ready, outcomes, retryCount) <==>
            ready && exists j: nat :: j < retryCount && outcomes(j) == AckSuccess &&
                       forall i: nat :: i < j ==> outcomes(i) in {TransportError, AckFailure, AckTimeout}
  {
    forall j: nat
      ensures (forall i: nat :: i < j ==> outcomes(i) in {TransportError, AckFailure, AckTimeout}) ==>
                InVain(outcomes, j)
    {
    }
  }

  /** Nothing is tracked before the first attempt, nor after the last one. */
  function PendingAfter(pending: Pending, id: string, ready: bool, finished: bool): Pending {
    if !ready then pending else if finished then pending - {id} else pending[id := Empty]
  }

  // ---- the protocol ----

  datatype Phase = Ready | Waiting | Succeeded | Failed

  datatype Ack = Ack(id: string, success: bool)

  /** The sender works through the messages in order; the network remembers everything ever sent. */
  datatype State = State(
    phase: Phase, current: nat, attempt: nat, pending: Pending, transmitted: seq<string>,
    wire: set<string>, handled: seq<string>, acks: set<Ack>)

  datatype Event =
    | Transmit(accepted: bool, reached: bool)       // one attempt; a failing transport may still deliver
    | GiveUp(tracked: bool)                         // the connection is gone
    | TakeAck                                       // the waiting sender reads its channel
    | Timeout
    | Exhausted
    | Handle(id: string, replies: bool, success: bool)  // the receiver handles a copy and may acknowledge it
    | DeliverAck(ack: Ack, typed: bool)             // a copy of an acknowledgment arrives

  /** One attempt of the retry loop as events of the protocol. */
  function AttemptEvents(outcome: Outcome, id: string): seq<Event> {
    match outcome
    case NoConnection => [GiveUp(true)]
    case TransportError => [Transmit(false, false)]
    case AckTimeout => [Transmit(true, true), Timeout]
    case AckSuccess => [Transmit(true, true), Handle(id, true, true), DeliverAck(Ack(id, true), true), TakeAck]
    case AckFailure => [Transmit(true, true), Handle(id, true, false), DeliverAck(Ack(id, false), true), TakeAck]
  }

  function AttemptsEvents(outcomes: nat -> Outcome, id: string, n: nat): seq<Event> {
    if n == 0 then [] else AttemptsEvents(outcomes, id, n - 1) + AttemptEvents(outcomes(n - 1), id)
  }

  /** The messages of one file, metadata first, with their unique IDs. */
  datatype Sender = Sender(ids: seq<string>, retryCount: nat) {
    ghost predicate Valid() {
      ids != [] && NoDuplicates(ids)
    }

    function Init(): State {
      State(Ready, 0, 0, map[], [], {}, [], {})
    }

    predicate Enabled(s: State, e: Event) {
      match e
      case Transmit(_, _) => s.phase == Ready && s.current < |ids| && s.attempt < retryCount
      case GiveUp(_) => s.phase == Ready && s.current < |ids|
      case TakeAck =>
        s.phase == Waiting && s.current < |ids| && ids[s.current] in s.pending && s.pending[ids[s.current]].Acked?
      case Timeout => s.phase == Waiting
      case Exhausted => s.phase == Ready && s.current < |ids| && s.attempt == retryCount
      case Handle(id, _, _) => id in s.wire
      case DeliverAck(ack, _) => ack in s.acks
    }

    function Next(s: State, e: Event): State
      requires Enabled(s, e)
    {
      match e
      case Transmit(accepted, reached) =>
        var id := ids[s.current];
        var t := s.(pending := s.pending[id := Empty], transmitted := s.transmitted + [id],
                    wire := if accepted || reached then s.wire + {id} else s.wire);
        if accepted then t.(phase := Waiting) else t.(attempt := s.attempt + 1)
      case GiveUp(tracked) =>
        s.(phase := Failed, pending := if tracked then s.pending[ids[s.current] := Empty] else s.pending)
      case TakeAck =>
        var id := ids[s.current];
        if !s.pending[id].success then s.(phase := Ready, attempt := s.attempt + 1, pending := s.pending[id := Empty])
        else s.(phase := if s.current + 1 == |ids| then Succeeded else Ready, current := s.current + 1, attempt := 0,
                pending := s.pending - {id})
      case Timeout => s.(phase := Ready, attempt := s.attempt + 1)
      case Exhausted => s.(phase := Failed, pending := s.pending - {ids[s.current]})
      case Handle(id, replies, success) =>
        s.(handled := s.handled + [id], acks := if replies then s.acks + {Ack(id, success)} else s.acks)
      case DeliverAck(ack, typed) => s.(pending := Noted(s.pending, ack.id, ack.success, typed))
    }

    /** The state after a schedule of events; events that are not enabled do not happen. */
    function Run(events: seq<Event>): State {
      From(Init(), events)
    }

    function From(s: State, events: seq<Event>): State {
      if events == [] then s else Do(From(s, events[..|events| - 1]), events[|events| - 1])
    }

    function Do(s: State, e: Event): State {
      if Enabled(s, e) then Next(s, e) else s
    }

    /** Message `j` was handled at position `k`, and an earlier message `i` before it. */
    ghost predicate HandledInOrder(handled: seq<string>) {
      forall k, i, j :: 0 <= k < |handled| && 0 <= i < j < |ids| && handled[k] == ids[j] ==> ids[i] in handled[..k]
    }

    ghost predicate Reached(current: nat, id: string) {
      exists j :: 0 <= j < |ids| && j <= current && ids[j] == id
    }

    ghost predicate Inv(s: State) {
      && s.current <= |ids| && (s.current == |ids| <==> s.phase == Succeeded)
      && s.attempt <= retryCount && (s.phase == Waiting ==> s.attempt < retryCount)
      // only messages up to the current one have been sent
      && (forall id :: id in s.wire || id in s.transmitted ==> Reached(s.current, id))
      && (forall id :: id in s.handled ==> id in s.wire)
      // an acknowledgment comes from a handling
      && (forall a :: a in s.acks ==> a.id in s.handled)
      && (forall id :: id in s.pending && s.pending[id].Acked? ==> id in s.handled)
      && (forall i :: 0 <= i < s.current ==> ids[i] in s.handled)
      && HandledInOrder(s.handled)
    }

    lemma HandlingKeepsOrder(s: State, id: string)
      requires Valid() && Inv(s) && id in s.wire
      ensures HandledInOrder(s.handled + [id])
    {
      var handled := s.handled + [id];
      forall k, i, j | 0 <= k < |handled| && 0 <= i < j < |ids| && handled[k] == ids[j]
        ensures ids[i] in handled[..k]
      {
        if k < |s.handled| {
          assert s.handled[k] == ids[j];
          assert handled[..k] == s.handled[..k];
        } else {
          assert handled[..k] == s.handled;
          assert Reached(s.current, id) && j <= s.current;
        }
      }
    }

    lemma SendingKeepsInv(s: State, e: Event)
      requires Valid() && Inv(s) && Enabled(s, e) && (e.Transmit? || e.GiveUp? || e.Timeout? || e.Exhausted?)
      ensures Inv(Next(s, e))
    {
      assert s.current < |ids| ==> Reached(s.current, ids[s.current]);
    }

    lemma TakingAckKeepsInv(s: State)
      requires Valid() && Inv(s) && Enabled(s, TakeAck)
      ensures Inv(Next(s, TakeAck))
    {
      var t := Next(s, TakeAck);
      assert forall id :: Reached(s.current, id) ==> Reached(t.current, id);
    }

    lemma DeliveringAckKeepsInv(s: State, e: Event)
      requires Valid() && Inv(s) && Enabled(s, e) && e.DeliverAck?
      ensures Inv(Next(s, e))
    {
    }

    lemma StepKeepsInv(s: State, e: Event)
      requires Valid() && Inv(s) && Enabled(s, e)
      ensures Inv(Next(s, e))
    {
      if e.Handle? {
        HandlingKeepsOrder(s, e.id);
      } else if e.TakeAck? {
        TakingAckKeepsInv(s);
      } else if e.DeliverAck? {
        DeliveringAckKeepsInv(s, e);
      } else {
        SendingKeepsInv(s, e);
      }
    }

    lemma {:induction false} InvAlways(events: seq<Event>)
      requires Valid()
      ensures Inv(Run(events))
    {
      if events != [] {
        InvAlways(events[..|events| - 1]);
        var s := Run(events[..|events| - 1]);
        if Enabled(s, events[|events| - 1]) {
          StepKeepsInv(s, events[|events| - 1]);
        }
      }
    }

    /** A failure whose payload type was lost has arrived for this message. */
    ghost predicate FailureTakenForSuccess(events: seq<Event>, id: string) {
      exists k :: 0 <= k < |events| && events[k] == DeliverAck(Ack(id, false), false)
    }

    /** The receiver has accepted the message, or a failure was taken for success. */
    ghost predicate Accepted(events: seq<Event>, s: State, id: string) {
      Ack(id, true) in s.acks || FailureTakenForSuccess(events, id)
    }

    ghost predicate SuccessesAreAccepted(events: seq<Event>, s: State) {
      && (forall id :: id in s.pending && s.pending[id] == Acked(true) ==> Accepted(events, s, id))
      && (forall i :: 0 <= i < s.current && i < |ids| ==> Accepted(events, s, ids[i]))
    }

    lemma StepKeepsAccepted(init: seq<Event>, e: Event, s: State)
      requires Enabled(s, e) && SuccessesAreAccepted(init, s)
      ensures SuccessesAreAccepted(init + [e], Next(s, e))
    {
      var t, events := Next(s, e), init + [e];
      assert events[|init|] == e;
      forall id | Accepted(init, s, id)
        ensures Accepted(events, t, id)
      {
        if FailureTakenForSuccess(init, id) {
          var k :| 0 <= k < |init| && init[k] == DeliverAck(Ack(id, false), false);
          assert events[k] == init[k];
        }
      }
      forall id | id in t.pending && t.pending[id] == Acked(true)
        ensures Accepted(events, t, id)
      {
      }
    }

    /** In every run: of each message that the sender is done with, the receiver has accepted a copy, unless
        a failure was taken for success because its payload type was lost. */
    lemma {:induction false} SuccessMeansAccepted(events: seq<Event>)
      requires Valid()
      ensures SuccessesAreAccepted(events, Run(events))
    {
      if events != [] {
        var init, e := events[..|events| - 1], events[|events| - 1];
        assert events == init + [e];
        SuccessMeansAccepted(init);
        var s := Run(init);
        if Enabled(s, e) {
          StepKeepsAccepted(init, e, s);
        } else {
          NothingMoreAccepted(init, e, s);
        }
      }
    }

    lemma NothingMoreAccepted(init: seq<Event>, e: Event, s: State)
      requires SuccessesAreAccepted(init, s)
      ensures SuccessesAreAccepted(init + [e], s)
    {
      forall id | FailureTakenForSuccess(init, id)
        ensures FailureTakenForSuccess(init + [e], id)
      {
        var k :| 0 <= k < |init| && init[k] == DeliverAck(Ack(id, false), false);
        assert (init + [e])[k] == init[k];
      }
    }

    lemma RefusedRuns(s: State, id: string)
      requires s.phase == Ready && s.current < |ids| && ids[s.current] == id && s.attempt < retryCount
      ensures var t := Do(Do(Do(Do(s, Transmit(true, true)), Handle(id, true, false)),
                             DeliverAck(Ack(id, false), false)), TakeAck);
              t.current == s.current + 1 && t.acks == s.acks + {Ack(id, false)}
    {
      var sent := Do(s, Transmit(true, true));
      assert sent.phase == Waiting && sent.pending == s.pending[id := Empty] && id in sent.wire;
      var handled := Do(sent, Handle(id, true, false));
      assert Ack(id, false) in handled.acks && handled.pending == sent.pending;
      var told := Do(handled, DeliverAck(Ack(id, false), false));
      assert told == handled.(pending := s.pending[id := Acked(true)]);
      assert Do(told, TakeAck) == Next(told, TakeAck);
    }

    /** Which happens: the receiver refuses a message, its answer loses the payload type, and the sender goes
        on as after a success. */
    lemma RefusalCountsAsSuccess(s: State)
      requires s.phase == Ready && s.current < |ids| && s.attempt < retryCount && Ack(ids[s.current], true) !in s.acks
      ensures var id := ids[s.current];
              var t := From(s, [Transmit(true, true), Handle(id, true, false),
                                DeliverAck(Ack(id, false), false), TakeAck]);
              t.current == s.current + 1 && Ack(id, true) !in t.acks
    {
      var id := ids[s.current];
      RefusedRuns(s, id);
      hide Do, From;
      FromFour(s, Transmit(true, true), Handle(id, true, false), DeliverAck(Ack(id, false), false), TakeAck);
    }

    ghost predicate TracksCurrent(s: State) {
      forall id :: id in s.pending ==> s.current < |ids| && id == ids[s.current]
    }

    lemma StepTracksCurrent(s: State, e: Event)
      requires Enabled(s, e) && TracksCurrent(s) && s.current <= |ids|
      ensures TracksCurrent(Next(s, e))
    {
    }

    /** Only the message being sent is tracked, so nothing is left tracked after success. */
    lemma {:induction false} OnlyCurrentIsTracked(events: seq<Event>)
      requires Valid()
      ensures TracksCurrent(Run(events)) && (Run(events).phase == Succeeded ==> Run(events).pending == map[])
    {
      InvAlways(events);
      if events != [] {
        var init := events[..|events| - 1];
        InvAlways(init);
        OnlyCurrentIsTracked(init);
        hide Next, HandledInOrder, Reached;
        if Enabled(Run(init), events[|events| - 1]) {
          StepTracksCurrent(Run(init), events[|events| - 1]);
        }
      }
    }

    /** How often each message has been transmitted so far. */
    ghost predicate CountedAttempts(s: State) {
      forall i :: 0 <= i < |ids| ==>
        && (i < s.current ==> multiset(s.transmitted)[ids[i]] <= retryCount)
        && (i == s.current ==> multiset(s.transmitted)[ids[i]] == s.attempt + if s.phase == Waiting then 1 else 0)
        && (i > s.current ==> multiset(s.transmitted)[ids[i]] == 0)
    }

    lemma StepCounts(s: State, e: Event)
      requires Valid() && Inv(s) && CountedAttempts(s) && Enabled(s, e)
      ensures CountedAttempts(Next(s, e))
    {
      if e.Transmit? {
        var id := ids[s.current];
        assert multiset(s.transmitted + [id]) == multiset(s.transmitted)[id := multiset(s.transmitted)[id] + 1];
      }
    }

    lemma {:induction false} AttemptsAreCounted(events: seq<Event>)
      requires Valid()
      ensures Inv(Run(events)) && CountedAttempts(Run(events))
    {
      InvAlways(events);
      if events != [] {
        AttemptsAreCounted(events[..|events| - 1]);
        var s := Run(events[..|events| - 1]);
        var e := events[|events| - 1];
        if Enabled(s, e) {
          InvAlways(events[..|events| - 1]);
          StepCounts(s, e);
        }
      }
    }

    /** No message is transmitted more often than there are retries, in any run. */
    lemma TransmissionsAreBounded(events: seq<Event>, id: string)
      requires Valid()
      ensures multiset(Run(events).transmitted)[id] <= if id in ids then retryCount else 0
    {
      AttemptsAreCounted(events);
      var s := Run(events);
      if id in ids {
        var i :| 0 <= i < |ids| && ids[i] == id;
        assert i < s.current || i == s.current || i > s.current;
      } else {
        assert id !in s.transmitted;
      }
    }

    /** In every run each message is handled only after all messages before it have been; and when
        the sender reports success every message has been handled at least once. */
    lemma SuccessMeansHandled(events: seq<Event>)
      requires Valid()
      ensures var s := Run(events);
              && HandledInOrder(s.handled)
              && (forall id :: id in s.handled ==> id in ids)
              && (s.phase == Succeeded ==> forall id :: id in ids ==> id in s.handled)
              && s.current <= |ids| && (forall i :: 0 <= i < s.current ==> ids[i] in s.handled)
    {
      InvAlways(events);
    }

    /** If the network did not repeat anything the receiver handled precisely the messages sent, in
        the order they were sent. */
    lemma SuccessWithoutRepeats(events: seq<Event>)
      requires Valid() && Run(events).phase == Succeeded && NoDuplicates(Run(events).handled)
      ensures Run(events).handled == ids
    {
      SuccessMeansHandled(events);
      var handled := Run(events).handled;
      SameMembersSameLength(handled, ids);
      InOrderIsSame(handled, |ids|);
      assert handled[..|ids|] == handled && ids[..|ids|] == ids;
    }

    lemma {:induction false} InOrderIsSame(handled: seq<string>, n: nat)
      requires Valid() && NoDuplicates(handled) && HandledInOrder(handled)
      requires |handled| == |ids| && n <= |ids| && forall id :: id in handled ==> id in ids
      ensures handled[..n] == ids[..n]
    {
      if n > 0 {
        InOrderIsSame(handled, n - 1);
        NextIsSame(handled, n - 1);
        assert handled[..n] == handled[..n - 1] + [handled[n - 1]] && ids[..n] == ids[..n - 1] + [ids[n - 1]];
      }
    }

    lemma NextIsSame(handled: seq<string>, m: nat)
      requires Valid() && NoDuplicates(handled) && HandledInOrder(handled)
      requires m < |handled| == |ids| && handled[..m] == ids[..m] && handled[m] in ids
      ensures handled[m] == ids[m]
    {
      var j :| 0 <= j < |ids| && ids[j] == handled[m];
      NotInPrefix(handled, m);
      NotInPrefix(ids, m);
      assert forall i :: 0 <= i < m ==> handled[i] == handled[..m][i] == ids[..m][i] == ids[i];
    }

    lemma NotInPrefix(s: seq<string>, m: nat)
      requires NoDuplicates(s) && m < |s|
      ensures s[m] !in s[..m]
    {
    }

    // ---- the retry loop is a run of the protocol ----

    lemma StepFrom(s: State, events: seq<Event>, e: Event)
      ensures From(s, events + [e]) == Do(From(s, events), e)
    {
      assert (events + [e])[..|events|] == events;
    }

    lemma {:induction false} FromConcat(s: State, a: seq<Event>, b: seq<Event>)
      ensures From(s, a + b) == From(From(s, a), b)
    {
      if b == [] {
        assert a + b == a;
      } else {
        FromConcat(s, a, b[..|b| - 1]);
        assert (a + b)[..|a + b| - 1] == a + b[..|b| - 1];
      }
    }

    /** `id` is the message to be sent next. */
    predicate IsNext(s: State, id: string) {
      s.phase == Ready && s.attempt == 0 && s.current < |ids| && ids[s.current] == id
    }

    /** After `attempt` transmissions of the current message in vain. */
    ghost predicate Underway(s: State, t: State, attempt: nat, pending: Pending) {
      && t.phase == Ready && t.current == s.current && t.attempt == attempt && t.pending == pending
      && |t.transmitted| == |s.transmitted| + attempt
    }

    /** What an attempt with this outcome leaves of the current message. */
    ghost predicate Attempted(s: State, t: State, id: string, outcome: Outcome) {
      && |t.transmitted| == |s.transmitted| + (if outcome == NoConnection then 0 else 1)
      && t.handled == s.handled + (if outcome == AckSuccess || outcome == AckFailure then [id] else [])
      && match outcome
         case NoConnection => t.phase == Failed && t.current == s.current && t.pending == s.pending[id := Empty]
         case AckSuccess =>
           && t.current == s.current + 1 && t.phase == (if t.current == |ids| then Succeeded else Ready)
           && t.attempt == 0 && t.pending == s.pending - {id}
         case _ =>
           && t.phase == Ready && t.current == s.current && t.attempt == s.attempt + 1
           && t.pending == s.pending[id := Empty]
    }

    lemma FromFour(s: State, a: Event, b: Event, c: Event, d: Event)
      ensures From(s, [a]) == Do(s, a)
      ensures From(s, [a, b]) == Do(Do(s, a), b)
      ensures From(s, [a, b, c]) == Do(Do(Do(s, a), b), c)
      ensures From(s, [a, b, c, d]) == Do(Do(Do(Do(s, a), b), c), d)
    {
      StepFrom(s, [], a);
      StepFrom(s, [a], b);
      StepFrom(s, [a, b], c);
      StepFrom(s, [a, b, c], d);
      assert [] + [a] == [a] && [a] + [b] == [a, b] && [a, b] + [c] == [a, b, c] && [a, b, c] + [d] == [a, b, c, d];
    }

    lemma AcknowledgedRuns(s: State, id: string, success: bool)
      requires s.phase == Ready && s.current < |ids| && ids[s.current] == id && s.attempt < retryCount
      ensures var t := Do(Do(Do(Do(s, Transmit(true, true)), Handle(id, true, success)),
                             DeliverAck(Ack(id, success), true)), TakeAck);
              Attempted(s, t, id, if success then AckSuccess else AckFailure)
    {
      var sent := Do(s, Transmit(true, true));
      assert sent.phase == Waiting && sent.pending == s.pending[id := Empty] && id in sent.wire;
      var handled := Do(sent, Handle(id, true, success));
      assert Ack(id, success) in handled.acks && handled.pending == sent.pending;
      var told := Do(handled, DeliverAck(Ack(id, success), true));
      assert told == handled.(pending := s.pending[id := Acked(success)]);
      var t := Do(told, TakeAck);
      assert t == Next(told, TakeAck);
      assert success ==> t.pending == s.pending - {id};
      assert !success ==> t.pending == s.pending[id := Empty];
    }

    lemma AttemptRuns(s: State, id: string, outcome: Outcome)
      requires s.phase == Ready && s.current < |ids| && ids[s.current] == id && s.attempt < retryCount
      ensures Attempted(s, From(s, AttemptEvents(outcome, id)), id, outcome)
    {
      var success := outcome == AckSuccess;
      if success || outcome == AckFailure {
        FromFour(s, Transmit(true, true), Handle(id, true, success), DeliverAck(Ack(id, success), true), TakeAck);
        AcknowledgedRuns(s, id, success);
      } else {
        FromFour(s, AttemptEvents(outcome, id)[0], Timeout, Timeout, Timeout);
      }
    }

    lemma OneMoreInVain(s: State, t: State, id: string, outcome: Outcome, attempt: nat)
      requires IsNext(s, id) && attempt < retryCount && outcome != NoConnection && outcome != AckSuccess
      requires Underway(s, t, attempt, if attempt == 0 then s.pending else s.pending[id := Empty])
      ensures Underway(s, From(t, AttemptEvents(outcome, id)), attempt + 1, s.pending[id := Empty])
    {
      AttemptRuns(t, id, outcome);
    }

    lemma {:induction false} AttemptsInVain(s: State, id: string, outcomes: nat -> Outcome, n: nat)
      requires IsNext(s, id) && n <= retryCount
      requires InVain(outcomes, n)
      ensures Underway(s, From(s, AttemptsEvents(outcomes, id, n)), n,
                       if n == 0 then s.pending else s.pending[id := Empty])
    {
      if n > 0 {
        hide Underway, From, IsNext;
        AttemptsInVain(s, id, outcomes, n - 1);
        var before := AttemptsEvents(outcomes, id, n - 1);
        FromConcat(s, before, AttemptEvents(outcomes(n - 1), id));
        OneMoreInVain(s, From(s, before), id, outcomes(n - 1), n - 1);
      }
    }

    /** Sending one message, whatever the outcomes, continues any run that has come to this message: with
        the same success, as many transmissions, and the same table of acknowledgments. */
    lemma SendingIsARun(s: State, id: string, ready: bool, outcomes: nat -> Outcome, ok: bool, n: nat)
      returns (events: seq<Event>)
      requires IsNext(s, id) && Sends(ready, outcomes, retryCount, ok, n)
      ensures var t := From(s, events);
              && t.phase == (if !ok then Failed else if t.current == |ids| then Succeeded else Ready)
              && t.current == (if ok then s.current + 1 else s.current) && (ok ==> t.attempt == 0)
              && |t.transmitted| == |s.transmitted| + n
              && t.pending == PendingAfter(s.pending, id, ready, ok || n == retryCount)
    {
      if !ready {
        events := [GiveUp(false)];
        StepFrom(s, [], GiveUp(false));
      } else if !ok && n == retryCount {
        events := AllInVain(s, id, outcomes);
      } else {
        events := EndsWith(s, id, outcomes, ok, if ok then n - 1 else n);
      }
    }

    /** Every attempt was in vain, and the message is given up. */
    lemma AllInVain(s: State, id: string, outcomes: nat -> Outcome) returns (events: seq<Event>)
      requires IsNext(s, id) && InVain(outcomes, retryCount)
      ensures var t := From(s, events);
              && t.phase == Failed && t.current == s.current && |t.transmitted| == |s.transmitted| + retryCount
              && t.pending == s.pending - {id}
    {
      hide AttemptsEvents, From, Underway, IsNext, InVain, Do;
      var before := AttemptsEvents(outcomes, id, retryCount);
      AttemptsInVain(s, id, outcomes, retryCount);
      events := before + [Exhausted];
      StepFrom(s, before, Exhausted);
      GivenUp(s, From(s, before), id);
    }

    lemma GivenUp(s: State, t: State, id: string)
      requires IsNext(s, id)
      requires Underway(s, t, retryCount, if retryCount == 0 then s.pending else s.pending[id := Empty])
      ensures var u := Do(t, Exhausted);
              && u.phase == Failed && u.current == s.current && |u.transmitted| == |s.transmitted| + retryCount
              && u.pending == s.pending - {id}
    {
      assert s.pending[id := Empty] - {id} == s.pending - {id};
    }

    /** `k` attempts were in vain, and the next one ends it. */
    lemma EndsWith(s: State, id: string, outcomes: nat -> Outcome, ok: bool, k: nat) returns (events: seq<Event>)
      requires IsNext(s, id) && k < retryCount && InVain(outcomes, k)
      requires outcomes(k) == if ok then AckSuccess else NoConnection
      ensures var t := From(s, events);
              && t.phase == (if !ok then Failed else if t.current == |ids| then Succeeded else Ready)
              && t.current == (if ok then s.current + 1 else s.current) && (ok ==> t.attempt == 0)
              && |t.transmitted| == |s.transmitted| + k + (if ok then 1 else 0)
              && t.pending == PendingAfter(s.pending, id, true, ok)
    {
      var before := AttemptsEvents(outcomes, id, k);
      AttemptsInVain(s, id, outcomes, k);
      events := before + AttemptEvents(outcomes(k), id);
      FromConcat(s, before, AttemptEvents(outcomes(k), id));
      LastAttempt(s, From(s, before), id, ok, k);
    }

    lemma LastAttempt(s: State, t: State, id: string, ok: bool, k: nat)
      requires IsNext(s, id) && k < retryCount
      requires Underway(s, t, k, if k == 0 then s.pending else s.pending[id := Empty])
      ensures var u := From(t, AttemptEvents(if ok then AckSuccess else NoConnection, id));
              && u.phase == (if !ok then Failed else if u.current == |ids| then Succeeded else Ready)
              && u.current == (if ok then s.current + 1 else s.current) && (ok ==> u.attempt == 0)
              && |u.transmitted| == |s.transmitted| + k + (if ok then 1 else 0)
              && u.pending == PendingAfter(s.pending, id, true, ok)
    {
      AttemptRuns(t, id, if ok then AckSuccess else NoConnection);
      assert s.pending[id := Empty] - {id} == s.pending - {id};
      assert s.pending[id := Empty][id := Empty] == s.pending[id := Empty];
    }
  }
}
