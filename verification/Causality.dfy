/** The clock protocol of the sync engine. A run interleaves, over any number of peers, local
    operations with deliveries of operations issued earlier; a message may be delivered never,
    late, out of order, or many times. Causality is Lamport's relation on the events of the run,
    defined without looking at any clock; first over the deliveries that merge a clock, and at the end over
    all deliveries. */
module Causality {
  import opened Operations
  import opened VectorClocks

  /** The part of the engine that the clock protocol touches. */
  class Engine {
    const peerID: PeerID
    const vectorClock: VectorClock
    var queue: seq<SyncOperation>

    constructor (peerID: PeerID)
      ensures this.peerID == peerID && vectorClock.entries == map[] && queue == []
      ensures fresh(vectorClock)
    {
      this.peerID := peerID;
      this.vectorClock := new VectorClock();
      queue := [];
    }

    /** A local operation ticks the peer's own entry and takes a snapshot. */
    method QueueOperation(op: SyncOperation, isLocal: bool) returns (queued: SyncOperation)
      modifies this, vectorClock
      ensures vectorClock.entries == if isLocal then Tick(old(vectorClock.entries), peerID)
                                     else old(vectorClock.entries)
      ensures queued == if isLocal then op.(clock := Some(vectorClock.entries)) else op
      ensures queue == old(queue) + [queued]
    {
      queued := op;
      if isLocal {
        vectorClock.Increment(peerID);
        queued := op.(clock := Some(vectorClock.entries));
      }
      queue := queue + [queued];
    }

    /** An incoming create, update or delete that carries a clock merges it; an incoming rename
        takes another path that leaves the clock alone. */
    method HandleIncoming(op: SyncOperation)
      modifies vectorClock
      ensures vectorClock.entries ==
              if op.kind != Rename && op.clock.Some? then JoinClocks(old(vectorClock.entries), op.clock.value)
              else old(vectorClock.entries)
    {
      if op.kind != Rename && op.clock.Some? {
        vectorClock.Merge(op.clock.value);
      }
    }
  }

  datatype Event =
    | Issue(peer: PeerID, kind: Kind)
    | Deliver(peer: PeerID, source: nat, carriesClock: bool)

  type Run = seq<Event>

  /** Only issued operations are delivered. No counter can reach the 64-bit limit. */
  ghost predicate Valid(t: Run) {
    && |t| <= MAX_INT64
    && forall k :: 0 <= k < |t| && t[k].Deliver? ==> t[k].source < k && t[t[k].source].Issue?
  }

  predicate Merges(t: Run, k: nat)
    requires Valid(t) && k < |t|
  {
    t[k].Deliver? && t[k].carriesClock && t[t[k].source].kind != Rename
  }

  /** The clock of peer `p` after the first `k` events; each engine starts from an empty clock. */
  function ClockAt(t: Run, k: nat, p: PeerID): Clock
    requires Valid(t) && k <= |t|
  {
    if k == 0 then map[]
    else
      var e := t[k - 1];
      var before := ClockAt(t, k - 1, p);
      if e.peer != p then before
      else if e.Issue? then Tick(before, p)
      else if Merges(t, k - 1) then JoinClocks(before, ClockAt(t, e.source + 1, t[e.source].peer))
      else before
  }

  /** The clock that the operation issued at event `i` carries. */
  function Stamp(t: Run, i: nat): Clock
    requires Valid(t) && i < |t| && t[i].Issue?
  {
    ClockAt(t, i + 1, t[i].peer)
  }

  /** An engine that lives through the events of a run at one peer holds the clock of the run. The other
      fields of the operation issued at event `k` are those of `template(k)`. */
  method Replay(t: Run, p: PeerID, template: nat -> SyncOperation) returns (engine: Engine)
    requires Valid(t)
    ensures engine.peerID == p && engine.vectorClock.entries == ClockAt(t, |t|, p)
  {
    engine := new Engine(p);
    for k := 0 to |t|
      invariant engine.peerID == p && engine.vectorClock.entries == ClockAt(t, k, p)
      invariant fresh(engine) && fresh(engine.vectorClock)
    {
      var e := t[k];
      if e.peer == p {
        if e.Issue? {
          var op := engine.QueueOperation(template(k).(kind := e.kind, peerID := p), true);
          assert op.clock == Some(Stamp(t, k));
        } else {
          var origin := t[e.source];
          var op := template(e.source).(kind := origin.kind, peerID := origin.peer);
          engine.HandleIncoming(op.(clock := if e.carriesClock then Some(Stamp(t, e.source)) else None));
        }
      }
    }
  }

  // ---- causality, from the events alone ----

  /** Two events of one peer, or a message and its merging delivery. */
  ghost predicate Edge(t: Run, a: nat, b: nat)
    requires Valid(t)
  {
    a < b < |t| && (t[a].peer == t[b].peer || (Merges(t, b) && t[b].source == a))
  }

  /** The transitive closure of `Edge`. */
  ghost predicate Before(t: Run, a: nat, b: nat)
    requires Valid(t)
    decreases b
  {
    exists c: nat :: c < b && Edge(t, c, b) && (a == c || Before(t, a, c))
  }

  /** Event `i` is one of the first `k` events at `p`, or is before one of them. */
  ghost predicate Known(t: Run, k: nat, p: PeerID, i: nat)
    requires Valid(t) && k <= |t|
  {
    exists e: nat :: e < k && t[e].peer == p && (e == i || Before(t, i, e))
  }

  lemma {:induction false} BeforeIsTransitive(t: Run, a: nat, b: nat, c: nat)
    requires Valid(t) && Before(t, a, b) && Before(t, b, c)
    ensures Before(t, a, c)
    decreases c
  {
    var d: nat :| d < c && Edge(t, d, c) && (b == d || Before(t, b, d));
    if b != d {
      BeforeIsTransitive(t, a, b, d);
    }
  }

  lemma {:induction false} BeforeIsEarlier(t: Run, a: nat, b: nat)
    requires Valid(t) && Before(t, a, b)
    ensures a < b < |t|
    decreases b
  {
    var d: nat :| d < b && Edge(t, d, b) && (a == d || Before(t, a, d));
    if a != d {
      BeforeIsEarlier(t, a, d);
    }
  }

  /** What a peer knows right after an event of its own is that event and what is before it. */
  lemma KnownAfterOwnEvent(t: Run, s: nat, i: nat)
    requires Valid(t) && s < |t|
    ensures Known(t, s + 1, t[s].peer, i) <==> i == s || Before(t, i, s)
  {
    if Known(t, s + 1, t[s].peer, i) {
      var e: nat :| e < s + 1 && t[e].peer == t[s].peer && (e == i || Before(t, i, e));
      assert e != s ==> Edge(t, e, s);
    }
  }

  /** The events before event `b`: what its peer knew, and what a merged message brings. */
  lemma BeforeUnfolds(t: Run, b: nat, i: nat)
    requires Valid(t) && b < |t|
    ensures Before(t, i, b) <==>
            || Known(t, b, t[b].peer, i)
            || (Merges(t, b) && Known(t, t[b].source + 1, t[t[b].source].peer, i))
  {
    if Merges(t, b) {
      var s := t[b].source;
      KnownAfterOwnEvent(t, s, i);
      assert Edge(t, s, b);
    }
    if Known(t, b, t[b].peer, i) {
      var e: nat :| e < b && t[e].peer == t[b].peer && (e == i || Before(t, i, e));
      assert Edge(t, e, b);
    }
  }

  // ---- counting ----

  /** How many operations `q` issues among the first `k` events. */
  ghost function Issued(t: Run, k: nat, q: PeerID): nat
    requires k <= |t|
  {
    if k == 0 then 0
    else Issued(t, k - 1, q) + if t[k - 1].Issue? && t[k - 1].peer == q then 1 else 0
  }

  /** The operation issued at `i` is its peer's `Ordinal(t, i)`-th. */
  ghost function Ordinal(t: Run, i: nat): nat
    requires i < |t|
  {
    Issued(t, i + 1, t[i].peer)
  }

  lemma {:induction false} IssuedGrows(t: Run, j: nat, k: nat, q: PeerID)
    requires j <= k <= |t|
    ensures Issued(t, j, q) <= Issued(t, k, q) <= k
    decreases k
  {
    if j < k {
      IssuedGrows(t, j, k - 1, q);
    } else if k > 0 {
      IssuedGrows(t, k - 1, k - 1, q);
    }
  }

  /** Every number up to the count is the ordinal of some issued operation. */
  lemma {:induction false} OrdinalExists(t: Run, k: nat, q: PeerID, n: nat) returns (i: nat)
    requires k <= |t| && 1 <= n <= Issued(t, k, q)
    ensures i < k && t[i].Issue? && t[i].peer == q && Ordinal(t, i) == n
  {
    if t[k - 1].Issue? && t[k - 1].peer == q && n == Issued(t, k, q) {
      i := k - 1;
    } else {
      i := OrdinalExists(t, k - 1, q, n);
    }
  }

  // ---- the invariant ----

  /** Every entry of a peer's clock is a count of issued operations, and names exactly the first
      that many operations of that peer: those known to the clock's owner. */
  ghost predicate NamesPrefix(t: Run, k: nat, p: PeerID)
    requires Valid(t) && k <= |t|
  {
    && (forall q :: 0 <= Get(ClockAt(t, k, p), q) <= Issued(t, k, q))
    && (forall i: nat :: i < |t| && t[i].Issue? ==>
          (Known(t, k, p, i) <==> Ordinal(t, i) <= Get(ClockAt(t, k, p), t[i].peer)))
  }

  lemma {:induction false} ClocksNamePrefixes(t: Run, k: nat, p: PeerID)
    requires Valid(t) && k <= |t|
    ensures NamesPrefix(t, k, p)
    decreases k
  {
    if k == 0 {
      forall i: nat | i < |t| && t[i].Issue?
        ensures Ordinal(t, i) > 0
      {
      }
    } else {
      ClocksNamePrefixes(t, k - 1, p);
      if t[k - 1].peer != p {
        OtherEventKeepsPrefixes(t, k, p);
      } else if t[k - 1].Issue? {
        IssueKeepsPrefixes(t, k, p);
      } else {
        var s := t[k - 1].source;
        ClocksNamePrefixes(t, s + 1, t[s].peer);
        DeliveryKeepsPrefixes(t, k, p);
      }
    }
  }

  lemma KnownUnfolds(t: Run, k: nat, p: PeerID, i: nat)
    requires Valid(t) && 0 < k <= |t|
    ensures t[k - 1].peer != p ==> (Known(t, k, p, i) <==> Known(t, k - 1, p, i))
    ensures t[k - 1].peer == p ==> (Known(t, k, p, i) <==> i == k - 1 || Before(t, i, k - 1))
  {
    if t[k - 1].peer == p {
      KnownAfterOwnEvent(t, k - 1, i);
    }
  }

  lemma OtherEventKeepsPrefixes(t: Run, k: nat, p: PeerID)
    requires Valid(t) && 0 < k <= |t| && t[k - 1].peer != p && NamesPrefix(t, k - 1, p)
    ensures NamesPrefix(t, k, p)
  {
    forall q
      ensures 0 <= Get(ClockAt(t, k, p), q) <= Issued(t, k, q)
    {
      IssuedGrows(t, k - 1, k, q);
    }
    forall i: nat | i < |t| && t[i].Issue?
      ensures Known(t, k, p, i) <==> Ordinal(t, i) <= Get(ClockAt(t, k, p), t[i].peer)
    {
      KnownUnfolds(t, k, p, i);
    }
  }

  /** A peer's own entry counts all of its operations. */
  lemma OwnEntryIsExact(t: Run, k: nat, p: PeerID)
    requires Valid(t) && k <= |t| && NamesPrefix(t, k, p)
    ensures Get(ClockAt(t, k, p), p) == Issued(t, k, p) <= k
  {
    IssuedGrows(t, k, k, p);
    if Issued(t, k, p) > 0 {
      var i := OrdinalExists(t, k, p, Issued(t, k, p));
      assert Known(t, k, p, i);
    }
  }

  lemma IssueKeepsPrefixes(t: Run, k: nat, p: PeerID)
    requires Valid(t) && 0 < k <= |t| && t[k - 1].peer == p && t[k - 1].Issue?
    requires NamesPrefix(t, k - 1, p)
    ensures NamesPrefix(t, k, p)
  {
    hide Before, Known;
    OwnEntryIsExact(t, k - 1, p);
    var was, now := ClockAt(t, k - 1, p), ClockAt(t, k, p);
    assert now == Tick(was, p);
    assert Get(now, p) == Issued(t, k, p);
    assert forall q :: q != p ==> Get(now, q) == Get(was, q);
    forall i: nat | i < |t| && t[i].Issue?
      ensures Known(t, k, p, i) <==> Ordinal(t, i) <= Get(now, t[i].peer)
    {
      KnownUnfolds(t, k, p, i);
      BeforeUnfolds(t, k - 1, i);
      if t[i].peer == p && i < k - 1 {
        IssuedGrows(t, i + 1, k - 1, p);
      } else if t[i].peer == p && i > k - 1 {
        IssuedGrows(t, k, i, p);
      }
    }
  }

  lemma DeliveryKeepsPrefixes(t: Run, k: nat, p: PeerID)
    requires Valid(t) && 0 < k <= |t| && t[k - 1].peer == p && t[k - 1].Deliver?
    requires NamesPrefix(t, k - 1, p)
    requires NamesPrefix(t, t[k - 1].source + 1, t[t[k - 1].source].peer)
    ensures NamesPrefix(t, k, p)
  {
    hide Before, Known;
    var s := t[k - 1].source;
    var was, carried := ClockAt(t, k - 1, p), Stamp(t, s);
    var now := ClockAt(t, k, p);
    forall q
      ensures 0 <= Get(now, q) <= Issued(t, k, q)
      ensures Get(now, q) == if Merges(t, k - 1) && Get(was, q) < Get(carried, q)
                             then Get(carried, q) else Get(was, q)
    {
      IssuedGrows(t, k - 1, k, q);
      IssuedGrows(t, s + 1, k, q);
      assert 0 <= Get(carried, q) && 0 <= Get(was, q);
    }
    forall i: nat | i < |t| && t[i].Issue?
      ensures Known(t, k, p, i) <==> Ordinal(t, i) <= Get(now, t[i].peer)
    {
      KnownUnfolds(t, k, p, i);
      BeforeUnfolds(t, k - 1, i);
    }
  }

  lemma EntryIsCount(t: Run, k: nat, p: PeerID, q: PeerID)
    requires Valid(t) && k <= |t|
    ensures 0 <= Get(ClockAt(t, k, p), q) <= Issued(t, k, q)
  {
    ClocksNamePrefixes(t, k, p);
  }

  lemma OwnEntryCountsAll(t: Run, k: nat, p: PeerID)
    requires Valid(t) && k <= |t|
    ensures Get(ClockAt(t, k, p), p) == Issued(t, k, p)
  {
    ClocksNamePrefixes(t, k, p);
    OwnEntryIsExact(t, k, p);
  }

  lemma KnownIsCovered(t: Run, k: nat, p: PeerID, i: nat)
    requires Valid(t) && k <= |t| && i < |t| && t[i].Issue?
    ensures Known(t, k, p, i) <==> Ordinal(t, i) <= Get(ClockAt(t, k, p), t[i].peer)
  {
    ClocksNamePrefixes(t, k, p);
  }

  // ---- the theorem ----

  /** The clock of an operation names exactly its causal past: the entry for a peer says how many
      of that peer's operations, from the first one on, are in the past or are the operation itself. */
  lemma StampNamesPast(t: Run, j: nat, i: nat)
    requires Valid(t) && i < |t| && j < |t| && t[i].Issue? && t[j].Issue?
    ensures i == j || Before(t, i, j) <==> Ordinal(t, i) <= Get(Stamp(t, j), t[i].peer)
  {
    KnownIsCovered(t, j + 1, t[j].peer, i);
    KnownAfterOwnEvent(t, j, i);
  }

  lemma StampCountsIssued(t: Run, i: nat, q: PeerID)
    requires Valid(t) && i < |t| && t[i].Issue?
    ensures 0 <= Get(Stamp(t, i), q) <= Issued(t, i + 1, q)
    ensures Get(Stamp(t, i), t[i].peer) == Ordinal(t, i)
  {
    EntryIsCount(t, i + 1, t[i].peer, q);
    OwnEntryCountsAll(t, i + 1, t[i].peer);
  }

  lemma StampEntryGrows(t: Run, i: nat, j: nat, q: PeerID)
    requires Valid(t) && i < |t| && j < |t| && t[i].Issue? && t[j].Issue? && Before(t, i, j)
    ensures Get(Stamp(t, i), q) <= Get(Stamp(t, j), q)
  {
    StampCountsIssued(t, i, q);
    StampCountsIssued(t, j, q);
    if Get(Stamp(t, i), q) > 0 {
      var m := OrdinalExists(t, i + 1, q, Get(Stamp(t, i), q));
      StampNamesPast(t, i, m);
      StampNamesPast(t, j, m);
      if m != i {
        BeforeIsTransitive(t, m, i, j);
      }
    }
  }

  /** Causally earlier operations carry strictly smaller clocks. */
  lemma StampsGrow(t: Run, i: nat, j: nat)
    requires Valid(t) && i < |t| && j < |t| && t[i].Issue? && t[j].Issue? && Before(t, i, j)
    ensures Order(Stamp(t, i), Stamp(t, j)) == -1
  {
    forall q
      ensures Get(Stamp(t, i), q) <= Get(Stamp(t, j), q)
    {
      StampEntryGrows(t, i, j, q);
    }
    BeforeIsEarlier(t, i, j);
    if Before(t, j, i) {
      BeforeIsEarlier(t, j, i);
    }
    StampNamesPast(t, i, j);
    StampCountsIssued(t, j, t[j].peer);
    assert Get(Stamp(t, i), t[j].peer) < Get(Stamp(t, j), t[j].peer);
  }

  /** In every run, comparing the clocks of two distinct operations decides causality exactly. */
  lemma ClocksCaptureCausality(t: Run, i: nat, j: nat)
    requires Valid(t) && i < |t| && j < |t| && t[i].Issue? && t[j].Issue? && i != j
    ensures Before(t, i, j) <==> Order(Stamp(t, i), Stamp(t, j)) == -1
    ensures Before(t, j, i) <==> Order(Stamp(t, i), Stamp(t, j)) == 1
    ensures !Before(t, i, j) && !Before(t, j, i) <==> Order(Stamp(t, i), Stamp(t, j)) == 0
  {
    SmallerStampIsBefore(t, i, j);
    SmallerStampIsBefore(t, j, i);
    if Before(t, i, j) {
      StampsGrow(t, i, j);
    }
    if Before(t, j, i) {
      StampsGrow(t, j, i);
    }
  }

  lemma SmallerStampIsBefore(t: Run, i: nat, j: nat)
    requires Valid(t) && i < |t| && j < |t| && t[i].Issue? && t[j].Issue? && i != j
    ensures Order(Stamp(t, i), Stamp(t, j)) == -1 ==> Before(t, i, j)
  {
    StampNamesPast(t, j, i);
    StampCountsIssued(t, i, t[i].peer);
  }

  // ---- deliveries that merge nothing ----

  /** Two events of one peer, or a message and any delivery of it. */
  ghost predicate Told(t: Run, a: nat, b: nat) {
    a < b < |t| && (t[a].peer == t[b].peer || (t[b].Deliver? && t[b].source == a))
  }

  /** Lamport's relation with all deliveries, whether or not they merge a clock. */
  ghost predicate HappenedBefore(t: Run, a: nat, b: nat)
    decreases b
  {
    exists c: nat :: c < b && Told(t, c, b) && (a == c || HappenedBefore(t, a, c))
  }

  /** An operation delivered without its clock being merged is all the same before whatever the peer that
      got it issues afterwards. */
  ghost predicate NothingIsForgotten(t: Run)
    requires Valid(t)
  {
    forall k: nat, j: nat ::
      k < j < |t| && t[k].Deliver? && !MergesKind(t, k) && t[j].Issue? && t[j].peer == t[k].peer ==>
        Before(t, t[k].source, j)
  }

  /** A delivery merges the clock of a create, an update or a deletion that carries one. */
  ghost predicate MergesKind(t: Run, k: nat)
    requires Valid(t) && k < |t|
  {
    t[k].Deliver? && t[k].carriesClock && t[t[k].source].kind in {Create, Update, Delete}
  }

  /** The clocks of issued operations tell exactly what happened before what. */
  ghost predicate ClocksTellAll(t: Run)
    requires Valid(t)
  {
    forall i: nat, j: nat :: i < |t| && j < |t| && t[i].Issue? && t[j].Issue? && i != j ==>
      (HappenedBefore(t, i, j) <==> Order(Stamp(t, i), Stamp(t, j)) == -1)
  }

  lemma {:induction false} BeforeHappened(t: Run, a: nat, b: nat)
    requires Valid(t) && Before(t, a, b)
    ensures HappenedBefore(t, a, b)
    decreases b
  {
    var c: nat :| c < b && Edge(t, c, b) && (a == c || Before(t, a, c));
    assert Told(t, c, b);
    if a != c {
      BeforeHappened(t, a, c);
    }
  }

  lemma {:induction false} HappenedIsBefore(t: Run, i: nat, j: nat)
    requires Valid(t) && NothingIsForgotten(t) && j < |t| && t[j].Issue? && HappenedBefore(t, i, j)
    ensures Before(t, i, j)
    decreases j, 1, 0
  {
    var c: nat :| c < j && Told(t, c, j) && (i == c || HappenedBefore(t, i, c));
    if i == c {
      assert Edge(t, i, j);
    } else {
      HappenedAtPeer(t, i, c, j);
    }
  }

  /** By way of event `c` at the peer that issues the operation at `j`. */
  lemma {:induction false} HappenedAtPeer(t: Run, i: nat, c: nat, j: nat)
    requires Valid(t) && NothingIsForgotten(t) && c < j < |t| && t[j].Issue? && t[c].peer == t[j].peer
    requires HappenedBefore(t, i, c)
    ensures Before(t, i, j)
    decreases j, 0, c
  {
    assert Edge(t, c, j);
    if t[c].Issue? {
      HappenedIsBefore(t, i, c);
    } else {
      var d: nat :| d < c && Told(t, d, c) && (i == d || HappenedBefore(t, i, d));
      if t[d].peer == t[c].peer {
        assert Edge(t, d, j);
        if i != d {
          HappenedAtPeer(t, i, d, j);
        }
      } else {
        DeliveredIsBefore(t, c, j);
        if i != d {
          HappenedIsBefore(t, i, d);
          BeforeIsTransitive(t, i, d, j);
        }
      }
    }
  }

  lemma DeliveredIsBefore(t: Run, c: nat, j: nat)
    requires Valid(t) && NothingIsForgotten(t) && c < j < |t| && t[j].Issue? && t[c].peer == t[j].peer && t[c].Deliver?
    ensures Before(t, t[c].source, j)
  {
    if MergesKind(t, c) {
      assert Edge(t, t[c].source, c) && Edge(t, c, j);
      assert Before(t, t[c].source, c);
    }
  }

  /** Renamings, and operations that come without a clock, are delivered without merging a clock. The clocks
      tell all that happened before an operation exactly if nothing so delivered is forgotten. */
  lemma ClocksTellAllExactly(t: Run)
    requires Valid(t)
    ensures ClocksTellAll(t) <==> NothingIsForgotten(t)
  {
    if NothingIsForgotten(t) {
      forall i: nat, j: nat | i < |t| && j < |t| && t[i].Issue? && t[j].Issue? && i != j
        ensures HappenedBefore(t, i, j) <==> Order(Stamp(t, i), Stamp(t, j)) == -1
      {
        ClocksCaptureCausality(t, i, j);
        if HappenedBefore(t, i, j) {
          HappenedIsBefore(t, i, j);
        }
        if Before(t, i, j) {
          BeforeHappened(t, i, j);
        }
      }
    }
    if ClocksTellAll(t) {
      forall k: nat, j: nat | k < j < |t| && t[k].Deliver? && !MergesKind(t, k) && t[j].Issue? && t[j].peer == t[k].peer
        ensures Before(t, t[k].source, j)
      {
        var s := t[k].source;
        assert Told(t, s, k) && Told(t, k, j);
        assert HappenedBefore(t, s, k);
        assert HappenedBefore(t, s, j);
        ClocksCaptureCausality(t, s, j);
      }
    }
  }

  /** For one: `q` learns of a renaming and then issues an update, whose clock does not show it. */
  lemma RenameIsForgotten(t: Run, p: PeerID, q: PeerID)
    requires p != q && t == [Issue(p, Rename), Deliver(q, 0, true), Issue(q, Update)]
    ensures Valid(t) && HappenedBefore(t, 0, 2) && Order(Stamp(t, 0), Stamp(t, 2)) == 0
    ensures !ClocksTellAll(t)
  {
    assert Told(t, 0, 1) && Told(t, 1, 2);
    assert HappenedBefore(t, 0, 1);
    assert !Edge(t, 0, 1) && !Edge(t, 0, 2);
    assert !Before(t, 0, 1);
    assert !Before(t, 0, 2);
    ClocksTellAllExactly(t);
    assert !Before(t, 2, 0);
    ClocksCaptureCausality(t, 0, 2);
  }
}
