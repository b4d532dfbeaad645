/** The operation log: appending, acknowledging, compacting, and what a restart replays. */
module OperationLog {
  datatype LogEntry = LogEntry(sequence: int, operationID: string, peerID: string, acknowledged: bool, payload: string)

  /** The table, in ascending sequence order. Sequence numbers are never given out twice. */
  datatype Log = Log(rows: seq<LogEntry>, nextSequence: int)

  ghost predicate Ordered(rows: seq<LogEntry>) {
    forall i, j :: 0 <= i < j < |rows| ==> rows[i].sequence < rows[j].sequence
  }

  ghost predicate Wellformed(log: Log) {
    Ordered(log.rows) && forall i :: 0 <= i < |log.rows| ==> log.rows[i].sequence < log.nextSequence
  }

  function Unacknowledged(rows: seq<LogEntry>): seq<LogEntry> {
    if rows == [] then []
    else if rows[0].acknowledged then Unacknowledged(rows[1..])
    else [rows[0]] + Unacknowledged(rows[1..])
  }

  function OwnedBy(rows: seq<LogEntry>, peerID: string): seq<LogEntry> {
    if rows == [] then []
    else if rows[0].peerID == peerID then [rows[0]] + OwnedBy(rows[1..], peerID)
    else OwnedBy(rows[1..], peerID)
  }

  /** The positions of the rows whose broadcast fails. */
  ghost function FailingAt(rows: seq<LogEntry>, fails: LogEntry -> bool): set<int> {
    set i | 0 <= i < |rows| && fails(rows[i])
  }

  lemma FailingAtMore(rows: seq<LogEntry>, row: LogEntry, fails: LogEntry -> bool)
    ensures FailingAt(rows + [row], fails) == FailingAt(rows, fails) + if fails(row) then {|rows|} else {}
  {
  }

  function Marked(rows: seq<LogEntry>, operationID: string): seq<LogEntry> {
    seq(|rows|, i requires 0 <= i < |rows| =>
      if rows[i].operationID == operationID then rows[i].(acknowledged := true) else rows[i])
  }

  /** Without the oldest `k` acknowledged rows. */
  function WithoutOldest(rows: seq<LogEntry>, k: nat): seq<LogEntry>
    decreases |rows|
  {
    if rows == [] || k == 0 then rows
    else if rows[0].acknowledged then WithoutOldest(rows[1..], k - 1)
    else [rows[0]] + WithoutOldest(rows[1..], k)
  }

  predicate Logged(rows: seq<LogEntry>, operationID: string) {
    exists i :: 0 <= i < |rows| && rows[i].operationID == operationID
  }

  /** Operation IDs are unique in the table: inserting a known one fails. */
  function Appended(log: Log, e: LogEntry): Log {
    if Logged(log.rows, e.operationID) then log
    else Log(log.rows + [e.(sequence := log.nextSequence)], log.nextSequence + 1)
  }

  function Compacted(log: Log, maxEntries: int): Log {
    if |log.rows| <= maxEntries then log
    else log.(rows := WithoutOldest(log.rows, |log.rows| - maxEntries))
  }

  class DB {
    var rows: seq<LogEntry>
    var nextSequence: int

    /** The table is in ascending sequence order, below the next number. */
    ghost predicate Valid()
      reads this
    {
      Wellformed(Value())
    }

    function Value(): Log
      reads this
    {
      Log(rows, nextSequence)
    }

    constructor ()
      ensures Valid() && Value() == Log([], 1)
    {
      rows, nextSequence := [], 1;
    }

    method AppendOperation(e: LogEntry) returns (ok: bool)
      requires Valid()
      modifies this
      ensures Valid() && Value() == Appended(old(Value()), e)
      ensures ok <==> !Logged(old(rows), e.operationID)
    {
      StepKeepsWellformed(Value(), Append(e));
      for i := 0 to |rows|
        invariant forall k :: 0 <= k < i ==> rows[k].operationID != e.operationID
        invariant Value() == old(Value())
      {
        if rows[i].operationID == e.operationID {
          return false;
        }
      }
      rows := rows + [e.(sequence := nextSequence)];
      nextSequence := nextSequence + 1;
      return true;
    }

    method MarkOperationAcknowledged(operationID: string)
      requires Valid()
      modifies this
      ensures Valid() && Value() == old(Value()).(rows := Marked(old(rows), operationID))
    {
      StepKeepsWellformed(Value(), Acknowledge(operationID));
      var updated: seq<LogEntry> := [];
      for i := 0 to |rows|
        invariant updated == Marked(rows, operationID)[..i]
        invariant Value() == old(Value())
      {
        updated := updated + [if rows[i].operationID == operationID then rows[i].(acknowledged := true) else rows[i]];
      }
      rows := updated;
    }

    method GetUnacknowledgedOperations() returns (entries: seq<LogEntry>)
      ensures entries == Unacknowledged(rows)
    {
      entries := [];
      for i := 0 to |rows|
        invariant Unacknowledged(rows) == entries + Unacknowledged(rows[i..])
      {
        assert rows[i..][1..] == rows[i + 1..];
        if !rows[i].acknowledged {
          entries := entries + [rows[i]];
        }
      }
    }

    /** Selects the oldest acknowledged sequence numbers up to the surplus, then deletes their rows. */
    method CompactLog(maxEntries: int)
      requires Valid()
      modifies this
      ensures Valid() && Value() == Compacted(old(Value()), maxEntries)
    {
      StepKeepsWellformed(Value(), Compact(maxEntries));
      var count := |rows|;
      if count <= maxEntries {
        return;
      }
      var toDelete := count - maxEntries;
      var kept := DeleteOldest(rows, toDelete);
      rows := kept;
    }

    /** Rebroadcasts the peer's own unacknowledged operations, whether or not a broadcast fails, and
        counts every entry as a success or a failure. */
    method ReplayUnacknowledgedOperations(peerID: string, hasMessenger: bool, broadcastFails: LogEntry -> bool)
      returns (broadcast: seq<LogEntry>, successCount: nat, failureCount: nat)
      ensures broadcast == if hasMessenger then OwnedBy(Unacknowledged(rows), peerID) else []
      ensures successCount + failureCount == |Unacknowledged(rows)|
      ensures failureCount == if hasMessenger then |FailingAt(broadcast, broadcastFails)|
                              else |OwnedBy(Unacknowledged(rows), peerID)|
    {
      var operations := GetUnacknowledgedOperations();
      broadcast, successCount, failureCount := [], 0, 0;
      for i := 0 to |operations|
        invariant hasMessenger ==> broadcast == OwnedBy(operations[..i], peerID)
        invariant !hasMessenger ==> broadcast == [] && failureCount == |OwnedBy(operations[..i], peerID)|
        invariant hasMessenger ==> failureCount == |FailingAt(broadcast, broadcastFails)|
        invariant successCount + failureCount == i
      {
        var entry := operations[i];
        NextOwned(operations, i, peerID);
        if entry.peerID == peerID {
          if hasMessenger {
            FailingAtMore(broadcast, entry, broadcastFails);
            broadcast := broadcast + [entry];
            if broadcastFails(entry) {
              failureCount := failureCount + 1;
            } else {
              successCount := successCount + 1;
            }
          } else {
            failureCount := failureCount + 1;
          }
        } else {
          successCount := successCount + 1;
        }
      }
      assert operations[..|operations|] == operations;
    }
  }

  lemma {:induction false} NextOwned(rows: seq<LogEntry>, i: nat, peerID: string)
    requires i < |rows|
    ensures OwnedBy(rows[..i + 1], peerID) ==
            OwnedBy(rows[..i], peerID) + if rows[i].peerID == peerID then [rows[i]] else []
  {
    if i == 0 {
      assert rows[..1][1..] == [];
    } else {
      NextOwned(rows[1..], i - 1, peerID);
      assert rows[..i + 1][1..] == rows[1..][..i] && rows[..i][1..] == rows[1..][..i - 1];
    }
  }

  lemma {:induction false} UnacknowledgedAppends(rows: seq<LogEntry>, more: seq<LogEntry>)
    ensures Unacknowledged(rows + more) == Unacknowledged(rows) + Unacknowledged(more)
  {
    if rows == [] {
      assert rows + more == more;
    } else {
      var rest, all := rows[1..], rows + more;
      UnacknowledgedAppends(rest, more);
      assert all[0] == rows[0] && all[1..] == rest + more;
      Regroup([rows[0]], Unacknowledged(rest), Unacknowledged(more));
    }
  }

  lemma Regroup(a: seq<LogEntry>, b: seq<LogEntry>, c: seq<LogEntry>)
    ensures a + (b + c) == a + b + c
  {
  }

  lemma NextRow(rows: seq<LogEntry>, i: nat)
    requires i < |rows|
    ensures rows[i..][0] == rows[i] && rows[i..][1..] == rows[i + 1..]
    ensures Unacknowledged(rows[..i + 1]) ==
            Unacknowledged(rows[..i]) + if rows[i].acknowledged then [] else [rows[i]]
  {
    assert rows[..i + 1] == rows[..i] + [rows[i]];
    UnacknowledgedAppends(rows[..i], [rows[i]]);
  }

  lemma PassRow(rows: seq<LogEntry>, n: nat, k: nat)
    requires n < |rows| && k > 0
    ensures Unacknowledged(rows[..n]) + WithoutOldest(rows[n..], k) ==
            Unacknowledged(rows[..n + 1]) + WithoutOldest(rows[n + 1..], if rows[n].acknowledged then k - 1 else k)
  {
    NextRow(rows, n);
  }

  /** The sequence numbers of the oldest acknowledged rows, all found among the first `i`. */
  method SelectOldest(rows: seq<LogEntry>, limit: nat) returns (doomed: set<int>, ghost i: nat)
    requires Ordered(rows)
    ensures i <= |rows| && WithoutOldest(rows, limit) == Unacknowledged(rows[..i]) + rows[i..]
    ensures forall k :: 0 <= k < |rows| ==> (rows[k].sequence in doomed <==> k < i && rows[k].acknowledged)
  {
    doomed := {};
    var selected, n := 0, 0;
    while n < |rows| && selected < limit
      invariant n <= |rows| && selected <= limit
      invariant forall k :: 0 <= k < |rows| ==> (rows[k].sequence in doomed <==> k < n && rows[k].acknowledged)
      invariant WithoutOldest(rows, limit) == Unacknowledged(rows[..n]) + WithoutOldest(rows[n..], limit - selected)
    {
      PassRow(rows, n, limit - selected);
      if rows[n].acknowledged {
        doomed := doomed + {rows[n].sequence};
        selected := selected + 1;
      }
      n := n + 1;
    }
    i := n;
  }

  /** What is left of the first `j` rows when the acknowledged ones among the first `i` go. */
  ghost function Left(rows: seq<LogEntry>, i: nat, j: nat): seq<LogEntry>
    requires i <= |rows| && j <= |rows|
  {
    if j <= i then Unacknowledged(rows[..j]) else Unacknowledged(rows[..i]) + rows[i..j]
  }

  lemma LeftNext(rows: seq<LogEntry>, i: nat, j: nat)
    requires i <= |rows| && j < |rows|
    ensures Left(rows, i, j + 1) == Left(rows, i, j) + if j < i && rows[j].acknowledged then [] else [rows[j]]
  {
    NextRow(rows, j);
    if j >= i {
      assert rows[i..j + 1] == rows[i..j] + [rows[j]];
      assert rows[i..i] == [];
    }
  }

  method DeleteOldest(rows: seq<LogEntry>, limit: nat) returns (kept: seq<LogEntry>)
    requires Ordered(rows)
    ensures kept == WithoutOldest(rows, limit)
  {
    hide Unacknowledged, WithoutOldest;
    var doomed, i := SelectOldest(rows, limit);
    kept := [];
    assert Left(rows, i, 0) == [] by {
      NoneLeft(rows, i);
    }
    for j := 0 to |rows|
      invariant kept == Left(rows, i, j)
    {
      LeftNext(rows, i, j);
      if rows[j].sequence !in doomed {
        kept := kept + [rows[j]];
      }
    }
    assert rows[..|rows|] == rows && rows[|rows|..] == [];
  }

  lemma NoneLeft(rows: seq<LogEntry>, i: nat)
    requires i <= |rows|
    ensures Left(rows, i, 0) == []
  {
  }

  // ---- compaction ----

  lemma {:induction false} CompactionKeepsUnacknowledged(rows: seq<LogEntry>, k: nat)
    ensures Unacknowledged(WithoutOldest(rows, k)) == Unacknowledged(rows)
    ensures |WithoutOldest(rows, k)| ==
            if |Unacknowledged(rows)| + k <= |rows| then |rows| - k else |Unacknowledged(rows)|
    ensures |Unacknowledged(rows)| <= |rows|
    decreases |rows|
  {
    if rows != [] {
      CompactionKeepsUnacknowledged(rows[1..], k);
      if k > 0 {
        CompactionKeepsUnacknowledged(rows[1..], k - 1);
        assert ([rows[0]] + WithoutOldest(rows[1..], k))[1..] == WithoutOldest(rows[1..], k);
      }
    }
  }

  /** Compaction drops acknowledged rows only, and of these the oldest: every acknowledged survivor is
      newer than every row that went. */
  lemma {:induction false} SurvivorsAreNewer(rows: seq<LogEntry>, k: nat, gone: LogEntry)
    requires Ordered(rows) && gone in rows && gone !in WithoutOldest(rows, k)
    ensures gone.acknowledged
    ensures forall e :: e in WithoutOldest(rows, k) ==> e in rows
    ensures forall e :: e in WithoutOldest(rows, k) && e.acknowledged ==> gone.sequence < e.sequence
    decreases |rows|
  {
    var rest := rows[1..];
    assert rows == [rows[0]] + rest;
    if rows[0].acknowledged {
      SurvivorsAreRows(rest, k - 1);
      if gone == rows[0] {
        forall e | e in rest
          ensures gone.sequence < e.sequence
        {
          var i :| 0 <= i < |rest| && rest[i] == e;
          assert rows[i + 1] == e;
        }
      } else {
        SurvivorsAreNewer(rest, k - 1, gone);
      }
    } else {
      assert gone != rows[0];
      SurvivorsAreNewer(rest, k, gone);
    }
  }

  lemma {:induction false} SurvivorsAreRows(rows: seq<LogEntry>, k: nat)
    ensures forall e :: e in WithoutOldest(rows, k) ==> e in rows
    ensures Ordered(rows) ==> Ordered(WithoutOldest(rows, k))
    decreases |rows|
  {
    if rows != [] && k > 0 {
      SurvivorsAreRows(rows[1..], k);
      SurvivorsAreRows(rows[1..], k - 1);
      assert rows == [rows[0]] + rows[1..];
      if Ordered(rows) && !rows[0].acknowledged {
        var rest := WithoutOldest(rows[1..], k);
        forall j | 0 <= j < |rest|
          ensures rows[0].sequence < rest[j].sequence
        {
          assert rest[j] in rows[1..];
          var i :| 0 <= i < |rows| - 1 && rows[1..][i] == rest[j];
          assert rows[i + 1] == rest[j];
        }
      }
    }
  }

  /** A log that is too long ends with as many entries as allowed, or with its unacknowledged ones if
      these are more. */
  lemma CompactedLength(log: Log, maxEntries: int)
    requires |log.rows| > maxEntries
    ensures var n := |Unacknowledged(log.rows)|;
            |Compacted(log, maxEntries).rows| == if n > maxEntries then n else maxEntries
  {
    CompactionKeepsUnacknowledged(log.rows, |log.rows| - maxEntries);
  }

  // ---- histories ----

  datatype Event = Append(entry: LogEntry) | Acknowledge(operationID: string) | Compact(maxEntries: int)

  function Step(log: Log, e: Event): Log {
    match e
    case Append(entry) => Appended(log, entry)
    case Acknowledge(id) => log.(rows := Marked(log.rows, id))
    case Compact(maxEntries) => Compacted(log, maxEntries)
  }

  function History(events: seq<Event>): Log {
    if events == [] then Log([], 1) else Step(History(events[..|events| - 1]), events[|events| - 1])
  }

  function WithoutCompactions(events: seq<Event>): seq<Event> {
    if events == [] then []
    else
      var init, e := WithoutCompactions(events[..|events| - 1]), events[|events| - 1];
      if e.Compact? then init else init + [e]
  }

  lemma OneStepMore(events: seq<Event>, e: Event)
    ensures History(events + [e]) == Step(History(events), e)
    ensures WithoutCompactions(events + [e]) == WithoutCompactions(events) + if e.Compact? then [] else [e]
  {
    assert (events + [e])[..|events|] == events;
  }

  /** No step gives a row a number out of order, so every reachable table is in ascending order. */
  lemma StepKeepsWellformed(log: Log, e: Event)
    requires Wellformed(log)
    ensures Wellformed(Step(log, e))
  {
    if e.Compact? && |log.rows| > e.maxEntries {
      SurvivorsStayBelow(log, |log.rows| - e.maxEntries);
    }
  }

  lemma {:induction false} HistoryIsWellformed(events: seq<Event>)
    ensures Wellformed(History(events))
  {
    if events != [] {
      HistoryIsWellformed(events[..|events| - 1]);
      StepKeepsWellformed(History(events[..|events| - 1]), events[|events| - 1]);
    }
  }

  lemma SurvivorsStayBelow(log: Log, k: nat)
    requires Wellformed(log)
    ensures Wellformed(log.(rows := WithoutOldest(log.rows, k)))
  {
    SurvivorsAreRows(log.rows, k);
    var rows := WithoutOldest(log.rows, k);
    forall i | 0 <= i < |rows|
      ensures rows[i].sequence < log.nextSequence
    {
      assert rows[i] in log.rows;
    }
  }

  // ---- compaction and replay ----

  /** The operation ID has been appended, whether or not its row is still there. */
  ghost predicate Issued(events: seq<Event>, id: string) {
    exists i :: 0 <= i < |events| && events[i].Append? && events[i].entry.operationID == id
  }

  /** An ID that is used again is one whose row is still in the table. */
  ghost predicate NoLostIDIsReused(events: seq<Event>) {
    events == [] ||
    (var init, e := events[..|events| - 1], events[|events| - 1];
     && NoLostIDIsReused(init)
     && (e.Append? && Issued(init, e.entry.operationID) ==> Logged(History(init).rows, e.entry.operationID)))
  }

  /** Operations are logged as not yet acknowledged. */
  ghost predicate LogsUnacknowledged(events: seq<Event>) {
    forall e :: e in events && e.Append? ==> !e.entry.acknowledged
  }

  /** What a restart would rebroadcast is the same with and without the compactions so far. */
  ghost predicate SameReplay(events: seq<Event>) {
    forall peerID ::
      OwnedBy(Unacknowledged(History(events).rows), peerID) ==
      OwnedBy(Unacknowledged(History(WithoutCompactions(events)).rows), peerID)
  }

  /** A restart may come at any time. */
  ghost predicate AlwaysSameReplay(events: seq<Event>) {
    SameReplay(events) && (events == [] || AlwaysSameReplay(events[..|events| - 1]))
  }

  /** Acknowledging acts on the unacknowledged rows alone. */
  function Without(rows: seq<LogEntry>, operationID: string): seq<LogEntry> {
    if rows == [] then []
    else if rows[0].operationID == operationID then Without(rows[1..], operationID)
    else [rows[0]] + Without(rows[1..], operationID)
  }

  lemma {:induction false} AcknowledgingRemoves(rows: seq<LogEntry>, id: string)
    ensures Unacknowledged(Marked(rows, id)) == Without(Unacknowledged(rows), id)
  {
    if rows != [] {
      AcknowledgingRemoves(rows[1..], id);
      assert Marked(rows, id)[1..] == Marked(rows[1..], id);
      if !rows[0].acknowledged {
        assert Unacknowledged(rows)[1..] == Unacknowledged(rows[1..]);
      }
    }
  }

  /** Which IDs a step leaves in the table; a compaction may only remove some. */
  lemma LoggedAfterStep(log: Log, e: Event, id: string)
    ensures var after := Logged(Step(log, e).rows, id);
            match e
            case Append(entry) => after <==> Logged(log.rows, id) || entry.operationID == id
            case Acknowledge(_) => after <==> Logged(log.rows, id)
            case Compact(_) => after ==> Logged(log.rows, id)
  {
    match e
    case Append(entry) =>
      var rows := log.rows + [entry.(sequence := log.nextSequence)];
      assert rows[|log.rows|].operationID == entry.operationID;
      if Logged(log.rows, id) {
        var i :| 0 <= i < |log.rows| && log.rows[i].operationID == id;
        assert rows[i].operationID == id;
      }
    case Acknowledge(ack) =>
      if Logged(log.rows, id) {
        var i :| 0 <= i < |log.rows| && log.rows[i].operationID == id;
        assert Marked(log.rows, ack)[i].operationID == id;
      }
    case Compact(maxEntries) =>
      var rows := Step(log, e).rows;
      if |log.rows| > maxEntries && Logged(rows, id) {
        SurvivorsAreRows(log.rows, |log.rows| - maxEntries);
        var i :| 0 <= i < |rows| && rows[i].operationID == id;
        assert rows[i] in log.rows;
      }
  }

  lemma IssuedUnfolds(init: seq<Event>, e: Event, id: string)
    ensures Issued(init + [e], id) <==> Issued(init, id) || (e.Append? && e.entry.operationID == id)
  {
    var events := init + [e];
    assert events[|init|] == e;
    if Issued(init, id) {
      var i :| 0 <= i < |init| && init[i].Append? && init[i].entry.operationID == id;
      assert events[i] == init[i];
    }
  }

  /** Without compactions the table holds every ID ever issued; with them it holds no other. */
  lemma {:induction false} LoggedIDs(events: seq<Event>, id: string)
    ensures Logged(History(WithoutCompactions(events)).rows, id) <==> Issued(events, id)
    ensures Logged(History(events).rows, id) ==> Issued(events, id)
  {
    if events != [] {
      var init, e := events[..|events| - 1], events[|events| - 1];
      assert events == init + [e];
      LoggedIDs(init, id);
      IssuedUnfolds(init, e, id);
      OneStepMore(init, e);
      OneStepMore(WithoutCompactions(init), e);
      LoggedAfterStep(History(init), e, id);
      LoggedAfterStep(History(WithoutCompactions(init)), e, id);
    }
  }

  /** The two logs of a history, with and without its compactions, agree on what is unacknowledged. */
  ghost predicate Agree(a: Log, b: Log) {
    Unacknowledged(a.rows) == Unacknowledged(b.rows) && a.nextSequence == b.nextSequence
  }

  lemma StepKeepsAgreement(a: Log, b: Log, e: Event)
    requires Agree(a, b)
    requires e.Append? ==> (Logged(a.rows, e.entry.operationID) <==> Logged(b.rows, e.entry.operationID))
    ensures Agree(Step(a, e), if e.Compact? then b else Step(b, e))
  {
    match e
    case Append(entry) =>
      UnacknowledgedAppends(a.rows, [entry.(sequence := a.nextSequence)]);
      UnacknowledgedAppends(b.rows, [entry.(sequence := b.nextSequence)]);
    case Acknowledge(id) =>
      AcknowledgingRemoves(a.rows, id);
      AcknowledgingRemoves(b.rows, id);
    case Compact(maxEntries) =>
      if |a.rows| > maxEntries {
        CompactionKeepsUnacknowledged(a.rows, |a.rows| - maxEntries);
      }
  }

  lemma {:induction false} LogsAgree(events: seq<Event>)
    requires NoLostIDIsReused(events)
    ensures Agree(History(events), History(WithoutCompactions(events)))
    ensures AlwaysSameReplay(events)
  {
    if events != [] {
      var init, e := events[..|events| - 1], events[|events| - 1];
      assert events == init + [e];
      LogsAgree(init);
      OneStepMore(init, e);
      OneStepMore(WithoutCompactions(init), e);
      if e.Append? {
        LoggedIDs(init, e.entry.operationID);
      }
      StepKeepsAgreement(History(init), History(WithoutCompactions(init)), e);
    }
  }

  lemma OwnedByAppends(rows: seq<LogEntry>, r: LogEntry)
    ensures OwnedBy(rows + [r], r.peerID) == OwnedBy(rows, r.peerID) + [r]
  {
    var all := rows + [r];
    NextOwned(all, |rows|, r.peerID);
    assert all[..|rows| + 1] == all && all[..|rows|] == rows;
  }

  /** Reusing an ID whose row has been compacted away logs, and rebroadcasts, an operation that the
      uncompacted table would have refused. */
  lemma ReuseChangesReplay(init: seq<Event>, entry: LogEntry)
    requires NoLostIDIsReused(init) && !entry.acknowledged
    requires Issued(init, entry.operationID) && !Logged(History(init).rows, entry.operationID)
    ensures !SameReplay(init + [Append(entry)])
  {
    var e := Append(entry);
    LogsAgree(init);
    LoggedIDs(init, entry.operationID);
    OneStepMore(init, e);
    OneStepMore(WithoutCompactions(init), e);
    var a := History(init);
    var row := entry.(sequence := a.nextSequence);
    UnacknowledgedAppends(a.rows, [row]);
    OwnedByAppends(Unacknowledged(a.rows), row);
    assert History(init + [e]).rows == a.rows + [row];
    assert History(WithoutCompactions(init + [e])) == History(WithoutCompactions(init));
    assert Unacknowledged([row]) == [row];
    assert OwnedBy(Unacknowledged(History(init + [e]).rows), entry.peerID)
        != OwnedBy(Unacknowledged(History(WithoutCompactions(init + [e])).rows), entry.peerID);
  }

  lemma {:induction false} SameReplayMeansNoReuse(events: seq<Event>)
    requires LogsUnacknowledged(events) && AlwaysSameReplay(events)
    ensures NoLostIDIsReused(events)
  {
    if events != [] {
      var init, e := events[..|events| - 1], events[|events| - 1];
      assert events == init + [e];
      SameReplayMeansNoReuse(init);
      if e.Append? && Issued(init, e.entry.operationID) && !Logged(History(init).rows, e.entry.operationID) {
        ReuseChangesReplay(init, e.entry);
      }
    }
  }

  /** Compacting the log, whenever and however often, never changes what a restart rebroadcasts, as
      long as no operation ID comes again after its row has been compacted away; and if one does, the
      rebroadcast changes. */
  lemma CompactionIsInvisibleToReplay(events: seq<Event>)
    ensures NoLostIDIsReused(events) ==> AlwaysSameReplay(events)
    ensures LogsUnacknowledged(events) && AlwaysSameReplay(events) ==> NoLostIDIsReused(events)
  {
    if NoLostIDIsReused(events) {
      LogsAgree(events);
    }
    if LogsUnacknowledged(events) && AlwaysSameReplay(events) {
      SameReplayMeansNoReuse(events);
    }
  }

  // ---- what is replayed ----

  /** The same operation in all that does not belong to the log itself. */
  ghost predicate SameOperation(row: LogEntry, entry: LogEntry) {
    row.operationID == entry.operationID && row.peerID == entry.peerID && row.payload == entry.payload
  }

  /** The row is that of an operation appended in the history. */
  ghost predicate IsAppended(events: seq<Event>, row: LogEntry) {
    exists i :: 0 <= i < |events| && events[i].Append? && SameOperation(row, events[i].entry)
  }

  lemma IsAppendedLater(init: seq<Event>, e: Event, row: LogEntry)
    requires IsAppended(init, row)
    ensures IsAppended(init + [e], row)
  {
    var i :| 0 <= i < |init| && init[i].Append? && SameOperation(row, init[i].entry);
    assert (init + [e])[i] == init[i];
  }

  lemma StepKeepsOperations(log: Log, e: Event, row: LogEntry) returns (was: LogEntry)
    requires row in Step(log, e).rows
    ensures SameOperation(row, was) && (was in log.rows || e == Append(was))
  {
    was := row;
    match e
    case Append(entry) =>
      if row !in log.rows {
        was := entry;
      }
    case Acknowledge(id) =>
      var i :| 0 <= i < |log.rows| && Marked(log.rows, id)[i] == row;
      was := log.rows[i];
    case Compact(maxEntries) =>
      if |log.rows| > maxEntries {
        SurvivorsAreRows(log.rows, |log.rows| - maxEntries);
      }
  }

  /** Whatever happened to the log, every row of it is an operation as it was appended. */
  lemma {:induction false} RowsAreAppended(events: seq<Event>, row: LogEntry)
    requires row in History(events).rows
    ensures IsAppended(events, row)
  {
    var init, e := events[..|events| - 1], events[|events| - 1];
    assert events == init + [e];
    var was := StepKeepsOperations(History(init), e, row);
    if was in History(init).rows {
      RowsAreAppended(init, was);
      IsAppendedLater(init, e, row);
    } else {
      assert events[|init|] == e;
    }
  }

  /** The operation appended at event `k` was taken into the table, not as acknowledged, and has not been
      acknowledged before event `n`. */
  ghost predicate Outstanding(events: seq<Event>, k: nat, n: nat)
    requires n <= |events|
  {
    && k < n && events[k].Append? && !events[k].entry.acknowledged
    && !Logged(History(events[..k]).rows, events[k].entry.operationID)
    && !AcknowledgedBetween(events, events[k].entry.operationID, k, n)
  }

  ghost predicate AcknowledgedBetween(events: seq<Event>, id: string, k: nat, n: nat)
    requires n <= |events|
  {
    exists j :: k < j < n && events[j] == Acknowledge(id)
  }

  ghost predicate Increasing(at: seq<nat>) {
    forall i, j :: 0 <= i < j < |at| ==> at[i] < at[j]
  }

  /** `rows` are the operations appended at the events `at`, in order, as they were appended. */
  ghost predicate AppendedAt(events: seq<Event>, rows: seq<LogEntry>, at: seq<nat>) {
    && |rows| == |at| && Increasing(at)
    && forall i :: 0 <= i < |at| ==>
         && at[i] < |events| && events[at[i]].Append? && !rows[i].acknowledged
         && SameOperation(rows[i], events[at[i]].entry)
  }

  function OfPeer(peerID: string): LogEntry -> bool {
    (r: LogEntry) => r.peerID == peerID
  }

  function NotOf(operationID: string): LogEntry -> bool {
    (r: LogEntry) => r.operationID != operationID
  }

  /** Of rows that belong to the positions `at`, those that `keep` selects, with their positions. */
  ghost predicate Picked(rows: seq<LogEntry>, at: seq<nat>, kept: seq<LogEntry>, where: seq<nat>,
                         keep: LogEntry -> bool)
    requires |rows| == |at|
  {
    && |kept| == |where| && Increasing(where)
    && (forall i :: 0 <= i < |where| ==> PickedFrom(rows, at, kept[i], where[i], keep))
    && forall j :: 0 <= j < |rows| && keep(rows[j]) ==> at[j] in where
  }

  ghost predicate PickedFrom(rows: seq<LogEntry>, at: seq<nat>, row: LogEntry, k: nat, keep: LogEntry -> bool)
    requires |rows| == |at|
  {
    exists j :: 0 <= j < |rows| && rows[j] == row && at[j] == k && keep(row)
  }

  lemma PickedMore(rows: seq<LogEntry>, at: seq<nat>, kept: seq<LogEntry>, where: seq<nat>, keep: LogEntry -> bool)
    requires |rows| == |at| > 0 && Increasing(at) && Picked(rows[1..], at[1..], kept, where, keep)
    ensures keep(rows[0]) ==> Picked(rows, at, [rows[0]] + kept, [at[0]] + where, keep)
    ensures !keep(rows[0]) ==> Picked(rows, at, kept, where, keep)
  {
    hide PickedFrom;
    forall i | 0 <= i < |where|
      ensures PickedFrom(rows, at, kept[i], where[i], keep) && at[0] < where[i]
    {
      PickedFromMore(rows, at, kept[i], where[i], keep);
    }
    forall j | 0 < j < |rows| && keep(rows[j])
      ensures at[j] in where
    {
      assert rows[1..][j - 1] == rows[j] && at[1..][j - 1] == at[j];
    }
    if keep(rows[0]) {
      FirstIsPicked(rows, at, keep);
      IncreasingMore(at[0], where);
    }
  }

  lemma IncreasingMore(k: nat, where: seq<nat>)
    requires Increasing(where) && forall i :: 0 <= i < |where| ==> k < where[i]
    ensures Increasing([k] + where)
  {
  }

  lemma FirstIsPicked(rows: seq<LogEntry>, at: seq<nat>, keep: LogEntry -> bool)
    requires |rows| == |at| > 0 && keep(rows[0])
    ensures PickedFrom(rows, at, rows[0], at[0], keep)
  {
  }

  lemma PickedFromMore(rows: seq<LogEntry>, at: seq<nat>, row: LogEntry, k: nat, keep: LogEntry -> bool)
    requires |rows| == |at| > 0 && Increasing(at) && PickedFrom(rows[1..], at[1..], row, k, keep)
    ensures PickedFrom(rows, at, row, k, keep) && at[0] < k
  {
    var j :| 0 <= j < |rows| - 1 && rows[1..][j] == row && at[1..][j] == k && keep(row);
    assert rows[j + 1] == row && at[j + 1] == k;
  }

  lemma {:induction false} OwnedArePicked(rows: seq<LogEntry>, at: seq<nat>, peerID: string) returns (where: seq<nat>)
    requires |rows| == |at| && Increasing(at)
    ensures Picked(rows, at, OwnedBy(rows, peerID), where, OfPeer(peerID))
  {
    where := [];
    if rows != [] {
      where := OwnedArePicked(rows[1..], at[1..], peerID);
      PickedMore(rows, at, OwnedBy(rows[1..], peerID), where, OfPeer(peerID));
      if rows[0].peerID == peerID {
        where := [at[0]] + where;
      }
    }
  }

  lemma {:induction false} OthersArePicked(rows: seq<LogEntry>, at: seq<nat>, id: string) returns (where: seq<nat>)
    requires |rows| == |at| && Increasing(at)
    ensures Picked(rows, at, Without(rows, id), where, NotOf(id))
  {
    where := [];
    if rows != [] {
      where := OthersArePicked(rows[1..], at[1..], id);
      PickedMore(rows, at, Without(rows[1..], id), where, NotOf(id));
      if rows[0].operationID != id {
        where := [at[0]] + where;
      }
    }
  }

  /** The picked rows are those of the appended operations that are selected themselves. */
  lemma PickedAreAppended(events: seq<Event>, rows: seq<LogEntry>, at: seq<nat>, kept: seq<LogEntry>, where: seq<nat>,
                          keep: LogEntry -> bool)
    requires AppendedAt(events, rows, at) && Picked(rows, at, kept, where, keep)
    requires forall r, e :: SameOperation(r, e) ==> keep(r) == keep(e)
    ensures AppendedAt(events, kept, where)
    ensures forall k :: k in where <==> k in at && IsSelected(events, k, keep)
  {
    forall i | 0 <= i < |where|
      ensures where[i] in at && IsSelected(events, where[i], keep) && !kept[i].acknowledged
      ensures SameOperation(kept[i], events[where[i]].entry)
    {
      assert PickedFrom(rows, at, kept[i], where[i], keep);
      var j :| 0 <= j < |rows| && rows[j] == kept[i] && at[j] == where[i];
      assert SameOperation(rows[j], events[at[j]].entry);
    }
    forall k | k in at && IsSelected(events, k, keep)
      ensures k in where
    {
      var j :| 0 <= j < |at| && at[j] == k;
      assert SameOperation(rows[j], events[at[j]].entry);
    }
  }

  ghost predicate IsSelected(events: seq<Event>, k: nat, keep: LogEntry -> bool) {
    k < |events| && events[k].Append? && keep(events[k].entry)
  }

  /** `at` are exactly the events at which the operations outstanding after all events were appended. */
  ghost predicate ListsOutstanding(events: seq<Event>, rows: seq<LogEntry>, at: seq<nat>) {
    && AppendedAt(events, rows, at)
    && forall k: nat :: k in at <==> Outstanding(events, k, |events|)
  }

  lemma OutstandingUnfolds(init: seq<Event>, e: Event, k: nat)
    ensures var events := init + [e];
            Outstanding(events, k, |events|) <==>
              || (Outstanding(init, k, |init|) && e != Acknowledge(init[k].entry.operationID))
              || (k == |init| && e.Append? && !e.entry.acknowledged && !Logged(History(init).rows, e.entry.operationID))
  {
    var events := init + [e];
    assert events[..|init|] == init && events[|init|] == e;
    if k < |init| {
      assert events[..k] == init[..k] && events[k] == init[k];
      if init[k].Append? {
        AcknowledgedLater(init, e, init[k].entry.operationID, k);
      }
    }
    if e.Append? {
      NotYetAcknowledged(events, |init|);
    }
    hide History, Logged, AcknowledgedBetween;
  }

  lemma AcknowledgedLater(init: seq<Event>, e: Event, id: string, k: nat)
    requires k < |init|
    ensures AcknowledgedBetween(init + [e], id, k, |init| + 1) <==>
            AcknowledgedBetween(init, id, k, |init|) || e == Acknowledge(id)
  {
    var events := init + [e];
    assert events[|init|] == e;
    if AcknowledgedBetween(init, id, k, |init|) {
      var j :| k < j < |init| && init[j] == Acknowledge(id);
      assert events[j] == Acknowledge(id);
    }
  }

  lemma NotYetAcknowledged(events: seq<Event>, k: nat)
    requires k + 1 == |events| && events[k].Append?
    ensures !AcknowledgedBetween(events, events[k].entry.operationID, k, |events|)
  {
  }

  lemma AppendedAtLater(init: seq<Event>, e: Event, rows: seq<LogEntry>, at: seq<nat>)
    requires AppendedAt(init, rows, at)
    ensures AppendedAt(init + [e], rows, at)
  {
    forall i | 0 <= i < |at|
      ensures (init + [e])[at[i]] == init[at[i]]
    {
    }
  }

  lemma AppendKeepsList(init: seq<Event>, entry: LogEntry, at: seq<nat>) returns (now: seq<nat>)
    requires ListsOutstanding(init, Unacknowledged(History(init).rows), at)
    ensures var events := init + [Append(entry)];
            ListsOutstanding(events, Unacknowledged(History(events).rows), now)
  {
    var e, log := Append(entry), History(init);
    OneStepMore(init, e);
    forall k: nat {
      OutstandingUnfolds(init, e, k);
    }
    AppendedAtLater(init, e, Unacknowledged(log.rows), at);
    hide Outstanding;
    hide AppendedAt;
    now := at;
    if !Logged(log.rows, entry.operationID) {
      var row := entry.(sequence := log.nextSequence);
      UnacknowledgedAppends(log.rows, [row]);
      if !entry.acknowledged {
        now := at + [|init|];
        AppendedAtMore(init, entry, Unacknowledged(log.rows), at, row);
        assert Unacknowledged([row]) == [row];
      }
    }
  }

  lemma AppendedAtMore(init: seq<Event>, entry: LogEntry, rows: seq<LogEntry>, at: seq<nat>, row: LogEntry)
    requires AppendedAt(init, rows, at) && SameOperation(row, entry) && !row.acknowledged
    ensures AppendedAt(init + [Append(entry)], rows + [row], at + [|init|])
  {
    AppendedAtLater(init, Append(entry), rows, at);
    assert (init + [Append(entry)])[|init|] == Append(entry);
  }

  lemma AcknowledgeKeepsList(init: seq<Event>, id: string, at: seq<nat>) returns (now: seq<nat>)
    requires ListsOutstanding(init, Unacknowledged(History(init).rows), at)
    ensures var events := init + [Acknowledge(id)];
            ListsOutstanding(events, Unacknowledged(History(events).rows), now)
  {
    var e, rows := Acknowledge(id), Unacknowledged(History(init).rows);
    OneStepMore(init, e);
    AcknowledgingRemoves(History(init).rows, id);
    now := OthersArePicked(rows, at, id);
    PickedAreAppended(init, rows, at, Without(rows, id), now, NotOf(id));
    AppendedAtLater(init, e, Without(rows, id), now);
    hide Outstanding, AppendedAt, Picked;
    forall k: nat {
      OutstandingUnfolds(init, e, k);
    }
  }

  lemma CompactedIsAsOutstanding(log: Log, maxEntries: int)
    ensures Unacknowledged(Compacted(log, maxEntries).rows) == Unacknowledged(log.rows)
  {
    if |log.rows| > maxEntries {
      CompactionKeepsUnacknowledged(log.rows, |log.rows| - maxEntries);
    }
  }

  lemma CompactKeepsList(init: seq<Event>, maxEntries: int, at: seq<nat>)
    requires ListsOutstanding(init, Unacknowledged(History(init).rows), at)
    ensures var events := init + [Compact(maxEntries)];
            ListsOutstanding(events, Unacknowledged(History(events).rows), at)
  {
    hide Outstanding, AppendedAt, Unacknowledged, Compacted, History;
    var e, log := Compact(maxEntries), History(init);
    OneStepMore(init, e);
    CompactedIsAsOutstanding(log, maxEntries);
    AppendedAtLater(init, e, Unacknowledged(log.rows), at);
    forall k: nat {
      OutstandingUnfolds(init, e, k);
    }
  }

  lemma {:induction false} UnacknowledgedAreOutstanding(events: seq<Event>) returns (at: seq<nat>)
    ensures ListsOutstanding(events, Unacknowledged(History(events).rows), at)
  {
    if events == [] {
      at := [];
    } else {
      var init, e := events[..|events| - 1], events[|events| - 1];
      assert events == init + [e];
      at := UnacknowledgedAreOutstanding(init);
      match e
      case Append(entry) => at := AppendKeepsList(init, entry, at);
      case Acknowledge(id) => at := AcknowledgeKeepsList(init, id, at);
      case Compact(maxEntries) => CompactKeepsList(init, maxEntries, at);
    }
  }

  /** What replay broadcasts: exactly the peer's own outstanding operations, as they were appended and in
      the order in which they were. */
  ghost predicate ReplaysOutstanding(events: seq<Event>, peerID: string, broadcast: seq<LogEntry>) {
    exists at: seq<nat> ::
      && AppendedAt(events, broadcast, at)
      && forall k: nat :: k in at <==> Outstanding(events, k, |events|) && events[k].entry.peerID == peerID
  }

  lemma OutstandingAreReplayed(events: seq<Event>, peerID: string)
    ensures ReplaysOutstanding(events, peerID, OwnedBy(Unacknowledged(History(events).rows), peerID))
  {
    var rows := Unacknowledged(History(events).rows);
    var at := UnacknowledgedAreOutstanding(events);
    var where := OwnedArePicked(rows, at, peerID);
    PickedAreAppended(events, rows, at, OwnedBy(rows, peerID), where, OfPeer(peerID));
  }

  /** Unless a lost ID is reused, an operation is taken into the table exactly if its ID is new. */
  lemma {:induction false} NewIDsAreTaken(events: seq<Event>, k: nat)
    requires NoLostIDIsReused(events) && k < |events| && events[k].Append?
    ensures var id := events[k].entry.operationID;
            Logged(History(events[..k]).rows, id) <==> Issued(events[..k], id)
  {
    if k < |events| - 1 {
      var init := events[..|events| - 1];
      NewIDsAreTaken(init, k);
      assert init[..k] == events[..k];
    } else {
      LoggedIDs(events[..k], events[k].entry.operationID);
    }
  }

  /** A log that lives through a history and is then replayed at a restart. */
  method LogAndReplay(events: seq<Event>, peerID: string) returns (broadcast: seq<LogEntry>)
    ensures ReplaysOutstanding(events, peerID, broadcast)
  {
    var db := new DB();
    for k := 0 to |events|
      invariant fresh(db) && db.Valid() && db.Value() == History(events[..k])
    {
      assert events[..k + 1][..k] == events[..k];
      match events[k] {
        case Append(entry) => var _ := db.AppendOperation(entry);
        case Acknowledge(id) => db.MarkOperationAcknowledged(id);
        case Compact(maxEntries) => db.CompactLog(maxEntries);
      }
    }
    assert events[..|events|] == events;
    var n, failures;
    broadcast, n, failures := db.ReplayUnacknowledgedOperations(peerID, true, _ => false);
    OutstandingAreReplayed(events, peerID);
  }

  /** Every operation has an ID of its own. */
  ghost predicate FreshIDs(events: seq<Event>) {
    forall i, j :: 0 <= i < j < |events| && events[i].Append? && events[j].Append? ==>
      events[i].entry.operationID != events[j].entry.operationID
  }

  lemma {:induction false} FreshIDsAreNotReused(events: seq<Event>)
    requires FreshIDs(events)
    ensures NoLostIDIsReused(events)
  {
    if events != [] {
      var init := events[..|events| - 1];
      assert FreshIDs(init);
      FreshIDsAreNotReused(init);
    }
  }

  /** Two operations with one ID, the first one acknowledged and compacted away in between. */
  lemma ReusedIDIsRebroadcast(entry: LogEntry)
    requires !entry.acknowledged
    ensures var id := entry.operationID;
            !SameReplay([Append(entry), Acknowledge(id), Compact(0), Append(entry)])
  {
    var id := entry.operationID;
    var one, two, three := [Append(entry)], [Append(entry), Acknowledge(id)],
                           [Append(entry), Acknowledge(id), Compact(0)];
    OneStepMore([], Append(entry));
    assert [] + one == one;
    OneStepMore(one, Acknowledge(id));
    OneStepMore(two, Compact(0));
    var marked := entry.(sequence := 1, acknowledged := true);
    assert History(one).rows == [entry.(sequence := 1)];
    assert History(two).rows == [marked];
    assert WithoutOldest([marked], 1) == [];
    assert three[0] == Append(entry);
    assert NoLostIDIsReused([]) && one[..0] == [] && two[..1] == one && three[..2] == two;
    assert NoLostIDIsReused(one) && NoLostIDIsReused(two) && NoLostIDIsReused(three);
    assert [Append(entry)] + [Acknowledge(id)] == two && two + [Compact(0)] == three;
    assert History(three).rows == [];
    ReuseChangesReplay(three, entry);
    assert three + [Append(entry)] == [Append(entry), Acknowledge(id), Compact(0), Append(entry)];
  }
}
