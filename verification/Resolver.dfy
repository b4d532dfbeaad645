/** Conflict resolution between two versions of a file: causality first, then the strategy. */
module Resolver {
  import opened VectorClocks
  import opened Text
  import opened LineMerge
  import Operations

  /** The resolver's package declares an operation record of its own, with the contents in it. */
  datatype SyncOperation = SyncOperation(
    id: string, kind: string, path: string, fromPath: Operations.Option<string>, fileID: string,
    checksum: string, size: int64, timestamp: int64, peerID: PeerID, data: string)

  const INTELLIGENT_MERGE := "intelligent_merge"

  /** Lexicographic order on strings. */
  predicate LexLess(s: string, t: string) {
    if s == "" || t == "" then s == "" && t != ""
    else s[0] < t[0] || (s[0] == t[0] && LexLess(s[1..], t[1..]))
  }

  lemma {:induction false} LexLessIsStrictOrder(s: string, t: string, u: string)
    ensures !(LexLess(s, t) && LexLess(t, s))
    ensures s != t ==> LexLess(s, t) || LexLess(t, s)
    ensures LexLess(s, t) && LexLess(t, u) ==> LexLess(s, u)
    decreases |s|
  {
    if s != "" && t != "" {
      assert s == [s[0]] + s[1..] && t == [t[0]] + t[1..];
      LexLessIsStrictOrder(s[1..], t[1..], if u == "" then "" else u[1..]);
    }
  }

  /** The order of dictionaries: at the first place where the strings differ the smaller character decides,
      and a beginning comes before the whole. */
  lemma {:induction false} LexLessIsLexicographic(s: string, t: string)
    ensures LexLess(s, t) <==>
            exists n: nat :: n <= |s| && n <= |t| && s[..n] == t[..n] && FirstDifference(s, t, n)
    decreases |s|
  {
    if s != "" && t != "" && s[0] == t[0] {
      LexLessIsLexicographic(s[1..], t[1..]);
      if n: nat :| n <= |s| && n <= |t| && s[..n] == t[..n] && FirstDifference(s, t, n) {
        assert n > 0;
        assert s[1..][..n - 1] == s[..n][1..] && t[1..][..n - 1] == t[..n][1..];
        assert FirstDifference(s[1..], t[1..], n - 1);
      }
      if n: nat :| n <= |s| - 1 && n <= |t| - 1 && s[1..][..n] == t[1..][..n] && FirstDifference(s[1..], t[1..], n) {
        assert s[..n + 1] == [s[0]] + s[1..][..n] && t[..n + 1] == [t[0]] + t[1..][..n];
        assert FirstDifference(s, t, n + 1);
      }
    } else if LexLess(s, t) {
      assert s[..0] == t[..0] && FirstDifference(s, t, 0);
    } else {
      assert forall n: nat :: 0 < n <= |s| && n <= |t| ==> s[..n][0] == s[0] && t[..n][0] == t[0];
    }
  }

  predicate FirstDifference(s: string, t: string, n: nat)
    requires n <= |s| && n <= |t|
  {
    n < |t| && (n == |s| || s[n] < t[n])
  }

  /** Later by timestamp, then by the smaller peer name: a strict total order. */
  predicate Later(a: SyncOperation, b: SyncOperation) {
    a.timestamp > b.timestamp || (a.timestamp == b.timestamp && LexLess(a.peerID, b.peerID))
  }

  function LastWriteWins(op1: SyncOperation, op2: SyncOperation): SyncOperation {
    if op1.timestamp > op2.timestamp then op1
    else if op2.timestamp > op1.timestamp then op2
    else if LexLess(op1.peerID, op2.peerID) then op1
    else op2
  }

  predicate IsTextFile(data: string) {
    data != "" && forall c :: c in data ==> c >= ' ' || c == '\t' || c == '\n' || c == '\r'
  }

  /** The operations whose contents the merge strategy combines instead of choosing one. */
  predicate Mergeable(strategy: string, op1: SyncOperation, op2: SyncOperation) {
    strategy == INTELLIGENT_MERGE && IsTextFile(op1.data) && IsTextFile(op2.data)
  }

  ghost function MergedOperation(op1: SyncOperation, op2: SyncOperation): SyncOperation {
    var lines := Merged(Split(op1.data, NEWLINE), Split(op2.data, NEWLINE));
    op1.(data := Join(lines, NEWLINE), checksum := "",
         timestamp := Next(if op1.timestamp > op2.timestamp then op1.timestamp else op2.timestamp))
  }

  /** The winner, or the merge, of two operations with their clocks. */
  ghost function Resolved(strategy: string, op1: SyncOperation, op2: SyncOperation, vc1: Clock, vc2: Clock)
    : SyncOperation
  {
    if Order(vc1, vc2) == -1 then op2
    else if Order(vc1, vc2) == 1 then op1
    else if Mergeable(strategy, op1, op2) then MergedOperation(op1, op2)
    else LastWriteWins(op1, op2)
  }

  method ThreeWayMerge(op1: SyncOperation, op2: SyncOperation) returns (merged: SyncOperation)
    ensures merged == MergedOperation(op1, op2)
  {
    var lines1, lines2 := Split(op1.data, NEWLINE), Split(op2.data, NEWLINE);
    var lines := MergeLinesDiff(lines1, lines2);
    var latest := if op1.timestamp > op2.timestamp then op1.timestamp else op2.timestamp;
    merged := op1.(data := Join(lines, NEWLINE), checksum := "", timestamp := Next(latest));
  }

  class ConflictResolver {
    const strategy: string

    constructor (strategy: string)
      ensures this.strategy == strategy
    {
      this.strategy := strategy;
    }

    /** The resolver's own copy of the clock comparison decides the same order. */
    static method CompareVectorClocks(vc1: Clock, vc2: Clock) returns (r: int)
      ensures r == Order(vc1, vc2)
    {
      var less, greater := false, false;
      var allPeers := vc1.Keys + vc2.Keys;
      var todo := allPeers;
      while todo != {}
        invariant todo <= allPeers
        invariant less <==> exists p :: p in allPeers - todo && Get(vc1, p) < Get(vc2, p)
        invariant greater <==> exists p :: p in allPeers - todo && Get(vc1, p) > Get(vc2, p)
      {
        var p :| p in todo;
        if Get(vc1, p) < Get(vc2, p) {
          less := true;
        } else if Get(vc1, p) > Get(vc2, p) {
          greater := true;
        }
        todo := todo - {p};
      }
      LeqOnKeys(vc1, vc2);
      LeqOnKeys(vc2, vc1);
      r := if less && !greater then -1 else if greater && !less then 1 else 0;
    }

    method ResolveConflict(op1: SyncOperation, op2: SyncOperation, vc1: Clock, vc2: Clock)
      returns (winner: SyncOperation)
      ensures winner == Resolved(strategy, op1, op2, vc1, vc2)
      ensures Leq(vc1, vc2) && !Leq(vc2, vc1) ==> winner == op2
      ensures Leq(vc2, vc1) && !Leq(vc1, vc2) ==> winner == op1
    {
      var comparison := CompareVectorClocks(vc1, vc2);
      if comparison != 0 {
        if comparison < 0 {
          return op2;
        }
        return op1;
      }
      if strategy == INTELLIGENT_MERGE {
        winner := IntelligentMerge(op1, op2);
        return;
      }
      return LastWriteWins(op1, op2);
    }

    method IntelligentMerge(op1: SyncOperation, op2: SyncOperation) returns (winner: SyncOperation)
      ensures winner == if Mergeable(INTELLIGENT_MERGE, op1, op2) then MergedOperation(op1, op2)
                        else LastWriteWins(op1, op2)
    {
      if |op1.data| > 0 && |op2.data| > 0 && IsTextFile(op1.data) && IsTextFile(op2.data) {
        winner := ThreeWayMerge(op1, op2);
      } else {
        winner := LastWriteWins(op1, op2);
      }
    }
  }

  /** Whatever the strategy and the contents, the version that causally follows the other is the result.
      Otherwise, under the merge strategy, two non-empty texts are merged, and in all other cases the
      result is the later of the two versions. */
  lemma CausalityDecides(strategy: string, op1: SyncOperation, op2: SyncOperation, vc1: Clock, vc2: Clock)
    ensures var w := Resolved(strategy, op1, op2, vc1, vc2);
            && (Leq(vc1, vc2) && !Leq(vc2, vc1) ==> w == op2)
            && (Leq(vc2, vc1) && !Leq(vc1, vc2) ==> w == op1)
            && ((Leq(vc1, vc2) <==> Leq(vc2, vc1)) ==>
                  if strategy == INTELLIGENT_MERGE && op1.data != "" && op2.data != ""
                     && IsTextFile(op1.data) && IsTextFile(op2.data)
                  then Split(w.data, NEWLINE) == Merged(Split(op1.data, NEWLINE), Split(op2.data, NEWLINE))
                       && w == op1.(data := w.data, checksum := "", timestamp := w.timestamp)
                  else w == if Later(op1, op2) then op1 else op2)
  {
    MergedTextKeepsSecond(op1, op2);
    hide Split, Join, Merged, IsSubsequence, LexLess, Leq;
  }

  /** How the engine tells which of the two versions it got back, if either. */
  predicate SameVersion(w: SyncOperation, op: SyncOperation) {
    w.fileID == op.fileID && w.checksum == op.checksum
  }

  /** The engine resolves versions of different checksum. It takes the result for one of them exactly when
      it is that one; and for a merge exactly when neither causally follows the other, the strategy merges
      and both are non-empty texts. */
  lemma EngineRecognisesResult(strategy: string, op1: SyncOperation, op2: SyncOperation, vc1: Clock, vc2: Clock)
    requires op1.checksum != op2.checksum && op1.checksum != "" && op2.checksum != ""
    ensures var w := Resolved(strategy, op1, op2, vc1, vc2);
            && (SameVersion(w, op1) <==> w == op1) && (SameVersion(w, op2) <==> w == op2)
            && (!SameVersion(w, op1) && !SameVersion(w, op2) <==>
                  && (Leq(vc1, vc2) <==> Leq(vc2, vc1)) && strategy == INTELLIGENT_MERGE
                  && op1.data != "" && op2.data != "" && IsTextFile(op1.data) && IsTextFile(op2.data))
  {
    CausalityDecides(strategy, op1, op2, vc1, vc2);
  }

  /** A merge result is newer than both of its inputs, unless a timestamp is at the 64-bit limit. */
  lemma MergeIsNewer(op1: SyncOperation, op2: SyncOperation)
    ensures var m := MergedOperation(op1, op2);
            && (op1.timestamp < m.timestamp && op2.timestamp < m.timestamp <==>
                op1.timestamp < MAX_INT64 && op2.timestamp < MAX_INT64)
            && (op1.timestamp < MAX_INT64 && op2.timestamp < MAX_INT64 ==>
                && LastWriteWins(m, op1) == m == LastWriteWins(op1, m)
                && LastWriteWins(m, op2) == m == LastWriteWins(op2, m))
  {
  }

  /** The merged text, split again, has exactly the merged lines; so every line of the second text is
      in it, in order. */
  lemma MergedTextKeepsSecond(op1: SyncOperation, op2: SyncOperation)
    ensures var merged := Split(MergedOperation(op1, op2).data, NEWLINE);
            && merged == Merged(Split(op1.data, NEWLINE), Split(op2.data, NEWLINE))
            && IsSubsequence(Split(op2.data, NEWLINE), merged)
  {
    var a, b := Split(op1.data, NEWLINE), Split(op2.data, NEWLINE);
    MergeKeepsTexts(a, b);
    SplitHasNoSeparator(op1.data, NEWLINE);
    SplitHasNoSeparator(op2.data, NEWLINE);
    MergedHasNoNewline(a, b);
    SplitOfJoin(Merged(a, b), NEWLINE);
  }

  lemma MergedHasNoNewline(a: seq<string>, b: seq<string>)
    requires forall l :: l in a || l in b ==> NEWLINE !in l
    ensures forall l :: l in Merged(a, b) ==> NEWLINE !in l
  {
    assert NEWLINE !in HEAD_MARKER && NEWLINE !in MIDDLE_MARKER && NEWLINE !in TAIL_MARKER;
    forall l | l in Merged(a, b)
      ensures NEWLINE !in l
    {
      EveryLineAccountedFor(a, b, l);
    }
  }

  // ---- convergence ----

  datatype Version = Version(op: SyncOperation, clock: Clock)

  ghost predicate FirstWins(a: Version, b: Version) {
    || Order(a.clock, b.clock) == 1
    || (Order(a.clock, b.clock) == 0 &&
        (a.op.timestamp > b.op.timestamp ||
         (a.op.timestamp == b.op.timestamp && LexLess(a.op.peerID, b.op.peerID))))
  }

  /** Resolution as a choice between two versions; the winner keeps its clock. */
  ghost function Pick(a: Version, b: Version): Version {
    if FirstWins(a, b) then a else b
  }

  lemma PickIsResolution(strategy: string, a: Version, b: Version)
    requires !Mergeable(strategy, a.op, b.op)
    ensures Resolved(strategy, a.op, b.op, a.clock, b.clock) == Pick(a, b).op
  {
  }

  /** The version left after a peer has resolved the versions in the order they arrive. */
  ghost function Winner(arrivals: seq<Version>): Version
    requires arrivals != []
  {
    if |arrivals| == 1 then arrivals[0]
    else Pick(Winner(arrivals[..|arrivals| - 1]), arrivals[|arrivals| - 1])
  }

  /** `w` wins against every other version of the set. */
  ghost predicate Dominates(versions: set<Version>, w: Version) {
    w in versions && forall x :: x in versions && x != w ==> FirstWins(w, x)
  }

  ghost predicate Arrivals(versions: set<Version>, arrivals: seq<Version>) {
    arrivals != [] && forall v :: v in versions <==> v in arrivals
  }

  /** Every order of arrival, with any repetitions, leaves the same version. */
  ghost predicate OrderIndependent(versions: set<Version>) {
    forall s, t :: Arrivals(versions, s) && Arrivals(versions, t) ==> Winner(s) == Winner(t)
  }

  lemma {:induction false} WinnerAmongArrivals(arrivals: seq<Version>)
    requires arrivals != []
    ensures Winner(arrivals) in arrivals
  {
    if |arrivals| > 1 {
      WinnerAmongArrivals(arrivals[..|arrivals| - 1]);
    }
  }

  lemma {:induction false} DominatorWins(versions: set<Version>, w: Version, arrivals: seq<Version>)
    requires Dominates(versions, w)
    requires arrivals != [] && (forall v :: v in arrivals ==> v in versions)
    ensures w in arrivals ==> Winner(arrivals) == w
  {
    if |arrivals| > 1 {
      var init := arrivals[..|arrivals| - 1];
      assert arrivals == init + [arrivals[|arrivals| - 1]];
      DominatorWins(versions, w, init);
      WinnerAmongArrivals(init);
      FirstWinsIsAsymmetric(w, Winner(init));
    }
  }

  lemma {:induction false} Listing(versions: set<Version>) returns (s: seq<Version>)
    ensures forall v :: v in versions <==> v in s
    decreases |versions|
  {
    if versions == {} {
      s := [];
    } else {
      var v :| v in versions;
      s := Listing(versions - {v});
      s := s + [v];
      assert forall x :: x in versions <==> x in versions - {v} || x == v;
    }
  }

  lemma OrderIndependentWinnerDominates(versions: set<Version>, s: seq<Version>)
    requires OrderIndependent(versions) && Arrivals(versions, s)
    ensures Dominates(versions, Winner(s))
  {
    var w := Winner(s);
    WinnerAmongArrivals(s);
    forall x | x in versions && x != w
      ensures FirstWins(w, x)
    {
      var t := s + [x];
      assert t[..|t| - 1] == s && t[|t| - 1] == x;
      assert Arrivals(versions, t);
      assert Winner(t) == Pick(w, x);
    }
  }

  /** At most one of two versions wins when it comes first. */
  lemma FirstWinsIsAsymmetric(a: Version, b: Version)
    ensures !(FirstWins(a, b) && FirstWins(b, a))
  {
    OrderIsStrict(a.clock, b.clock, a.clock);
    LexLessIsStrictOrder(a.op.peerID, b.op.peerID, "");
  }

  /** Peers converge whatever the order of arrival exactly when one of the versions dominates. */
  lemma ConvergenceNeedsDominator(versions: set<Version>)
    requires versions != {}
    ensures OrderIndependent(versions) <==> exists w :: Dominates(versions, w)
  {
    if OrderIndependent(versions) {
      var s := Listing(versions);
      OrderIndependentWinnerDominates(versions, s);
    }
    if w :| Dominates(versions, w) {
      forall s, t | Arrivals(versions, s) && Arrivals(versions, t)
        ensures Winner(s) == Winner(t)
      {
        DominatorWins(versions, w, s);
        DominatorWins(versions, w, t);
      }
    }
  }

  /** The checks a caller can make beforehand: versions differ in (timestamp, peer), and a smaller
      clock comes with a smaller timestamp. */
  ghost predicate TimestampsFollowCausality(versions: set<Version>) {
    && (forall a, b :: a in versions && b in versions && a != b ==>
          a.op.timestamp != b.op.timestamp || a.op.peerID != b.op.peerID)
    && (forall a, b :: a in versions && b in versions && Order(a.clock, b.clock) == -1 ==>
          a.op.timestamp < b.op.timestamp)
  }

  lemma {:induction false} LatestExists(versions: set<Version>) returns (w: Version)
    requires versions != {} && TimestampsFollowCausality(versions)
    ensures w in versions && forall x :: x in versions && x != w ==> Later(w.op, x.op)
    decreases |versions|
  {
    w :| w in versions;
    var rest := versions - {w};
    if rest != {} {
      var m := LatestExists(rest);
      LexLessIsStrictOrder(m.op.peerID, w.op.peerID, "");
      if Later(m.op, w.op) {
        w := m;
      } else {
        forall x | x in rest && x != m
          ensures Later(w.op, x.op)
        {
          LexLessIsStrictOrder(w.op.peerID, m.op.peerID, x.op.peerID);
        }
      }
    }
  }

  /** When timestamps follow causality the clock test never overrules the timestamps, so every
      order of arrival leaves the latest version. */
  lemma PeersConvergeToLatest(versions: set<Version>, s: seq<Version>)
    requires TimestampsFollowCausality(versions) && Arrivals(versions, s)
    ensures Winner(s) in versions
    ensures forall x :: x in versions && x != Winner(s) ==> Later(Winner(s).op, x.op)
    ensures OrderIndependent(versions)
  {
    assert s[0] in versions;
    var w := LatestExists(versions);
    forall x | x in versions && x != w
      ensures FirstWins(w, x)
    {
      OrderIsStrict(w.clock, x.clock, w.clock);
    }
    DominatorWins(versions, w, s);
    ConvergenceNeedsDominator(versions);
  }

  /** Without that agreement three versions can beat each other in a circle, and then the order of
      arrival decides: `b` follows `a` causally but has the earlier timestamp, `c` lies between. */
  lemma CircularVersionsDiverge(a: Version, b: Version, c: Version)
    requires a.clock == map["p" := 1] && b.clock == map["p" := 2] && c.clock == map["q" := 1]
    requires a.op.timestamp > c.op.timestamp > b.op.timestamp
    ensures FirstWins(b, a) && FirstWins(a, c) && FirstWins(c, b)
    ensures !OrderIndependent({a, b, c})
  {
    assert Get(a.clock, "p") < Get(b.clock, "p") && Get(a.clock, "p") > Get(c.clock, "p")
        && Get(b.clock, "p") > Get(c.clock, "p") && Get(c.clock, "q") > Get(a.clock, "q")
        && Get(c.clock, "q") > Get(b.clock, "q");
    assert Leq(a.clock, b.clock);
    FirstWinsIsAsymmetric(b, a);
    FirstWinsIsAsymmetric(a, c);
    FirstWinsIsAsymmetric(c, b);
    ConvergenceNeedsDominator({a, b, c});
  }
}

/** Clocks, causality and resolution together. */
module Convergence {
  import opened VectorClocks
  import opened Causality
  import opened Resolver

  /** Of two edits taken from any run the one that causally follows the other is the result, in either
      order, for every strategy and all contents. */
  lemma FollowUpWins(t: Run, i: nat, j: nat, strategy: string, earlier: Resolver.SyncOperation,
                     later: Resolver.SyncOperation)
    requires Valid(t) && i < |t| && j < |t| && t[i].Issue? && t[j].Issue? && Before(t, i, j)
    ensures Resolved(strategy, earlier, later, Stamp(t, i), Stamp(t, j)) == later
    ensures Resolved(strategy, later, earlier, Stamp(t, j), Stamp(t, i)) == later
  {
    BeforeIsEarlier(t, i, j);
    ClocksCaptureCausality(t, i, j);
    OrderIsStrict(Stamp(t, i), Stamp(t, j), Stamp(t, i));
    CausalityDecides(strategy, earlier, later, Stamp(t, i), Stamp(t, j));
    CausalityDecides(strategy, later, earlier, Stamp(t, j), Stamp(t, i));
  }

  /** Concurrent edits of one file, taken from any run, converge: if the timestamps of the issued
      operations increase along causality and no peer uses one twice, every peer that resolves the
      same versions in any order ends with the latest one. */
  lemma RunsConverge(t: Run, issued: set<nat>, op: nat -> Resolver.SyncOperation, s: seq<Version>)
    requires Valid(t)
    requires forall i :: i in issued ==> i < |t| && t[i].Issue?
    requires forall i, j :: i in issued && j in issued && Before(t, i, j) ==> op(i).timestamp < op(j).timestamp
    requires forall i, j :: i in issued && j in issued && i != j ==>
               op(i).timestamp != op(j).timestamp || op(i).peerID != op(j).peerID
    requires s != [] && (forall v :: v in s <==> exists i :: i in issued && v == Version(op(i), Stamp(t, i)))
    ensures exists i :: i in issued && Winner(s) == Version(op(i), Stamp(t, i))
    ensures forall i :: i in issued && Winner(s) != Version(op(i), Stamp(t, i)) ==> Later(Winner(s).op, op(i))
    ensures OrderIndependent(set v | v in s)
  {
    var versions := set v | v in s;
    forall a, b | a in versions && b in versions && Order(a.clock, b.clock) == -1
      ensures a.op.timestamp < b.op.timestamp
    {
      var i :| i in issued && a == Version(op(i), Stamp(t, i));
      var j :| j in issued && b == Version(op(j), Stamp(t, j));
      OrderIsStrict(a.clock, b.clock, a.clock);
      ClocksCaptureCausality(t, i, j);
    }
    PeersConvergeToLatest(versions, s);
  }
}
